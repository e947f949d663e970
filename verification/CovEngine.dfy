/**
 The COV subscription service as h_cov.c runs it: two fixed tables updated in place by scan loops,
 and a task that visits one slot per call. Every method is proved to change the state exactly as
 the transition function of module CovModel says.
 */
module CovEngine {
  import opened Octets
  import opened CovModel

  datatype ErrorCode = UnknownObject | NoSpaceToAddListElement

  /** bacnet_address_same: the octet loops decide whether two addresses name the same station. */
  method AddressSame(a: Address, b: Address) returns (same: bool)
    ensures same <==> Same(a, b)
    ensures same <==>
            && a.net == b.net && a.len == b.len
            && (forall i :: 0 <= i < 7 && i < a.len ==> a.adr[i] == b.adr[i])
            && (a.net == 0 ==>
                  a.macLen == b.macLen && forall i :: 0 <= i < 7 && i < a.macLen ==> a.mac[i] == b.mac[i])
  {
    SameInOctets(a, b);
    hide Same;
    if a.net != b.net || a.len != b.len {
      return false;
    }
    var n := Min(a.len, MAX_MAC_LEN);
    for i := 0 to n
      invariant forall j :: 0 <= j < i ==> a.adr[j] == b.adr[j]
    {
      if a.adr[i] != b.adr[i] {
        return false;
      }
    }
    if a.net == 0 {
      if a.macLen != b.macLen {
        return false;
      }
      var m := Min(a.macLen, MAX_MAC_LEN);
      for i := 0 to m
        invariant forall j :: 0 <= j < i ==> a.mac[j] == b.mac[j]
      {
        if a.mac[i] != b.mac[i] {
          return false;
        }
      }
    }
    return true;
  }

  class CovService {
    const subs: array<Slot>
    const addrs: array<AddressSlot>
    var phase: Phase
    var index: nat
    var tsm: map<u8, Transaction>
    var flags: set<ObjectId>

    ghost predicate Valid()
      reads this
    {
      && subs.Length == MAX_COV_SUBSCRIPTIONS
      && addrs.Length == MAX_COV_ADDRESSES
      && index < MAX_COV_SUBSCRIPTIONS
    }

    ghost function State(): World
      reads this, subs, addrs
    {
      World(subs[..], addrs[..], phase, index, tsm, flags)
    }

    /** handler_cov_init on freshly zeroed statics. */
    constructor ()
      ensures Valid() && fresh(subs) && fresh(addrs)
      ensures Initial(State())
    {
      var s := new Slot[MAX_COV_SUBSCRIPTIONS](_ => EMPTY_SLOT);
      var a := new AddressSlot[MAX_COV_ADDRESSES](_ =>
        AddressSlot(false, Address(0, [0, 0, 0, 0, 0, 0, 0], 0, 0, [0, 0, 0, 0, 0, 0, 0])));
      subs, addrs := s, a;
      phase, index, tsm, flags := Idle, 0, map[], {};
    }

    method GetAddress(i: u8) returns (dest: Option<Address>)
      requires Valid()
      ensures dest == AddressGet(addrs[..], i)
    {
      dest := None;
      if i < MAX_COV_ADDRESSES {
        if addrs[i].valid {
          dest := Some(addrs[i].dest);
        }
      }
    }

    method RemoveUnusedAddresses()
      requires Valid()
      modifies addrs
      ensures Valid()
      ensures State() == old(State()).(addrs := RemoveUnused(old(addrs[..]), subs[..]))
    {
      ghost var goal := RemoveUnused(addrs[..], subs[..]);
      for a := 0 to MAX_COV_ADDRESSES
        invariant addrs[..a] == goal[..a]
        invariant addrs[a..] == old(addrs[a..])
        invariant subs[..] == old(subs[..])
      {
        assert addrs[a] == old(addrs[a..])[0];
        if addrs[a].valid {
          var found := false;
          var i := 0;
          while i < MAX_COV_SUBSCRIPTIONS && !found
            invariant i <= MAX_COV_SUBSCRIPTIONS
            invariant found <==> exists j :: 0 <= j < i && subs[j].valid && subs[j].dest == a
          {
            found := subs[i].valid && subs[i].dest == a;
            i := i + 1;
          }
          assert found ==> Referenced(subs[..], a);
          if !found {
            assert forall j :: 0 <= j < MAX_COV_SUBSCRIPTIONS ==> subs[..][j] == subs[j];
            assert !Referenced(subs[..], a);
            addrs[a] := addrs[a].(valid := false);
          }
        }
        assert addrs[a] == goal[a];
      }
      assert addrs[..] == goal;
    }

    method AddAddress(src: Address) returns (index: int)
      requires Valid()
      modifies addrs
      ensures Valid()
      ensures var (table, octet) := AddressAdd(old(addrs[..]), src);
              && State() == old(State()).(addrs := table)
              && (if index < 0 then index == -1 && octet == NO_ADDRESS else index == octet < MAX_COV_ADDRESSES)
    {
      index := -1;
      var i := 0;
      while i < MAX_COV_ADDRESSES && index < 0
        invariant i <= MAX_COV_ADDRESSES && addrs[..] == old(addrs[..]) && index >= -1
        invariant index == -1 ==> forall j :: 0 <= j < i ==> !(addrs[j].valid && Same(src, addrs[j].dest))
        invariant index != -1 ==> index == FirstSame(old(addrs[..]), src) < MAX_COV_ADDRESSES
      {
        if addrs[i].valid {
          var found := AddressSame(src, addrs[i].dest);
          if found {
            index := i;
            assert addrs[..][i] == addrs[i];
          }
        }
        i := i + 1;
      }
      if index < 0 {
        assert FirstSame(addrs[..], src) == |addrs[..]|;
        i := 0;
        while i < MAX_COV_ADDRESSES && index < 0
          invariant i <= MAX_COV_ADDRESSES
          invariant index == -1 ==> addrs[..] == old(addrs[..]) && forall j :: 0 <= j < i ==> addrs[j].valid
          invariant index != -1 ==> index == FirstFree(old(addrs[..])) < MAX_COV_ADDRESSES
          invariant index != -1 ==> addrs[..] == old(addrs[..])[index := AddressSlot(true, src)]
          invariant subs[..] == old(subs[..])
        {
          if !addrs[i].valid {
            index := i;
            assert addrs[..][i] == addrs[i];
            assert index == FirstFree(old(addrs[..]));
            addrs[i] := AddressSlot(true, src);
          }
          i := i + 1;
        }
      }
    }

    /** The part of cov_list_subscribe that updates the matching slot. */
    method UpdateExisting(i: nat, src: Address, req: Request)
      requires Valid() && i < MAX_COV_SUBSCRIPTIONS
      modifies this, subs, addrs
      ensures Valid()
      ensures State() == if req.cancel then CancelAt(old(State()), i) else RenewAt(old(State()), i, src, req)
    {
      ghost var w := State();
      if req.cancel {
        subs[i] := subs[i].(valid := false, dest := NO_ADDRESS);
        RemoveUnusedAddresses();
        SameReferences(subs[..], CancelAt(w, i).subs, w.addrs);
      } else {
        var d := AddAddress(src);
        subs[i] := subs[i].(dest := if d < 0 then NO_ADDRESS else d, confirmed := req.confirmed,
                            lifetime := req.lifetime, sendRequested := true);
      }
      if subs[i].invokeId != 0 {
        tsm := tsm - {subs[i].invokeId};
        subs[i] := subs[i].(invokeId := 0);
      }
    }

    method ListSubscribe(src: Address, req: Request) returns (found: bool, error: ErrorCode)
      requires Valid()
      modifies this, subs, addrs
      ensures Valid()
      ensures (State(), found) == Subscribe(old(State()), src, req)
      ensures !found ==> error == NoSpaceToAddListElement
    {
      error := UnknownObject;
      found := true;
      ghost var w := State();
      var firstInvalid := -1;
      for i := 0 to MAX_COV_SUBSCRIPTIONS
        invariant Valid() && State() == w
        invariant forall j :: 0 <= j < i ==> !Matches(w.addrs, w.subs[j], src, req)
        invariant firstInvalid == if FirstInvalid(w.subs) < i then FirstInvalid(w.subs) else -1
      {
        var s := subs[i];
        assert s == w.subs[i];
        if s.valid {
          var addressMatch := true;
          var dest := GetAddress(s.dest);
          if dest.Some? {
            addressMatch := AddressSame(src, dest.value);
          }
          if s.monitored == req.monitored && s.pid == req.pid && addressMatch {
            assert i == FirstMatch(w, src, req);
            UpdateExisting(i, src, req);
            return;
          }
        } else if firstInvalid < 0 {
          firstInvalid := i;
        }
      }
      if firstInvalid >= 0 && !req.cancel {
        var d := AddAddress(src);
        subs[firstInvalid] := Slot(true, req.confirmed, true, if d < 0 then NO_ADDRESS else d, 0,
                                   req.pid, req.lifetime, req.monitored);
      } else if firstInvalid < 0 {
        error := NoSpaceToAddListElement;
        found := false;
      }
    }

    method ExpireLifetime(i: nat, elapsed: u32, lifetime: u32)
      requires Valid() && i < MAX_COV_SUBSCRIPTIONS
      requires subs[i].valid && subs[i].lifetime == lifetime > 0 && elapsed > 0
      modifies this, subs, addrs
      ensures Valid()
      ensures State() == TickAt(old(State()), i, elapsed)
    {
      ghost var w := State();
      if lifetime >= elapsed {
        subs[i] := subs[i].(lifetime := lifetime - elapsed);
      } else {
        subs[i] := subs[i].(lifetime := 0);
      }
      if subs[i].lifetime == 0 {
        subs[i] := subs[i].(valid := false, dest := NO_ADDRESS);
        RemoveUnusedAddresses();
        SameReferences(subs[..], TickAt(w, i, elapsed).subs, w.addrs);
        if subs[i].confirmed {
          if subs[i].invokeId != 0 {
            tsm := tsm - {subs[i].invokeId};
            subs[i] := subs[i].(invokeId := 0);
          }
        }
      }
    }

    method TimerTick(elapsed: u32)
      requires Valid()
      modifies this, subs, addrs
      ensures Valid()
      ensures State() == Tick(old(State()), elapsed)
    {
      hide TickTo;
      hide Tick;
      ghost var w := State();
      TickToEnds(w, elapsed);
      if elapsed != 0 {
        for i := 0 to MAX_COV_SUBSCRIPTIONS
          invariant Valid() && State() == TickTo(w, i, elapsed)
        {
          TickToNext(w, i, elapsed);
          if subs[i].valid {
            var lifetime := subs[i].lifetime;
            if lifetime != 0 {
              ExpireLifetime(i, elapsed, lifetime);
            }
          }
        }
      }
    }

    method AdvanceIndex(next: Phase)
      requires Valid()
      modifies `phase, `index
      ensures Valid()
      ensures State() == Advance(old(State()), next)
    {
      index := index + 1;
      if index >= MAX_COV_SUBSCRIPTIONS {
        index := 0;
        phase := next;
      }
    }

    /** cov_send_request for slot i, in the environment described by link. */
    method SendRequest(i: nat, link: Link) returns (status: bool)
      requires Valid() && i < MAX_COV_SUBSCRIPTIONS
      modifies subs, `tsm
      ensures Valid()
      ensures var s := old(subs[i]);
              var goes := link.dccEnabled && AddressGet(addrs[..], s.dest).Some? &&
                          (s.confirmed ==> link.grant != 0);
              && status == (goes && link.sent)
              && subs[..] == old(subs[..])[i := if goes && s.confirmed then s.(invokeId := link.grant) else s]
              && tsm == if goes && s.confirmed then old(tsm)[link.grant := Awaiting] else old(tsm)
    {
      status := false;
      if !link.dccEnabled {
        return;
      }
      var dest := GetAddress(subs[i].dest);
      if dest.None? {
        return;
      }
      if subs[i].confirmed {
        if link.grant == 0 {
          return;
        }
        subs[i] := subs[i].(invokeId := link.grant);
        tsm := tsm[link.grant := Awaiting];
      }
      if link.sent {
        status := true;
      }
    }

    method TaskTick(link: Link)
      requires Valid()
      modifies this, subs
      ensures Valid()
      ensures State() == Task(old(State()), link)
    {
      match phase {
        case Idle =>
          index := 0;
          phase := Mark;
        case Mark =>
          if subs[index].valid {
            if subs[index].monitored in flags {
              subs[index] := subs[index].(sendRequested := true);
            }
          }
          assert State() == MarkSlot(old(State()));
          AdvanceIndex(Clear);
        case Clear =>
          if subs[index].valid && subs[index].sendRequested {
            flags := flags - {subs[index].monitored};
          }
          assert State() == ClearSlot(old(State()));
          AdvanceIndex(Free);
        case Free =>
          if subs[index].valid && subs[index].confirmed && subs[index].invokeId != 0 {
            var id := subs[index].invokeId;
            if id !in tsm {
              subs[index] := subs[index].(invokeId := 0);
              assert tsm - {id} == tsm;
            } else if tsm[id].Lapsed? {
              tsm := tsm - {id};
              subs[index] := subs[index].(invokeId := 0);
            }
          }
          assert State() == FreeSlot(old(State()));
          AdvanceIndex(Send);
        case Send =>
          if subs[index].valid && subs[index].sendRequested {
            var send := true;
            if subs[index].confirmed {
              if subs[index].invokeId != 0 {
                send := false;
              }
              if link.grant == 0 {
                send := false;
              }
            }
            if send {
              var status := SendRequest(index, link);
              if status {
                subs[index] := subs[index].(sendRequested := false);
              }
            }
          }
          assert State() == SendSlot(old(State()), link);
          AdvanceIndex(Idle);
      }
    }
  }

  // ---------- why the scan loops compute the transition functions ----------

  lemma SameReferences(s: seq<Slot>, t: seq<Slot>, addrs: seq<AddressSlot>)
    requires |s| == |t|
    requires forall i :: 0 <= i < |s| ==> (s[i].valid <==> t[i].valid) && (s[i].valid ==> s[i].dest == t[i].dest)
    ensures RemoveUnused(addrs, s) == RemoveUnused(addrs, t)
  {
    forall a | 0 <= a < |addrs|
      ensures Referenced(s, a) <==> Referenced(t, a)
    {
      if Referenced(s, a) {
        var i :| 0 <= i < |s| && s[i].valid && s[i].dest == a;
        assert t[i].valid && t[i].dest == a;
      }
      if Referenced(t, a) {
        var i :| 0 <= i < |t| && t[i].valid && t[i].dest == a;
        assert s[i].valid && s[i].dest == a;
      }
    }
    assert RemoveUnused(addrs, s) == RemoveUnused(addrs, t);
  }

  /** Collecting again after slot i lost its reference is collecting once at the end. */
  lemma RemoveTwice(addrs: seq<AddressSlot>, s: seq<Slot>, t: seq<Slot>, i: nat)
    requires i < |s| == |t|
    requires t == s[i := t[i]] && !t[i].valid
    ensures RemoveUnused(RemoveUnused(addrs, s), t) == RemoveUnused(addrs, t)
  {
    forall a | 0 <= a < |addrs| && Referenced(t, a)
      ensures Referenced(s, a)
    {
      var j :| 0 <= j < |t| && t[j].valid && t[j].dest == a;
      assert s[j].valid && s[j].dest == a;
    }
  }

  /** One visit of the lifetime loop: slot i alone is ticked. */
  ghost function TickAt(w: World, i: nat, e: u32): World
    requires i < |w.subs|
  {
    var s := w.subs[i];
    var subs := w.subs[i := TickSlot(s, e)];
    if Expires(s, e) then
      w.(subs := subs, addrs := RemoveUnused(w.addrs, subs),
         tsm := if s.confirmed then Release(w.tsm, s.invokeId) else w.tsm)
    else w.(subs := subs)
  }

  /** The lifetime loop after the slots below i. */
  ghost function TickTo(w: World, i: nat, e: u32): World
    requires i <= |w.subs|
  {
    var subs := TickSlots(w.subs[..i], e) + w.subs[i..];
    w.(subs := subs,
       addrs := if AnyExpires(w.subs[..i], e) then RemoveUnused(w.addrs, subs) else w.addrs,
       tsm := w.tsm - ExpiredIds(w.subs[..i], e))
  }

  lemma TickToEnds(w: World, e: u32)
    ensures TickTo(w, 0, e) == w
    ensures TickTo(w, |w.subs|, e) == Tick(w, e)
    ensures e == 0 ==> Tick(w, e) == w
  {
    var n := |w.subs|;
    assert w.subs[..n] == w.subs && w.subs[0..] == w.subs && TickSlots(w.subs[..0], e) == [];
    assert TickSlots(w.subs[..n], e) + w.subs[n..] == TickSlots(w.subs, e);
    assert TickSlots(w.subs[..0], e) + w.subs[0..] == w.subs;
    assert ExpiredIds(w.subs[..0], e) == {};
    if e == 0 {
      assert TickSlots(w.subs, 0) == w.subs;
    }
  }

  lemma TickToNext(w: World, i: nat, e: u32)
    requires i < |w.subs|
    ensures |TickTo(w, i, e).subs| == |w.subs| && TickTo(w, i, e).subs[i] == w.subs[i]
    ensures TickAt(TickTo(w, i, e), i, e) == TickTo(w, i + 1, e)
  {
    var v, s := TickTo(w, i, e), w.subs[i];
    var next := TickTo(w, i + 1, e);
    TickPrefix(w.subs, i, e);
    assert next.subs == v.subs[i := TickSlot(s, e)];
    if Expires(s, e) {
      if AnyExpires(w.subs[..i], e) {
        RemoveTwice(w.addrs, v.subs, next.subs, i);
      }
      assert next.tsm == if s.confirmed then Release(v.tsm, s.invokeId) else v.tsm;
    } else {
      SameReferences(v.subs, next.subs, w.addrs);
    }
  }

  lemma TickPrefix(subs: seq<Slot>, i: nat, e: u32)
    requires i < |subs|
    ensures TickSlots(subs[..i + 1], e) == TickSlots(subs[..i], e) + [TickSlot(subs[i], e)]
    ensures AnyExpires(subs[..i + 1], e) <==> AnyExpires(subs[..i], e) || Expires(subs[i], e)
    ensures ExpiredIds(subs[..i + 1], e) == ExpiredIds(subs[..i], e) +
      if Expires(subs[i], e) && subs[i].confirmed && subs[i].invokeId != 0 then {subs[i].invokeId} else {}
  {
    var s, t := subs[..i], subs[..i + 1];
    assert t == s + [subs[i]];
    if AnyExpires(s, e) {
      var j :| 0 <= j < |s| && Expires(s[j], e);
      assert Expires(t[j], e);
    }
    if Expires(subs[i], e) {
      assert Expires(t[i], e);
    }
    forall x | x in ExpiredIds(s, e)
      ensures x in ExpiredIds(t, e)
    {
      var j :| 0 <= j < |s| && Expires(s[j], e) && s[j].confirmed && s[j].invokeId != 0 && s[j].invokeId == x;
      assert Expires(t[j], e) && t[j].invokeId == x;
    }
  }
}
