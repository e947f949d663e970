/**
 The shared address table over all runs: it holds each station at most once, holds exactly the
 stations that some valid subscription points to, and never redirects a live subscription.
 */
module CovAddresses {
  import opened Octets
  import opened CovModel

  ghost predicate Distinct(addrs: seq<AddressSlot>) {
    forall a, b :: 0 <= a < b < |addrs| && addrs[a].valid && addrs[b].valid ==>
      !Same(addrs[a].dest, addrs[b].dest)
  }

  ghost predicate NoDangling(w: World) {
    forall i :: 0 <= i < |w.subs| && w.subs[i].valid ==>
      w.subs[i].dest == NO_ADDRESS || AddressGet(w.addrs, w.subs[i].dest).Some?
  }

  ghost predicate NoGarbage(w: World) {
    forall a :: 0 <= a < |w.addrs| && w.addrs[a].valid ==> Referenced(w.subs, a)
  }

  ghost predicate Exact(w: World) {
    Sized(w) && Distinct(w.addrs) && NoDangling(w) && NoGarbage(w)
  }

  /** The station a valid subscription reports to; None for an orphan. */
  function Subscriber(w: World, i: nat): Option<Address>
    requires i < |w.subs|
  {
    AddressGet(w.addrs, w.subs[i].dest)
  }

  // ---------- the three table updates ----------

  lemma AddFacts(addrs: seq<AddressSlot>, src: Address)
    requires |addrs| == MAX_COV_ADDRESSES && Distinct(addrs)
    ensures var (t, d) := AddressAdd(addrs, src);
            && Distinct(t)
            && (forall a :: 0 <= a < |addrs| && addrs[a].valid ==> t[a] == addrs[a])
            && (forall a :: 0 <= a < |addrs| && a != d ==> t[a] == addrs[a])
            && (d < |addrs| ==> t[d].valid && Same(src, t[d].dest))
            && (d >= |addrs| ==> d == NO_ADDRESS)
  {
    var t := AddressAdd(addrs, src).0;
    assert forall a :: 0 <= a < |addrs| && t[a] != addrs[a] ==>
      a == FirstFree(addrs) && FirstSame(addrs, src) == |addrs|;
  }

  lemma CollectFacts(w: World, subs: seq<Slot>)
    requires Sized(w) && Distinct(w.addrs)
    requires forall i :: 0 <= i < |subs| && subs[i].valid ==>
      subs[i].dest == NO_ADDRESS || AddressGet(w.addrs, subs[i].dest).Some?
    ensures var v := w.(subs := subs, addrs := RemoveUnused(w.addrs, subs));
            && Distinct(v.addrs) && NoDangling(v) && NoGarbage(v)
            && (forall i :: 0 <= i < |subs| && subs[i].valid ==>
                  AddressGet(v.addrs, subs[i].dest) == AddressGet(w.addrs, subs[i].dest))
  {
    forall i | 0 <= i < |subs| && subs[i].valid
      ensures AddressGet(RemoveUnused(w.addrs, subs), subs[i].dest) == AddressGet(w.addrs, subs[i].dest)
    {
      assert Referenced(subs, subs[i].dest);
    }
  }

  /** Pointing slot i at the address just added keeps the table exact if i held no other address alone. */
  lemma PointFacts(w: World, i: nat, src: Address, s: Slot)
    requires Exact(w) && i < |w.subs| && s.valid
    requires s.dest == AddressAdd(w.addrs, src).1
    requires !w.subs[i].valid || AddressGet(w.addrs, w.subs[i].dest).None? || w.subs[i].dest == s.dest
    ensures var v := w.(subs := w.subs[i := s], addrs := AddressAdd(w.addrs, src).0);
            && Exact(v)
            && (forall j :: 0 <= j < |w.subs| && j != i && w.subs[j].valid ==> Subscriber(v, j) == Subscriber(w, j))
            && (Subscriber(v, i).Some? ==> Same(src, Subscriber(v, i).value))
  {
    var v := w.(subs := w.subs[i := s], addrs := AddressAdd(w.addrs, src).0);
    AddFacts(w.addrs, src);
    forall a | 0 <= a < |v.addrs| && v.addrs[a].valid
      ensures Referenced(v.subs, a)
    {
      if a == s.dest {
        assert v.subs[i].valid && v.subs[i].dest == a;
      } else {
        var j :| 0 <= j < |w.subs| && w.subs[j].valid && w.subs[j].dest == a;
        assert v.subs[j].valid && v.subs[j].dest == a;
      }
    }
  }

  // ---------- each event ----------

  /** A matched subscription that has an address finds that same address slot again. */
  lemma RenewKeepsAddressSlot(w: World, i: nat, src: Address, req: Request)
    requires Exact(w) && i < |w.subs| && Matches(w.addrs, w.subs[i], src, req)
    requires Subscriber(w, i).Some?
    ensures AddressAdd(w.addrs, src) == (w.addrs, w.subs[i].dest)
    ensures RenewAt(w, i, src, req).subs[i].dest == w.subs[i].dest
    ensures RenewAt(w, i, src, req).addrs == w.addrs
  {
    var d, f := w.subs[i].dest, FirstSame(w.addrs, src);
    assert w.addrs[d].valid && Same(src, w.addrs[d].dest);
    assert f <= d;
    assert Same(w.addrs[f].dest, w.addrs[d].dest);
  }

  lemma SubscribeKeepsExact(w: World, src: Address, req: Request)
    requires Exact(w)
    ensures Exact(Subscribe(w, src, req).0)
    ensures var v := Subscribe(w, src, req).0;
            forall j :: 0 <= j < |w.subs| && w.subs[j].valid && v.subs[j].valid && j != FirstMatch(w, src, req) ==>
              Subscriber(v, j) == Subscriber(w, j)
  {
    var i, free := FirstMatch(w, src, req), FirstInvalid(w.subs);
    if i < |w.subs| {
      if req.cancel {
        CollectFacts(w, CancelAt(w, i).subs);
      } else {
        if Subscriber(w, i).Some? {
          RenewKeepsAddressSlot(w, i, src, req);
        }
        PointFacts(w, i, src, RenewAt(w, i, src, req).subs[i]);
      }
    } else if free < |w.subs| && !req.cancel {
      PointFacts(w, free, src, CreateAt(w, free, src, req).subs[free]);
    }
  }

  lemma TickKeepsExact(w: World, e: u32)
    requires Exact(w)
    ensures Exact(Tick(w, e))
    ensures forall j :: 0 <= j < |w.subs| && Tick(w, e).subs[j].valid ==> Subscriber(Tick(w, e), j) == Subscriber(w, j)
  {
    var v := Tick(w, e);
    if AnyExpires(w.subs, e) {
      CollectFacts(w, v.subs);
    } else {
      forall a | 0 <= a < |w.addrs| && w.addrs[a].valid
        ensures Referenced(v.subs, a)
      {
        var j :| 0 <= j < |w.subs| && w.subs[j].valid && w.subs[j].dest == a;
        assert !Expires(w.subs[j], e);
        assert v.subs[j].valid && v.subs[j].dest == a;
      }
    }
  }

  /** Updates that leave validity and address index of every slot alone. */
  lemma SameSlotsKeepExact(w: World, v: World)
    requires Exact(w) && Sized(v) && v.addrs == w.addrs
    requires forall i :: 0 <= i < |w.subs| ==> v.subs[i].valid == w.subs[i].valid && v.subs[i].dest == w.subs[i].dest
    ensures Exact(v)
  {
    forall a | 0 <= a < |v.addrs| && v.addrs[a].valid
      ensures Referenced(v.subs, a)
    {
      var j :| 0 <= j < |w.subs| && w.subs[j].valid && w.subs[j].dest == a;
      assert v.subs[j].valid && v.subs[j].dest == a;
    }
  }

  lemma StepKeepsExact(w: World, e: Event)
    requires Exact(w)
    ensures Exact(Step(w, e))
  {
    match e
    case SubscribeCov(src, req) => SubscribeKeepsExact(w, src, req);
    case TimerSeconds(elapsed) => TickKeepsExact(w, elapsed);
    case TaskCall(link) =>
      TaskKeepsTerms(w, link);
      SameSlotsKeepExact(w, Task(w, link));
    case _ => SameSlotsKeepExact(w, Step(w, e));
  }

  /** In every state reached from initialisation, by any events in any order, the table is exact. */
  lemma {:induction false} AddressTableIsExact(w: World, es: seq<Event>)
    requires Initial(w)
    ensures Exact(Run(w, es))
    decreases |es|
  {
    if es != [] {
      AddressTableIsExact(w, es[..|es| - 1]);
      StepKeepsExact(Run(w, es[..|es| - 1]), es[|es| - 1]);
    }
  }

  /**
   No event redirects a live subscription: a slot that stays valid through an event other than its
   own renewal reports to the same address before and after, although address slots are reused.
   */
  lemma NeverRedirected(w: World, e: Event, i: nat)
    requires Exact(w) && i < |w.subs| && w.subs[i].valid && Step(w, e).subs[i].valid
    requires e.SubscribeCov? ==> i != FirstMatch(w, e.src, e.req)
    ensures Subscriber(Step(w, e), i) == Subscriber(w, i)
  {
    match e
    case SubscribeCov(src, req) => SubscribeKeepsExact(w, src, req);
    case TimerSeconds(elapsed) => TickKeepsExact(w, elapsed);
    case TaskCall(link) => TaskKeepsTerms(w, link);
    case _ =>
  }

  /** The stations in the table are exactly the stations of the valid subscriptions. */
  lemma TableIsLiveSet(w: World, es: seq<Event>)
    requires Initial(w)
    ensures var v := Run(w, es);
            (set a | 0 <= a < |v.addrs| && v.addrs[a].valid :: StationOf(v.addrs[a].dest)) ==
            (set i | 0 <= i < |v.subs| && v.subs[i].valid && Subscriber(v, i).Some?
                :: StationOf(Subscriber(v, i).value))
  {
    AddressTableIsExact(w, es);
    var v := Run(w, es);
    forall a | 0 <= a < |v.addrs| && v.addrs[a].valid
      ensures exists i :: 0 <= i < |v.subs| && v.subs[i].valid && Subscriber(v, i) == Some(v.addrs[a].dest)
    {
      var i :| 0 <= i < |v.subs| && v.subs[i].valid && v.subs[i].dest == a;
      assert Subscriber(v, i) == Some(v.addrs[a].dest);
    }
  }
}
