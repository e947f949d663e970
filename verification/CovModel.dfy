/**
 The COV subscription service as a transition function on values.

 The world holds the two tables and the task registers of h_cov.c, and the two parts of the
 environment they interact with: the transactions that the TSM currently holds and the set of
 objects whose COV flag is raised.
 */
module CovModel {
  import opened Octets

  const MAX_COV_SUBSCRIPTIONS: nat := 128
  const MAX_COV_ADDRESSES: nat := 16
  const MAX_MAC_LEN: nat := 7

  /** The value -1 as stored in the unsigned octet dest_index. */
  const NO_ADDRESS: u8 := 255

  /** A BACNET_ADDRESS. The two buffers always have seven octets; only a prefix is meaningful. */
  datatype AddressFields = Address(macLen: u8, mac: seq<u8>, net: u16, len: u8, adr: seq<u8>)

  type Address = a: AddressFields | |a.mac| == MAX_MAC_LEN && |a.adr| == MAX_MAC_LEN
    witness Address(0, [0, 0, 0, 0, 0, 0, 0], 0, 0, [0, 0, 0, 0, 0, 0, 0])

  /** What identifies a station: the buffers cut to their length, the MAC only on the local network. */
  datatype Station = Station(net: u16, len: u8, adr: seq<u8>, macLen: u8, mac: seq<u8>)

  function StationOf(a: Address): Station {
    Station(a.net, a.len, a.adr[..Min(a.len, MAX_MAC_LEN)],
            if a.net == 0 then a.macLen else 0,
            if a.net == 0 then a.mac[..Min(a.macLen, MAX_MAC_LEN)] else [])
  }

  predicate Same(a: Address, b: Address) {
    StationOf(a) == StationOf(b)
  }

  /** Two stations are one when these octets agree, and only then. */
  lemma SameInOctets(a: Address, b: Address)
    ensures Same(a, b) <==>
            && a.net == b.net && a.len == b.len
            && (forall i :: 0 <= i < 7 && i < a.len ==> a.adr[i] == b.adr[i])
            && (a.net == 0 ==>
                  a.macLen == b.macLen && forall i :: 0 <= i < 7 && i < a.macLen ==> a.mac[i] == b.mac[i])
  {
    PrefixesAgree(a.adr, b.adr, Min(a.len, MAX_MAC_LEN));
    PrefixesAgree(a.mac, b.mac, Min(a.macLen, MAX_MAC_LEN));
  }

  lemma PrefixesAgree(s: seq<u8>, t: seq<u8>, n: nat)
    requires n <= |s| == |t|
    ensures s[..n] == t[..n] <==> forall i :: 0 <= i < n ==> s[i] == t[i]
  {
    if s[..n] == t[..n] {
      forall i | 0 <= i < n
        ensures s[i] == t[i]
      {
        assert s[..n][i] == t[..n][i];
      }
    }
  }

  datatype ObjectId = ObjectId(kind: u16, instance: u32)

  datatype AddressSlot = AddressSlot(valid: bool, dest: Address)

  datatype Slot = Slot(
    valid: bool, confirmed: bool, sendRequested: bool,
    dest: u8, invokeId: u8, pid: u32, lifetime: u32, monitored: ObjectId)

  const EMPTY_SLOT := Slot(false, false, false, NO_ADDRESS, 0, 0, 0, ObjectId(0, 0))

  /** A decoded SubscribeCOV request. */
  datatype Request = Request(pid: u32, monitored: ObjectId, cancel: bool, confirmed: bool, lifetime: u32)

  datatype Phase = Idle | Mark | Clear | Free | Send

  /** A transaction held by the TSM: still awaiting its reply, or out of retries. */
  datatype Transaction = Awaiting | Lapsed

  datatype World = World(
    subs: seq<Slot>, addrs: seq<AddressSlot>, phase: Phase, index: nat,
    tsm: map<u8, Transaction>, flags: set<ObjectId>)

  /**
   What the environment answers during one task call: whether DCC allows sending, the invoke ID
   the TSM would hand out (0 when no transaction is available) and whether the datalink sends.
   */
  datatype Link = Link(dccEnabled: bool, grant: u8, sent: bool)

  ghost predicate Sized(w: World) {
    && |w.subs| == MAX_COV_SUBSCRIPTIONS
    && |w.addrs| == MAX_COV_ADDRESSES
    && w.index < MAX_COV_SUBSCRIPTIONS
  }

  // ---------- address table ----------

  function AddressGet(addrs: seq<AddressSlot>, index: u8): Option<Address> {
    if index < |addrs| && addrs[index].valid then Some(addrs[index].dest) else None
  }

  predicate Referenced(subs: seq<Slot>, a: nat) {
    exists i :: 0 <= i < |subs| && subs[i].valid && subs[i].dest == a
  }

  function RemoveUnused(addrs: seq<AddressSlot>, subs: seq<Slot>): (r: seq<AddressSlot>)
    ensures |r| == |addrs|
  {
    seq(|addrs|, a requires 0 <= a < |addrs| =>
      if Referenced(subs, a) then addrs[a] else addrs[a].(valid := false))
  }

  function FirstSame(addrs: seq<AddressSlot>, a: Address): nat {
    First(addrs, (s: AddressSlot) => s.valid && Same(a, s.dest))
  }

  function FirstFree(addrs: seq<AddressSlot>): nat {
    First(addrs, (s: AddressSlot) => !s.valid)
  }

  /** The table after cov_address_add, and the octet stored for its result. */
  function AddressAdd(addrs: seq<AddressSlot>, a: Address): (r: (seq<AddressSlot>, u8))
    requires |addrs| <= MAX_COV_ADDRESSES
    ensures |r.0| == |addrs|
  {
    if FirstSame(addrs, a) < |addrs| then (addrs, FirstSame(addrs, a))
    else if FirstFree(addrs) < |addrs| then
      (addrs[FirstFree(addrs) := AddressSlot(true, a)], FirstFree(addrs))
    else (addrs, NO_ADDRESS)
  }

  // ---------- subscribe, renew and cancel ----------

  predicate Matches(addrs: seq<AddressSlot>, s: Slot, src: Address, req: Request) {
    && s.valid && s.monitored == req.monitored && s.pid == req.pid
    && (AddressGet(addrs, s.dest).Some? ==> Same(src, AddressGet(addrs, s.dest).value))
  }

  function FirstMatch(w: World, src: Address, req: Request): nat {
    First(w.subs, (s: Slot) => Matches(w.addrs, s, src, req))
  }

  function FirstInvalid(subs: seq<Slot>): nat {
    First(subs, (s: Slot) => !s.valid)
  }

  /** tsm_free_invoke_id, called only for a non-zero invoke ID. */
  function Release(tsm: map<u8, Transaction>, id: u8): map<u8, Transaction> {
    if id == 0 then tsm else tsm - {id}
  }

  /** Cancel the subscription in slot i. */
  function CancelAt(w: World, i: nat): World
    requires i < |w.subs|
  {
    var s := w.subs[i];
    var subs := w.subs[i := s.(valid := false, dest := NO_ADDRESS, invokeId := 0)];
    w.(subs := subs, addrs := RemoveUnused(w.addrs, subs), tsm := Release(w.tsm, s.invokeId))
  }

  /** Renew the subscription in slot i. */
  function RenewAt(w: World, i: nat, src: Address, req: Request): World
    requires i < |w.subs| && |w.addrs| <= MAX_COV_ADDRESSES
  {
    var s := w.subs[i];
    var (addrs, dest) := AddressAdd(w.addrs, src);
    w.(subs := w.subs[i := s.(dest := dest, confirmed := req.confirmed, lifetime := req.lifetime,
                              sendRequested := true, invokeId := 0)],
       addrs := addrs, tsm := Release(w.tsm, s.invokeId))
  }

  /** Enter a new subscription in slot i. */
  function CreateAt(w: World, i: nat, src: Address, req: Request): World
    requires i < |w.subs| && |w.addrs| <= MAX_COV_ADDRESSES
  {
    var (addrs, dest) := AddressAdd(w.addrs, src);
    w.(subs := w.subs[i := Slot(true, req.confirmed, true, dest, 0, req.pid, req.lifetime, req.monitored)],
       addrs := addrs)
  }

  /** The world after cov_list_subscribe, and its result. */
  function Subscribe(w: World, src: Address, req: Request): (World, bool)
    requires Sized(w)
  {
    var i := FirstMatch(w, src, req);
    var free := FirstInvalid(w.subs);
    if i < |w.subs| then
      (if req.cancel then CancelAt(w, i) else RenewAt(w, i, src, req), true)
    else if free < |w.subs| then
      (if req.cancel then w else CreateAt(w, free, src, req), true)
    else
      (w, false)
  }

  /** The slot that a request is answered with. */
  function AnsweredAt(w: World, src: Address, req: Request): nat {
    if FirstMatch(w, src, req) < |w.subs| then FirstMatch(w, src, req) else FirstInvalid(w.subs)
  }

  /**
   A request that is granted puts its own terms into one slot, with a notification pending and no transaction,
   whether or not there is room for its address; a cancellation frees the slot it matches. No other slot changes.
   */
  lemma GrantedAsAsked(w: World, src: Address, req: Request)
    requires Sized(w) && AnsweredAt(w, src, req) < |w.subs|
    ensures var i, v := AnsweredAt(w, src, req), Subscribe(w, src, req).0;
            && Subscribe(w, src, req).1 && |v.subs| == |w.subs|
            && (forall j :: 0 <= j < |w.subs| && j != i ==> v.subs[j] == w.subs[j])
            && (!req.cancel ==>
                  && v.subs[i].valid && v.subs[i].sendRequested && v.subs[i].invokeId == 0
                  && v.subs[i].pid == req.pid && v.subs[i].monitored == req.monitored
                  && v.subs[i].confirmed == req.confirmed && v.subs[i].lifetime == req.lifetime)
            && (req.cancel ==> !v.subs[i].valid)
            && (w.subs[i].valid && w.subs[i].invokeId != 0 ==> w.subs[i].invokeId !in v.tsm)
  {
  }

  /** When nothing matches and no slot is free, nothing is granted and nothing changes. */
  lemma RefusedUnchanged(w: World, src: Address, req: Request)
    requires Sized(w)
    ensures !Subscribe(w, src, req).1 <==>
            forall j :: 0 <= j < |w.subs| ==> w.subs[j].valid && !Matches(w.addrs, w.subs[j], src, req)
    ensures !Subscribe(w, src, req).1 ==> Subscribe(w, src, req).0 == w
  {
  }

  // ---------- lifetimes ----------

  /** Whether slot s reaches the end of its lifetime within e seconds. */
  predicate Expires(s: Slot, e: u32) {
    s.valid && 0 < s.lifetime <= e
  }

  function TickSlot(s: Slot, e: u32): Slot {
    if !s.valid || s.lifetime == 0 then s
    else if s.lifetime <= e then
      s.(lifetime := 0, valid := false, dest := NO_ADDRESS,
         invokeId := if s.confirmed then 0 else s.invokeId)
    else s.(lifetime := s.lifetime - e)
  }

  function TickSlots(subs: seq<Slot>, e: u32): (r: seq<Slot>)
    ensures |r| == |subs|
  {
    seq(|subs|, i requires 0 <= i < |subs| => TickSlot(subs[i], e))
  }

  ghost predicate AnyExpires(subs: seq<Slot>, e: u32) {
    exists i :: 0 <= i < |subs| && Expires(subs[i], e)
  }

  /** The invoke IDs that expiring subscriptions give back. */
  ghost function ExpiredIds(subs: seq<Slot>, e: u32): set<u8> {
    set i | 0 <= i < |subs| && Expires(subs[i], e) && subs[i].confirmed && subs[i].invokeId != 0
      :: subs[i].invokeId
  }

  /** The world after handler_cov_timer_seconds. */
  ghost function Tick(w: World, e: u32): World {
    var subs := TickSlots(w.subs, e);
    w.(subs := subs,
       addrs := if AnyExpires(w.subs, e) then RemoveUnused(w.addrs, subs) else w.addrs,
       tsm := w.tsm - ExpiredIds(w.subs, e))
  }

  // ---------- the task ----------

  function Advance(w: World, next: Phase): World {
    if w.index + 1 >= MAX_COV_SUBSCRIPTIONS then w.(index := 0, phase := next) else w.(index := w.index + 1)
  }

  function MarkSlot(w: World): World
    requires w.index < |w.subs|
  {
    var s := w.subs[w.index];
    if s.valid && s.monitored in w.flags then w.(subs := w.subs[w.index := s.(sendRequested := true)]) else w
  }

  function ClearSlot(w: World): World
    requires w.index < |w.subs|
  {
    var s := w.subs[w.index];
    if s.valid && s.sendRequested then w.(flags := w.flags - {s.monitored}) else w
  }

  function FreeSlot(w: World): World
    requires w.index < |w.subs|
  {
    var s := w.subs[w.index];
    if s.valid && s.confirmed && s.invokeId != 0 &&
       (s.invokeId !in w.tsm || w.tsm[s.invokeId].Lapsed?)
    then w.(subs := w.subs[w.index := s.(invokeId := 0)], tsm := w.tsm - {s.invokeId})
    else w
  }

  /** Whether the SEND visit hands a notification of the current slot to the datalink. */
  predicate Transmits(w: World, link: Link)
    requires w.index < |w.subs|
  {
    var s := w.subs[w.index];
    && s.valid && s.sendRequested
    && (s.confirmed ==> s.invokeId == 0 && link.grant != 0)
    && link.dccEnabled && AddressGet(w.addrs, s.dest).Some?
  }

  function SendSlot(w: World, link: Link): World
    requires w.index < |w.subs|
  {
    var s := w.subs[w.index];
    if Transmits(w, link) then
      w.(subs := w.subs[w.index := s.(invokeId := if s.confirmed then link.grant else s.invokeId,
                                      sendRequested := !link.sent)],
         tsm := if s.confirmed then w.tsm[link.grant := Awaiting] else w.tsm)
    else w
  }

  /** The world after one call of handler_cov_task. */
  function Task(w: World, link: Link): World
    requires w.index < |w.subs|
  {
    match w.phase
    case Idle => w.(index := 0, phase := Mark)
    case Mark => Advance(MarkSlot(w), Clear)
    case Clear => Advance(ClearSlot(w), Free)
    case Free => Advance(FreeSlot(w), Send)
    case Send => Advance(SendSlot(w, link), Idle)
  }

  // ---------- runs ----------

  /**
   Everything that can happen: the three entry points of h_cov.c, an object that raises its COV
   flag, and the TSM closing, giving up on or opening (for some other client) a transaction.
   */
  datatype Event =
    | SubscribeCov(src: Address, req: Request)
    | TimerSeconds(elapsed: u32)
    | TaskCall(link: Link)
    | Raise(obj: ObjectId)
    | TsmClosed(id: u8)
    | TsmLapsed(id: u8)
    | TsmOpened(id: u8)

  /** The TSM hands out an invoke ID that is not in use, and only non-zero ones are in its table. */
  predicate Legal(w: World, e: Event) {
    match e
    case TaskCall(link) => link.grant != 0 ==> link.grant !in w.tsm
    case TsmOpened(id) => id != 0 && id !in w.tsm
    case TsmLapsed(id) => id in w.tsm
    case _ => true
  }

  ghost function Step(w: World, e: Event): World
    requires Sized(w)
  {
    match e
    case SubscribeCov(src, req) => Subscribe(w, src, req).0
    case TimerSeconds(elapsed) => Tick(w, elapsed)
    case TaskCall(link) => Task(w, link)
    case Raise(obj) => w.(flags := w.flags + {obj})
    case TsmClosed(id) => w.(tsm := w.tsm - {id})
    case TsmLapsed(id) => w.(tsm := w.tsm[id := Lapsed])
    case TsmOpened(id) => w.(tsm := w.tsm[id := Awaiting])
  }

  lemma StepSized(w: World, e: Event)
    requires Sized(w)
    ensures Sized(Step(w, e))
  {
  }

  /** The task touches only the requests and invoke IDs of the slots, and never the address table. */
  lemma TaskKeepsTerms(w: World, link: Link)
    requires Sized(w)
    ensures var v := Task(w, link);
            && Sized(v) && v.addrs == w.addrs
            && forall i :: 0 <= i < |w.subs| ==>
                 v.subs[i] == w.subs[i].(sendRequested := v.subs[i].sendRequested, invokeId := v.subs[i].invokeId)
  {
    match w.phase
    case Idle =>
    case Mark =>
    case Clear =>
    case Free =>
    case Send =>
  }

  /** The state after handler_cov_init on the statically zeroed registers, in any environment: the TSM may
   hold transactions of others, never under invoke ID 0. */
  ghost predicate Initial(w: World) {
    && Sized(w)
    && (forall i :: 0 <= i < |w.subs| ==> w.subs[i] == EMPTY_SLOT)
    && (forall a :: 0 <= a < |w.addrs| ==> !w.addrs[a].valid)
    && w.phase == Idle && w.index == 0 && 0 !in w.tsm
  }

  ghost function Run(w: World, es: seq<Event>): World
    requires Sized(w)
    ensures Sized(Run(w, es))
    decreases |es|
  {
    if es == [] then w
    else
      StepSized(Run(w, es[..|es| - 1]), es[|es| - 1]);
      Step(Run(w, es[..|es| - 1]), es[|es| - 1])
  }

  /** Every event of the run is legal where it happens. */
  ghost predicate LegalRun(w: World, es: seq<Event>)
    requires Sized(w)
    decreases |es|
  {
    es == [] ||
    (LegalRun(w, es[..|es| - 1]) && Legal(Run(w, es[..|es| - 1]), es[|es| - 1]))
  }
}
