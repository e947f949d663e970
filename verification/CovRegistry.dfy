/**
 The slot table as a finite map from (station, object, process) to (confirmed, lifetime): as long as
 no subscription is left without an address, every run of the service is a run of that map.
 */
module CovRegistry {
  import opened Octets
  import opened CovModel
  import opened CovAddresses

  datatype Key = Key(station: Station, monitored: ObjectId, pid: u32)
  datatype Terms = Terms(confirmed: bool, lifetime: u32)
  type Registry = map<Key, Terms>

  datatype Entry = Entry(key: Key, terms: Terms)

  ghost predicate NoOrphans(w: World) {
    forall i :: 0 <= i < |w.subs| && w.subs[i].valid ==> Subscriber(w, i).Some?
  }

  /** The entry in each slot: none for a free slot and for an orphan. */
  function EntryOf(addrs: seq<AddressSlot>, s: Slot): Option<Entry> {
    var a := AddressGet(addrs, s.dest);
    if s.valid && a.Some?
    then Some(Entry(Key(StationOf(a.value), s.monitored, s.pid), Terms(s.confirmed, s.lifetime)))
    else None
  }

  function Entries(w: World): seq<Option<Entry>> {
    seq(|w.subs|, i requires 0 <= i < |w.subs| => EntryOf(w.addrs, w.subs[i]))
  }

  ghost predicate Has(es: seq<Option<Entry>>, k: Key) {
    exists i :: 0 <= i < |es| && es[i].Some? && es[i].value.key == k
  }

  /** The entries are those of m, one slot for each key. */
  ghost predicate Holds(es: seq<Option<Entry>>, m: Registry) {
    && (forall i :: 0 <= i < |es| && es[i].Some? ==> es[i].value.key in m && m[es[i].value.key] == es[i].value.terms)
    && (forall k :: k in m ==> Has(es, k))
    && (forall i, j :: 0 <= i < j < |es| && es[i].Some? && es[j].Some? ==> es[i].value.key != es[j].value.key)
  }

  ghost predicate Represents(w: World, m: Registry) {
    NoOrphans(w) && Holds(Entries(w), m)
  }

  // ---------- the registry as a machine of its own ----------

  function RequestKey(src: Address, req: Request): Key {
    Key(StationOf(src), req.monitored, req.pid)
  }

  ghost predicate Accepted(m: Registry, src: Address, req: Request) {
    RequestKey(src, req) in m || |m| < MAX_COV_SUBSCRIPTIONS
  }

  function TickTerms(t: Terms, seconds: u32): Option<Terms> {
    if t.lifetime == 0 then Some(t)
    else if t.lifetime <= seconds then None
    else Some(t.(lifetime := t.lifetime - seconds))
  }

  ghost function RegistryTick(m: Registry, seconds: u32): Registry {
    map k | k in m && TickTerms(m[k], seconds).Some? :: TickTerms(m[k], seconds).value
  }

  ghost function RegistryStep(m: Registry, e: Event): Registry {
    match e
    case SubscribeCov(src, req) =>
      if !Accepted(m, src, req) then m
      else if req.cancel then m - {RequestKey(src, req)}
      else m[RequestKey(src, req) := Terms(req.confirmed, req.lifetime)]
    case TimerSeconds(elapsed) => RegistryTick(m, elapsed)
    case _ => m
  }

  ghost function RegistryRun(es: seq<Event>): Registry
    decreases |es|
  {
    if es == [] then map[] else RegistryStep(RegistryRun(es[..|es| - 1]), es[|es| - 1])
  }

  /** The requester's station is in the address table already, or there is a free entry for it. */
  predicate HasRoom(w: World, e: Event) {
    e.SubscribeCov? && !e.req.cancel ==>
      FirstSame(w.addrs, e.src) < |w.addrs| || FirstFree(w.addrs) < |w.addrs|
  }

  /** The request matches nothing and no slot is free: it is answered by an error before any address is asked for. */
  predicate Refused(w: World, e: Event) {
    e.SubscribeCov? && FirstMatch(w, e.src, e.req) == |w.subs| && FirstInvalid(w.subs) == |w.subs|
  }

  /** The event asks for no address, or gets the one it asks for. */
  predicate Roomy(w: World, e: Event) {
    HasRoom(w, e) || Refused(w, e)
  }

  ghost predicate RoomyRun(w: World, es: seq<Event>)
    requires Sized(w)
    decreases |es|
  {
    es == [] || (RoomyRun(w, es[..|es| - 1]) && Roomy(Run(w, es[..|es| - 1]), es[|es| - 1]))
  }

  /** After every event of the run the tables represent the registry. */
  ghost predicate AlwaysRepresents(w: World, es: seq<Event>)
    requires Sized(w)
    decreases |es|
  {
    Represents(Run(w, es), RegistryRun(es)) && (es == [] || AlwaysRepresents(w, es[..|es| - 1]))
  }

  // ---------- one slot at a time ----------

  lemma SizeIsSlots(es: seq<Option<Entry>>, m: Registry)
    requires Holds(es, m)
    ensures |m| <= |es|
    ensures |m| == |es| <==> forall i :: 0 <= i < |es| ==> es[i].Some?
  {
    var place := map k | k in m :: var i: nat :| i < |es| && es[i].Some? && es[i].value.key == k; i;
    Pigeonhole(place, |es|);
    assert place.Keys == m.Keys;
    if Below(|es|) <= place.Values {
      forall i | 0 <= i < |es|
        ensures es[i].Some?
      {
        assert i in Below(|es|);
      }
    }
    if forall i :: 0 <= i < |es| ==> es[i].Some? {
      forall i | i in Below(|es|)
        ensures i in place.Values
      {
        assert place[es[i].value.key] == i;
      }
    }
  }

  lemma Put(es: seq<Option<Entry>>, m: Registry, i: nat, e: Entry)
    requires Holds(es, m) && i < |es|
    requires if es[i].Some? then es[i].value.key == e.key else e.key !in m
    ensures Holds(es[i := Some(e)], m[e.key := e.terms])
  {
    var fs, n := es[i := Some(e)], m[e.key := e.terms];
    assert forall j :: 0 <= j < |es| && j != i && es[j].Some? ==> es[j].value.key != e.key;
    forall k | k in n
      ensures Has(fs, k)
    {
      if k == e.key {
        assert fs[i].Some? && fs[i].value.key == k;
      } else {
        var j :| 0 <= j < |es| && es[j].Some? && es[j].value.key == k;
        assert fs[j].Some? && fs[j].value.key == k;
      }
    }
  }

  lemma Drop(es: seq<Option<Entry>>, m: Registry, i: nat)
    requires Holds(es, m) && i < |es| && es[i].Some?
    ensures Holds(es[i := None], m - {es[i].value.key})
  {
    var fs, k := es[i := None], es[i].value.key;
    assert forall j :: 0 <= j < |es| && j != i && es[j].Some? ==> es[j].value.key != k;
    forall x | x in m - {k}
      ensures Has(fs, x)
    {
      var j :| 0 <= j < |es| && es[j].Some? && es[j].value.key == x;
      assert fs[j].Some? && fs[j].value.key == x;
    }
  }

  function TickEntry(e: Option<Entry>, seconds: u32): Option<Entry> {
    if e.None? || TickTerms(e.value.terms, seconds).None? then None
    else Some(Entry(e.value.key, TickTerms(e.value.terms, seconds).value))
  }

  lemma TickAll(es: seq<Option<Entry>>, fs: seq<Option<Entry>>, m: Registry, seconds: u32)
    requires Holds(es, m) && |fs| == |es|
    requires forall i :: 0 <= i < |es| ==> fs[i] == TickEntry(es[i], seconds)
    ensures Holds(fs, RegistryTick(m, seconds))
  {
    var n := RegistryTick(m, seconds);
    forall i | 0 <= i < |fs| && fs[i].Some?
      ensures fs[i].value.key in n && n[fs[i].value.key] == fs[i].value.terms
    {
      assert fs[i] == TickEntry(es[i], seconds);
      assert es[i].value.key in m;
    }
    forall k | k in n
      ensures Has(fs, k)
    {
      assert Has(es, k);
      var j :| 0 <= j < |es| && es[j].Some? && es[j].value.key == k;
      assert fs[j] == TickEntry(es[j], seconds);
    }
    forall i, j | 0 <= i < j < |fs| && fs[i].Some? && fs[j].Some?
      ensures fs[i].value.key != fs[j].value.key
    {
      assert fs[i] == TickEntry(es[i], seconds) && fs[j] == TickEntry(es[j], seconds);
    }
  }

  // ---------- each event ----------

  /** A request matches a slot exactly when the slot holds its key. */
  lemma MatchIsKey(w: World, src: Address, req: Request, i: nat)
    requires NoOrphans(w) && i < |w.subs|
    ensures Matches(w.addrs, w.subs[i], src, req) <==>
            Entries(w)[i].Some? && Entries(w)[i].value.key == RequestKey(src, req)
  {
  }

  lemma MatchIffRegistered(w: World, m: Registry, src: Address, req: Request)
    requires Sized(w) && Represents(w, m)
    ensures FirstMatch(w, src, req) < |w.subs| <==> RequestKey(src, req) in m
    ensures FirstInvalid(w.subs) == |w.subs| <==> |m| == MAX_COV_SUBSCRIPTIONS
    ensures |m| <= MAX_COV_SUBSCRIPTIONS
  {
    var es, i := Entries(w), FirstMatch(w, src, req);
    if i < |w.subs| {
      MatchIsKey(w, src, req, i);
    }
    if RequestKey(src, req) in m {
      assert Has(es, RequestKey(src, req));
      var j :| 0 <= j < |es| && es[j].Some? && es[j].value.key == RequestKey(src, req);
      MatchIsKey(w, src, req, j);
    }
    SizeIsSlots(es, m);
    assert forall j :: 0 <= j < |es| ==> (es[j].Some? <==> w.subs[j].valid);
    if FirstInvalid(w.subs) < |w.subs| {
      assert es[FirstInvalid(w.subs)].None?;
    }
  }

  /** When only slot i is written, only entry i changes. */
  lemma OneEntryChanges(w: World, v: World, i: nat)
    requires Sized(w) && Sized(v) && i < |w.subs|
    requires forall j :: 0 <= j < |w.subs| && j != i ==>
      v.subs[j] == w.subs[j] && (w.subs[j].valid ==> Subscriber(v, j) == Subscriber(w, j))
    ensures Entries(v) == Entries(w)[i := EntryOf(v.addrs, v.subs[i])]
  {
  }

  lemma WriteIsPut(w: World, m: Registry, v: World, i: nat, src: Address, req: Request)
    requires Sized(w) && Sized(v) && Represents(w, m) && i < |w.subs|
    requires forall j :: 0 <= j < |w.subs| && j != i ==>
      v.subs[j] == w.subs[j] && (w.subs[j].valid ==> Subscriber(v, j) == Subscriber(w, j))
    requires if w.subs[i].valid then Matches(w.addrs, w.subs[i], src, req) else RequestKey(src, req) !in m
    requires EntryOf(v.addrs, v.subs[i]) == Some(Entry(RequestKey(src, req), Terms(req.confirmed, req.lifetime)))
    ensures Represents(v, m[RequestKey(src, req) := Terms(req.confirmed, req.lifetime)])
  {
    OneEntryChanges(w, v, i);
    MatchIsKey(w, src, req, i);
    Put(Entries(w), m, i, Entry(RequestKey(src, req), Terms(req.confirmed, req.lifetime)));
  }

  lemma CancelIsRemoval(w: World, m: Registry, i: nat, src: Address, req: Request)
    requires Exact(w) && Represents(w, m) && i == FirstMatch(w, src, req) < |w.subs| && req.cancel
    ensures Represents(Subscribe(w, src, req).0, m - {RequestKey(src, req)})
  {
    SubscribeKeepsExact(w, src, req);
    OneEntryChanges(w, Subscribe(w, src, req).0, i);
    MatchIsKey(w, src, req, i);
    Drop(Entries(w), m, i);
  }

  lemma RoomGivesEntry(w: World, src: Address, req: Request, i: nat, v: World)
    requires Exact(w) && i < |w.subs| && !req.cancel && HasRoom(w, SubscribeCov(src, req))
    requires v == CreateAt(w, i, src, req) ||
             (v == RenewAt(w, i, src, req) && Matches(w.addrs, w.subs[i], src, req))
    ensures EntryOf(v.addrs, v.subs[i]) == Some(Entry(RequestKey(src, req), Terms(req.confirmed, req.lifetime)))
  {
    AddFacts(w.addrs, src);
  }

  lemma RequestIsPut(w: World, m: Registry, src: Address, req: Request)
    requires Exact(w) && Represents(w, m) && HasRoom(w, SubscribeCov(src, req)) && !req.cancel
    requires FirstMatch(w, src, req) < |w.subs| || (RequestKey(src, req) !in m && FirstInvalid(w.subs) < |w.subs|)
    ensures Represents(Subscribe(w, src, req).0, m[RequestKey(src, req) := Terms(req.confirmed, req.lifetime)])
  {
    hide Represents;
    hide EntryOf;
    hide AddressAdd;
    var i, v := FirstMatch(w, src, req), Subscribe(w, src, req).0;
    var at := if i < |w.subs| then i else FirstInvalid(w.subs);
    SubscribeKeepsExact(w, src, req);
    RoomGivesEntry(w, src, req, at, v);
    WriteIsPut(w, m, v, at, src, req);
  }

  /**
   A request succeeds exactly when its key is registered or a slot is free; then it is a map update
   or a removal, and otherwise it changes nothing.
   */
  lemma SubscribeIsMapUpdate(w: World, m: Registry, src: Address, req: Request)
    requires Exact(w) && Represents(w, m) && Roomy(w, SubscribeCov(src, req))
    ensures Subscribe(w, src, req).1 <==> Accepted(m, src, req)
    ensures Represents(Subscribe(w, src, req).0, RegistryStep(m, SubscribeCov(src, req)))
  {
    var i, free := FirstMatch(w, src, req), FirstInvalid(w.subs);
    hide Represents;
    hide CancelAt;
    hide RenewAt;
    hide CreateAt;
    MatchIffRegistered(w, m, src, req);
    if i < |w.subs| && req.cancel {
      CancelIsRemoval(w, m, i, src, req);
    } else if !req.cancel && (i < |w.subs| || free < |w.subs|) {
      RequestIsPut(w, m, src, req);
    } else if req.cancel {
      assert m - {RequestKey(src, req)} == m;
    }
  }

  /**
   A request leaves an orphan exactly when it is accepted, is not a cancellation and finds no room in the
   address table.
   */
  lemma OrphanIffNoRoom(w: World, src: Address, req: Request)
    requires Exact(w) && NoOrphans(w)
    ensures NoOrphans(Subscribe(w, src, req).0) <==>
            HasRoom(w, SubscribeCov(src, req)) || FirstInvalid(w.subs) == |w.subs|
  {
    var i, free := FirstMatch(w, src, req), FirstInvalid(w.subs);
    var v := Subscribe(w, src, req).0;
    SubscribeKeepsExact(w, src, req);
    AddFacts(w.addrs, src);
    if i < |w.subs| {
      if !req.cancel {
        RenewKeepsAddressSlot(w, i, src, req);
      }
    } else if free < |w.subs| && !req.cancel {
      assert v.subs[free].valid;
      assert !HasRoom(w, SubscribeCov(src, req)) ==> Subscriber(v, free).None?;
    }
  }

  lemma TickEntries(w: World, e: u32, i: nat)
    requires Exact(w) && i < |w.subs|
    ensures Entries(Tick(w, e))[i] == TickEntry(Entries(w)[i], e)
    ensures Tick(w, e).subs[i].valid ==> Subscriber(Tick(w, e), i) == Subscriber(w, i) && w.subs[i].valid
  {
    TickKeepsExact(w, e);
    var v := Tick(w, e);
    assert v.subs[i] == TickSlot(w.subs[i], e);
    assert Entries(v)[i] == EntryOf(v.addrs, v.subs[i]);
    assert Entries(w)[i] == EntryOf(w.addrs, w.subs[i]);
  }

  lemma TickIsMapTick(w: World, m: Registry, e: u32)
    requires Exact(w) && Represents(w, m)
    ensures Represents(Tick(w, e), RegistryTick(m, e))
  {
    forall i | 0 <= i < |w.subs|
      ensures Entries(Tick(w, e))[i] == TickEntry(Entries(w)[i], e)
      ensures Tick(w, e).subs[i].valid ==> Subscriber(Tick(w, e), i).Some?
    {
      TickEntries(w, e, i);
    }
    TickAll(Entries(w), Entries(Tick(w, e)), m, e);
  }

  lemma OtherKeepsRegistry(w: World, m: Registry, v: World)
    requires Sized(w) && Sized(v) && Represents(w, m) && v.addrs == w.addrs
    requires forall i :: 0 <= i < |w.subs| ==>
      v.subs[i] == w.subs[i].(sendRequested := v.subs[i].sendRequested, invokeId := v.subs[i].invokeId)
    ensures Represents(v, m)
  {
    assert Entries(v) == Entries(w);
  }

  lemma StepIsRegistryStep(w: World, m: Registry, e: Event)
    requires Exact(w) && Represents(w, m) && Roomy(w, e)
    ensures Represents(Step(w, e), RegistryStep(m, e))
  {
    match e
    case SubscribeCov(src, req) => SubscribeIsMapUpdate(w, m, src, req);
    case TimerSeconds(elapsed) => TickIsMapTick(w, m, elapsed);
    case TaskCall(link) =>
      TaskKeepsTerms(w, link);
      OtherKeepsRegistry(w, m, Task(w, link));
    case _ =>
      assert Represents(Step(w, e), m) by { OtherKeepsRegistry(w, m, Step(w, e)); }
  }

  /** A request that matches a slot never lacks room: the slot's own address entry is there. */
  lemma MatchHasRoom(w: World, src: Address, req: Request)
    requires Exact(w) && NoOrphans(w) && FirstMatch(w, src, req) < |w.subs|
    ensures HasRoom(w, SubscribeCov(src, req))
  {
    var d := w.subs[FirstMatch(w, src, req)].dest;
    assert w.addrs[d].valid && Same(src, w.addrs[d].dest);
  }

  /** The tables go on representing the registry exactly when the event gets any address that it asks for. */
  lemma StepRepresentsIff(w: World, m: Registry, e: Event)
    requires Exact(w) && Represents(w, m)
    ensures Represents(Step(w, e), RegistryStep(m, e)) <==> Roomy(w, e)
  {
    if Roomy(w, e) {
      StepIsRegistryStep(w, m, e);
    } else {
      hide FirstInvalid;
      hide FirstMatch;
      hide NoOrphans;
      if FirstMatch(w, e.src, e.req) < |w.subs| {
        MatchHasRoom(w, e.src, e.req);
      }
      OrphanIffNoRoom(w, e.src, e.req);
    }
  }

  /** The registry alone tells, before each event of the run, that it asks for no address in vain. */
  ghost predicate RegistryHasRoom(es: seq<Event>)
    decreases |es|
  {
    es == [] || (RegistryHasRoom(es[..|es| - 1]) && RegistryRoom(RegistryRun(es[..|es| - 1]), es[|es| - 1]))
  }

  /**
   Refinement over whole runs: after every event the tables represent the map that the events make of the empty
   one, exactly when no event of the run asks in vain for an address; and that can be told from the map.
   */
  lemma {:induction false} ServiceRefinesRegistry(w: World, es: seq<Event>)
    requires Initial(w)
    ensures AlwaysRepresents(w, es) <==> RoomyRun(w, es)
    ensures AlwaysRepresents(w, es) <==> RegistryHasRoom(es)
    decreases |es|
  {
    if es != [] {
      var front, e := es[..|es| - 1], es[|es| - 1];
      ServiceRefinesRegistry(w, front);
      AddressTableIsExact(w, front);
      if AlwaysRepresents(w, front) {
        StepRepresentsIff(Run(w, front), RegistryRun(front), e);
        RoomyByRegistry(Run(w, front), RegistryRun(front), e);
      }
    }
  }

  /** Only one registry fits a table, so a table without orphans determines its contents. */
  lemma RegistryIsUnique(w: World, m: Registry, n: Registry)
    requires Represents(w, m) && Represents(w, n)
    ensures m == n
  {
    var es := Entries(w);
    forall k | k in m
      ensures k in n && n[k] == m[k]
    {
      var i :| 0 <= i < |es| && es[i].Some? && es[i].value.key == k;
    }
    forall k | k in n
      ensures k in m
    {
      var i :| 0 <= i < |es| && es[i].Some? && es[i].value.key == k;
    }
  }

  // ---------- room and cancellations ----------

  ghost predicate InTable(addrs: seq<AddressSlot>, s: Station) {
    exists a :: 0 <= a < |addrs| && addrs[a].valid && StationOf(addrs[a].dest) == s
  }

  function Stations(m: Registry): set<Station> {
    set k | k in m :: k.station
  }

  lemma StationsAreTable(w: World, m: Registry, s: Station)
    requires Exact(w) && Represents(w, m)
    ensures InTable(w.addrs, s) <==> s in Stations(m)
  {
    var es := Entries(w);
    if InTable(w.addrs, s) {
      var a :| 0 <= a < |w.addrs| && w.addrs[a].valid && StationOf(w.addrs[a].dest) == s;
      assert Referenced(w.subs, a);
      var i :| 0 <= i < |w.subs| && w.subs[i].valid && w.subs[i].dest == a;
      assert es[i] == EntryOf(w.addrs, w.subs[i]);
      assert es[i].value.key in m;
    }
    if s in Stations(m) {
      var k :| k in m && k.station == s;
      assert Has(es, k);
      var i :| 0 <= i < |es| && es[i].Some? && es[i].value.key == k;
      assert es[i] == EntryOf(w.addrs, w.subs[i]);
      assert w.addrs[w.subs[i].dest].valid;
    }
  }

  lemma TableSize(addrs: seq<AddressSlot>, stations: set<Station>)
    requires Distinct(addrs)
    requires forall s :: InTable(addrs, s) <==> s in stations
    ensures |stations| <= |addrs|
    ensures |stations| == |addrs| <==> FirstFree(addrs) == |addrs|
  {
    var place := map s | s in stations ::
      var a: nat :| a < |addrs| && addrs[a].valid && StationOf(addrs[a].dest) == s; a;
    Pigeonhole(place, |addrs|);
    assert place.Keys == stations;
    if FirstFree(addrs) < |addrs| {
      assert FirstFree(addrs) in Below(|addrs|) && FirstFree(addrs) !in place.Values;
    } else {
      forall a | a in Below(|addrs|)
        ensures a in place.Values
      {
        var s := StationOf(addrs[a].dest);
        assert addrs[a].valid && InTable(addrs, s);
        assert Same(addrs[place[s]].dest, addrs[a].dest);
        assert place[s] == a;
      }
    }
  }

  /** Room in the table can be read off the registry: the station is registered, or fewer than sixteen stations are. */
  lemma RoomByStations(w: World, m: Registry, src: Address, req: Request)
    requires Exact(w) && Represents(w, m) && !req.cancel
    ensures HasRoom(w, SubscribeCov(src, req)) <==> StationOf(src) in Stations(m) || |Stations(m)| < 16
  {
    forall s
      ensures InTable(w.addrs, s) <==> s in Stations(m)
    {
      StationsAreTable(w, m, s);
    }
    TableSize(w.addrs, Stations(m));
    assert FirstSame(w.addrs, src) < |w.addrs| <==> InTable(w.addrs, StationOf(src));
  }

  /** So the registry alone tells whether an event asks in vain for an address. */
  ghost predicate RegistryRoom(m: Registry, e: Event) {
    e.SubscribeCov? && !e.req.cancel ==>
      || StationOf(e.src) in Stations(m) || |Stations(m)| < MAX_COV_ADDRESSES
      || !Accepted(m, e.src, e.req)
  }

  lemma RoomyByRegistry(w: World, m: Registry, e: Event)
    requires Exact(w) && Represents(w, m)
    ensures Roomy(w, e) <==> RegistryRoom(m, e)
  {
    if e.SubscribeCov? && !e.req.cancel {
      hide HasRoom;
      hide Represents;
      hide Exact;
      hide Stations;
      hide FirstMatch;
      hide FirstInvalid;
      RoomByStations(w, m, e.src, e.req);
      MatchIffRegistered(w, m, e.src, e.req);
    }
  }

  /**
   Clause 13.14.2 wants a cancellation without a matching context to succeed. Here it succeeds exactly
   when the subscription table has a free slot.
   */
  lemma UnmatchedCancel(w: World, src: Address, req: Request)
    requires Sized(w) && req.cancel && FirstMatch(w, src, req) == |w.subs|
    ensures Subscribe(w, src, req).0 == w
    ensures Subscribe(w, src, req).1 <==> exists i :: 0 <= i < 128 && !w.subs[i].valid
  {
  }
}
