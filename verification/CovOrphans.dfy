/**
 What a full address table does to the registry: the subscription is accepted without an address,
 and such an orphan answers to the object and process of any station.
 */
module CovOrphans {
  import opened Octets
  import opened CovModel
  import opened CovAddresses
  import opened CovRegistry

  /** An orphan is taken over by the first station that asks for the same object and process. */
  lemma OrphanIsTakenOver(w: World, i: nat, src: Address, req: Request)
    requires Exact(w) && i < |w.subs| && w.subs[i].valid && Subscriber(w, i).None?
    requires w.subs[i].monitored == req.monitored && w.subs[i].pid == req.pid && !req.cancel
    requires forall j :: 0 <= j < i ==> !Matches(w.addrs, w.subs[j], src, req)
    requires HasRoom(w, SubscribeCov(src, req))
    ensures var (v, ok) := Subscribe(w, src, req);
            && ok && (forall j :: 0 <= j < |w.subs| && j != i ==> v.subs[j] == w.subs[j])
            && Subscriber(v, i).Some? && Same(src, Subscriber(v, i).value)
  {
    assert Matches(w.addrs, w.subs[i], src, req);
    assert FirstMatch(w, src, req) == i;
    AddFacts(w.addrs, src);
  }

  // ---------- when a key ends up in two slots ----------

  ghost predicate Unique(es: seq<Option<Entry>>) {
    forall i, j :: 0 <= i < j < |es| && es[i].Some? && es[j].Some? ==> es[i].value.key != es[j].value.key
  }

  /** The request is answered by an orphan although some slot holds its key, and the orphan gets an address. */
  ghost predicate Doubles(w: World, e: Event) {
    && e.SubscribeCov? && !e.req.cancel && HasRoom(w, e)
    && (var i := FirstMatch(w, e.src, e.req); i < |w.subs| && Subscriber(w, i).None?)
    && Has(Entries(w), RequestKey(e.src, e.req))
  }

  lemma UniqueUpdate(es: seq<Option<Entry>>, i: nat, e: Option<Entry>)
    requires Unique(es) && i < |es|
    ensures Unique(es[i := e]) <==>
            e.None? || forall j :: 0 <= j < |es| && j != i && es[j].Some? ==> es[j].value.key != e.value.key
  {
    var fs := es[i := e];
    if Unique(fs) && e.Some? {
      forall j | 0 <= j < |es| && j != i && es[j].Some?
        ensures es[j].value.key != e.value.key
      {
        assert fs[j] == es[j] && fs[i] == e;
      }
    }
  }

  /** The entry that a request leaves in the slot it writes. */
  lemma WrittenEntry(w: World, src: Address, req: Request, i: nat, v: World)
    requires Exact(w) && i < |w.subs| && !req.cancel
    requires v == CreateAt(w, i, src, req) || (v == RenewAt(w, i, src, req) && Matches(w.addrs, w.subs[i], src, req))
    ensures var e := EntryOf(v.addrs, v.subs[i]);
            if HasRoom(w, SubscribeCov(src, req)) then e.Some? && e.value.key == RequestKey(src, req) else e == None
  {
    if HasRoom(w, SubscribeCov(src, req)) {
      RoomGivesEntry(w, src, req, i, v);
    } else {
      AddFacts(w.addrs, src);
    }
  }

  lemma EntryMatches(w: World, src: Address, req: Request, i: nat)
    requires i < |w.subs| && Entries(w)[i].Some?
    ensures Matches(w.addrs, w.subs[i], src, req) <==> Entries(w)[i].value.key == RequestKey(src, req)
  {
  }

  lemma WriteKeepsUniqueIff(w: World, src: Address, req: Request, i: nat, v: World)
    requires Exact(w) && Sized(v) && Unique(Entries(w)) && i < |w.subs| && !req.cancel
    requires Entries(v) == Entries(w)[i := EntryOf(v.addrs, v.subs[i])]
    requires if w.subs[i].valid then i == FirstMatch(w, src, req) && v == RenewAt(w, i, src, req)
             else FirstMatch(w, src, req) == |w.subs| && v == CreateAt(w, i, src, req)
    ensures Unique(Entries(v)) <==> !Doubles(w, SubscribeCov(src, req))
  {
    hide RenewAt;
    hide CreateAt;
    hide HasRoom;
    var es, k := Entries(w), RequestKey(src, req);
    forall j | 0 <= j < |es| && es[j].Some?
      ensures Matches(w.addrs, w.subs[j], src, req) <==> es[j].value.key == k
    {
      EntryMatches(w, src, req, j);
    }
    WrittenEntry(w, src, req, i, v);
    UniqueUpdate(es, i, EntryOf(v.addrs, v.subs[i]));
    assert es[i] == EntryOf(w.addrs, w.subs[i]);
  }

  lemma SubscribeKeepsUniqueIff(w: World, src: Address, req: Request)
    requires Exact(w) && Unique(Entries(w))
    ensures Unique(Entries(Subscribe(w, src, req).0)) <==> !Doubles(w, SubscribeCov(src, req))
  {
    var v, i, free := Subscribe(w, src, req).0, FirstMatch(w, src, req), FirstInvalid(w.subs);
    SubscribeKeepsExact(w, src, req);
    var at := if i < |w.subs| then i else free;
    if at < |w.subs| && v != w {
      assert forall j :: 0 <= j < |w.subs| && j != at ==> v.subs[j] == w.subs[j];
      OneEntryChanges(w, v, at);
      if req.cancel {
        UniqueUpdate(Entries(w), at, EntryOf(v.addrs, v.subs[at]));
      } else {
        WriteKeepsUniqueIff(w, src, req, at, v);
      }
    } else if i == |w.subs| {
      assert !Doubles(w, SubscribeCov(src, req));
    } else {
      assert v == w;
    }
  }

  lemma TickKeepsUnique(w: World, e: u32)
    requires Exact(w) && Unique(Entries(w))
    ensures Unique(Entries(Tick(w, e)))
  {
    var es, fs := Entries(w), Entries(Tick(w, e));
    forall i | 0 <= i < |es|
      ensures fs[i] == TickEntry(es[i], e)
    {
      TickEntries(w, e, i);
    }
  }

  /** Keys that are unique stay unique through an event exactly when it does not double one. */
  lemma StepKeepsUniqueIff(w: World, e: Event)
    requires Exact(w) && Unique(Entries(w))
    ensures Unique(Entries(Step(w, e))) <==> !Doubles(w, e)
  {
    match e
    case SubscribeCov(src, req) => SubscribeKeepsUniqueIff(w, src, req);
    case TimerSeconds(elapsed) => TickKeepsUnique(w, elapsed);
    case TaskCall(link) =>
      TaskKeepsTerms(w, link);
      assert Entries(Step(w, e)) == Entries(w);
    case _ => assert Entries(Step(w, e)) == Entries(w);
  }

  ghost predicate AlwaysUnique(w: World, es: seq<Event>)
    requires Sized(w)
    decreases |es|
  {
    Unique(Entries(Run(w, es))) && (es == [] || AlwaysUnique(w, es[..|es| - 1]))
  }

  ghost predicate NeverDoubles(w: World, es: seq<Event>)
    requires Sized(w)
    decreases |es|
  {
    es == [] || (NeverDoubles(w, es[..|es| - 1]) && !Doubles(Run(w, es[..|es| - 1]), es[|es| - 1]))
  }

  /** Throughout a run no key is in two slots exactly when no request of the run doubles one. */
  lemma {:induction false} UniqueIffNeverDoubled(w: World, es: seq<Event>)
    requires Initial(w)
    ensures AlwaysUnique(w, es) <==> NeverDoubles(w, es)
    decreases |es|
  {
    if es != [] {
      var front := es[..|es| - 1];
      UniqueIffNeverDoubled(w, front);
      AddressTableIsExact(w, front);
      if AlwaysUnique(w, front) {
        StepKeepsUniqueIff(Run(w, front), es[|es| - 1]);
      }
    }
  }

  // ---------- a run in which a key ends up in two slots ----------

  function StationAddress(n: nat): Address
    requires n < 17
  {
    Address(0, [0, 0, 0, 0, 0, 0, 0], n + 1, 0, [0, 0, 0, 0, 0, 0, 0])
  }

  function Ask(n: nat, pid: u32, cancel: bool): Event
    requires n < 17
  {
    SubscribeCov(StationAddress(n), Request(pid, ObjectId(0, 1), cancel, false, 0))
  }

  /** Station 0 holds subscriptions of process 1 and process 0, stations 1 to n - 1 of process 0. */
  ghost predicate Crowded(w: World, n: nat) {
    && Sized(w) && n <= 16
    && w.subs[0].valid && w.subs[0].pid == 1 && w.subs[0].dest == 0
    && (forall j :: 0 <= j < |w.subs| && w.subs[j].valid ==> w.subs[j].monitored == ObjectId(0, 1))
    && (forall j :: 1 <= j < |w.subs| ==> (w.subs[j].valid <==> j <= n))
    && (forall j :: 1 <= j <= n ==> w.subs[j].pid == 0 && w.subs[j].dest == j - 1)
    && (forall a :: 0 <= a < |w.addrs| ==> (w.addrs[a].valid <==> a == 0 || a < n))
    && (forall a :: 0 <= a < |w.addrs| && w.addrs[a].valid ==> w.addrs[a].dest == StationAddress(a))
  }

  ghost predicate Crowds(w: World, es: seq<Event>, n: nat)
    requires Sized(w)
  {
    LegalRun(w, es) && Crowded(Run(w, es), n)
  }

  lemma RunGoesOn(w: World, es: seq<Event>, e: Event)
    requires Sized(w) && LegalRun(w, es) && e.SubscribeCov?
    ensures LegalRun(w, es + [e]) && Run(w, es + [e]) == Step(Run(w, es), e)
  {
    assert (es + [e])[..|es|] == es;
  }

  lemma OneMoreCrowds(w: World, es: seq<Event>, n: nat)
    requires Sized(w) && 1 <= n <= 16 && Crowds(w, es, n - 1)
    ensures Crowds(w, es + [Ask(n - 1, 0, false)], n)
  {
    NextJoins(Run(w, es), n);
    RunGoesOn(w, es, Ask(n - 1, 0, false));
    hide Crowded;
    hide Run;
    hide LegalRun;
  }

  lemma FirstJoins(w: World)
    requires Initial(w)
    ensures Crowds(w, [Ask(0, 1, false)], 0)
  {
    var e := Ask(0, 1, false);
    RunGoesOn(w, [], e);
    assert [] + [e] == [e];
    assert FirstMatch(w, e.src, e.req) == |w.subs| && FirstInvalid(w.subs) == 0;
    assert FirstSame(w.addrs, e.src) == |w.addrs| && FirstFree(w.addrs) == 0;
  }

  lemma {:induction false} AddressesFill(w: World, n: nat) returns (es: seq<Event>)
    requires Initial(w) && n <= 16
    ensures Crowds(w, es, n)
  {
    if n == 0 {
      FirstJoins(w);
      es := [Ask(0, 1, false)];
    } else {
      es := AddressesFill(w, n - 1);
      OneMoreCrowds(w, es, n);
      es := es + [Ask(n - 1, 0, false)];
    }
  }

  lemma NextJoins(w: World, n: nat)
    requires 1 <= n <= 16 && Crowded(w, n - 1)
    ensures Crowded(Step(w, Ask(n - 1, 0, false)), n)
  {
    hide FirstMatch;
    hide FirstInvalid;
    hide AddressAdd;
    hide RemoveUnused;
    NextIsNew(w, n);
    NextAddress(w, n);
  }

  lemma NextIsNew(w: World, n: nat)
    requires 1 <= n <= 16 && Crowded(w, n - 1)
    ensures FirstMatch(w, Ask(n - 1, 0, false).src, Ask(n - 1, 0, false).req) == |w.subs|
    ensures FirstInvalid(w.subs) == n
  {
    assert !w.subs[n].valid && forall j :: 0 <= j < n ==> w.subs[j].valid;
  }

  lemma NextAddress(w: World, n: nat)
    requires 1 <= n <= 16 && Crowded(w, n - 1)
    ensures AddressAdd(w.addrs, StationAddress(n - 1)) ==
            (if n == 1 then w.addrs else w.addrs[n - 1 := AddressSlot(true, StationAddress(n - 1))], n - 1)
  {
    var src := StationAddress(n - 1);
    if n == 1 {
      assert FirstSame(w.addrs, src) == 0;
    } else {
      assert FirstSame(w.addrs, src) == |w.addrs|;
      assert FirstFree(w.addrs) == n - 1;
    }
  }

  ghost predicate Gap(w: World, orphan: bool) {
    && Sized(w)
    && (w.subs[0].valid <==> orphan)
    && (orphan ==> w.subs[0].monitored == ObjectId(0, 1) && w.subs[0].pid == 0 && w.subs[0].dest == NO_ADDRESS)
    && (forall j :: 1 <= j < |w.subs| ==> (w.subs[j].valid <==> j <= 16))
    && (forall j :: 1 <= j <= 16 ==>
         w.subs[j].monitored == ObjectId(0, 1) && w.subs[j].pid == 0 && w.subs[j].dest == j - 1)
    && (forall a :: 0 <= a < |w.addrs| ==> w.addrs[a] == AddressSlot(true, StationAddress(a)))
  }

  lemma CancelFirst(w: World)
    requires Crowded(w, 16)
    ensures Gap(Step(w, Ask(0, 1, true)), false)
  {
    var src, req := Ask(0, 1, true).src, Ask(0, 1, true).req;
    assert Matches(w.addrs, w.subs[0], src, req);
    assert FirstMatch(w, src, req) == 0;
    var v := CancelAt(w, 0);
    forall a | 0 <= a < |w.addrs|
      ensures Referenced(v.subs, a)
    {
      assert v.subs[a + 1].valid && v.subs[a + 1].dest == a;
    }
  }

  lemma OrphanJoins(w: World)
    requires Gap(w, false)
    ensures Gap(Step(w, Ask(16, 0, false)), true)
  {
    var src, req := Ask(16, 0, false).src, Ask(16, 0, false).req;
    assert FirstMatch(w, src, req) == |w.subs|;
    assert FirstInvalid(w.subs) == 0;
    assert FirstSame(w.addrs, src) == |w.addrs|;
    assert FirstFree(w.addrs) == |w.addrs|;
  }

  lemma RenewalTakesOrphan(w: World)
    requires Gap(w, true)
    ensures var v := Step(w, Ask(1, 0, false));
            && v.addrs == w.addrs && v.subs[2] == w.subs[2]
            && v.subs[0].valid && v.subs[0].dest == 1
            && v.subs[0].monitored == ObjectId(0, 1) && v.subs[0].pid == 0
  {
    var src, req := Ask(1, 0, false).src, Ask(1, 0, false).req;
    assert Matches(w.addrs, w.subs[0], src, req);
    assert FirstMatch(w, src, req) == 0;
    assert w.addrs[1].valid && Same(src, w.addrs[1].dest);
    assert FirstSame(w.addrs, src) == 1;
  }

  lemma KeysMeet(w: World)
    requires Gap(w, true)
    ensures var v := Step(w, Ask(1, 0, false)); InTwoSlots(v, 0, 2)
  {
    RenewalTakesOrphan(w);
  }

  ghost predicate InTwoSlots(w: World, i: nat, j: nat) {
    && i < j < |w.subs| && w.subs[i].valid && w.subs[j].valid
    && EntryOf(w.addrs, w.subs[i]).Some? && EntryOf(w.addrs, w.subs[j]).Some?
    && EntryOf(w.addrs, w.subs[i]).value.key == EntryOf(w.addrs, w.subs[j]).value.key
  }

  /**
   With the sixteen addresses in use, station 0 cancels process 1, station 16 subscribes as an orphan and station 1
   renews: its key is then in slots 0 and 2, and the tables represent no registry.
   */
  lemma KeyInTwoSlots(w: World) returns (es: seq<Event>)
    requires Initial(w)
    ensures LegalRun(w, es) && InTwoSlots(Run(w, es), 0, 2)
    ensures !AlwaysRepresents(w, es)
  {
    es := AddressesFill(w, 16);
    CancelFirst(Run(w, es));
    hide Crowded;
    hide Run;
    hide LegalRun;
    hide Step;
    hide Gap;
    hide InTwoSlots;
    RunGoesOn(w, es, Ask(0, 1, true));
    es := es + [Ask(0, 1, true)];
    OrphanJoins(Run(w, es));
    RunGoesOn(w, es, Ask(16, 0, false));
    es := es + [Ask(16, 0, false)];
    KeysMeet(Run(w, es));
    RunGoesOn(w, es, Ask(1, 0, false));
    es := es + [Ask(1, 0, false)];
    TwoSlotsNoRegistry(Run(w, es), RegistryRun(es));
  }

  lemma TwoSlotsNoRegistry(w: World, m: Registry)
    requires InTwoSlots(w, 0, 2)
    ensures !Represents(w, m)
  {
    assert Entries(w)[0] == EntryOf(w.addrs, w.subs[0]) && Entries(w)[2] == EntryOf(w.addrs, w.subs[2]);
  }
}
