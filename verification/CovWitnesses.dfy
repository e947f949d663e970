/**
 Runs from initialisation in which the service does less than its clients may expect: a cancellation is refused,
 a change is lost, and another client's transaction is closed.
 */
module CovWitnesses {
  import opened Octets
  import opened CovModel
  import opened CovOrphans
  import opened CovTransactions
  import opened CovScheduler
  import opened CovNoLoss
  import Tsm

  const LAMP := ObjectId(0, 1)

  // ---------- an unmatched cancellation that is refused ----------

  /** Station 0 holds the subscriptions of the processes 0 to n - 1. */
  ghost predicate Filled(w: World, n: nat) {
    && Sized(w)
    && (forall i :: 0 <= i < |w.subs| ==> (w.subs[i].valid <==> i < n))
    && (forall i :: 0 <= i < |w.subs| && i < n ==> w.subs[i].pid == i)
    && (forall a :: 0 <= a < |w.addrs| ==> (w.addrs[a].valid <==> a == 0 < n))
    && (n > 0 ==> w.addrs[0].dest == StationAddress(0))
  }

  lemma OneMoreFills(w: World, n: nat)
    requires n < MAX_COV_SUBSCRIPTIONS && Filled(w, n)
    ensures Filled(Step(w, Ask(0, n, false)), n + 1)
  {
    var src, req := StationAddress(0), Request(n, LAMP, false, false, 0);
    assert FirstMatch(w, src, req) == |w.subs|;
    assert !w.subs[n].valid && forall j :: 0 <= j < n ==> w.subs[j].valid;
    assert FirstInvalid(w.subs) == n;
    if n == 0 {
      assert FirstSame(w.addrs, src) == |w.addrs| && FirstFree(w.addrs) == 0;
    } else {
      assert FirstSame(w.addrs, src) == 0;
    }
  }

  ghost predicate FilledBy(w: World, es: seq<Event>, n: nat)
    requires Sized(w)
  {
    LegalRun(w, es) && Filled(Run(w, es), n)
  }

  lemma NextFills(w: World, es: seq<Event>, n: nat)
    requires Sized(w) && n < MAX_COV_SUBSCRIPTIONS && FilledBy(w, es, n)
    ensures FilledBy(w, es + [Ask(0, n, false)], n + 1)
  {
    OneMoreFills(Run(w, es), n);
    hide Filled;
    assert (es + [Ask(0, n, false)])[..|es|] == es;
  }

  lemma {:induction false} SlotsFill(w: World, n: nat) returns (es: seq<Event>)
    requires Initial(w) && n <= MAX_COV_SUBSCRIPTIONS
    ensures FilledBy(w, es, n)
  {
    if n == 0 {
      es := [];
    } else {
      es := SlotsFill(w, n - 1);
      NextFills(w, es, n - 1);
      es := es + [Ask(0, n - 1, false)];
    }
  }

  /** A legal run after which the cancellation of a subscription that does not exist is refused. */
  lemma CancellationRefused(w: World) returns (es: seq<Event>)
    requires Initial(w)
    ensures var v, e := Run(w, es), Ask(0, MAX_COV_SUBSCRIPTIONS, true);
            LegalRun(w, es) && FirstMatch(v, e.src, e.req) == |v.subs| && !Subscribe(v, e.src, e.req).1
  {
    es := SlotsFill(w, MAX_COV_SUBSCRIPTIONS);
  }

  // ---------- task calls in which nothing happens ----------

  const GO := Link(true, 1, true)

  /** The world with the task at a position of its cycle; the end of the cycle is its start. */
  function At(w: World, position: nat): World
    requires position <= CYCLE
  {
    w.(phase := if position == 0 || position == CYCLE then Idle
                else if position < PhaseStart(Clear) then Mark
                else if position < PhaseStart(Free) then Clear
                else if position < PhaseStart(Send) then Free else Send,
       index := if position == 0 then 0 else (position - 1) % MAX_COV_SUBSCRIPTIONS)
  }

  lemma AtPosition(w: World)
    requires Placed(w)
    ensures Position(w) < CYCLE && At(w, Position(w)) == w
  {
  }

  lemma AtFacts(w: World, p: nat)
    requires Sized(w) && p <= CYCLE
    ensures var v := At(w, p);
            && Placed(v) && Position(v) == (if p == CYCLE then 0 else p)
            && (p < CYCLE ==> (v.phase == Send <==> p >= PhaseStart(Send)))
            && v.subs == w.subs && v.addrs == w.addrs && v.tsm == w.tsm && v.flags == w.flags
            && (p == PhaseStart(Send) ==> v.index == 0)
            && (p == 2 ==> v.phase == Mark && v.index == 1)
    ensures forall q: nat :: q <= CYCLE ==> At(At(w, p), q) == At(w, q)
  {
  }

  ghost predicate Calm(w: World) {
    Sized(w) && w.flags == {} && forall i :: 0 <= i < |w.subs| ==> w.subs[i].invokeId == 0
  }

  ghost predicate NothingPending(w: World) {
    forall i :: 0 <= i < |w.subs| ==> !(w.subs[i].valid && w.subs[i].sendRequested)
  }

  lemma CalmTask(w: World)
    requires Calm(w) && Placed(w) && (w.phase == Send ==> NothingPending(w))
    ensures HandedOut(w, TaskCall(GO)) == {}
    ensures Task(w, GO) == At(w, Position(w) + 1)
  {
    assert w.flags - {w.subs[w.index].monitored} == w.flags;
  }

  /** The run is legal, the TSM hands out invoke IDs in rotation and is at current, and mine are ours. */
  ghost predicate Ledger(w: World, es: seq<Event>, current: u8, mine: set<u8>)
    requires Sized(w)
  {
    LegalRun(w, es) && Rotating(w, es) && Current(w, es) == current && Mine(w, es) == mine
  }

  lemma LedgerGoesOn(w: World, es: seq<Event>, e: Event, current: u8, mine: set<u8>)
    requires Sized(w) && Ledger(w, es, current, mine) && Legal(Run(w, es), e) && HandedOut(Run(w, es), e) == {}
    ensures Run(w, es + [e]) == Step(Run(w, es), e)
    ensures Ledger(w, es + [e], current, mine * Run(w, es + [e]).tsm.Keys)
  {
    assert (es + [e])[..|es|] == es;
    assert Opened(Run(w, es), e) == {};
  }

  lemma LedgerHandsOut(w: World, es: seq<Event>, e: Event, current: u8, mine: set<u8>)
    requires Sized(w) && Ledger(w, es, current, mine) && Legal(Run(w, es), e) && HandedOut(Run(w, es), e) == {current}
    requires current != 0 && current !in Run(w, es).tsm
    ensures Run(w, es + [e]) == Step(Run(w, es), e)
    ensures Ledger(w, es + [e], Tsm.Next(current), (mine + Opened(Run(w, es), e)) * Run(w, es + [e]).tsm.Keys)
  {
    assert (es + [e])[..|es|] == es;
    Tsm.BehindNext(current, 0);
    assert Tsm.FirstUnused(Run(w, es).tsm, current, current);
  }

  lemma OneMoreCall(w: World, es: seq<Event>, u: World, p: nat, current: u8)
    requires Sized(w) && Ledger(w, es, current, {}) && Calm(u) && p < CYCLE && 1 !in u.tsm
    requires Run(w, es) == At(u, p) && (p < PhaseStart(Send) || NothingPending(u))
    ensures Run(w, es + [TaskCall(GO)]) == At(u, p + 1) && Ledger(w, es + [TaskCall(GO)], current, {})
  {
    hide Run;
    hide Ledger;
    hide At;
    hide Placed;
    hide Position;
    hide HandedOut;
    hide Task;
    AtFacts(u, p);
    CalmTask(Run(w, es));
    LedgerGoesOn(w, es, TaskCall(GO), current, {});
    assert {} * Run(w, es + [TaskCall(GO)]).tsm.Keys == {};
  }

  /** From u nothing is sent up to position p: nothing is asked for, or SEND is not reached. */
  ghost predicate StaysCalm(u: World, p: nat) {
    && Calm(u) && 1 !in u.tsm && Position(u) <= p <= CYCLE && Placed(u)
    && (p <= PhaseStart(Send) || NothingPending(u))
  }

  /** The events lead from world u to position p and nowhere else. */
  ghost predicate Reaches(w: World, es: seq<Event>, u: World, p: nat, current: u8)
    requires Sized(w) && p <= CYCLE
  {
    Run(w, es) == At(u, p) && Ledger(w, es, current, {})
  }

  lemma CallReaches(w: World, es: seq<Event>, u: World, p: nat, current: u8)
    requires Sized(w) && StaysCalm(u, p + 1) && Reaches(w, es, u, p, current)
    ensures Reaches(w, es + [TaskCall(GO)], u, p + 1, current)
  {
    hide Run;
    hide Ledger;
    hide At;
    OneMoreCall(w, es, u, p, current);
  }

  /** With n more task calls. */
  lemma {:induction false} CallsReach(w: World, es: seq<Event>, n: nat, u: World, current: u8)
    returns (fs: seq<Event>)
    requires Sized(w) && StaysCalm(u, Position(u) + n)
    requires Reaches(w, es, u, Position(u), current)
    ensures Reaches(w, fs, u, Position(u) + n, current)
  {
    hide Reaches;
    hide Position;
    if n == 0 {
      fs := es;
    } else {
      fs := CallsReach(w, es, n - 1, u, current);
      CallReaches(w, fs, u, Position(u) + n - 1, current);
      fs := fs + [TaskCall(GO)];
    }
  }

  // ---------- one subscription ----------

  function AskFirst(confirmed: bool): Event {
    SubscribeCov(StationAddress(0), Request(0, LAMP, false, confirmed, 0))
  }

  /** One subscription in slot 0, by station 0. */
  ghost predicate Single(w: World, confirmed: bool, pending: bool, invokeId: u8) {
    && Sized(w) && w.flags == {}
    && w.subs[0] == Slot(true, confirmed, pending, 0, invokeId, 0, 0, LAMP)
    && (forall i :: 1 <= i < |w.subs| ==> w.subs[i] == EMPTY_SLOT)
    && w.addrs[0] == AddressSlot(true, StationAddress(0))
    && (forall a :: 1 <= a < |w.addrs| ==> !w.addrs[a].valid)
  }

  /** After initialisation in a quiet environment. */
  ghost predicate Fresh(w: World) {
    Initial(w) && w.tsm == map[] && w.flags == {}
  }

  lemma FirstSubscribes(w: World, confirmed: bool)
    requires Fresh(w)
    ensures var es := [AskFirst(confirmed)];
            && Run(w, es) == Step(w, AskFirst(confirmed)) && Single(Run(w, es), confirmed, true, 0)
            && Run(w, es).tsm == map[] && Placed(Run(w, es)) && Position(Run(w, es)) == 0
            && Ledger(w, es, 1, {})
  {
    var e := AskFirst(confirmed);
    LedgerGoesOn(w, [], e, 1, {});
    assert [] + [e] == [e];
    assert FirstMatch(w, e.src, e.req) == |w.subs| && FirstInvalid(w.subs) == 0;
    assert FirstSame(w.addrs, e.src) == |w.addrs| && FirstFree(w.addrs) == 0;
  }

  lemma FirstSend(u: World, confirmed: bool)
    requires Single(u, confirmed, true, 0) && u.phase == Send && u.index == 0 && u.tsm == map[]
    ensures Legal(u, TaskCall(GO)) && HandedOut(u, TaskCall(GO)) == Opened(u, TaskCall(GO))
    ensures Opened(u, TaskCall(GO)) == if confirmed then {1} else {}
    ensures var v := Task(u, GO);
            && Single(v, confirmed, false, if confirmed then 1 else 0)
            && v.tsm == (if confirmed then map[1 := Awaiting] else map[])
            && Placed(v) && Position(v) == PhaseStart(Send) + 1
  {
  }

  lemma NextIsSent(w: World, es: seq<Event>, confirmed: bool)
    requires Sized(w) && Ledger(w, es, 1, {})
    requires var u := Run(w, es); Single(u, confirmed, true, 0) && u.phase == Send && u.index == 0 && u.tsm == map[]
    ensures Run(w, es + [TaskCall(GO)]) == Task(Run(w, es), GO)
    ensures Ledger(w, es + [TaskCall(GO)], if confirmed then 2 else 1, if confirmed then {1} else {})
  {
    FirstSend(Run(w, es), confirmed);
    hide Run;
    hide Ledger;
    hide Single;
    hide Task;
    hide HandedOut;
    if confirmed {
      LedgerHandsOut(w, es, TaskCall(GO), 1, {});
    } else {
      LedgerGoesOn(w, es, TaskCall(GO), 1, {});
    }
  }

  /** The subscription was entered, and has just been notified for the first time. */
  ghost predicate Notified(w: World, es: seq<Event>, confirmed: bool)
    requires Sized(w)
  {
    var v := Run(w, es);
    && Single(v, confirmed, false, if confirmed then 1 else 0)
    && v.tsm == (if confirmed then map[1 := Awaiting] else map[])
    && Placed(v) && Position(v) == PhaseStart(Send) + 1
    && Ledger(w, es, if confirmed then 2 else 1, if confirmed then {1} else {})
  }

  lemma SendIsReached(w: World, confirmed: bool) returns (es: seq<Event>)
    requires Fresh(w)
    ensures var u := Run(w, es); Single(u, confirmed, true, 0) && u.phase == Send && u.index == 0 && u.tsm == map[]
    ensures Ledger(w, es, 1, {})
  {
    FirstSubscribes(w, confirmed);
    es := [AskFirst(confirmed)];
    var v, n := Run(w, es), PhaseStart(Send);
    AtPosition(v);
    AtFacts(v, n);
    hide Run;
    hide Ledger;
    hide At;
    es := CallsReach(w, es, n, v, 1);
  }

  lemma FirstIsNotified(w: World, confirmed: bool) returns (es: seq<Event>)
    requires Fresh(w)
    ensures Notified(w, es, confirmed)
  {
    es := SendIsReached(w, confirmed);
    FirstSend(Run(w, es), confirmed);
    NextIsSent(w, es, confirmed);
    hide Run;
    hide Ledger;
    hide Single;
    hide Task;
    es := es + [TaskCall(GO)];
  }

  // ---------- a change that is lost ----------

  /** The task is behind slot 0, which is passed over, in MARK; slot 1 watches the same object. */
  ghost predicate MidSweep(w: World) {
    && Placed(w) && Position(w) == PhaseStart(Mark) + 1 && w.tsm == map[]
    && w.subs[0].valid && w.subs[0].monitored == LAMP && !w.subs[0].sendRequested
    && w.subs[1].valid && w.subs[1].monitored == LAMP && w.subs[1].sendRequested
  }

  lemma SecondSubscribes(u: World)
    requires Single(u, false, false, 0) && u.phase == Mark && u.index == 1 && u.tsm == map[]
    ensures MidSweep(Step(u, Ask(1, 0, false)))
  {
    var e := Ask(1, 0, false);
    assert StationOf(StationAddress(0)).mac == [] && StationOf(StationAddress(0)).net == 1;
    assert !Same(e.src, u.addrs[0].dest);
    assert FirstMatch(u, e.src, e.req) == |u.subs|;
    assert u.subs[0].valid && !u.subs[1].valid;
    assert FirstInvalid(u.subs) == 1;
  }

  lemma NonePending(w: World)
    requires Single(w, false, false, 0)
    ensures Calm(w) && NothingPending(w)
    ensures forall p: nat :: p < CYCLE ==> Single(At(w, p), false, false, 0)
  {
  }

  /** The end of a cycle is the start of the next. */
  lemma CycleStarts(w: World, es: seq<Event>, u: World, current: u8)
    requires Sized(w) && Sized(u) && Reaches(w, es, u, CYCLE, current)
    ensures Reaches(w, es, At(u, CYCLE), Position(At(u, CYCLE)), current) && Position(At(u, CYCLE)) == 0
    ensures At(At(u, CYCLE), 2) == At(u, 2)
  {
    hide Run;
    hide Ledger;
  }

  lemma RestIsCalm(u: World)
    requires Single(u, false, false, 0) && u.tsm == map[] && Placed(u) && Position(u) == PhaseStart(Send) + 1
    ensures StaysCalm(u, CYCLE) && StaysCalm(At(u, CYCLE), 2)
  {
    NonePending(u);
    AtFacts(u, CYCLE);
    hide At;
  }

  lemma GoesAround(w: World, es: seq<Event>, u: World, n: nat, k: nat) returns (fs: seq<Event>)
    requires Sized(w) && StaysCalm(u, CYCLE) && Reaches(w, es, u, Position(u), 1) && Position(u) + n == CYCLE
    requires k <= CYCLE && StaysCalm(At(u, CYCLE), k)
    ensures Reaches(w, fs, At(u, CYCLE), k, 1)
  {
    hide Reaches;
    hide At;
    fs := CallsReach(w, es, n, u, 1);
    CycleStarts(w, fs, u, 1);
    fs := CallsReach(w, fs, k, At(u, CYCLE), 1);
  }

  /** In the next cycle MARK has just passed over slot 0. */
  ghost predicate PassedBy(w: World, es: seq<Event>)
    requires Sized(w)
  {
    var v := Run(w, es);
    Single(v, false, false, 0) && v.phase == Mark && v.index == 1 && v.tsm == map[] && LegalRun(w, es)
  }

  lemma SlotIsPassedOver(w: World) returns (es: seq<Event>)
    requires Fresh(w)
    ensures PassedBy(w, es)
  {
    es := FirstIsNotified(w, false);
    var u := Run(w, es);
    NonePending(u);
    RestIsCalm(u);
    AtPosition(u);
    AtFacts(u, CYCLE);
    AtFacts(u, 2);
    hide Run;
    hide LegalRun;
    hide At;
    hide Single;
    es := GoesAround(w, es, u, MAX_COV_SUBSCRIPTIONS - 1, 2);
  }

  /** A run in a sweep behind slot 0. */
  ghost predicate Sweeping(w: World, es: seq<Event>, p: nat)
    requires Sized(w)
  {
    var v := Run(w, es);
    && LegalRun(w, es) && 0 in Untold(w, es) && v.tsm == map[] && Placed(v) && Position(v) == p >= 2
    && v.subs[0].valid && v.subs[0].monitored == LAMP && !v.subs[0].sendRequested
    && v.subs[1].valid && v.subs[1].monitored == LAMP && v.subs[1].sendRequested
  }

  lemma RunGoesOn(w: World, es: seq<Event>, e: Event)
    requires Sized(w) && LegalRun(w, es) && Legal(Run(w, es), e)
    ensures LegalRun(w, es + [e]) && Run(w, es + [e]) == Step(Run(w, es), e)
    ensures Untold(w, es + [e]) == UntoldAfter(Run(w, es), e, Untold(w, es))
  {
    assert (es + [e])[..|es|] == es;
  }

  /** The object changes after the second station has subscribed. */
  lemma ChangeComesSecond(w: World, es: seq<Event>)
    requires Sized(w) && PassedBy(w, es)
    ensures Sweeping(w, es + [Ask(1, 0, false)] + [Raise(LAMP)], PhaseStart(Mark) + 1)
  {
    var e, r := Ask(1, 0, false), Raise(LAMP);
    SecondSubscribes(Run(w, es));
    RunGoesOn(w, es, e);
    RunGoesOn(w, es + [e], r);
    hide Single;
    hide Run;
    hide LegalRun;
    hide Untold;
    assert 0 in Watchers(Run(w, es + [e]), LAMP);
  }

  lemma NothingWillClear(u: World)
    requires Single(u, false, false, 0) && u.phase == Mark && u.index == 1
    ensures !WillClear(u, LAMP)
  {
  }

  /** It changes before the second station subscribes, and nothing is there yet that would take its flag down. */
  lemma ChangeComesFirst(w: World, es: seq<Event>)
    requires Sized(w) && PassedBy(w, es)
    ensures Sweeping(w, es + [Raise(LAMP)] + [Ask(1, 0, false)], PhaseStart(Mark) + 1)
    ensures !WillClear(Run(w, es), LAMP)
  {
    var u, e, r := Run(w, es), Ask(1, 0, false), Raise(LAMP);
    SecondSubscribes(u);
    RunGoesOn(w, es, r);
    RunGoesOn(w, es + [r], e);
    assert 0 in Watchers(u, LAMP);
    NothingWillClear(u);
    SameAfterChange(u, e);
    hide Run;
    hide LegalRun;
    hide Untold;
    hide Single;
    hide Subscribe;
  }

  /** A request does not look at the flags. */
  lemma SameAfterChange(u: World, e: Event)
    requires Sized(u) && e.SubscribeCov?
    ensures var v := Step(u, e); Step(Step(u, Raise(LAMP)), e) == v.(flags := v.flags + {LAMP})
  {
  }

  lemma SweepTask(v: World)
    requires Placed(v) && 2 <= Position(v) < PhaseStart(Free)
    ensures var t := Task(v, GO);
            && t.subs[0] == v.subs[0] && t.tsm == v.tsm && Placed(t) && Position(t) == Position(v) + 1
            && (v.subs[1].sendRequested ==> t.subs[1] == v.subs[1])
            && !Sends(v, TaskCall(GO), v.index)
  {
  }

  lemma SweepOn(w: World, es: seq<Event>, p: nat)
    requires Sized(w) && Sweeping(w, es, p) && p < PhaseStart(Free)
    ensures Sweeping(w, es + [TaskCall(GO)], p + 1)
  {
    SweepTask(Run(w, es));
    RunGoesOn(w, es, TaskCall(GO));
    hide Run;
    hide LegalRun;
    hide Untold;
    hide Position;
    hide Placed;
    hide Task;
    hide Sends;
  }

  lemma {:induction false} SweepsTo(w: World, es: seq<Event>, p: nat, n: nat) returns (fs: seq<Event>)
    requires Sized(w) && Sweeping(w, es, p) && p + n <= PhaseStart(Free)
    ensures es <= fs && Sweeping(w, fs, p + n)
  {
    hide Sweeping;
    if n == 0 {
      fs := es;
    } else {
      fs := SweepsTo(w, es, p, n - 1);
      SweepOn(w, fs, p + n - 1);
      fs := fs + [TaskCall(GO)];
    }
  }

  /** The CLEAR visit of slot 1 is hasty: slot 0 has yet to be told. */
  lemma SecondIsHasty(w: World, es: seq<Event>)
    requires Sized(w) && Sweeping(w, es, PhaseStart(Clear) + 1)
    ensures Hasty(Run(w, es), TaskCall(GO), Untold(w, es))
  {
    var u := Run(w, es);
    assert u.phase == Clear && u.index == 1;
    assert Waits(u, Untold(w, es), LAMP, 0);
  }

  lemma SweepLoses(w: World, es: seq<Event>) returns (fs: seq<Event>)
    requires Sized(w) && Sweeping(w, es, PhaseStart(Mark) + 1)
    ensures es <= fs && LegalRun(w, fs) && !NothingLost(Run(w, fs), Untold(w, fs))
  {
    fs := SweepsTo(w, es, PhaseStart(Mark) + 1, MAX_COV_SUBSCRIPTIONS);
    SecondIsHasty(w, fs);
    WhenHasty(Run(w, fs), TaskCall(GO), Untold(w, fs));
    RunGoesOn(w, fs, TaskCall(GO));
    hide Run;
    hide NothingLost;
    hide LegalRun;
    hide Untold;
    hide Hasty;
    fs := fs + [TaskCall(GO)];
  }

  /** A legal run after which a slot has not been told of a change, and nothing is left that would tell it. */
  lemma ChangeIsLost(w: World) returns (es: seq<Event>)
    requires Fresh(w)
    ensures LegalRun(w, es) && !NothingLost(Run(w, es), Untold(w, es))
  {
    es := SlotIsPassedOver(w);
    ChangeComesSecond(w, es);
    es := SweepLoses(w, es + [Ask(1, 0, false)] + [Raise(LAMP)]);
  }

  /**
   A change is lost although nothing is there that would take the flag down when it comes: a station that
   subscribes in the rest of the sweep does.
   */
  lemma ChangeIsLostLater(w: World) returns (before: seq<Event>, es: seq<Event>)
    requires Fresh(w)
    ensures before + [Raise(LAMP)] <= es && Run(w, before).phase == Mark && !WillClear(Run(w, before), LAMP)
    ensures LegalRun(w, es) && !NothingLost(Run(w, es), Untold(w, es))
  {
    before := SlotIsPassedOver(w);
    ChangeComesFirst(w, before);
    es := SweepLoses(w, before + [Raise(LAMP)] + [Ask(1, 0, false)]);
  }

  // ---------- a transaction that is closed for another client ----------

  /** The first notification was answered, and all IDs up to n have been handed out and are free again. */
  ghost predicate Around(w: World, es: seq<Event>, n: u8)
    requires Sized(w)
  {
    Single(Run(w, es), true, false, 1) && Run(w, es).tsm == map[] && Ledger(w, es, Tsm.Next(n), {})
  }

  lemma NextGoesAround(w: World, es: seq<Event>, n: u8)
    requires Sized(w) && n < 255 && Around(w, es, n)
    ensures Around(w, es + [TsmOpened(n + 1)] + [TsmClosed(n + 1)], n + 1)
  {
    hide Run;
    hide Ledger;
    var fs := es + [TsmOpened(n + 1)];
    LedgerHandsOut(w, es, TsmOpened(n + 1), n + 1, {});
    assert ({} + Opened(Run(w, es), TsmOpened(n + 1))) * Run(w, fs).tsm.Keys == {};
    LedgerGoesOn(w, fs, TsmClosed(n + 1), Tsm.Next(n + 1), {});
    assert {} * Run(w, fs + [TsmClosed(n + 1)]).tsm.Keys == {};
  }

  lemma {:induction false} AroundTheTable(w: World, n: u8) returns (es: seq<Event>)
    requires Fresh(w) && 1 <= n
    ensures Around(w, es, n)
    decreases n
  {
    if n == 1 {
      es := FirstIsNotified(w, true);
      LedgerGoesOn(w, es, TsmClosed(1), 2, {1});
      es := es + [TsmClosed(1)];
    } else {
      es := AroundTheTable(w, n - 1);
      NextGoesAround(w, es, n - 1);
      es := es + [TsmOpened(n)] + [TsmClosed(n)];
    }
  }

  /** The cancellation of the subscription of station 0. */
  function CancelFirst(): Event {
    SubscribeCov(StationAddress(0), Request(0, LAMP, true, false, 0))
  }

  lemma ReleasesReused(u: World)
    requires Single(u, true, false, 1)
    ensures Step(u, CancelFirst()).tsm == u.tsm - {1}
  {
    var e := CancelFirst();
    assert Matches(u.addrs, u.subs[0], e.src, e.req);
    assert FirstMatch(u, e.src, e.req) == 0;
  }

  lemma ReuseAfter(w: World, es: seq<Event>)
    requires Sized(w) && Single(Run(w, es), true, false, 1) && Run(w, es).tsm == map[]
    requires Ledger(w, es, 1, {})
    ensures var fs := es + [TsmOpened(1)];
            && LegalRun(w, fs + [CancelFirst()]) && Rotating(w, fs + [CancelFirst()])
            && 1 in Run(w, fs).tsm && 1 !in Mine(w, fs) && 1 !in Run(w, fs + [CancelFirst()]).tsm
  {
    var fs := es + [TsmOpened(1)];
    LedgerHandsOut(w, es, TsmOpened(1), 1, {});
    ReleasesReused(Run(w, fs));
    LedgerGoesOn(w, fs, CancelFirst(), 2, {});
  }

  /**
   The reply to a notification frees its invoke ID 1. Before the task visits the slot again, the TSM has gone
   around all its IDs and has handed out 1 to another client; the cancellation of the subscription closes
   that client's transaction.
   */
  lemma ReusedIdIsReleased(w: World) returns (es: seq<Event>)
    requires Fresh(w)
    ensures LegalRun(w, es + [CancelFirst()]) && Rotating(w, es + [CancelFirst()])
    ensures 1 in Run(w, es).tsm && 1 !in Mine(w, es) && 1 !in Run(w, es + [CancelFirst()]).tsm
  {
    es := AroundTheTable(w, 255);
    ReuseAfter(w, es);
    es := es + [TsmOpened(1)];
  }
}
