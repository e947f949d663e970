/**
 No change is lost. A slot is untold while its object has changed and no notification has carried the
 change; the service must then still intend to notify it: the request is pending in the slot, or the
 object's flag is still up and will be seen by the next MARK phase.
 */
module CovNoLoss {
  import opened CovModel
  import opened CovScheduler

  ghost function Watchers(w: World, obj: ObjectId): set<nat> {
    set j | 0 <= j < |w.subs| && w.subs[j].valid && w.subs[j].monitored == obj
  }

  /** A change leaves its watchers untold, and a notification that is sent tells one. */
  ghost function UntoldAfter(w: World, e: Event, untold: set<nat>): set<nat>
    requires Sized(w)
  {
    untold + (if e.Raise? then Watchers(w, e.obj) else {}) - (if Sends(w, e, w.index) then {w.index} else {})
  }

  /** The slots that have not been told of the last change of their object. */
  ghost function Untold(w: World, es: seq<Event>): set<nat>
    requires Sized(w)
    decreases |es|
  {
    if es == [] then {} else UntoldAfter(Run(w, es[..|es| - 1]), es[|es| - 1], Untold(w, es[..|es| - 1]))
  }

  ghost predicate NothingLost(w: World, untold: set<nat>) {
    forall j :: j in untold && j < |w.subs| && w.subs[j].valid ==>
      w.subs[j].sendRequested || w.subs[j].monitored in w.flags
  }

  /** The slots whose requests the task has already brought up to date in this cycle. */
  predicate Marked(w: World, j: nat) {
    w.phase == Clear || (w.phase == Mark && j < w.index)
  }

  ghost predicate MarkingHolds(w: World) {
    forall j :: 0 <= j < |w.subs| && w.subs[j].valid && Marked(w, j) && w.subs[j].monitored in w.flags ==>
      w.subs[j].sendRequested
  }

  /** No subscription to the object has been passed over by MARK without a request. */
  ghost predicate Timely(w: World, obj: ObjectId) {
    forall j :: 0 <= j < |w.subs| && w.subs[j].valid && Marked(w, j) && w.subs[j].monitored == obj ==>
      w.subs[j].sendRequested
  }

  ghost predicate TimelyRun(w: World, es: seq<Event>)
    requires Sized(w)
    decreases |es|
  {
    es == [] ||
    (TimelyRun(w, es[..|es| - 1]) &&
     (es[|es| - 1].Raise? ==> Timely(Run(w, es[..|es| - 1]), es[|es| - 1].obj)))
  }

  /** Outside MARK and CLEAR every change is timely. */
  lemma TimelyBetweenSweeps(w: World, obj: ObjectId)
    requires w.phase in {Idle, Free, Send} || (w.phase == Mark && w.index == 0)
    ensures Timely(w, obj)
  {
  }

  // ---------- each event ----------

  /** A pending request ends only with the subscription, or by being sent. */
  lemma RequestEndsBySending(w: World, e: Event, j: nat)
    requires Sized(w) && j < |w.subs| && w.subs[j].valid && w.subs[j].sendRequested
    ensures var s := Step(w, e).subs[j];
            || s.sendRequested
            || (Sends(w, e, j) && s.valid)
            || (e.TimerSeconds? && Expires(w.subs[j], e.elapsed))
            || (e.SubscribeCov? && e.req.cancel && j == FirstMatch(w, e.src, e.req))
    ensures Step(w, e).subs[j].valid
            || (e.TimerSeconds? && Expires(w.subs[j], e.elapsed))
            || (e.SubscribeCov? && e.req.cancel && j == FirstMatch(w, e.src, e.req))
  {
    match e
    case TaskCall(link) =>
      TaskKeepsTerms(w, link);
      TaskMovesSlot(w, link, j);
    case TimerSeconds(elapsed) => assert Step(w, e).subs[j] == TickSlot(w.subs[j], elapsed);
    case _ =>
  }

  /** A request leaves every slot as it was, without a subscription, or with a request pending. */
  lemma SubscribeRequests(w: World, src: Address, req: Request, j: nat)
    requires Sized(w) && j < |w.subs|
    ensures var s := Subscribe(w, src, req).0.subs[j];
            s == w.subs[j] || !s.valid || s.sendRequested
  {
  }

  lemma StepKeepsMarking(w: World, e: Event)
    requires Placed(w) && MarkingHolds(w) && (e.Raise? ==> Timely(w, e.obj))
    ensures MarkingHolds(Step(w, e))
  {
    StepSized(w, e);
    hide Subscribe;
    hide FreeSlot;
    hide SendSlot;
    hide Transmits;
    var v := Step(w, e);
    forall j | 0 <= j < |v.subs| && v.subs[j].valid && Marked(v, j) && v.subs[j].monitored in v.flags
      ensures v.subs[j].sendRequested
    {
      match e
      case SubscribeCov(src, req) => SubscribeRequests(w, src, req, j);
      case TaskCall(link) =>
        TaskKeepsTerms(w, link);
        TaskMovesSlot(w, link, j);
        FlagsOnlyFall(w, link);
      case TimerSeconds(elapsed) => assert v.subs[j] == TickSlot(w.subs[j], elapsed);
      case _ =>
    }
  }

  lemma FlagsOnlyFall(w: World, link: Link)
    requires Sized(w)
    ensures var v, s := Task(w, link), w.subs[w.index];
            v.flags == if w.phase == Clear && s.valid && s.sendRequested then w.flags - {s.monitored} else w.flags
  {
  }

  /** When CLEAR takes an object's flag down, every subscription to the object has its request pending. */
  lemma ClearFindsAllMarked(w: World, link: Link, obj: ObjectId)
    requires Sized(w) && MarkingHolds(w) && obj in w.flags && obj !in Task(w, link).flags
    ensures w.phase == Clear
    ensures forall j :: j in Watchers(w, obj) ==> w.subs[j].sendRequested
  {
    FlagsOnlyFall(w, link);
  }

  // ---------- exactly when a change is lost ----------

  /** A slot on the object has not been told of its change and has no request pending. */
  ghost predicate Waits(w: World, untold: set<nat>, obj: ObjectId, j: nat) {
    j in untold && j < |w.subs| && w.subs[j].valid && w.subs[j].monitored == obj && !w.subs[j].sendRequested
  }

  /** CLEAR is about to take down the flag of an object of which some slot has yet to be told. */
  ghost predicate Hasty(w: World, e: Event, untold: set<nat>)
    requires Sized(w)
  {
    && e.TaskCall? && w.phase == Clear && w.subs[w.index].valid && w.subs[w.index].sendRequested
    && exists j :: Waits(w, untold, w.subs[w.index].monitored, j)
  }

  lemma UnlessHasty(w: World, e: Event, untold: set<nat>, j: nat)
    requires Placed(w) && NothingLost(w, untold) && !Hasty(w, e, untold)
    requires j in UntoldAfter(w, e, untold) && j < |w.subs| && Step(w, e).subs[j].valid
    ensures var s := Step(w, e).subs[j]; s.sendRequested || s.monitored in Step(w, e).flags
  {
    match e
    case SubscribeCov(src, req) => SubscribeRequests(w, src, req, j);
    case TaskCall(link) =>
      TaskKeepsTerms(w, link);
      TaskMovesSlot(w, link, j);
      FlagsOnlyFall(w, link);
      hide Task;
      assert Sends(w, e, j) ==> j == w.index;
      assert w.phase == Clear && w.subs[w.index].valid && w.subs[w.index].sendRequested ==>
        !Waits(w, untold, w.subs[w.index].monitored, j);
    case TimerSeconds(elapsed) => assert Step(w, e).subs[j] == TickSlot(w.subs[j], elapsed);
    case _ =>
  }

  lemma WhenHasty(w: World, e: Event, untold: set<nat>)
    requires Placed(w) && Hasty(w, e, untold)
    ensures !NothingLost(Step(w, e), UntoldAfter(w, e, untold))
  {
    var j :| Waits(w, untold, w.subs[w.index].monitored, j);
    TaskKeepsTerms(w, e.link);
    TaskMovesSlot(w, e.link, j);
    FlagsOnlyFall(w, e.link);
    assert j in UntoldAfter(w, e, untold);
  }

  /** An event loses a change to some slot exactly when it is hasty. */
  lemma StepLosesIffHasty(w: World, e: Event, untold: set<nat>)
    requires Placed(w) && NothingLost(w, untold)
    ensures NothingLost(Step(w, e), UntoldAfter(w, e, untold)) <==> !Hasty(w, e, untold)
  {
    StepSized(w, e);
    if Hasty(w, e, untold) {
      WhenHasty(w, e, untold);
    } else {
      var v := Step(w, e);
      forall j | j in UntoldAfter(w, e, untold) && j < |v.subs| && v.subs[j].valid
        ensures v.subs[j].sendRequested || v.subs[j].monitored in v.flags
      {
        UnlessHasty(w, e, untold, j);
      }
    }
  }

  ghost predicate NeverLost(w: World, es: seq<Event>)
    requires Sized(w)
    decreases |es|
  {
    NothingLost(Run(w, es), Untold(w, es)) && (es == [] || NeverLost(w, es[..|es| - 1]))
  }

  ghost predicate NeverHasty(w: World, es: seq<Event>)
    requires Sized(w)
    decreases |es|
  {
    es == [] ||
    (NeverHasty(w, es[..|es| - 1]) &&
     !Hasty(Run(w, es[..|es| - 1]), es[|es| - 1], Untold(w, es[..|es| - 1])))
  }

  /**
   Throughout a run, however requests, ticks, task calls, changes and transmission failures interleave, no change
   is lost exactly when no event is hasty.
   */
  lemma {:induction false} LostIffHasty(w: World, es: seq<Event>)
    requires Placed(w)
    ensures NeverLost(w, es) <==> NeverHasty(w, es)
    decreases |es|
  {
    if es != [] {
      var front := es[..|es| - 1];
      LostIffHasty(w, front);
      PlacedRun(w, front);
      if NeverLost(w, front) {
        StepLosesIffHasty(Run(w, front), es[|es| - 1], Untold(w, front));
      }
    }
  }

  /** As long as MARK has done its work CLEAR is not hasty. */
  lemma MarkedIsNotHasty(w: World, e: Event, untold: set<nat>)
    requires Sized(w) && MarkingHolds(w) && NothingLost(w, untold)
    ensures !Hasty(w, e, untold)
  {
  }

  lemma {:induction false} PlacedRun(w: World, es: seq<Event>)
    requires Placed(w)
    ensures Placed(Run(w, es))
    decreases |es|
  {
    if es != [] {
      var u, e := Run(w, es[..|es| - 1]), es[|es| - 1];
      PlacedRun(w, es[..|es| - 1]);
      if e.TaskCall? {
        TaskMovesPosition(u, e.link);
      } else {
        OthersKeepPosition(u, e);
      }
    }
  }

  /**
   If every change is timely, no change is ever lost, under any interleaving of requests, ticks, task
   calls and transmission failures.
   */
  lemma {:induction false} NoChangeIsLost(w: World, es: seq<Event>)
    requires Initial(w) && TimelyRun(w, es)
    ensures MarkingHolds(Run(w, es))
    ensures NothingLost(Run(w, es), Untold(w, es))
    decreases |es|
  {
    if es != [] {
      var front, e := es[..|es| - 1], es[|es| - 1];
      var u := Run(w, front);
      NoChangeIsLost(w, front);
      PlacedRun(w, front);
      StepKeepsMarking(u, e);
      MarkedIsNotHasty(u, e, Untold(w, front));
      StepLosesIffHasty(u, e, Untold(w, front));
    }
  }

  // ---------- changes in the middle of a sweep ----------

  /** Task calls with nothing in between. */
  ghost function Drive(w: World, links: seq<Link>): World
    requires Sized(w)
    ensures Sized(Drive(w, links))
    decreases |links|
  {
    if links == [] then w
    else
      TaskKeepsTerms(w, links[0]);
      Drive(Task(w, links[0]), links[1..])
  }

  ghost function MarkRest(w: World): World {
    w.(subs := seq(|w.subs|, j requires 0 <= j < |w.subs| =>
         if j >= w.index && w.subs[j].valid && w.subs[j].monitored in w.flags
         then w.subs[j].(sendRequested := true) else w.subs[j]),
       phase := Clear, index := 0)
  }

  ghost function ClearRest(w: World): World {
    w.(flags := w.flags - set j | w.index <= j < |w.subs| && w.subs[j].valid && w.subs[j].sendRequested
                            :: w.subs[j].monitored,
       phase := Free, index := 0)
  }

  lemma {:induction false} MarkToEnd(w: World, links: seq<Link>)
    requires Sized(w) && w.phase == Mark && |links| == |w.subs| - w.index
    ensures Drive(w, links) == MarkRest(w)
    decreases |links|
  {
    var v := Task(w, links[0]);
    TaskKeepsTerms(w, links[0]);
    if w.index + 1 < |w.subs| {
      MarkToEnd(v, links[1..]);
      assert MarkRest(v).subs == MarkRest(w).subs;
    } else {
      assert links[1..] == [];
      assert v.subs == MarkRest(w).subs;
    }
  }

  lemma {:induction false} ClearToEnd(w: World, links: seq<Link>)
    requires Sized(w) && w.phase == Clear && |links| == |w.subs| - w.index
    ensures Drive(w, links) == ClearRest(w)
    decreases |links|
  {
    var v := Task(w, links[0]);
    TaskKeepsTerms(w, links[0]);
    if w.index + 1 < |w.subs| {
      ClearToEnd(v, links[1..]);
      assert ClearRest(v).flags == ClearRest(w).flags;
    } else {
      assert links[1..] == [];
      assert v.flags == ClearRest(w).flags;
    }
  }

  lemma {:induction false} DriveSplits(w: World, links: seq<Link>, n: nat)
    requires Sized(w) && n <= |links|
    ensures Drive(w, links) == Drive(Drive(w, links[..n]), links[n..])
    decreases n
  {
    if n == 0 {
      assert links[..0] == [] && links[0..] == links;
    } else {
      TaskKeepsTerms(w, links[0]);
      DriveSplits(Task(w, links[0]), links[1..], n - 1);
      assert links[..n][1..] == links[1..][..n - 1];
      assert links[n..] == links[1..][n - 1..];
    }
  }

  /** Some subscription to the object was passed over by MARK without a request. */
  ghost predicate PassedOver(w: World, obj: ObjectId) {
    !Timely(w, obj)
  }

  /** Some subscription to the object will make CLEAR take the flag down in what is left of the sweep. */
  ghost predicate WillClear(w: World, obj: ObjectId) {
    exists k :: 0 <= k < |w.subs| && w.subs[k].valid && w.subs[k].monitored == obj &&
      if w.phase == Mark then w.subs[k].sendRequested || w.index <= k else w.subs[k].sendRequested && w.index <= k
  }

  ghost predicate SomeoneMisses(w: World, obj: ObjectId) {
    obj !in w.flags && exists j :: j in Watchers(w, obj) && !w.subs[j].sendRequested
  }

  /**
   When nothing but task calls follows until the sweep is over, a change in the middle of MARK or CLEAR is lost
   to some subscriber exactly if one subscription was passed over and another takes the flag down.
   */
  lemma MidSweepChangeLostIff(w: World, obj: ObjectId, links: seq<Link>)
    requires Sized(w) && w.phase in {Mark, Clear}
    requires |links| == PhaseStart(Free) - Position(w)
    ensures var v := Drive(w.(flags := w.flags + {obj}), links);
            SomeoneMisses(v, obj) <==> PassedOver(w, obj) && WillClear(w, obj)
  {
    var u := w.(flags := w.flags + {obj});
    if w.phase == Clear {
      ClearToEnd(u, links);
      ClearRestMisses(u, w, obj);
    } else {
      var n := |w.subs| - w.index;
      DriveSplits(u, links, n);
      MarkToEnd(u, links[..n]);
      ClearToEnd(MarkRest(u), links[n..]);
      MarkRestMisses(u, w, obj);
    }
  }

  lemma ClearRestMisses(u: World, w: World, obj: ObjectId)
    requires Sized(w) && w.phase == Clear && u == w.(flags := w.flags + {obj})
    ensures SomeoneMisses(ClearRest(u), obj) <==> PassedOver(w, obj) && WillClear(w, obj)
  {
    var v := ClearRest(u);
    assert obj !in v.flags <==> WillClear(w, obj);
    assert Watchers(v, obj) == Watchers(w, obj);
  }

  lemma MarkRestMisses(u: World, w: World, obj: ObjectId)
    requires Sized(w) && w.phase == Mark && u == w.(flags := w.flags + {obj})
    ensures SomeoneMisses(ClearRest(MarkRest(u)), obj) <==> PassedOver(w, obj) && WillClear(w, obj)
  {
    var m := MarkRest(u);
    var v := ClearRest(m);
    assert Watchers(v, obj) == Watchers(w, obj);
    assert forall k :: 0 <= k < |w.subs| && w.subs[k].valid && w.subs[k].monitored == obj ==>
      (m.subs[k].sendRequested <==> w.subs[k].sendRequested || w.index <= k);
    if WillClear(w, obj) {
      var k :| 0 <= k < |w.subs| && w.subs[k].valid && w.subs[k].monitored == obj &&
        (w.subs[k].sendRequested || w.index <= k);
      assert m.subs[k].valid && m.subs[k].sendRequested && m.subs[k].monitored == obj;
    }
    assert obj !in v.flags <==> WillClear(w, obj);
  }
}
