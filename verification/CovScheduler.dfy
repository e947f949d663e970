/**
 The task as a scheduler: one slot per call, a cycle of 513 calls whatever happens in between, and a
 pending notification delivered exactly once a cycle when its two visits find the way clear.
 */
module CovScheduler {
  import opened CovModel
  import opened CovAddresses
  import opened CovLifetime

  /** IDLE takes one call, each of the other four states one call for every slot. */
  const CYCLE: nat := 1 + 4 * MAX_COV_SUBSCRIPTIONS

  function PhaseStart(p: Phase): nat {
    match p
    case Idle => 0
    case Mark => 1
    case Clear => 1 + MAX_COV_SUBSCRIPTIONS
    case Free => 1 + 2 * MAX_COV_SUBSCRIPTIONS
    case Send => 1 + 3 * MAX_COV_SUBSCRIPTIONS
  }

  function Position(w: World): nat {
    PhaseStart(w.phase) + w.index
  }

  ghost predicate Placed(w: World) {
    Sized(w) && (w.phase == Idle ==> w.index == 0)
  }

  function TaskCalls(es: seq<Event>): nat
    decreases |es|
  {
    if es == [] then 0 else TaskCalls(es[..|es| - 1]) + if es[|es| - 1].TaskCall? then 1 else 0
  }

  lemma PositionIsState(u: World, v: World)
    requires Placed(u) && Placed(v) && Position(u) == Position(v)
    ensures u.phase == v.phase && u.index == v.index
  {
  }

  lemma TaskMovesPosition(w: World, link: Link)
    requires Placed(w)
    ensures Placed(Task(w, link))
    ensures Position(Task(w, link)) == if Position(w) == CYCLE - 1 then 0 else Position(w) + 1
  {
    TaskKeepsTerms(w, link);
  }

  lemma OthersKeepPosition(w: World, e: Event)
    requires Placed(w) && !e.TaskCall?
    ensures Placed(Step(w, e)) && Position(Step(w, e)) == Position(w)
  {
    StepSized(w, e);
  }

  /** State and index are the number of task calls modulo 513, under any interleaving. */
  lemma {:induction false} SchedulerIsCounter(w: World, es: seq<Event>)
    requires Placed(w) && Position(w) == 0
    ensures Placed(Run(w, es))
    ensures Position(Run(w, es)) == TaskCalls(es) % CYCLE == TaskCalls(es) % 513
    decreases |es|
  {
    if es != [] {
      var front, e := es[..|es| - 1], es[|es| - 1];
      SchedulerIsCounter(w, front);
      StepMovesPosition(Run(w, front), e, TaskCalls(front));
    }
  }

  lemma StepMovesPosition(w: World, e: Event, n: nat)
    requires Placed(w) && Position(w) == n % CYCLE
    ensures Placed(Step(w, e))
    ensures Position(Step(w, e)) == (if e.TaskCall? then n + 1 else n) % CYCLE
  {
    if e.TaskCall? {
      TaskMovesPosition(w, e.link);
      Wrap(n);
    } else {
      OthersKeepPosition(w, e);
    }
  }

  lemma Wrap(n: nat)
    ensures (n + 1) % CYCLE == if n % CYCLE == CYCLE - 1 then 0 else n % CYCLE + 1
  {
    assert CYCLE == 513;
  }

  // ---------- delivery ----------

  predicate Visits(w: World, e: Event, p: Phase, k: nat) {
    e.TaskCall? && w.phase == p && w.index == k
  }

  predicate Sends(w: World, e: Event, k: nat)
    requires w.index < |w.subs|
  {
    Visits(w, e, Send, k) && Transmits(w, e.link) && e.link.sent
  }

  /** How many notifications of slot k were sent during the run. */
  ghost function Sent(w: World, es: seq<Event>, k: nat): nat
    requires Sized(w)
    decreases |es|
  {
    if es == [] then 0
    else Sent(w, es[..|es| - 1], k) + if Sends(Run(w, es[..|es| - 1]), es[|es| - 1], k) then 1 else 0
  }

  /** At its FREE visit a confirmed subscription has no transaction, or one that is over. */
  predicate Released(w: World, k: nat)
    requires k < |w.subs|
  {
    var s := w.subs[k];
    s.confirmed ==> s.invokeId == 0 || s.invokeId !in w.tsm || w.tsm[s.invokeId].Lapsed?
  }

  /** At its SEND visit the environment lets the notification go. */
  predicate Open(w: World, link: Link, k: nat)
    requires k < |w.subs|
  {
    link.dccEnabled && link.sent && (w.subs[k].confirmed ==> link.grant != 0)
  }

  /** Both visits of slot k during the run found the way clear. */
  ghost predicate WayClear(w: World, es: seq<Event>, k: nat)
    requires Sized(w) && k < |w.subs|
    decreases |es|
  {
    es == [] ||
    (var u, e := Run(w, es[..|es| - 1]), es[|es| - 1];
     && WayClear(w, es[..|es| - 1], k)
     && (Visits(u, e, Free, k) ==> Released(u, k))
     && (Visits(u, e, Send, k) ==> Open(u, e.link, k)))
  }

  ghost predicate SlotMoves(w: World, e: Event, v: World, k: nat)
    requires Sized(w) && k < |w.subs| == |v.subs|
  {
    var s, t := w.subs[k], v.subs[k];
    && t.invokeId == (
         if Visits(w, e, Free, k) && s.valid && Released(w, k) && s.confirmed then 0
         else if Visits(w, e, Send, k) && Transmits(w, e.link) && s.confirmed then e.link.grant
         else s.invokeId)
    && t.sendRequested == (
         if Visits(w, e, Send, k) && Transmits(w, e.link) then !e.link.sent
         else s.sendRequested || (Visits(w, e, Mark, k) && s.valid && s.monitored in w.flags))
  }

  lemma TaskMovesSlot(w: World, link: Link, k: nat)
    requires Sized(w) && k < |w.subs|
    ensures |Task(w, link).subs| == |w.subs|
    ensures SlotMoves(w, TaskCall(link), Task(w, link), k)
  {
    if w.phase == Send {
      SendMovesSlot(w, link, k);
    } else {
      hide Transmits;
      hide SendSlot;
    }
  }

  lemma SendMovesSlot(w: World, link: Link, k: nat)
    requires Sized(w) && k < |w.subs| && w.phase == Send
    ensures |Task(w, link).subs| == |w.subs|
    ensures SlotMoves(w, TaskCall(link), Task(w, link), k)
  {
    hide Released;
    hide MarkSlot;
    hide ClearSlot;
    hide FreeSlot;
  }

  /** What one event does to the request and the invoke ID of a slot it does not touch otherwise. */
  lemma SlotStep(w: World, e: Event, k: nat)
    requires Exact(w) && k < |w.subs| && w.subs[k].valid && SparesSlot(w, e, k) && Step(w, e).subs[k].valid
    ensures Step(w, e).subs[k].confirmed == w.subs[k].confirmed
    ensures Step(w, e).subs[k].monitored == w.subs[k].monitored
    ensures Subscriber(Step(w, e), k) == Subscriber(w, k)
    ensures SlotMoves(w, e, Step(w, e), k)
  {
    match e
    case SubscribeCov(src, req) =>
      SubscribeKeepsExact(w, src, req);
      assert Subscribe(w, src, req).0.subs[k] == w.subs[k];
    case TimerSeconds(elapsed) =>
      TickKeepsExact(w, elapsed);
      assert Step(w, e).subs[k] == TickSlot(w.subs[k], elapsed);
    case TaskCall(link) =>
      TaskKeepsTerms(w, link);
      TaskMovesSlot(w, link, k);
    case _ =>
  }

  /** A subscription that is neither requested again, nor cancelled, nor out of time. */
  ghost predicate Lasting(w: World, es: seq<Event>, k: nat)
    requires Sized(w)
  {
    && k < |w.subs| && w.subs[k].valid
    && Untouched(w, es, k)
    && (w.subs[k].lifetime == 0 || Elapsed(es) < w.subs[k].lifetime)
  }

  lemma {:induction false} ExactRun(w: World, es: seq<Event>)
    requires Exact(w)
    ensures Exact(Run(w, es))
    decreases |es|
  {
    if es != [] {
      ExactRun(w, es[..|es| - 1]);
      StepKeepsExact(Run(w, es[..|es| - 1]), es[|es| - 1]);
    }
  }

  /** Only CLEAR takes a flag down. */
  lemma FlagsStay(w: World, e: Event)
    requires Sized(w) && w.phase != Clear
    ensures w.flags <= Step(w, e).flags
  {
  }

  /** The slot has a request pending, or its object's flag is up. */
  predicate Due(w: World, k: nat)
    requires k < |w.subs|
  {
    w.subs[k].sendRequested || w.subs[k].monitored in w.flags
  }

  /** The stages of one cycle, by the number n of task calls made. */
  ghost predicate Stage(w: World, es: seq<Event>, k: nat, n: nat)
    requires Sized(w) && k < |w.subs|
  {
    var v, mark, free, send := Run(w, es), PhaseStart(Mark) + k, PhaseStart(Free) + k, PhaseStart(Send) + k;
    && v.subs[k].valid && v.subs[k].confirmed == w.subs[k].confirmed && Subscriber(v, k) == Subscriber(w, k)
    && (n <= mark ==> Due(v, k))
    && (n <= free ==> WayClear(w, es, k))
    && (free < n <= send ==> (WayClear(w, es, k) <==> v.subs[k].confirmed ==> v.subs[k].invokeId == 0))
    && (mark < n <= send ==> v.subs[k].sendRequested) && (n <= send ==> Sent(w, es, k) == 0)
    && (send < n ==> Sent(w, es, k) == if WayClear(w, es, k) then 1 else 0)
  }

  /**
   In a cycle of 513 task calls, however other events fall between them, a known station with a notification
   pending, or with the flag of its object up, at the start is sent exactly one notification if the FREE and SEND
   visits of its slot find the way clear, and else none.
   */
  lemma {:induction false} DeliveredOncePerCycle(w: World, es: seq<Event>, k: nat)
    requires Exact(w) && Placed(w) && Position(w) == 0 && TaskCalls(es) <= CYCLE
    requires Lasting(w, es, k) && Subscriber(w, k).Some? && Due(w, k)
    ensures Stage(w, es, k, TaskCalls(es))
    ensures TaskCalls(es) == CYCLE ==> Sent(w, es, k) == if WayClear(w, es, k) then 1 else 0
    decreases |es|
  {
    if es != [] {
      var front, e := es[..|es| - 1], es[|es| - 1];
      DeliveredOncePerCycle(w, front, k);
      var u := Run(w, front);
      ExactRun(w, front);
      SchedulerIsCounter(w, front);
      ExpiresWhenTimeIsUp(w, es, k);
      SlotStep(u, e, k);
      if u.phase != Clear {
        FlagsStay(u, e);
      }
      VisitTimes(u, TaskCalls(front), k, e);
    }
  }

  lemma VisitTimes(u: World, n: nat, k: nat, e: Event)
    requires Placed(u) && Position(u) == n % CYCLE && k < MAX_COV_SUBSCRIPTIONS
    requires n < CYCLE || !e.TaskCall?
    ensures Visits(u, e, Mark, k) <==> e.TaskCall? && n == PhaseStart(Mark) + k
    ensures n <= PhaseStart(Mark) + k ==> u.phase != Clear
    ensures Visits(u, e, Free, k) <==> e.TaskCall? && n == PhaseStart(Free) + k
    ensures Visits(u, e, Send, k) <==> e.TaskCall? && n == PhaseStart(Send) + k
  {
  }

  // ---------- no notification without a cause ----------

  /** No event of the run raises the flag of the object. */
  predicate NeverRaised(es: seq<Event>, obj: ObjectId) {
    forall i :: 0 <= i < |es| ==> es[i] != Raise(obj)
  }

  lemma FlagsRiseByRaising(w: World, e: Event, obj: ObjectId)
    requires Sized(w) && obj !in w.flags && e != Raise(obj)
    ensures obj !in Step(w, e).flags
  {
  }

  /**
   A subscription with nothing pending, whose object's flag is down and stays so, is sent nothing, however long the
   task goes on and whatever else happens.
   */
  lemma {:induction false} NothingSentUnasked(w: World, es: seq<Event>, k: nat)
    requires Exact(w) && Placed(w) && Lasting(w, es, k) && !Due(w, k) && NeverRaised(es, w.subs[k].monitored)
    ensures Sent(w, es, k) == 0 && Run(w, es).subs[k].valid && !Due(Run(w, es), k)
    ensures Run(w, es).subs[k].monitored == w.subs[k].monitored
    decreases |es|
  {
    if es != [] {
      var front, e := es[..|es| - 1], es[|es| - 1];
      NothingSentUnasked(w, front, k);
      var u := Run(w, front);
      ExactRun(w, front);
      ExpiresWhenTimeIsUp(w, es, k);
      SlotStep(u, e, k);
      FlagsRiseByRaising(u, e, w.subs[k].monitored);
    }
  }
}
