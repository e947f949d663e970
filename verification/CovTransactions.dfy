/**
 Confirmed notifications and the TSM over all runs: no transaction opened for a notification is
 forgotten, none is overwritten, and none is shared as long as the TSM does not hand out an invoke ID
 that a slot still remembers.
 */
module CovTransactions {
  import opened Octets
  import opened CovModel
  import Tsm

  ghost predicate HeldBy(w: World, i: nat, id: u8) {
    i < |w.subs| && w.subs[i].invokeId == id != 0
  }

  ghost predicate Held(w: World, id: u8) {
    exists i :: HeldBy(w, i, id)
  }

  ghost predicate HoldersConfirm(w: World) {
    && Sized(w) && 0 !in w.tsm
    && forall i :: 0 <= i < |w.subs| && w.subs[i].invokeId != 0 ==> w.subs[i].valid && w.subs[i].confirmed
  }

  /** The invoke ID that an event opens for a notification, if any. */
  function Opened(w: World, e: Event): set<u8>
    requires w.index < |w.subs|
  {
    if e.TaskCall? && w.phase == Send && Transmits(w, e.link) && w.subs[w.index].confirmed
    then {e.link.grant} else {}
  }

  /** The transactions opened for notifications that the TSM still holds after a run. */
  ghost function Mine(w: World, es: seq<Event>): set<u8>
    requires Sized(w)
    decreases |es|
  {
    if es == [] then {}
    else
      (Mine(w, es[..|es| - 1]) + Opened(Run(w, es[..|es| - 1]), es[|es| - 1])) * Run(w, es).tsm.Keys
  }

  // ---------- each event ----------

  lemma StepKeepsHolders(w: World, e: Event)
    requires HoldersConfirm(w) && Legal(w, e)
    ensures HoldersConfirm(Step(w, e))
  {
    hide Subscribe;
    hide Task;
    match e
    case SubscribeCov(src, req) => SubscribeKeepsHolders(w, src, req);
    case TaskCall(link) =>
      TaskKeepsTerms(w, link);
      TaskEffect(w, link);
    case _ =>
  }

  lemma SubscribeKeepsHolders(w: World, src: Address, req: Request)
    requires HoldersConfirm(w)
    ensures HoldersConfirm(Subscribe(w, src, req).0)
  {
    SubscribeEffect(w, src, req);
    hide Subscribe;
  }

  /** A request releases at most the invoke ID of the one slot it writes. */
  lemma SubscribeEffect(w: World, src: Address, req: Request)
    requires HoldersConfirm(w)
    ensures Sized(Subscribe(w, src, req).0)
    ensures var v := Subscribe(w, src, req).0;
            exists i :: 0 <= i < |w.subs|
              && (forall j :: 0 <= j < |w.subs| && j != i ==> v.subs[j] == w.subs[j])
              && ((v.subs[i] == w.subs[i] && v.tsm == w.tsm) ||
                  (v.subs[i].invokeId == 0 && v.tsm == Release(w.tsm, w.subs[i].invokeId)))
  {
    var v := Subscribe(w, src, req).0;
    var m, free := FirstMatch(w, src, req), FirstInvalid(w.subs);
    if m < |w.subs| {
      assert v.subs[m].invokeId == 0 && v.tsm == Release(w.tsm, w.subs[m].invokeId);
    } else if free < |w.subs| && !req.cancel {
      assert v.subs[free].invokeId == 0 && v.tsm == Release(w.tsm, w.subs[free].invokeId);
    } else {
      assert v.subs[0] == w.subs[0] && v.tsm == w.tsm;
    }
  }

  /** A task call leaves invoke IDs alone, drops one with its transaction, or opens one in an empty place. */
  lemma TaskEffect(w: World, link: Link)
    requires Sized(w)
    ensures var v, i, s := Task(w, link), w.index, w.subs[w.index];
            && (forall j :: 0 <= j < |w.subs| && j != i ==> v.subs[j] == w.subs[j])
            && v.subs[i] == s.(sendRequested := v.subs[i].sendRequested, invokeId := v.subs[i].invokeId)
            && if Opened(w, TaskCall(link)) != {} then
                 s.valid && s.confirmed && s.invokeId == 0 && link.grant != 0 &&
                 v.subs[i].invokeId == link.grant && v.tsm == w.tsm[link.grant := Awaiting]
               else if v.subs[i].invokeId != s.invokeId then
                 v.subs[i].invokeId == 0 && v.tsm == w.tsm - {s.invokeId} &&
                 (s.invokeId !in w.tsm || w.tsm[s.invokeId].Lapsed?)
               else v.tsm == w.tsm
  {
    if w.phase == Send {
      hide MarkSlot;
      hide ClearSlot;
      hide FreeSlot;
    } else {
      hide Transmits;
      hide SendSlot;
    }
  }

  /** A recorded invoke ID is kept or dropped by an event, never replaced by another. */
  lemma NeverOverwritten(w: World, e: Event, i: nat)
    requires HoldersConfirm(w) && Legal(w, e) && i < |w.subs| && w.subs[i].invokeId != 0
    ensures Step(w, e).subs[i].invokeId in {0, w.subs[i].invokeId}
  {
    match e
    case SubscribeCov(src, req) => SubscribeEffect(w, src, req);
    case TaskCall(link) => TaskEffect(w, link);
    case _ =>
  }

  /** A transaction still in the TSM after an event is remembered by the slot that remembered it before. */
  lemma HolderSurvives(w: World, e: Event, i: nat, id: u8)
    requires HoldersConfirm(w) && Legal(w, e) && HeldBy(w, i, id) && id in Step(w, e).tsm
    requires !e.TsmOpened?
    ensures HeldBy(Step(w, e), i, id)
  {
    hide Subscribe;
    hide Task;
    match e
    case SubscribeCov(src, req) => SubscribeEffect(w, src, req);
    case TaskCall(link) =>
      TaskKeepsTerms(w, link);
      TaskEffect(w, link);
    case TimerSeconds(elapsed) =>
      assert Expires(w.subs[i], elapsed) ==> id in ExpiredIds(w.subs, elapsed);
      assert Step(w, e).subs[i] == TickSlot(w.subs[i], elapsed);
    case _ =>
  }

  /** No leak: every notification transaction the TSM still holds is recorded in a confirmed subscription. */
  lemma {:induction false} NoTransactionIsForgotten(w: World, es: seq<Event>)
    requires Initial(w) && LegalRun(w, es)
    ensures HoldersConfirm(Run(w, es))
    ensures forall id :: id in Mine(w, es) ==> id in Run(w, es).tsm && Held(Run(w, es), id)
    decreases |es|
  {
    if es != [] {
      var front, e := es[..|es| - 1], es[|es| - 1];
      NoTransactionIsForgotten(w, front);
      var u, v := Run(w, front), Run(w, es);
      StepKeepsHolders(u, e);
      forall id | id in Mine(w, es)
        ensures Held(v, id)
      {
        if id in Opened(u, e) {
          TaskEffect(u, e.link);
          assert HeldBy(v, u.index, id);
        } else {
          var i :| HeldBy(u, i, id);
          if e.TsmOpened? {
            assert HeldBy(v, i, id);
          } else {
            HolderSurvives(u, e, i, id);
          }
        }
      }
    }
  }

  /** When no subscription asks for confirmed notifications, the service holds no transaction. */
  lemma NoSubscriberNoTransaction(w: World, es: seq<Event>)
    requires Initial(w) && LegalRun(w, es)
    requires forall i :: 0 <= i < |Run(w, es).subs| ==> !(Run(w, es).subs[i].valid && Run(w, es).subs[i].confirmed)
    ensures Mine(w, es) == {}
  {
    NoTransactionIsForgotten(w, es);
    assert forall id :: !Held(Run(w, es), id);
  }

  // ---------- exclusive ownership ----------

  /** The invoke IDs that the TSM hands out in an event, to this service or to another client. */
  function HandedOut(w: World, e: Event): set<u8>
    requires w.index < |w.subs|
  {
    Opened(w, e) + if e.TsmOpened? then {e.id} else {}
  }

  /** An invoke ID is handed out while a slot still records it. */
  ghost predicate Reuses(w: World, e: Event)
    requires w.index < |w.subs|
  {
    exists id :: id in HandedOut(w, e) && Held(w, id)
  }

  ghost predicate NeverReuses(w: World, es: seq<Event>)
    requires Sized(w)
    decreases |es|
  {
    es == [] || (NeverReuses(w, es[..|es| - 1]) && !Reuses(Run(w, es[..|es| - 1]), es[|es| - 1]))
  }

  /** No two slots record one invoke ID, and what a slot records and the TSM holds is ours. */
  ghost predicate Exclusive(w: World, mine: set<u8>) {
    && (forall i, j, id :: HeldBy(w, i, id) && HeldBy(w, j, id) ==> i == j)
    && (forall i, id :: HeldBy(w, i, id) && id in w.tsm ==> id in mine)
  }

  /** An event records an invoke ID only by opening it. */
  lemma HeldBefore(w: World, e: Event, i: nat, id: u8)
    requires HoldersConfirm(w) && Legal(w, e) && HeldBy(Step(w, e), i, id)
    ensures HeldBy(w, i, id) || (id in Opened(w, e) && i == w.index)
  {
    match e
    case SubscribeCov(src, req) => SubscribeEffect(w, src, req);
    case TaskCall(link) => TaskEffect(w, link);
    case TimerSeconds(elapsed) => assert Step(w, e).subs[i] == TickSlot(w.subs[i], elapsed);
    case _ =>
  }

  lemma TsmGrowsOnlyByOpening(w: World, e: Event, id: u8)
    requires HoldersConfirm(w) && Legal(w, e) && id in Step(w, e).tsm && id !in HandedOut(w, e)
    ensures id in w.tsm
  {
    match e
    case SubscribeCov(src, req) => SubscribeEffect(w, src, req);
    case TaskCall(link) => TaskEffect(w, link);
    case _ =>
  }

  lemma WithoutReuse(w: World, e: Event, mine: set<u8>)
    requires HoldersConfirm(w) && Legal(w, e) && Exclusive(w, mine) && !Reuses(w, e)
    ensures Exclusive(Step(w, e), (mine + Opened(w, e)) * Step(w, e).tsm.Keys)
  {
    var v := Step(w, e);
    forall i, j, id | HeldBy(v, i, id) && HeldBy(v, j, id)
      ensures i == j
    {
      HeldBefore(w, e, i, id);
      HeldBefore(w, e, j, id);
      assert Held(w, id) ==> id !in HandedOut(w, e);
    }
    forall i, id | HeldBy(v, i, id) && id in v.tsm
      ensures id in mine + Opened(w, e)
    {
      HeldBefore(w, e, i, id);
      if id !in Opened(w, e) {
        TsmGrowsOnlyByOpening(w, e, id);
      }
    }
  }

  lemma WithReuse(w: World, e: Event, mine: set<u8>)
    requires HoldersConfirm(w) && Legal(w, e) && mine <= w.tsm.Keys && Reuses(w, e)
    ensures !Exclusive(Step(w, e), (mine + Opened(w, e)) * Step(w, e).tsm.Keys)
  {
    var v := Step(w, e);
    var id :| id in HandedOut(w, e) && Held(w, id);
    var i :| HeldBy(w, i, id);
    if e.TsmOpened? {
      assert HeldBy(v, i, id) && id in v.tsm && id !in mine;
    } else {
      TaskEffect(w, e.link);
      assert HeldBy(v, i, id) && HeldBy(v, w.index, id) && i != w.index;
    }
  }

  /** Ownership stays exclusive through an event exactly when it hands out no ID that a slot still records. */
  lemma StepExclusiveIff(w: World, e: Event, mine: set<u8>)
    requires HoldersConfirm(w) && Legal(w, e) && Exclusive(w, mine) && mine <= w.tsm.Keys
    ensures Exclusive(Step(w, e), (mine + Opened(w, e)) * Step(w, e).tsm.Keys) <==> !Reuses(w, e)
  {
    hide Exclusive;
    hide Reuses;
    if Reuses(w, e) {
      WithReuse(w, e, mine);
    } else {
      WithoutReuse(w, e, mine);
    }
  }

  ghost predicate AlwaysExclusive(w: World, es: seq<Event>)
    requires Sized(w)
    decreases |es|
  {
    Exclusive(Run(w, es), Mine(w, es)) && (es == [] || AlwaysExclusive(w, es[..|es| - 1]))
  }

  /**
   Throughout a run no two slots record the same invoke ID, and what a slot records and the TSM holds was
   opened for a notification, so that every release by the service hits its own transaction, exactly when
   the TSM never hands out an ID that a slot still records.
   */
  lemma {:induction false} TransactionsAreExclusive(w: World, es: seq<Event>)
    requires Initial(w) && LegalRun(w, es)
    ensures AlwaysExclusive(w, es) <==> NeverReuses(w, es)
    decreases |es|
  {
    if es != [] {
      var front := es[..|es| - 1];
      TransactionsAreExclusive(w, front);
      NoTransactionIsForgotten(w, front);
      if AlwaysExclusive(w, front) {
        StepExclusiveIff(Run(w, front), es[|es| - 1], Mine(w, front));
      }
    }
  }

  // ---------- the rotation of the TSM ----------

  /** Where the TSM starts its search after the run: behind the invoke ID that it handed out last. */
  function NextId(w: World, e: Event, current: u8): u8
    requires w.index < |w.subs|
  {
    if e.TsmOpened? then Tsm.Next(e.id)
    else if Opened(w, e) != {} then Tsm.Next(e.link.grant)
    else current
  }

  ghost function Current(w: World, es: seq<Event>): u8
    requires Sized(w)
    decreases |es|
  {
    if es == [] then 1 else NextId(Run(w, es[..|es| - 1]), es[|es| - 1], Current(w, es[..|es| - 1]))
  }

  /** Every ID handed out during the run is the one that Tsm.Table.NextFreeInvokeId gives. */
  ghost predicate Rotating(w: World, es: seq<Event>)
    requires Sized(w)
    decreases |es|
  {
    es == [] ||
    (var front := es[..|es| - 1];
     && Rotating(w, front)
     && forall id :: id in HandedOut(Run(w, front), es[|es| - 1]) ==>
          Tsm.FirstUnused(Run(w, front).tsm, Current(w, front), id))
  }
}
