/**
 GetEventInformation (ASHRAE 135, clause 13.12): the two nested loops of h_getevent.c answer one page
 of the active events, and repeated requests deliver the whole list.
 */
module GetEvent {
  import opened Octets
  import opened Tags
  import opened CovModel

  const MAX_OBJECT_TYPE: nat := 1024
  const MAX_EVENT_INDEX: nat := 0xffff
  const HEADER: nat := 4
  const TRAILER: nat := 3
  const MIN_RESPONSE: int := 128

  /** An active event: its object and the octets its summary encodes to. */
  datatype ActiveEvent = ActiveEvent(id: ObjectId, summary: seq<u8>)

  /** What an object type's handler answers for index 0, 1, ... until it reports the end of its list. */
  type Answers = seq<Option<ActiveEvent>>

  /** The registered handlers, by object type. */
  type Handlers = hs: seq<Option<Answers>> | |hs| == MAX_OBJECT_TYPE witness seq(MAX_OBJECT_TYPE, _ => None)

  /** What is sent; the model stops where the source would write past the end of the transmit buffer. */
  datatype Reply = Ack(len: nat, more: bool) | Abort | Overrun

  // ---------- the page as a function of the flat event list ----------

  function ActiveIn(answers: Answers): seq<ActiveEvent> {
    if answers == [] then []
    else if answers[0].None? then ActiveIn(answers[1..])
    else [answers[0].value] + ActiveIn(answers[1..])
  }

  /** The events one handler gets asked about. */
  function ActiveOf(handler: Option<Answers>): seq<ActiveEvent> {
    match handler
    case None => []
    case Some(answers) => ActiveIn(answers[..Min(|answers|, MAX_EVENT_INDEX)])
  }

  /** All active events, by object type and then by index. */
  function Active(handlers: seq<Option<Answers>>): seq<ActiveEvent> {
    if handlers == [] then [] else ActiveOf(handlers[0]) + Active(handlers[1..])
  }

  function Position(es: seq<ActiveEvent>, id: ObjectId): nat {
    First(es, (e: ActiveEvent) => e.id == id)
  }

  /** The events that follow the last one received. */
  function Resume(es: seq<ActiveEvent>, last: Option<ObjectId>): seq<ActiveEvent> {
    match last
    case None => es
    case Some(id) => if Position(es, id) < |es| then es[Position(es, id) + 1..] else []
  }

  function Summaries(es: seq<ActiveEvent>): seq<u8> {
    if es == [] then [] else Summaries(es[..|es| - 1]) + es[|es| - 1].summary
  }

  predicate Fits(es: seq<ActiveEvent>, maxResp: int) {
    HEADER + |Summaries(es)| < maxResp - 2
  }

  /** n is the length of the longest prefix that fits; with no event that fits it is 0. */
  ghost predicate IsPage(es: seq<ActiveEvent>, n: nat, maxResp: int) {
    && n <= |es|
    && (n > 0 ==> Fits(es[..n], maxResp))
    && (n < |es| ==> !Fits(es[..n + 1], maxResp))
  }

  lemma {:induction false} SummariesGrow(es: seq<ActiveEvent>, m: nat, n: nat)
    requires m <= n <= |es|
    ensures |Summaries(es[..m])| <= |Summaries(es[..n])|
    decreases n - m
  {
    if m < n {
      SummariesGrow(es, m, n - 1);
      assert es[..n][..n - 1] == es[..n - 1];
    }
  }

  lemma PageIsUnique(es: seq<ActiveEvent>, m: nat, n: nat, maxResp: int)
    requires IsPage(es, m, maxResp) && IsPage(es, n, maxResp)
    ensures m == n
  {
    if m < n {
      SummariesGrow(es, m + 1, n);
    } else if n < m {
      SummariesGrow(es, n + 1, m);
    }
  }

  lemma SummariesAppend(es: seq<ActiveEvent>, e: ActiveEvent)
    ensures Summaries(es + [e]) == Summaries(es) + e.summary
  {
    assert (es + [e])[..|es|] == es;
  }

  // ---------- the scan as a fold ----------

  /** Whether the marker is still being looked for, the events committed, and whether one was cut off. */
  datatype Progress = Progress(searching: bool, committed: seq<ActiveEvent>, more: bool)

  function Look(p: Progress, e: ActiveEvent, last: Option<ObjectId>, maxResp: int): Progress {
    if p.searching then p.(searching := last != Some(e.id))
    else if p.more then p
    else if HEADER + |Summaries(p.committed)| + |e.summary| >= maxResp - 2 then p.(more := true)
    else p.(committed := p.committed + [e])
  }

  function LookAll(p: Progress, es: seq<ActiveEvent>, last: Option<ObjectId>, maxResp: int): Progress
    decreases |es|
  {
    if es == [] then p else LookAll(Look(p, es[0], last, maxResp), es[1..], last, maxResp)
  }

  function Start(last: Option<ObjectId>): Progress {
    Progress(last.Some?, [], false)
  }

  ghost predicate Sound(p: Progress, last: Option<ObjectId>, maxResp: int) {
    && (p.searching ==> last.Some? && last.value.kind < MAX_OBJECT_TYPE && !p.more)
    && (p.committed != [] ==> Fits(p.committed, maxResp))
  }

  lemma LookIsSound(p: Progress, e: ActiveEvent, last: Option<ObjectId>, maxResp: int)
    requires Sound(p, last, maxResp)
    ensures Sound(Look(p, e, last, maxResp), last, maxResp)
  {
    SummariesAppend(p.committed, e);
  }

  lemma {:induction false} LookAppends(p: Progress, es: seq<ActiveEvent>, fs: seq<ActiveEvent>,
                                       last: Option<ObjectId>, maxResp: int)
    ensures LookAll(p, es + fs, last, maxResp) == LookAll(LookAll(p, es, last, maxResp), fs, last, maxResp)
    decreases |es|
  {
    if es == [] {
      assert es + fs == fs;
    } else {
      LookAppends(Look(p, es[0], last, maxResp), es[1..], fs, last, maxResp);
      assert (es + fs)[1..] == es[1..] + fs;
    }
  }

  /** After the cut-off it makes no difference which further events are looked at. */
  lemma {:induction false} LookFrozen(p: Progress, es: seq<ActiveEvent>, last: Option<ObjectId>, maxResp: int)
    requires p.more && !p.searching
    ensures LookAll(p, es, last, maxResp) == p
    decreases |es|
  {
    if es != [] {
      LookFrozen(p, es[1..], last, maxResp);
    }
  }

  lemma ResumeAppends(es: seq<ActiveEvent>, e: ActiveEvent, last: Option<ObjectId>)
    ensures last.Some? && Position(es, last.value) == |es| ==>
      (Position(es + [e], last.value) == if e.id == last.value then |es| else |es| + 1) &&
      Resume(es + [e], last) == []
    ensures !(last.Some? && Position(es, last.value) == |es|) ==>
      (last.Some? ==> Position(es + [e], last.value) == Position(es, last.value)) &&
      Resume(es + [e], last) == Resume(es, last) + [e]
  {
    var fs := es + [e];
    assert fs[|es|] == e && forall j :: 0 <= j < |es| ==> fs[j] == es[j];
    if last.Some? {
      var p, q := Position(es, last.value), Position(fs, last.value);
      assert p < |es| ==> fs[p].id == last.value;
      assert q < |es| ==> es[q].id == last.value;
      assert p < |es| ==> q == p;
    }
  }

  /** The progress p over es, of which rest follows the marker. */
  ghost predicate CommitsPage(p: Progress, rest: seq<ActiveEvent>, es: seq<ActiveEvent>, last: Option<ObjectId>,
                              maxResp: int) {
    && (p.searching <==> last.Some? && Position(es, last.value) == |es|)
    && p.committed <= rest
    && IsPage(rest, |p.committed|, maxResp)
    && (p.more <==> |p.committed| < |rest|)
  }

  /** The fold commits the page of what follows the marker. */
  lemma {:induction false} FoldIsPage(es: seq<ActiveEvent>, last: Option<ObjectId>, maxResp: int)
    ensures CommitsPage(LookAll(Start(last), es, last, maxResp), Resume(es, last), es, last, maxResp)
    decreases |es|
  {
    hide IsPage;
    hide Position;
    hide Resume;
    if es == [] {
      FoldOfNothing(last, maxResp);
    } else {
      var front, e := es[..|es| - 1], es[|es| - 1];
      assert es == front + [e];
      FoldIsPage(front, last, maxResp);
      LookAppends(Start(last), front, [e], last, maxResp);
      LookOne(LookAll(Start(last), front, last, maxResp), e, last, maxResp);
      FoldOneMore(LookAll(Start(last), front, last, maxResp), front, e, last, maxResp);
    }
  }

  lemma FoldOfNothing(last: Option<ObjectId>, maxResp: int)
    ensures CommitsPage(LookAll(Start(last), [], last, maxResp), Resume([], last), [], last, maxResp)
  {
  }

  lemma LookOne(p: Progress, e: ActiveEvent, last: Option<ObjectId>, maxResp: int)
    ensures LookAll(p, [e], last, maxResp) == Look(p, e, last, maxResp)
  {
  }

  lemma FoldOneMore(p: Progress, es: seq<ActiveEvent>, e: ActiveEvent, last: Option<ObjectId>, maxResp: int)
    requires CommitsPage(p, Resume(es, last), es, last, maxResp)
    ensures CommitsPage(Look(p, e, last, maxResp), Resume(es + [e], last), es + [e], last, maxResp)
  {
    hide IsPage;
    hide Position;
    hide Summaries;
    ResumeAppends(es, e, last);
    if !p.searching {
      PageGrows(Resume(es, last), e, p.committed, maxResp);
    }
  }

  lemma PageGrows(rest: seq<ActiveEvent>, e: ActiveEvent, committed: seq<ActiveEvent>, maxResp: int)
    requires committed <= rest && IsPage(rest, |committed|, maxResp)
    ensures |committed| < |rest| ==> IsPage(rest + [e], |committed|, maxResp)
    ensures committed == rest && HEADER + |Summaries(committed)| + |e.summary| >= maxResp - 2 ==>
      IsPage(rest + [e], |committed|, maxResp)
    ensures committed == rest && HEADER + |Summaries(committed)| + |e.summary| < maxResp - 2 ==>
      IsPage(rest + [e], |committed| + 1, maxResp)
  {
    var longer := rest + [e];
    SummariesAppend(rest, e);
    if |committed| < |rest| {
      assert longer[..|committed|] == rest[..|committed|] && longer[..|committed| + 1] == rest[..|committed| + 1];
    } else {
      assert longer[..|rest|] == rest && rest[..|rest|] == rest && longer[..|rest| + 1] == longer;
    }
  }

  /** The length of the page at the front of es. */
  ghost function PageLength(es: seq<ActiveEvent>, maxResp: int): (n: nat)
    ensures IsPage(es, n, maxResp)
  {
    PageFrom(es, 0, maxResp)
  }

  ghost function PageFrom(es: seq<ActiveEvent>, k: nat, maxResp: int): (n: nat)
    requires k <= |es| && (k > 0 ==> Fits(es[..k], maxResp))
    ensures IsPage(es, n, maxResp)
    decreases |es| - k
  {
    if k < |es| && Fits(es[..k + 1], maxResp) then PageFrom(es, k + 1, maxResp) else k
  }

  // ---------- what is written ----------

  /** The first active event of a handler is encoded even when the response is full already. */
  function Flags(first: bool, n: nat): (r: seq<bool>)
    ensures |r| == n
  {
    seq(n, i => first && i == 0)
  }

  /** Which of the active events are the first of their handler. */
  function FirstFlags(handlers: seq<Option<Answers>>): (r: seq<bool>)
    ensures |r| == |Active(handlers)|
  {
    if handlers == [] then [] else Flags(true, |ActiveOf(handlers[0])|) + FirstFlags(handlers[1..])
  }

  // ---------- which events are active ----------

  /** The handler of object type i is registered and answers its index j with an event, before the limit. */
  predicate Answered(handlers: seq<Option<Answers>>, i: nat, j: nat) {
    i < |handlers| && handlers[i].Some? && j < |handlers[i].value| && j < 0xffff && handlers[i].value[j].Some?
  }

  function AnswerAt(handlers: seq<Option<Answers>>, i: nat, j: nat): ActiveEvent
    requires Answered(handlers, i, j)
  {
    handlers[i].value[j].value
  }

  /** The places are those of some handler's events in ascending order, all those below the limit among them. */
  ghost predicate PlacesIn(answers: Answers, es: seq<ActiveEvent>, js: seq<nat>) {
    && |js| == |es|
    && (forall k :: 0 <= k < |js| ==> js[k] < |answers| && answers[js[k]] == Some(es[k]))
    && (forall k, l :: 0 <= k < l < |js| ==> js[k] < js[l])
    && (forall j :: 0 <= j < |answers| && answers[j].Some? ==> j in js)
  }

  lemma LaterPlaces(answers: Answers, es: seq<ActiveEvent>, js: seq<nat>) returns (later: seq<nat>)
    requires answers != [] && PlacesIn(answers[1..], es, js)
    ensures |later| == |js| && forall k :: 0 <= k < |js| ==> later[k] == js[k] + 1
    ensures forall k :: 0 <= k < |js| ==> later[k] < |answers| && answers[later[k]] == Some(es[k])
    ensures forall j :: 0 < j < |answers| && answers[j].Some? ==> j in later
  {
    later := seq(|js|, k requires 0 <= k < |js| => js[k] + 1);
    forall j | 0 < j < |answers| && answers[j].Some?
      ensures j in later
    {
      assert answers[1..][j - 1].Some?;
      var k :| 0 <= k < |js| && js[k] == j - 1;
      assert later[k] == j;
    }
  }

  lemma NextPlace(answers: Answers, es: seq<ActiveEvent>, js: seq<nat>) returns (all: seq<nat>)
    requires answers != [] && PlacesIn(answers[1..], es, js)
    ensures PlacesIn(answers, (if answers[0].Some? then [answers[0].value] else []) + es, all)
  {
    var later := LaterPlaces(answers, es, js);
    if answers[0].Some? {
      all := [0] + later;
      PlacesCons(answers, es, later);
    } else {
      all := later;
      assert [] + es == es;
    }
  }

  lemma InOrderCons(later: seq<nat>)
    requires forall k :: 0 <= k < |later| ==> 0 < later[k]
    requires forall k, l :: 0 <= k < l < |later| ==> later[k] < later[l]
    ensures var all := [0] + later; forall k, l :: 0 <= k < l < |all| ==> all[k] < all[l]
  {
  }

  lemma InCons(later: seq<nat>, j: nat)
    ensures j in [0] + later <==> j == 0 || j in later
  {
  }

  lemma PlacesCons(answers: Answers, es: seq<ActiveEvent>, later: seq<nat>)
    requires answers != [] && answers[0].Some? && |later| == |es|
    requires forall k :: 0 <= k < |later| ==> 0 < later[k] < |answers| && answers[later[k]] == Some(es[k])
    requires forall k, l :: 0 <= k < l < |later| ==> later[k] < later[l]
    requires forall j :: 0 < j < |answers| && answers[j].Some? ==> j in later
    ensures PlacesIn(answers, [answers[0].value] + es, [0] + later)
  {
    InOrderCons(later);
    forall j | 0 <= j < |answers| && answers[j].Some?
      ensures j in [0] + later
    {
      InCons(later, j);
    }
  }

  lemma ActiveInUnfolds(answers: Answers)
    requires answers != []
    ensures ActiveIn(answers) ==
            (if answers[0].Some? then [answers[0].value] else []) + ActiveIn(answers[1..])
  {
  }

  lemma {:induction false} PlacesOf(answers: Answers) returns (js: seq<nat>)
    ensures PlacesIn(answers, ActiveIn(answers), js)
  {
    js := [];
    if answers != [] {
      js := PlacesOf(answers[1..]);
      js := NextPlace(answers, ActiveIn(answers[1..]), js);
      ActiveInUnfolds(answers);
    }
  }

  predicate Before(p: (nat, nat), q: (nat, nat)) {
    p.0 < q.0 || (p.0 == q.0 && p.1 < q.1)
  }

  /** Event k is the answer at place at[k]; the places are all those with an event, each once and in order. */
  ghost predicate Placed(handlers: seq<Option<Answers>>, es: seq<ActiveEvent>, firsts: seq<bool>,
                         at: seq<(nat, nat)>) {
    && |at| == |es| == |firsts|
    && (forall k :: 0 <= k < |at| ==> IsAnswer(handlers, at[k], es[k]))
    && (forall k, l :: 0 <= k < l < |at| ==> Before(at[k], at[l]))
    && (forall i: nat, j: nat :: Answered(handlers, i, j) ==> (i, j) in at)
    && (forall k :: 0 <= k < |at| ==> MarksFirst(firsts, at, k))
  }

  /** The flag tells whether the object type is another than that of the place before. */
  predicate MarksFirst(firsts: seq<bool>, at: seq<(nat, nat)>, k: nat)
    requires k < |firsts| == |at|
  {
    firsts[k] <==> k == 0 || at[k - 1].0 != at[k].0
  }

  predicate IsAnswer(handlers: seq<Option<Answers>>, p: (nat, nat), e: ActiveEvent) {
    Answered(handlers, p.0, p.1) && AnswerAt(handlers, p.0, p.1) == e
  }

  lemma NothingPlaced()
    ensures Placed([], Active([]), FirstFlags([]), [])
  {
  }

  /** The places of the first handler's events. */
  lemma FirstPlaces(handler: Option<Answers>) returns (js: seq<nat>)
    ensures |js| == |ActiveOf(handler)|
    ensures forall k :: 0 <= k < |js| ==> IsAnswer([handler], (0, js[k]), ActiveOf(handler)[k])
    ensures forall k, l :: 0 <= k < l < |js| ==> js[k] < js[l]
    ensures forall j: nat :: Answered([handler], 0, j) ==> j in js
  {
    js := [];
    if handler.Some? {
      var asked := handler.value[..Min(|handler.value|, MAX_EVENT_INDEX)];
      js := PlacesOf(asked);
      hide ActiveIn;
      forall j: nat | Answered([handler], 0, j)
        ensures j in js
      {
        assert asked[j].Some?;
      }
    }
  }

  function Here(js: seq<nat>): (r: seq<(nat, nat)>)
    ensures |r| == |js| && forall k :: 0 <= k < |js| ==> r[k] == (0, js[k])
  {
    seq(|js|, k requires 0 <= k < |js| => (0, js[k]))
  }

  function Behind(later: seq<(nat, nat)>): (r: seq<(nat, nat)>)
    ensures |r| == |later| && forall k :: 0 <= k < |later| ==> r[k] == (later[k].0 + 1, later[k].1)
  {
    seq(|later|, k requires 0 <= k < |later| => (later[k].0 + 1, later[k].1))
  }

  lemma HereAndBehind(handlers: seq<Option<Answers>>, own: seq<ActiveEvent>, js: seq<nat>,
                      rest: seq<ActiveEvent>, flags: seq<bool>, later: seq<(nat, nat)>)
    requires handlers != [] && |js| == |own| && Placed(handlers[1..], rest, flags, later)
    requires forall k :: 0 <= k < |js| ==> IsAnswer([handlers[0]], (0, js[k]), own[k])
    requires forall k, l :: 0 <= k < l < |js| ==> js[k] < js[l]
    ensures forall k :: 0 <= k < |js| ==> IsAnswer(handlers, Here(js)[k], own[k])
    ensures forall k :: 0 <= k < |later| ==> IsAnswer(handlers, Behind(later)[k], rest[k])
    ensures forall k, l :: 0 <= k < l < |js| ==> Before(Here(js)[k], Here(js)[l])
    ensures forall k, l :: 0 <= k < l < |later| ==> Before(Behind(later)[k], Behind(later)[l])
  {
    forall k | 0 <= k < |js|
      ensures IsAnswer(handlers, Here(js)[k], own[k])
    {
      assert IsAnswer([handlers[0]], (0, js[k]), own[k]);
    }
    forall k | 0 <= k < |later|
      ensures IsAnswer(handlers, Behind(later)[k], rest[k])
    {
      assert IsAnswer(handlers[1..], later[k], rest[k]);
    }
    forall k, l | 0 <= k < l < |later|
      ensures Before(Behind(later)[k], Behind(later)[l])
    {
      assert Before(later[k], later[l]);
    }
  }

  lemma AllPlaces(handlers: seq<Option<Answers>>, js: seq<nat>, rest: seq<ActiveEvent>, flags: seq<bool>,
                  later: seq<(nat, nat)>, i: nat, j: nat)
    requires handlers != [] && Answered(handlers, i, j) && Placed(handlers[1..], rest, flags, later)
    requires forall j: nat :: Answered([handlers[0]], 0, j) ==> j in js
    ensures (i, j) in Here(js) + Behind(later)
  {
    if i == 0 {
      assert Answered([handlers[0]], 0, j);
      var k :| 0 <= k < |js| && js[k] == j;
      assert Here(js)[k] == (i, j);
    } else {
      assert Answered(handlers[1..], i - 1, j);
      var k :| 0 <= k < |later| && later[k] == (i - 1, j);
      assert Behind(later)[k] == (i, j);
    }
  }

  lemma FlagsPlaced(handlers: seq<Option<Answers>>, js: seq<nat>, rest: seq<ActiveEvent>, flags: seq<bool>,
                    later: seq<(nat, nat)>, k: nat)
    requires Placed(handlers, rest, flags, later) && k < |js| + |later|
    ensures MarksFirst(Flags(true, |js|) + flags, Here(js) + Behind(later), k)
  {
    var at := Here(js) + Behind(later);
    if k >= |js| {
      var m := k - |js|;
      assert MarksFirst(flags, later, m);
      assert at[k] == Behind(later)[m] && (Flags(true, |js|) + flags)[k] == flags[m];
      if m > 0 {
        assert at[k - 1] == Behind(later)[m - 1];
      } else if k > 0 {
        assert at[k - 1] == Here(js)[k - 1];
      }
    } else {
      assert at[k] == Here(js)[k] && (Flags(true, |js|) + flags)[k] == Flags(true, |js|)[k];
      if k > 0 {
        assert at[k - 1] == Here(js)[k - 1];
      }
    }
  }

  /** Places here come before places behind. */
  lemma JoinedBefore(js: seq<nat>, later: seq<(nat, nat)>, k: nat, l: nat)
    requires k < l < |js| + |later|
    requires forall k, l :: 0 <= k < l < |js| ==> Before(Here(js)[k], Here(js)[l])
    requires forall k, l :: 0 <= k < l < |later| ==> Before(Behind(later)[k], Behind(later)[l])
    ensures Before((Here(js) + Behind(later))[k], (Here(js) + Behind(later))[l])
  {
    if k >= |js| {
      assert Before(Behind(later)[k - |js|], Behind(later)[l - |js|]);
    } else if l < |js| {
      assert Before(Here(js)[k], Here(js)[l]);
    }
  }

  lemma JoinedAnswers(handlers: seq<Option<Answers>>, own: seq<ActiveEvent>, js: seq<nat>,
                      rest: seq<ActiveEvent>, later: seq<(nat, nat)>, k: nat)
    requires |js| == |own| && |later| == |rest| && k < |js| + |later|
    requires forall k :: 0 <= k < |js| ==> IsAnswer(handlers, Here(js)[k], own[k])
    requires forall k :: 0 <= k < |later| ==> IsAnswer(handlers, Behind(later)[k], rest[k])
    ensures IsAnswer(handlers, (Here(js) + Behind(later))[k], (own + rest)[k])
  {
    hide IsAnswer;
    if k >= |js| {
      assert IsAnswer(handlers, Behind(later)[k - |js|], rest[k - |js|]);
    } else {
      assert IsAnswer(handlers, Here(js)[k], own[k]);
    }
  }

  lemma ActiveUnfolds(handlers: seq<Option<Answers>>)
    requires handlers != []
    ensures Active(handlers) == ActiveOf(handlers[0]) + Active(handlers[1..])
    ensures FirstFlags(handlers) == Flags(true, |ActiveOf(handlers[0])|) + FirstFlags(handlers[1..])
  {
  }

  /** Places joined over any events own and rest of the first handler and of the others. */
  lemma JoinPlaced(handlers: seq<Option<Answers>>, own: seq<ActiveEvent>, js: seq<nat>, rest: seq<ActiveEvent>,
                   flags: seq<bool>, later: seq<(nat, nat)>)
    requires handlers != [] && |js| == |own| && Placed(handlers[1..], rest, flags, later)
    requires forall k :: 0 <= k < |js| ==> IsAnswer([handlers[0]], (0, js[k]), own[k])
    requires forall k, l :: 0 <= k < l < |js| ==> js[k] < js[l]
    requires forall j: nat :: Answered([handlers[0]], 0, j) ==> j in js
    ensures Placed(handlers, own + rest, Flags(true, |own|) + flags, Here(js) + Behind(later))
  {
    var at := Here(js) + Behind(later);
    PlacedSizes(handlers[1..], rest, flags, later);
    hide Placed;
    HereAndBehind(handlers, own, js, rest, flags, later);
    hide Flags;
    hide IsAnswer;
    hide Answered;
    hide Before;
    hide MarksFirst;
    hide Here;
    hide Behind;
    forall i: nat, j: nat | Answered(handlers, i, j)
      ensures (i, j) in at
    {
      AllPlaces(handlers, js, rest, flags, later, i, j);
    }
    forall k: nat | k < |at|
      ensures MarksFirst(Flags(true, |own|) + flags, at, k)
      ensures IsAnswer(handlers, at[k], (own + rest)[k])
    {
      FlagsPlaced(handlers[1..], js, rest, flags, later, k);
      JoinedAnswers(handlers, own, js, rest, later, k);
    }
    forall k: nat, l: nat | k < l < |at|
      ensures Before(at[k], at[l])
    {
      JoinedBefore(js, later, k, l);
    }
    PlacedFrom(handlers, own + rest, Flags(true, |own|) + flags, at);
  }

  lemma PlacedSizes(handlers: seq<Option<Answers>>, es: seq<ActiveEvent>, firsts: seq<bool>, at: seq<(nat, nat)>)
    requires Placed(handlers, es, firsts, at)
    ensures |at| == |es| == |firsts|
  {
  }

  lemma PlacedFrom(handlers: seq<Option<Answers>>, es: seq<ActiveEvent>, firsts: seq<bool>, at: seq<(nat, nat)>)
    requires |at| == |es| == |firsts|
    requires forall k: nat :: k < |at| ==> IsAnswer(handlers, at[k], es[k]) && MarksFirst(firsts, at, k)
    requires forall k: nat, l: nat :: k < l < |at| ==> Before(at[k], at[l])
    requires forall i: nat, j: nat :: Answered(handlers, i, j) ==> (i, j) in at
    ensures Placed(handlers, es, firsts, at)
  {
    hide IsAnswer;
    hide Answered;
    hide Before;
    hide MarksFirst;
  }

  lemma NextPlaced(handlers: seq<Option<Answers>>, later: seq<(nat, nat)>) returns (at: seq<(nat, nat)>)
    requires handlers != [] && Placed(handlers[1..], Active(handlers[1..]), FirstFlags(handlers[1..]), later)
    ensures Placed(handlers, Active(handlers), FirstFlags(handlers), at)
  {
    hide Active;
    hide FirstFlags;
    hide ActiveOf;
    hide Flags;
    hide Placed;
    hide IsAnswer;
    hide Answered;
    var js := FirstPlaces(handlers[0]);
    ActiveUnfolds(handlers);
    JoinPlaced(handlers, ActiveOf(handlers[0]), js, Active(handlers[1..]), FirstFlags(handlers[1..]), later);
    at := Here(js) + Behind(later);
  }

  /**
   The active events are the answers of the registered handlers below index 0xffff that are events, one for each,
   by object type and then by index; an index without an event ends nothing. The flags mark the first of each type.
   */
  lemma {:induction false} ActiveInOrder(handlers: seq<Option<Answers>>) returns (at: seq<(nat, nat)>)
    ensures Placed(handlers, Active(handlers), FirstFlags(handlers), at)
    decreases |handlers|
  {
    at := [];
    if handlers == [] {
      NothingPlaced();
    } else {
      at := ActiveInOrder(handlers[1..]);
      at := NextPlaced(handlers, at);
    }
  }

  /** In particular an event is active exactly when some handler answers with it. */
  lemma ActiveIffAnswered(handlers: seq<Option<Answers>>, e: ActiveEvent)
    ensures e in Active(handlers) <==>
            exists i: nat, j: nat :: Answered(handlers, i, j) && AnswerAt(handlers, i, j) == e
  {
    var at := ActiveInOrder(handlers);
    var es := Active(handlers);
    if e in es {
      var k :| 0 <= k < |es| && es[k] == e;
      assert IsAnswer(handlers, at[k], e);
    }
    if exists i: nat, j: nat :: Answered(handlers, i, j) && AnswerAt(handlers, i, j) == e {
      var i: nat, j: nat :| Answered(handlers, i, j) && AnswerAt(handlers, i, j) == e;
      var k :| 0 <= k < |at| && at[k] == (i, j);
      assert IsAnswer(handlers, at[k], es[k]);
    }
  }

  /** Encoding the event writes past a buffer of this size; the encoder does not look at the size. */
  predicate TooLong(p: Progress, e: ActiveEvent, first: bool, maxResp: int, size: nat) {
    && !p.searching && (p.more ==> first && maxResp >= MIN_RESPONSE)
    && HEADER + |Summaries(p.committed)| + |e.summary| > size
  }

  predicate AnyTooLong(p: Progress, es: seq<ActiveEvent>, firsts: seq<bool>, last: Option<ObjectId>, maxResp: int,
                       size: nat)
    requires |es| == |firsts|
    decreases |es|
  {
    es != [] &&
    (TooLong(p, es[0], firsts[0], maxResp, size) ||
     AnyTooLong(Look(p, es[0], last, maxResp), es[1..], firsts[1..], last, maxResp, size))
  }

  lemma {:induction false} TooLongAppends(p: Progress, es: seq<ActiveEvent>, fs: seq<ActiveEvent>, a: seq<bool>, b: seq<bool>,
                                          last: Option<ObjectId>, maxResp: int, size: nat)
    requires |es| == |a| && |fs| == |b|
    ensures AnyTooLong(p, es + fs, a + b, last, maxResp, size) <==>
            AnyTooLong(p, es, a, last, maxResp, size) ||
            AnyTooLong(LookAll(p, es, last, maxResp), fs, b, last, maxResp, size)
    decreases |es|
  {
    if es == [] {
      assert es + fs == fs && a + b == b;
    } else {
      TooLongAppends(Look(p, es[0], last, maxResp), es[1..], fs, a[1..], b, last, maxResp, size);
      assert (es + fs)[1..] == es[1..] + fs && (a + b)[1..] == a[1..] + b;
    }
  }

  /** After a cut-off the rest of the handler's events is not encoded, and after an abort nothing is. */
  lemma {:induction false} FrozenFits(p: Progress, es: seq<ActiveEvent>, firsts: seq<bool>, last: Option<ObjectId>,
                                      maxResp: int, size: nat)
    requires |es| == |firsts| && p.more && !p.searching
    requires maxResp < MIN_RESPONSE || forall i :: 0 <= i < |firsts| ==> !firsts[i]
    ensures !AnyTooLong(p, es, firsts, last, maxResp, size)
    decreases |es|
  {
    if es != [] {
      FrozenFits(p, es[1..], firsts[1..], last, maxResp, size);
    }
  }

  /** Behind a page of n events, event j is encoded nevertheless. */
  predicate Tried(firsts: seq<bool>, n: nat, j: nat, maxResp: int)
    requires j < |firsts|
  {
    j == n || (j > n && firsts[j] && maxResp >= MIN_RESPONSE)
  }

  /** An event behind the page is encoded past the end of the buffer. */
  ghost predicate TriedTooLong(rest: seq<ActiveEvent>, firsts: seq<bool>, n: nat, maxResp: int, size: nat)
    requires n <= |rest| == |firsts|
  {
    exists j :: n <= j < |rest| && Tried(firsts, n, j, maxResp) &&
      HEADER + |Summaries(rest[..n])| + |rest[j].summary| > size
  }

  /** The response, or an event tried behind its last one, does not fit the buffer. */
  ghost predicate PastEnd(rest: seq<ActiveEvent>, firsts: seq<bool>, n: nat, maxResp: int, size: nat)
    requires n <= |rest| == |firsts|
  {
    || HEADER + |Summaries(rest[..n])| + (if maxResp < MIN_RESPONSE && n < |rest| then 0 else TRAILER) > size
    || TriedTooLong(rest, firsts, n, maxResp, size)
  }

  /** The scan in closed form: only the page and the events tried behind it are written. */
  ghost predicate WritesPage(es: seq<ActiveEvent>, firsts: seq<bool>, last: Option<ObjectId>, maxResp: int, size: nat)
    requires |es| == |firsts|
  {
    var rest, p := Resume(es, last), LookAll(Start(last), es, last, maxResp);
    && |p.committed| <= |rest| <= |es|
    && (AnyTooLong(Start(last), es, firsts, last, maxResp, size) <==>
        || HEADER + |Summaries(rest[..|p.committed|])| > size
        || TriedTooLong(rest, firsts[|es| - |rest|..], |p.committed|, maxResp, size))
  }

  lemma {:induction false} ScanWrites(es: seq<ActiveEvent>, firsts: seq<bool>, last: Option<ObjectId>, maxResp: int,
                                      size: nat)
    requires |es| == |firsts| && HEADER <= size
    ensures WritesPage(es, firsts, last, maxResp, size)
    decreases |es|
  {
    hide WritesPage;
    if es == [] {
      NothingWritten(last, maxResp, size);
    } else {
      var n := |es| - 1;
      ScanWrites(es[..n], firsts[..n], last, maxResp, size);
      assert es == es[..n] + [es[n]] && firsts == firsts[..n] + [firsts[n]];
      ScanWritesOneMore(es[..n], es[n], firsts[..n], firsts[n], last, maxResp, size);
    }
  }

  lemma NothingWritten(last: Option<ObjectId>, maxResp: int, size: nat)
    requires HEADER <= size
    ensures WritesPage([], [], last, maxResp, size)
  {
    assert Resume([], last) == [];
  }

  lemma ScanWritesOneMore(es: seq<ActiveEvent>, e: ActiveEvent, firsts: seq<bool>, flag: bool, last: Option<ObjectId>,
                          maxResp: int, size: nat)
    requires |es| == |firsts| && WritesPage(es, firsts, last, maxResp, size)
    ensures WritesPage(es + [e], firsts + [flag], last, maxResp, size)
  {
    hide Resume;
    hide AnyTooLong;
    hide LookAll;
    hide Look;
    hide IsPage;
    hide Position;
    hide TriedTooLong;
    hide Summaries;
    hide TooLong;
    var p, rest := LookAll(Start(last), es, last, maxResp), Resume(es, last);
    FoldIsPage(es, last, maxResp);
    LookAppends(Start(last), es, [e], last, maxResp);
    TooLongAppends(Start(last), es, [e], firsts, [flag], last, maxResp, size);
    LookOne(p, e, last, maxResp);
    TooLongOne(p, e, flag, last, maxResp, size);
    ResumeAppends(es, e, last);
    if p.searching {
      NothingTried(p, e, es, firsts, flag, last, maxResp, size);
    } else {
      var flags := firsts[|es| - |rest|..];
      assert (firsts + [flag])[|es| - |rest|..] == flags + [flag];
      OneMoreTried(rest, e, flags, flag, p, last, maxResp, size);
    }
  }

  lemma NothingTried(p: Progress, e: ActiveEvent, es: seq<ActiveEvent>, firsts: seq<bool>, flag: bool, last: Option<ObjectId>,
                     maxResp: int, size: nat)
    requires |es| == |firsts| && p.searching && last.Some? && Position(es, last.value) == |es|
    ensures Look(p, e, last, maxResp).committed == p.committed && !TooLong(p, e, flag, maxResp, size)
    ensures Resume(es, last) == [] && (firsts + [flag])[|es| + 1..] == firsts[|es|..] == []
  {
  }

  lemma TooLongOne(p: Progress, e: ActiveEvent, flag: bool, last: Option<ObjectId>, maxResp: int, size: nat)
    ensures AnyTooLong(p, [e], [flag], last, maxResp, size) == TooLong(p, e, flag, maxResp, size)
  {
  }

  lemma OneMoreTried(rest: seq<ActiveEvent>, e: ActiveEvent, flags: seq<bool>, flag: bool, p: Progress,
                     last: Option<ObjectId>, maxResp: int, size: nat)
    requires |rest| == |flags| && !p.searching && p.committed <= rest && (p.more <==> |p.committed| < |rest|)
    ensures var q := Look(p, e, last, maxResp);
            var n, m := |p.committed|, |q.committed|;
            && m <= |rest| + 1
            && (HEADER + |Summaries((rest + [e])[..m])| > size ||
                TriedTooLong(rest + [e], flags + [flag], m, maxResp, size) <==>
                HEADER + |Summaries(rest[..n])| > size || TriedTooLong(rest, flags, n, maxResp, size) ||
                TooLong(p, e, flag, maxResp, size))
  {
    var q, all, fs := Look(p, e, last, maxResp), rest + [e], flags + [flag];
    var n, m := |p.committed|, |q.committed|;
    SummariesAppend(p.committed, e);
    assert all[..n] == rest[..n] == p.committed && all[|rest|] == e && fs[|rest|] == flag;
    if m == n {
      StillTried(rest, e, flags, flag, n, maxResp, size);
    } else {
      assert all[..m] == q.committed;
    }
  }

  lemma StillTried(rest: seq<ActiveEvent>, e: ActiveEvent, flags: seq<bool>, flag: bool, n: nat, maxResp: int, size: nat)
    requires n <= |rest| == |flags|
    ensures TriedTooLong(rest + [e], flags + [flag], n, maxResp, size) <==>
            || TriedTooLong(rest, flags, n, maxResp, size)
            || (Tried(flags + [flag], n, |rest|, maxResp) && HEADER + |Summaries(rest[..n])| + |e.summary| > size)
  {
    var all, fs := rest + [e], flags + [flag];
    assert all[..n] == rest[..n];
    if TriedTooLong(rest, flags, n, maxResp, size) {
      var j :| n <= j < |rest| && Tried(flags, n, j, maxResp) &&
        HEADER + |Summaries(rest[..n])| + |rest[j].summary| > size;
      assert Tried(fs, n, j, maxResp) && all[j] == rest[j];
    }
    if TriedTooLong(all, fs, n, maxResp, size) {
      var j :| n <= j < |all| && Tried(fs, n, j, maxResp) && HEADER + |Summaries(all[..n])| + |all[j].summary| > size;
      assert j < |rest| ==> Tried(flags, n, j, maxResp) && all[j] == rest[j];
    }
  }

  // ---------- the handler ----------

  method Write(buffer: array<u8>, at: nat, octets: seq<u8>)
    requires at + |octets| <= buffer.Length
    modifies buffer
    ensures buffer[..at + |octets|] == old(buffer[..at]) + octets
  {
    for i := 0 to |octets|
      invariant buffer[..at + i] == old(buffer[..at]) + octets[..i]
    {
      buffer[at + i] := octets[i];
    }
  }

  function HeaderOctets(invokeId: u8): (r: seq<u8>)
    ensures |r| == HEADER
  {
    [0x30, invokeId, 29] + OpeningTag(0)
  }

  function TrailerOctets(more: bool): (r: seq<u8>)
    ensures |r| == TRAILER
  {
    ClosingTag(0) + ContextBoolean(1, more)
  }

  /**
   The acknowledgement octet by octet: a complex ack with the invoke ID of the request and service choice 29, the
   summaries between the brackets of context tag 0, and the flag under context tag 1.
   */
  lemma AckInOctets(invokeId: u8, es: seq<ActiveEvent>, more: bool)
    ensures var ack := HeaderOctets(invokeId) + Summaries(es) + TrailerOctets(more);
            var n := |ack|;
            && n == |Summaries(es)| + 7
            && ack[0] == 0x30 && ack[1] == invokeId && ack[2] == 29 && ack[3] == 0x0E
            && ack[4..n - 3] == Summaries(es)
            && ack[n - 3] == 0x0F && ack[n - 2] == 0x19 && ack[n - 1] == if more then 1 else 0
  {
    assert HeaderOctets(invokeId) == [0x30, invokeId, 29, 0x0E];
    assert TrailerOctets(more) == [0x0F, 0x19, if more then 1 else 0];
  }

  /** Events fit when the whole acknowledgement with them is no longer than the client accepts. */
  lemma FitsMeansWithin(invokeId: u8, es: seq<ActiveEvent>, more: bool, maxResp: int)
    ensures Fits(es, maxResp) <==> |HeaderOctets(invokeId) + Summaries(es) + TrailerOctets(more)| <= maxResp
  {
  }

  datatype Status = Going | TooShort | PastBuffer

  /** The local variables of the loops: the wanted object type (1024: none), the events committed, the lengths. */
  datatype Scan = Scan(wanted: u16, committed: seq<ActiveEvent>, pduLen: nat, apduLen: nat, more: bool)

  ghost predicate Consistent(s: Scan, p: Progress, last: Option<ObjectId>, maxResp: int, invokeId: u8,
                             buffer: array<u8>)
    requires Sound(p, last, maxResp)
    reads buffer
  {
    && s == Scan(if p.searching then last.value.kind else MAX_OBJECT_TYPE,
                 p.committed, HEADER + |Summaries(p.committed)|, s.apduLen, p.more)
    && (if p.more then s.apduLen >= maxResp - 2 >= MIN_RESPONSE - 2 else s.apduLen == s.pduLen)
    && s.pduLen <= buffer.Length
    && buffer[..s.pduLen] == HeaderOctets(invokeId) + Summaries(p.committed)
  }

  /** How the scan stands: it goes on, gives up a response too short to be useful, or has left the buffer. */
  ghost predicate Stands(status: Status, t: Scan, q: Progress, last: Option<ObjectId>, maxResp: int, invokeId: u8,
                         buffer: array<u8>)
    reads buffer
  {
    && Sound(q, last, maxResp)
    && (status.Going? ==> Consistent(t, q, last, maxResp, invokeId, buffer))
    && (status.TooShort? ==> maxResp < MIN_RESPONSE && q.more && !q.searching)
  }

  /** The body of the inner loop for one active event, the first of its handler if the response is full. */
  method VisitEvent(e: ActiveEvent, last: Option<ObjectId>, maxResp: int, invokeId: u8, buffer: array<u8>, s: Scan,
                    ghost p: Progress, ghost first: bool)
    returns (t: Scan, cut: bool, status: Status)
    requires Sound(p, last, maxResp) && Consistent(s, p, last, maxResp, invokeId, buffer) && (p.more ==> first)
    modifies buffer
    ensures status.PastBuffer? <==> TooLong(p, e, first, maxResp, buffer.Length)
    ensures !status.PastBuffer? ==>
              Stands(status, t, Look(p, e, last, maxResp), last, maxResp, invokeId, buffer)
    ensures cut <==> Look(p, e, last, maxResp).more
    ensures cut ==> !Look(p, e, last, maxResp).searching
    ensures status.TooShort? ==> cut
  {
    hide Summaries;
    hide HeaderOctets;
    t, cut, status := s, false, Going;
    LookIsSound(p, e, last, maxResp);
    if s.wanted != MAX_OBJECT_TYPE {
      t := if s.wanted == e.id.kind && last.value.instance == e.id.instance then s.(wanted := MAX_OBJECT_TYPE) else s;
    } else {
      SummariesAppend(s.committed, e);
      var apduLen := s.apduLen + |e.summary|;
      cut := apduLen >= maxResp - 2;
      if s.pduLen + |e.summary| > buffer.Length {
        status := PastBuffer;
        return;
      }
      Write(buffer, s.pduLen, e.summary);
      assert buffer[..s.pduLen + |e.summary|][..s.pduLen] == buffer[..s.pduLen];
      if cut {
        status := if maxResp < MIN_RESPONSE then TooShort else Going;
        t := s.(apduLen := apduLen, more := true);
      } else {
        var pduLen := s.pduLen + |e.summary|;
        Assoc(HeaderOctets(invokeId), Summaries(s.committed), e.summary);
        t := Scan(s.wanted, s.committed + [e], pduLen, apduLen, s.more);
      }
    }
  }

  lemma FlagsRest(first: bool, n: nat)
    requires n > 0
    ensures Flags(first, n)[0] == first && Flags(first, n)[1..] == Flags(false, n - 1)
  {
  }

  /** The inner loop: ask one handler for index 0, 1, ... until its list ends or the response is full. */
  method AskHandler(answers: Answers, last: Option<ObjectId>, maxResp: int, invokeId: u8, buffer: array<u8>, s: Scan,
                    ghost p: Progress)
    returns (t: Scan, status: Status)
    requires Sound(p, last, maxResp) && Consistent(s, p, last, maxResp, invokeId, buffer)
    modifies buffer
    ensures var es := ActiveOf(Some(answers));
            && (status.PastBuffer? <==> AnyTooLong(p, es, Flags(true, |es|), last, maxResp, buffer.Length))
            && (!status.PastBuffer? ==> Stands(status, t, LookAll(p, es, last, maxResp), last, maxResp, invokeId, buffer))
  {
    hide Look;
    hide TooLong;
    hide Flags;
    hide Consistent;
    hide Sound;
    var end := Min(|answers|, MAX_EVENT_INDEX);
    var own := answers[..end];
    ghost var q, first, left := p, true, ActiveIn(own);
    ghost var over := AnyTooLong(p, left, Flags(true, |left|), last, maxResp, buffer.Length);
    var j := 0;
    var cut := false;
    t, status := s, Going;
    assert own[0..] == own;
    while j < end && !cut
      invariant j <= end && left == ActiveIn(own[j..])
      invariant LookAll(q, left, last, maxResp) == LookAll(p, ActiveIn(own), last, maxResp)
      invariant over == AnyTooLong(q, left, Flags(first, |left|), last, maxResp, buffer.Length)
      invariant !status.PastBuffer? && Stands(status, t, q, last, maxResp, invokeId, buffer)
      invariant cut ==> q.more && !q.searching && !first
      invariant !cut ==> status.Going? && (q.more ==> first)
    {
      assert own[j..][1..] == own[j + 1..];
      if own[j].Some? {
        var e := own[j].value;
        FlagsRest(first, |left|);
        t, cut, status := VisitEvent(e, last, maxResp, invokeId, buffer, t, q, first);
        if status.PastBuffer? {
          return;
        }
        q := Look(q, e, last, maxResp);
        first, left := false, left[1..];
      }
      j := j + 1;
    }
    if cut {
      LookFrozen(q, left, last, maxResp);
      NoFlags(|left|);
      FrozenFits(q, left, Flags(false, |left|), last, maxResp, buffer.Length);
    }
  }

  lemma NoFlags(n: nat)
    ensures forall i :: 0 <= i < |Flags(false, n)| ==> !Flags(false, n)[i]
  {
  }

  /** The outer loop: ask the handler of every object type, even when the response is already full. */
  method AskAll(handlers: Handlers, last: Option<ObjectId>, maxResp: int, invokeId: u8, buffer: array<u8>, s: Scan,
                ghost p: Progress)
    returns (t: Scan, status: Status)
    requires Sound(p, last, maxResp) && Consistent(s, p, last, maxResp, invokeId, buffer)
    modifies buffer
    ensures var es := Active(handlers);
            && (status.PastBuffer? <==> AnyTooLong(p, es, FirstFlags(handlers), last, maxResp, buffer.Length))
            && (!status.PastBuffer? ==> Stands(status, t, LookAll(p, es, last, maxResp), last, maxResp, invokeId, buffer))
  {
    hide AnyTooLong;
    hide LookAll;
    hide Flags;
    hide ActiveOf;
    hide Consistent;
    hide Sound;
    ghost var q := p;
    ghost var over := AnyTooLong(p, Active(handlers), FirstFlags(handlers), last, maxResp, buffer.Length);
    t, status := s, Going;
    assert handlers[0..] == handlers;
    for i := 0 to MAX_OBJECT_TYPE
      invariant status.Going? && Stands(status, t, q, last, maxResp, invokeId, buffer)
      invariant LookAll(q, Active(handlers[i..]), last, maxResp) == LookAll(p, Active(handlers), last, maxResp)
      invariant over == AnyTooLong(q, Active(handlers[i..]), FirstFlags(handlers[i..]), last, maxResp, buffer.Length)
    {
      assert handlers[i..][1..] == handlers[i + 1..];
      ghost var own, rest := ActiveOf(handlers[i]), Active(handlers[i + 1..]);
      TooLongAppends(q, own, rest, Flags(true, |own|), FirstFlags(handlers[i + 1..]), last, maxResp, buffer.Length);
      LookAppends(q, own, rest, last, maxResp);
      if handlers[i].Some? {
        t, status := AskHandler(handlers[i].value, last, maxResp, invokeId, buffer, t, q);
        if status.PastBuffer? {
          return;
        }
        q := LookAll(q, own, last, maxResp);
        if status.TooShort? {
          LookFrozen(q, rest, last, maxResp);
          FrozenFits(q, rest, FirstFlags(handlers[i + 1..]), last, maxResp, buffer.Length);
          return;
        }
      } else {
        NoHandler(q, last, maxResp, buffer.Length);
      }
    }
    NoEvents(q, last, maxResp, buffer.Length);
  }

  lemma NoHandler(p: Progress, last: Option<ObjectId>, maxResp: int, size: nat)
    ensures ActiveOf(None) == [] && LookAll(p, [], last, maxResp) == p
    ensures !AnyTooLong(p, [], Flags(true, 0), last, maxResp, size)
  {
  }

  lemma NoEvents(p: Progress, last: Option<ObjectId>, maxResp: int, size: nat)
    ensures LookAll(p, [], last, maxResp) == p && !AnyTooLong(p, [], [], last, maxResp, size)
  {
  }

  /** The answer to one request. */
  datatype Answer = Page(events: seq<ActiveEvent>, more: bool) | Aborted

  /** The page behind the marker; when it is cut short and the response is shorter than 128 octets, an abort. */
  ghost function AnswerTo(es: seq<ActiveEvent>, last: Option<ObjectId>, maxResp: int): Answer {
    var rest := Resume(es, last);
    var n := PageLength(rest, maxResp);
    if maxResp < MIN_RESPONSE && n < |rest| then Aborted else Page(rest[..n], n < |rest|)
  }

  /** The answer is an abort exactly when the client accepts fewer than 128 octets and not the whole rest. */
  lemma AbortedIff(es: seq<ActiveEvent>, last: Option<ObjectId>, maxResp: int)
    ensures AnswerTo(es, last, maxResp) == Aborted <==>
            maxResp < 128 && Resume(es, last) != [] && |Summaries(Resume(es, last))| + 7 > maxResp
  {
    WholePage(Resume(es, last), PageLength(Resume(es, last), maxResp), maxResp);
  }

  function Said(reply: Reply, committed: seq<ActiveEvent>): Answer
    requires !reply.Overrun?
  {
    match reply
    case Ack(_, more) => Page(committed, more)
    case Abort => Aborted
  }

  /**
   handler_get_event_information for a decoded request, the buffer being the transmit buffer behind the
   network header. It says what AnswerTo says, with the octets of exactly those events in the buffer between
   header and trailer, unless the response or an event tried behind it does not fit the buffer.
   */
  method Handle(handlers: Handlers, last: Option<ObjectId>, maxResp: int, invokeId: u8, buffer: array<u8>)
    returns (reply: Reply, committed: seq<ActiveEvent>)
    requires last.Some? ==> last.value.kind < MAX_OBJECT_TYPE
    requires HEADER <= buffer.Length
    modifies buffer
    ensures var es := Active(handlers);
            var rest := Resume(es, last);
            && |rest| <= |es|
            && (reply.Overrun? <==> PastEnd(rest, FirstFlags(handlers)[|es| - |rest|..], PageLength(rest, maxResp),
                                            maxResp, buffer.Length))
    ensures !reply.Overrun? ==> Said(reply, committed) == AnswerTo(Active(handlers), last, maxResp)
    ensures reply.Ack? ==>
              && reply.len <= buffer.Length
              && buffer[..reply.len] == HeaderOctets(invokeId) + Summaries(committed) + TrailerOctets(reply.more)
              && (committed != [] || maxResp >= HEADER + TRAILER ==> reply.len <= maxResp)
  {
    hide LookAll;
    hide AnyTooLong;
    hide IsPage;
    hide Resume;
    hide TrailerOctets;
    hide TriedTooLong;
    hide PageLength;
    ghost var es, p := Active(handlers), LookAll(Start(last), Active(handlers), last, maxResp);
    FoldIsPage(es, last, maxResp);
    ScanWrites(es, FirstFlags(handlers), last, maxResp, buffer.Length);
    PageIsUnique(Resume(es, last), |p.committed|, PageLength(Resume(es, last), maxResp), maxResp);
    assert p.committed == Resume(es, last)[..|p.committed|];
    committed := [];
    Write(buffer, 0, HeaderOctets(invokeId));
    assert buffer[..HEADER] == HeaderOctets(invokeId);
    var s := Scan(if last.Some? then last.value.kind else MAX_OBJECT_TYPE, [], HEADER, HEADER, false);
    assert HeaderOctets(invokeId) + [] == HeaderOctets(invokeId);
    var t, status := AskAll(handlers, last, maxResp, invokeId, buffer, s, Start(last));
    if status.PastBuffer? {
      reply := Overrun;
    } else if status.TooShort? {
      reply := Abort;
    } else if t.pduLen + TRAILER > buffer.Length {
      reply := Overrun;
    } else {
      committed := t.committed;
      Write(buffer, t.pduLen, TrailerOctets(t.more));
      reply := Ack(t.pduLen + TRAILER, t.more);
    }
  }

  // ---------- repeated requests ----------

  ghost predicate DistinctIds(es: seq<ActiveEvent>) {
    forall i, j :: 0 <= i < j < |es| ==> es[i].id != es[j].id
  }

  ghost predicate EachFits(es: seq<ActiveEvent>, maxResp: int) {
    forall i :: 0 <= i < |es| ==> HEADER + |es[i].summary| < maxResp - 2
  }

  /**
   A client asks for pages, each time with the last object received, until no more are announced. It also ends
   with an abort, or with an empty page: then it has no other object to ask with.
   */
  ghost function Dialogue(es: seq<ActiveEvent>, last: Option<ObjectId>, maxResp: int): (r: seq<Answer>)
    requires DistinctIds(es)
    ensures r != []
    decreases |Resume(es, last)|
  {
    var a := AnswerTo(es, last, maxResp);
    if a.Aborted? || !a.more || a.events == [] then [a]
    else
      NextPage(es, last, maxResp);
      [a] + Dialogue(es, Some(a.events[|a.events| - 1].id), maxResp)
  }

  lemma PositionOf(es: seq<ActiveEvent>, at: nat)
    requires DistinctIds(es) && at < |es|
    ensures Position(es, es[at].id) == at
  {
    assert Position(es, es[at].id) <= at;
  }

  lemma ResumeBehind(es: seq<ActiveEvent>, at: nat)
    requires DistinctIds(es) && at < |es|
    ensures Resume(es, Some(es[at].id)) == es[at + 1..]
  {
    PositionOf(es, at);
    hide Position;
  }

  lemma SplitAt(es: seq<ActiveEvent>, i: nat, j: nat)
    requires i <= j <= |es|
    ensures es[i..] == es[i..][..j - i] + es[j..]
  {
  }

  /** The request after a page that announces more resumes right behind it. */
  lemma NextPage(es: seq<ActiveEvent>, last: Option<ObjectId>, maxResp: int)
    requires DistinctIds(es) && AnswerTo(es, last, maxResp).Page? && AnswerTo(es, last, maxResp).events != []
    ensures var page := AnswerTo(es, last, maxResp).events;
            Resume(es, last) == page + Resume(es, Some(page[|page| - 1].id))
  {
    var k := ResumeIsSuffix(es, last);
    PageAt(es, k, PageLength(Resume(es, last), maxResp));
  }

  lemma ResumeIsSuffix(es: seq<ActiveEvent>, last: Option<ObjectId>) returns (k: nat)
    ensures k <= |es| && Resume(es, last) == es[k..]
  {
    k := match last
      case None => 0
      case Some(id) => Min(Position(es, id) + 1, |es|);
  }

  lemma PageAt(es: seq<ActiveEvent>, k: nat, n: nat)
    requires DistinctIds(es) && 0 < n && k + n <= |es|
    ensures var page := es[k..][..n];
            es[k..] == page + Resume(es, Some(page[n - 1].id))
  {
    hide Resume;
    hide DistinctIds;
    ResumeBehind(es, k + n - 1);
    LastOfPage(es, k, n);
    SplitAt(es, k, k + n);
  }

  lemma LastOfPage(es: seq<ActiveEvent>, k: nat, n: nat)
    requires 0 < n && k + n <= |es|
    ensures es[k..][..n][n - 1] == es[k + n - 1]
  {
  }

  function Delivered(answers: seq<Answer>): seq<ActiveEvent> {
    if answers == [] then []
    else (if answers[0].Page? then answers[0].events else []) + Delivered(answers[1..])
  }

  /** Every answer is a page, and every page but the last announces more. */
  ghost predicate MoreUntilLast(answers: seq<Answer>) {
    forall i :: 0 <= i < |answers| ==> answers[i].Page? && (answers[i].more <==> i < |answers| - 1)
  }

  /** One page takes everything, or pages may be cut short and each event fits one. */
  ghost predicate Deliverable(rest: seq<ActiveEvent>, maxResp: int) {
    rest == [] || Fits(rest, maxResp) || (maxResp >= MIN_RESPONSE && EachFits(rest, maxResp))
  }

  lemma WholePage(rest: seq<ActiveEvent>, n: nat, maxResp: int)
    requires IsPage(rest, n, maxResp)
    ensures n <= |rest| && (n == |rest| <==> rest == [] || Fits(rest, maxResp))
  {
    assert rest[..|rest|] == rest;
    if n < |rest| {
      SummariesGrow(rest, n + 1, |rest|);
    }
  }

  lemma FittingPrefix(rest: seq<ActiveEvent>, n: nat, maxResp: int)
    requires n <= |rest| && Fits(rest[..n], maxResp)
    ensures forall i :: 0 <= i < n ==> HEADER + |rest[i].summary| < maxResp - 2
  {
    forall i | 0 <= i < n
      ensures HEADER + |rest[i].summary| < maxResp - 2
    {
      SummariesGrow(rest, i + 1, n);
      assert rest[..i + 1] == rest[..i] + [rest[i]];
      SummariesAppend(rest[..i], rest[i]);
    }
  }

  /** Behind a page that is not empty the rest is deliverable exactly when the whole was. */
  lemma DeliverableBehind(rest: seq<ActiveEvent>, n: nat, tail: seq<ActiveEvent>, maxResp: int)
    requires IsPage(rest, n, maxResp) && 0 < n < |rest| && maxResp >= MIN_RESPONSE && rest == rest[..n] + tail
    ensures Deliverable(rest, maxResp) <==> Deliverable(tail, maxResp)
  {
    WholePage(rest, n, maxResp);
    FittingPrefix(rest, n, maxResp);
    assert tail[..|tail|] == tail;
    if Fits(tail, maxResp) {
      FittingPrefix(tail, |tail|, maxResp);
    }
    assert forall i :: n <= i < |rest| ==> rest[i] == tail[i - n];
    assert forall i :: 0 <= i < |tail| ==> tail[i] == rest[i + n];
  }

  /** An empty page that announces more: the next event does not fit any. */
  lemma StuckPage(rest: seq<ActiveEvent>, maxResp: int)
    requires IsPage(rest, 0, maxResp) && rest != []
    ensures !Deliverable(rest, maxResp)
  {
    WholePage(rest, 0, maxResp);
    assert rest[..1] == [] + [rest[0]];
    SummariesAppend([], rest[0]);
  }

  /**
   From any marker on the dialogue ends, and it has delivered what follows the marker, in order and each event
   once, exactly when that is deliverable; only then does it end with a page that announces no more.
   */
  lemma {:induction false} DialogueDelivers(es: seq<ActiveEvent>, last: Option<ObjectId>, maxResp: int)
    requires DistinctIds(es)
    ensures var all, rest := Dialogue(es, last, maxResp), Resume(es, last);
            && Delivered(all) <= rest
            && (Delivered(all) == rest <==> Deliverable(rest, maxResp))
            && (MoreUntilLast(all) <==> Deliverable(rest, maxResp))
    decreases |Resume(es, last)|
  {
    hide Resume;
    hide IsPage;
    hide Fits;
    hide EachFits;
    hide PageLength;
    hide Delivered;
    hide MoreUntilLast;
    var a, rest := AnswerTo(es, last, maxResp), Resume(es, last);
    var n := PageLength(rest, maxResp);
    var all := Dialogue(es, last, maxResp);
    WholePage(rest, n, maxResp);
    if a.Page? && a.more && a.events != [] {
      NextPage(es, last, maxResp);
      var next := Some(a.events[|a.events| - 1].id);
      DialogueDelivers(es, next, maxResp);
      DeliverableBehind(rest, n, Resume(es, next), maxResp);
      OneMorePage(a, Dialogue(es, next, maxResp));
    } else {
      LastAnswer(a);
      assert n == |rest| ==> rest[..n] == rest;
      if a.Page? && a.more {
        StuckPage(rest, maxResp);
      }
    }
  }

  lemma LastAnswer(a: Answer)
    ensures Delivered([a]) == if a.Page? then a.events else []
    ensures MoreUntilLast([a]) <==> a.Page? && !a.more
  {
    assert [a][1..] == [] && [a][0] == a;
  }

  lemma OneMorePage(a: Answer, others: seq<Answer>)
    requires a.Page? && a.more && others != []
    ensures Delivered([a] + others) == a.events + Delivered(others)
    ensures MoreUntilLast([a] + others) <==> MoreUntilLast(others)
  {
    var all := [a] + others;
    assert all[1..] == others;
    assert forall i :: 0 <= i < |others| ==> all[i + 1] == others[i];
    assert forall i :: 0 < i < |all| ==> all[i] == others[i - 1];
  }

  /**
   Paging is complete, each event delivered once and in order, exactly when max_resp is at least 128 and every
   event fits a page, or all events fit one page.
   */
  lemma PagingIsComplete(es: seq<ActiveEvent>, maxResp: int)
    requires DistinctIds(es)
    ensures var all := Dialogue(es, None, maxResp);
            && (Delivered(all) == es <==> Deliverable(es, maxResp))
            && (MoreUntilLast(all) <==> Deliverable(es, maxResp))
    ensures Deliverable(es, maxResp) <==>
            || es == [] || |Summaries(es)| + 7 <= maxResp
            || (maxResp >= 128 && forall i :: 0 <= i < |es| ==> |es[i].summary| + 7 <= maxResp)
  {
    DialogueDelivers(es, None, maxResp);
  }

  /** Two events of 31 octets and a client that accepts 50: the answer is an abort, and nothing is delivered. */
  lemma ShortResponseAborts(a: ActiveEvent, b: ActiveEvent)
    requires |a.summary| == |b.summary| == 31 && a.id != b.id
    ensures Dialogue([a, b], None, 50) == [Aborted]
  {
    var es := [a, b];
    assert es[..1] == [] + [a];
    SummariesAppend([], a);
    assert es == [a] + [b] && es[..2] == es;
    SummariesAppend([a], b);
    assert IsPage(es, 1, 50);
    PageIsUnique(es, 1, PageLength(es, 50), 50);
  }

  /**
   The marker must still be active: an empty final page is the answer exactly when the last event received
   is the last of the list or is no longer in it, whatever else is active.
   */
  lemma EmptyPageIff(es: seq<ActiveEvent>, id: ObjectId, maxResp: int)
    ensures AnswerTo(es, Some(id), maxResp) == Page([], false) <==>
            (forall i :: 0 <= i < |es| - 1 ==> es[i].id != id)
  {
    var rest, n := Resume(es, Some(id)), PageLength(Resume(es, Some(id)), maxResp);
    assert n < |rest| || rest[..n] == rest;
    assert rest == [] <==> Position(es, id) >= |es| - 1;
  }

  // ---------- the size of the transmit buffer ----------

  /** MAX_PDU, for the network header and the response. */
  const MAX_PDU: nat := 506

  /** A buffer that holds the longest response to this client and any one more summary is never overrun. */
  lemma LargeBufferSuffices(rest: seq<ActiveEvent>, firsts: seq<bool>, maxResp: int, size: nat)
    requires |rest| == |firsts| && HEADER + TRAILER <= size && maxResp <= size
    requires forall i :: 0 <= i < |rest| ==>
      HEADER + |rest[i].summary| <= size && maxResp - 3 + |rest[i].summary| <= size
    ensures !PastEnd(rest, firsts, PageLength(rest, maxResp), maxResp, size)
  {
    var n := PageLength(rest, maxResp);
    assert n == 0 ==> rest[..n] == [];
  }

  /** Without an event behind the page it is the response alone that counts. */
  lemma WholePageFits(rest: seq<ActiveEvent>, firsts: seq<bool>, maxResp: int, size: nat)
    requires |rest| == |firsts| && (rest == [] || Fits(rest, maxResp))
    ensures PastEnd(rest, firsts, PageLength(rest, maxResp), maxResp, size) <==>
            HEADER + |Summaries(rest)| + TRAILER > size
  {
    WholePage(rest, PageLength(rest, maxResp), maxResp);
    assert rest[..|rest|] == rest;
  }

  lemma {:induction false} LongSummaries(es: seq<ActiveEvent>)
    requires forall i :: 0 <= i < |es| ==> |es[i].summary| == 61
    ensures |Summaries(es)| == 61 * |es|
    decreases |es|
  {
    if es != [] {
      LongSummaries(es[..|es| - 1]);
    }
  }

  /** Nine events of 61 octets, with time stamps of date and time, fit a response of 1476 octets but not the buffer. */
  lemma NineEventsOverrun(es: seq<ActiveEvent>, firsts: seq<bool>)
    requires |es| == |firsts| == 9 && forall i :: 0 <= i < 9 ==> |es[i].summary| == 61
    ensures PastEnd(es, firsts, PageLength(es, 1476), 1476, MAX_PDU)
  {
    LongSummaries(es);
    WholePageFits(es, firsts, 1476, MAX_PDU);
  }
}
