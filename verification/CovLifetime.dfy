/** Lifetimes: ticking is an action of addition, and a subscription ends exactly when its time is up. */
module CovLifetime {
  import opened Octets
  import opened CovModel

  lemma TickSlotAdds(s: Slot, a: u32, b: u32)
    requires a + b < 0x1_0000_0000
    ensures TickSlot(TickSlot(s, a), b) == TickSlot(s, a + b)
    ensures Expires(s, a + b) <==> Expires(s, a) || Expires(TickSlot(s, a), b)
  {
  }

  lemma ExpiresAdds(subs: seq<Slot>, a: u32, b: u32)
    requires a + b < 0x1_0000_0000
    ensures AnyExpires(subs, a + b) <==> AnyExpires(subs, a) || AnyExpires(TickSlots(subs, a), b)
  {
    if AnyExpires(subs, a + b) {
      var i :| 0 <= i < |subs| && Expires(subs[i], a + b);
      TickSlotAdds(subs[i], a, b);
      assert Expires(subs[i], a) || Expires(TickSlots(subs, a)[i], b);
    }
    if AnyExpires(subs, a) {
      var i :| 0 <= i < |subs| && Expires(subs[i], a);
      assert Expires(subs[i], a + b);
    }
    if AnyExpires(TickSlots(subs, a), b) {
      var i :| 0 <= i < |subs| && Expires(TickSlots(subs, a)[i], b);
      TickSlotAdds(subs[i], a, b);
      assert Expires(subs[i], a + b);
    }
  }

  lemma ExpiredIdsAdd(subs: seq<Slot>, a: u32, b: u32)
    requires a + b < 0x1_0000_0000
    ensures ExpiredIds(subs, a + b) == ExpiredIds(subs, a) + ExpiredIds(TickSlots(subs, a), b)
  {
    var mid := TickSlots(subs, a);
    forall x | x in ExpiredIds(subs, a + b)
      ensures x in ExpiredIds(subs, a) + ExpiredIds(mid, b)
    {
      var i :| 0 <= i < |subs| && Expires(subs[i], a + b) && subs[i].confirmed && subs[i].invokeId != 0
               && subs[i].invokeId == x;
      assert mid[i] == TickSlot(subs[i], a);
      assert if Expires(subs[i], a) then x in ExpiredIds(subs, a) else Expires(mid[i], b) && mid[i].invokeId == x;
    }
    forall x | x in ExpiredIds(mid, b)
      ensures x in ExpiredIds(subs, a + b)
    {
      var i :| 0 <= i < |mid| && Expires(mid[i], b) && mid[i].confirmed && mid[i].invokeId != 0
               && mid[i].invokeId == x;
      assert mid[i] == TickSlot(subs[i], a);
      assert Expires(subs[i], a + b) && subs[i].invokeId == x;
    }
    forall x | x in ExpiredIds(subs, a)
      ensures x in ExpiredIds(subs, a + b)
    {
      var i :| 0 <= i < |subs| && Expires(subs[i], a) && subs[i].confirmed && subs[i].invokeId != 0
               && subs[i].invokeId == x;
      assert Expires(subs[i], a + b) && subs[i].invokeId == x;
    }
  }

  /** Ticking a and then b seconds leaves the same world as ticking a + b seconds at once. */
  lemma TickAdds(w: World, a: u32, b: u32)
    requires a + b < 0x1_0000_0000
    ensures Tick(Tick(w, a), b) == Tick(w, a + b)
  {
    var mid, end := TickSlots(w.subs, a), TickSlots(w.subs, a + b);
    forall i | 0 <= i < |w.subs|
      ensures TickSlots(mid, b)[i] == end[i]
    {
      TickSlotAdds(w.subs[i], a, b);
    }
    assert TickSlots(mid, b) == end;
    ExpiresAdds(w.subs, a, b);
    ExpiredIdsAdd(w.subs, a, b);
    forall x | 0 <= x < |w.addrs| && Referenced(end, x)
      ensures Referenced(mid, x)
    {
      var i :| 0 <= i < |end| && end[i].valid && end[i].dest == x;
      TickSlotAdds(w.subs[i], a, b);
      assert mid[i].valid && mid[i].dest == x;
    }
    if !AnyExpires(mid, b) {
      forall x | 0 <= x < |w.addrs| && Referenced(mid, x)
        ensures Referenced(end, x)
      {
        var i :| 0 <= i < |mid| && mid[i].valid && mid[i].dest == x;
        TickSlotAdds(w.subs[i], a, b);
        assert !Expires(mid[i], b);
        assert end[i].valid && end[i].dest == x;
      }
      assert RemoveUnused(w.addrs, mid) == RemoveUnused(w.addrs, end);
    }
    assert RemoveUnused(RemoveUnused(w.addrs, mid), end) == RemoveUnused(w.addrs, end);
    assert w.tsm - ExpiredIds(w.subs, a) - ExpiredIds(mid, b) == w.tsm - ExpiredIds(w.subs, a + b);
  }

  // ---------- expiry over runs ----------

  /** Seconds reported to the timer during a run. */
  function Elapsed(es: seq<Event>): nat
    decreases |es|
  {
    if es == [] then 0
    else Elapsed(es[..|es| - 1]) + match es[|es| - 1] case TimerSeconds(s) => s case _ => 0
  }

  /** No request of the run renews, cancels or fills slot i. */
  ghost predicate Untouched(w: World, es: seq<Event>, i: nat)
    requires Sized(w)
    decreases |es|
  {
    es == [] ||
    (Untouched(w, es[..|es| - 1], i) && SparesSlot(Run(w, es[..|es| - 1]), es[|es| - 1], i))
  }

  predicate SparesSlot(w: World, e: Event, i: nat) {
    e.SubscribeCov? ==>
      var m := FirstMatch(w, e.src, e.req);
      if m < |w.subs| then m != i else e.req.cancel || FirstInvalid(w.subs) != i
  }

  lemma SparedSlotKeepsTerms(w: World, e: Event, i: nat)
    requires Sized(w) && i < |w.subs| && SparesSlot(w, e, i) && !e.TimerSeconds?
    ensures Step(w, e).subs[i] == w.subs[i].(sendRequested := Step(w, e).subs[i].sendRequested,
                                             invokeId := Step(w, e).subs[i].invokeId)
  {
    match e
    case TaskCall(link) => TaskKeepsTerms(w, link);
    case SubscribeCov(src, req) => assert Subscribe(w, src, req).0.subs[i] == w.subs[i];
    case _ =>
  }

  /**
   Whatever else happens, a subscription of lifetime L > 0 is valid exactly while fewer than L seconds
   have elapsed, with exactly the rest as its lifetime; lifetime 0 never expires and stays 0.
   */
  lemma {:induction false} ExpiresWhenTimeIsUp(w: World, es: seq<Event>, i: nat)
    requires Sized(w) && i < |w.subs| && w.subs[i].valid && Untouched(w, es, i)
    ensures var s, L := Run(w, es).subs[i], w.subs[i].lifetime;
            && (s.valid <==> L == 0 || Elapsed(es) < L)
            && s.lifetime == if L > Elapsed(es) then L - Elapsed(es) else 0
    decreases |es|
  {
    if es != [] {
      var front, e := es[..|es| - 1], es[|es| - 1];
      ExpiresWhenTimeIsUp(w, front, i);
      if !e.TimerSeconds? {
        SparedSlotKeepsTerms(Run(w, front), e, i);
      }
    }
  }
}
