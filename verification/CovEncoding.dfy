/**
 The Active_COV_Subscriptions property: the encoder's octets are well-bracketed tags and read back, by
 the grammar of BACnetCOVSubscription, as the subscriptions that have an address, in slot order.
 */
module CovEncoding {
  import opened Octets
  import opened Tags
  import opened Tokens
  import opened CovModel
  import opened CovEngine

  const PRESENT_VALUE: u32 := 85

  /** What a reader of the property learns of one subscription. */
  datatype Record = Record(net: u16, mac: seq<u8>, pid: u32, monitored: ObjectId, confirmed: bool, lifetime: u32)

  /** The octet string sent for an address: its remote part if it has a network number. */
  function MacOf(a: Address): seq<u8> {
    if a.net != 0 then a.adr[..Min(a.len, MAX_MAC_LEN)] else a.mac[..Min(a.macLen, MAX_MAC_LEN)]
  }

  function RecordOf(a: Address, s: Slot): Record {
    Record(a.net, MacOf(a), s.pid, s.monitored, s.confirmed, s.lifetime)
  }

  function RecordAt(w: World, i: nat): seq<Record>
    requires i < |w.subs|
  {
    var a := AddressGet(w.addrs, w.subs[i].dest);
    if w.subs[i].valid && a.Some? then [RecordOf(a.value, w.subs[i])] else []
  }

  /** The reportable subscriptions in slots below n. */
  function Reported(w: World, n: nat): seq<Record>
    requires n <= |w.subs|
  {
    if n == 0 then [] else Reported(w, n - 1) + RecordAt(w, n - 1)
  }

  /** Address lengths and object identifiers that fit their fields, as the request decoders deliver them. */
  ghost predicate Encodable(w: World) {
    && (forall a :: 0 <= a < |w.addrs| && w.addrs[a].valid ==>
          w.addrs[a].dest.len <= MAX_MAC_LEN && w.addrs[a].dest.macLen <= MAX_MAC_LEN)
    && (forall i :: 0 <= i < |w.subs| && w.subs[i].valid ==>
          w.subs[i].monitored.kind < MAX_TYPE && w.subs[i].monitored.instance < MAX_INSTANCE)
  }

  // ---------- the grammar ----------

  function UnsignedToken(number: u8, context: bool, v: u32): Token {
    Prim(number, context, EncodeUnsigned(v))
  }

  function RecipientLayout(r: Record): seq<Token> {
    Wrap(0, Wrap(0, Wrap(1, [UnsignedToken(TAG_UNSIGNED, false, r.net)] + [Prim(TAG_OCTET_STRING, false, r.mac)]))
            + [UnsignedToken(1, true, r.pid)])
  }

  function PropertyLayout(r: Record): seq<Token> {
    Wrap(1, [Prim(0, true, U32(ObjectIdValue(r.monitored.kind, r.monitored.instance)))]
            + [UnsignedToken(1, true, PRESENT_VALUE)])
  }

  function Layout(r: Record): (ts: seq<Token>)
    ensures |ts| == 15
  {
    RecipientLayout(r) + PropertyLayout(r) +
    ([Prim(2, true, [if r.confirmed then 1 else 0])] + [UnsignedToken(3, true, r.lifetime)])
  }

  ghost function Layouts(rs: seq<Record>): seq<Token> {
    if rs == [] then [] else Layouts(rs[..|rs| - 1]) + Layout(rs[|rs| - 1])
  }

  /** A reader for one BACnetCOVSubscription at the front of a token list. */
  function ReadRecord(ts: seq<Token>): Option<Record>
    requires |ts| >= 15
  {
    if && ts[0] == Open(0) && ts[1] == Open(0) && ts[2] == Open(1)
       && IsUnsigned(ts[3], TAG_UNSIGNED, false) && ts[4].Prim? && ts[4].number == TAG_OCTET_STRING && !ts[4].context
       && ts[5] == Close(1) && ts[6] == Close(0) && IsUnsigned(ts[7], 1, true) && ts[8] == Close(0)
       && ts[9] == Open(1) && ts[10].Prim? && ts[10].number == 0 && ts[10].context && |ts[10].octets| == 4
       && IsUnsigned(ts[11], 1, true) && NumberIn(ts[11]) == PRESENT_VALUE && ts[12] == Close(1)
       && ts[13].Prim? && ts[13].number == 2 && ts[13].context && |ts[13].octets| == 1
       && IsUnsigned(ts[14], 3, true) && NumberIn(ts[3]) < 0x1_0000
    then
      var (kind, instance) := DecodeObjectId(ts[10].octets);
      Some(Record(NumberIn(ts[3]), ts[4].octets, NumberIn(ts[7]), ObjectId(kind, instance),
                  ts[13].octets[0] != 0, NumberIn(ts[14])))
    else None
  }

  predicate IsUnsigned(t: Token, number: u8, context: bool) {
    t.Prim? && t.number == number && t.context == context && 1 <= |t.octets| <= 4
  }

  function NumberIn(t: Token): u32
    requires t.Prim? && |t.octets| <= 4
  {
    DecodeUnsigned(t.octets, |t.octets|)
  }

  ghost function ReadAll(ts: seq<Token>): Option<seq<Record>>
    decreases |ts|
  {
    if ts == [] then Some([])
    else if |ts| < 15 then None
    else
      var front := ReadAll(ts[..|ts| - 15]);
      var last := ReadRecord(ts[|ts| - 15..]);
      if front.None? || last.None? then None else Some(front.value + [last.value])
  }

  ghost predicate Sendable(r: Record) {
    |r.mac| <= MAX_MAC_LEN && r.monitored.kind < MAX_TYPE && r.monitored.instance < MAX_INSTANCE
  }

  lemma LayoutList(r: Record)
    ensures Layout(r) == [
      Open(0), Open(0), Open(1),
      UnsignedToken(TAG_UNSIGNED, false, r.net), Prim(TAG_OCTET_STRING, false, r.mac),
      Close(1), Close(0), UnsignedToken(1, true, r.pid), Close(0),
      Open(1), Prim(0, true, U32(ObjectIdValue(r.monitored.kind, r.monitored.instance))),
      UnsignedToken(1, true, PRESENT_VALUE), Close(1),
      Prim(2, true, [if r.confirmed then 1 else 0]), UnsignedToken(3, true, r.lifetime)]
  {
  }

  lemma LayoutPrintable(r: Record)
    requires Sendable(r)
    ensures Printable(Layout(r))
  {
    LayoutList(r);
  }

  lemma LayoutReads(r: Record)
    requires Sendable(r)
    ensures ReadRecord(Layout(r)) == Some(r)
  {
    var ts := Layout(r);
    LayoutList(r);
    UnsignedReads(TAG_UNSIGNED, false, r.net);
    UnsignedReads(1, true, r.pid);
    UnsignedReads(1, true, PRESENT_VALUE);
    UnsignedReads(3, true, r.lifetime);
    var v := U32(ObjectIdValue(r.monitored.kind, r.monitored.instance));
    ObjectIdRoundTrip(r.monitored.kind, r.monitored.instance, []);
    assert v + [] == v;
    assert ts[3] == UnsignedToken(TAG_UNSIGNED, false, r.net) && ts[7] == UnsignedToken(1, true, r.pid);
    assert ts[11] == UnsignedToken(1, true, PRESENT_VALUE) && ts[14] == UnsignedToken(3, true, r.lifetime);
  }

  lemma UnsignedReads(number: u8, context: bool, v: u32)
    ensures IsUnsigned(UnsignedToken(number, context, v), number, context)
    ensures NumberIn(UnsignedToken(number, context, v)) == v
  {
    UnsignedRoundTrip(v, []);
    assert EncodeUnsigned(v) + [] == EncodeUnsigned(v);
  }

  lemma ReadOneMore(ts: seq<Token>, more: seq<Token>, rs: seq<Record>, r: Record)
    requires |more| == 15 && ReadRecord(more) == Some(r) && ReadAll(ts) == Some(rs)
    ensures ReadAll(ts + more) == Some(rs + [r])
  {
    var all := ts + more;
    assert all[..|all| - 15] == ts && all[|all| - 15..] == more;
  }

  lemma {:induction false} LayoutsRead(rs: seq<Record>)
    requires forall r :: r in rs ==> Sendable(r)
    ensures ReadAll(Layouts(rs)) == Some(rs)
    decreases |rs|
  {
    hide Layout;
    hide ReadRecord;
    hide Sendable;
    if rs != [] {
      var front, last := rs[..|rs| - 1], rs[|rs| - 1];
      LayoutsRead(front);
      LayoutReads(last);
      ReadOneMore(Layouts(front), Layout(last), front, last);
      assert front + [last] == rs;
    }
  }

  lemma LayoutIsLevel(r: Record)
    ensures Level(Layout(r))
  {
    var net, mac := UnsignedToken(TAG_UNSIGNED, false, r.net), Prim(TAG_OCTET_STRING, false, r.mac);
    var pid, present := UnsignedToken(1, true, r.pid), UnsignedToken(1, true, PRESENT_VALUE);
    var obj := Prim(0, true, U32(ObjectIdValue(r.monitored.kind, r.monitored.instance)));
    var confirmed, lifetime := Prim(2, true, [if r.confirmed then 1 else 0]), UnsignedToken(3, true, r.lifetime);
    PairIsLevel(net, mac);
    LevelWraps(1, [net] + [mac]);
    LevelWraps(0, Wrap(1, [net] + [mac]));
    LevelValue(pid);
    LevelAppends(Wrap(0, Wrap(1, [net] + [mac])), [pid]);
    LevelWraps(0, Wrap(0, Wrap(1, [net] + [mac])) + [pid]);
    PairIsLevel(obj, present);
    LevelWraps(1, [obj] + [present]);
    PairIsLevel(confirmed, lifetime);
    LevelAppends(RecipientLayout(r), PropertyLayout(r));
    LevelAppends(RecipientLayout(r) + PropertyLayout(r), [confirmed] + [lifetime]);
  }

  lemma PairIsLevel(s: Token, t: Token)
    requires s.Prim? && t.Prim?
    ensures Level([s] + [t])
  {
    LevelValue(s);
    LevelValue(t);
    LevelAppends([s], [t]);
  }

  lemma {:induction false} LayoutsAreLevel(rs: seq<Record>)
    ensures Level(Layouts(rs))
    decreases |rs|
  {
    if rs != [] {
      LayoutsAreLevel(rs[..|rs| - 1]);
      LayoutIsLevel(rs[|rs| - 1]);
      LevelAppends(Layouts(rs[..|rs| - 1]), Layout(rs[|rs| - 1]));
    }
  }

  // ---------- the encoder ----------

  /** The pieces that cov_encode_subscription writes, in its order. */
  function SubscriptionPieces(a: Address, s: Slot): seq<seq<u8>> {
    [OpeningTag(0), OpeningTag(0), OpeningTag(1),
     ApplicationUnsigned(a.net), ApplicationOctets(MacOf(a)),
     ClosingTag(1), ClosingTag(0), ContextUnsigned(1, s.pid), ClosingTag(0),
     OpeningTag(1), ContextObjectId(0, s.monitored.kind, s.monitored.instance),
     ContextUnsigned(1, PRESENT_VALUE), ClosingTag(1),
     ContextBoolean(2, s.confirmed), ContextUnsigned(3, s.lifetime)]
  }

  /**
   Octet by octet: station 192.168.0.10, port 47808, on the local network, process 5, confirmed notifications of
   analog input 1 for another 60 seconds.
   */
  lemma ExampleOctets(a: Address, s: Slot)
    requires a.net == 0 && a.macLen == 6 && a.mac[..6] == [192, 168, 0, 10, 0xBA, 0xC0]
    requires s.pid == 5 && s.monitored == ObjectId(0, 1) && s.confirmed && s.lifetime == 60
    ensures SubscriptionPieces(a, s) == [
      [0x0E], [0x0E], [0x1E],
      [0x21, 0x00], [0x65, 0x06, 192, 168, 0, 10, 0xBA, 0xC0],
      [0x1F], [0x0F], [0x19, 0x05], [0x0F],
      [0x1E], [0x0C, 0x00, 0x00, 0x00, 0x01], [0x19, 0x55], [0x1F],
      [0x29, 0x01], [0x39, 0x3C]]
  {
    assert ApplicationUnsigned(0) == [0x21, 0x00];
    assert MacOf(a) == [192, 168, 0, 10, 0xBA, 0xC0];
    assert ApplicationOctets(MacOf(a)) == [0x65, 0x06, 192, 168, 0, 10, 0xBA, 0xC0];
    assert OpeningTag(0) == [0x0E] && OpeningTag(1) == [0x1E] && ClosingTag(0) == [0x0F] && ClosingTag(1) == [0x1F];
    assert ContextUnsigned(1, 5) == [0x19, 0x05] && ContextUnsigned(1, 85) == [0x19, 0x55];
    assert ContextUnsigned(3, 60) == [0x39, 0x3C] && ContextBoolean(2, true) == [0x29, 0x01];
    assert ContextObjectId(0, 0, 1) == [0x0C, 0x00, 0x00, 0x00, 0x01];
  }

  function EncodingAt(addrs: seq<AddressSlot>, s: Slot): seq<u8> {
    var a := AddressGet(addrs, s.dest);
    if s.valid && a.Some? then Flatten(SubscriptionPieces(a.value, s)) else []
  }

  function Encodings(w: World): seq<seq<u8>> {
    seq(|w.subs|, i requires 0 <= i < |w.subs| => EncodingAt(w.addrs, w.subs[i]))
  }

  /** handler_cov_encode_subscriptions: the octets written and the length returned. */
  method EncodeSubscriptions(svc: CovService, maxApdu: int) returns (apdu: seq<u8>, apduLen: int)
    requires svc.Valid()
    ensures var w := svc.State();
            var total := Flatten(Encodings(w));
            && (apduLen == -2 <==> |total| > maxApdu && exists i :: 0 <= i < |w.subs| && w.subs[i].valid)
            && (apduLen == -2 ==> apdu <= total)
            && (apduLen != -2 ==> apdu == total && apduLen == |total|)
  {
    hide Flatten;
    hide SubscriptionPieces;
    ghost var w := svc.State();
    ghost var pieces := Encodings(w);
    assert Flatten(pieces[..0]) == [] by { FlattenNothing(pieces); }
    apdu, apduLen := [], 0;
    for i := 0 to MAX_COV_SUBSCRIPTIONS
      invariant apdu == Flatten(pieces[..i]) && apduLen == |apdu|
      invariant (exists j :: 0 <= j < i && w.subs[j].valid) ==> |apdu| <= maxApdu
    {
      var s := svc.subs[i];
      assert s == w.subs[i] && pieces[i] == EncodingAt(w.addrs, s);
      FlattenOne(pieces, i);
      if s.valid {
        var dest := svc.GetAddress(s.dest);
        var octets := if dest.Some? then Flatten(SubscriptionPieces(dest.value, s)) else [];
        apdu := apdu + octets;
        apduLen := apduLen + |octets|;
        if apduLen > maxApdu {
          FlattenPrefix(pieces, i + 1);
          return apdu, -2;
        }
      }
    }
    assert pieces[..MAX_COV_SUBSCRIPTIONS] == pieces;
  }

  /** Each piece is the token at its place. */
  lemma PieceIsToken(a: Address, s: Slot, i: nat)
    requires Sendable(RecordOf(a, s)) && i < 15 && Printable(Layout(RecordOf(a, s)))
    ensures SubscriptionPieces(a, s)[i] == PrintToken(Layout(RecordOf(a, s))[i])
  {
    LayoutList(RecordOf(a, s));
    hide Layout;
    hide EncodeUnsigned;
    hide EncodeTag;
    hide OpeningTag;
    hide ClosingTag;
    hide U32;
    hide MacOf;
  }

  lemma PiecesAreLayout(a: Address, s: Slot)
    requires Sendable(RecordOf(a, s))
    ensures Printable(Layout(RecordOf(a, s)))
    ensures Flatten(SubscriptionPieces(a, s)) == Print(Layout(RecordOf(a, s)))
  {
    var r := RecordOf(a, s);
    LayoutPrintable(r);
    assert |SubscriptionPieces(a, s)| == 15;
    hide SubscriptionPieces;
    hide Layout;
    hide PrintToken;
    hide Flatten;
    hide Sendable;
    forall i | 0 <= i < 15
      ensures SubscriptionPieces(a, s)[i] == Printed(Layout(r))[i]
    {
      PieceIsToken(a, s, i);
    }
    assert SubscriptionPieces(a, s) == Printed(Layout(r));
  }

  lemma SlotIsLayouts(w: World, i: nat)
    requires Sized(w) && Encodable(w) && i < |w.subs|
    ensures forall r :: r in RecordAt(w, i) ==> Sendable(r)
    ensures Printable(Layouts(RecordAt(w, i)))
    ensures Encodings(w)[i] == Print(Layouts(RecordAt(w, i)))
  {
    var s := w.subs[i];
    var a := AddressGet(w.addrs, s.dest);
    if s.valid && a.Some? {
      PiecesAreLayout(a.value, s);
      assert Layouts([RecordOf(a.value, s)]) == Layout(RecordOf(a.value, s));
    }
  }

  lemma {:induction false} LayoutsAppend(rs: seq<Record>, more: seq<Record>)
    requires |more| <= 1
    ensures Layouts(rs + more) == Layouts(rs) + Layouts(more)
  {
    if more == [] {
      assert rs + more == rs;
    } else {
      assert (rs + more)[..|rs|] == rs;
    }
  }

  lemma JoinPrinted(front: seq<Record>, more: seq<Record>, a: seq<u8>, b: seq<u8>)
    requires |more| <= 1 && Printable(Layouts(front)) && Printable(Layouts(more))
    requires a == Print(Layouts(front)) && b == Print(Layouts(more))
    ensures Printable(Layouts(front + more)) && a + b == Print(Layouts(front + more))
  {
    LayoutsAppend(front, more);
    PrintAppends(Layouts(front), Layouts(more));
  }

  /** The octets of the slots below n are those of the layouts of their records. */
  ghost predicate LaidOut(w: World, n: nat)
    requires Sized(w) && n <= |w.subs|
  {
    && (forall r :: r in Reported(w, n) ==> Sendable(r))
    && Printable(Layouts(Reported(w, n)))
    && Flatten(Encodings(w)[..n]) == Print(Layouts(Reported(w, n)))
  }

  lemma NextLaidOut(w: World, n: nat)
    requires Sized(w) && Encodable(w) && n < |w.subs| && LaidOut(w, n)
    ensures LaidOut(w, n + 1)
  {
    SlotIsLayouts(w, n);
    FlattenOne(Encodings(w), n);
    hide Encodings;
    hide Flatten;
    hide Layouts;
    hide Print;
    hide Printable;
    hide Encodable;
    hide RecordAt;
    hide Sendable;
    JoinPrinted(Reported(w, n), RecordAt(w, n), Flatten(Encodings(w)[..n]), Encodings(w)[n]);
  }

  lemma NothingLaidOut(w: World)
    requires Sized(w)
    ensures LaidOut(w, 0)
  {
  }

  lemma {:induction false} EncodingIsLayouts(w: World, n: nat)
    requires Sized(w) && Encodable(w) && n <= |w.subs|
    ensures LaidOut(w, n)
  {
    NothingLaidOut(w);
    hide LaidOut;
    hide Encodable;
    if n > 0 {
      EncodingIsLayouts(w, n - 1);
      NextLaidOut(w, n - 1);
    }
  }

  /** The encoded property is bracketed tags and reads back as the addressed subscriptions in slot order. */
  lemma PropertyReadsBack(w: World)
    requires Sized(w) && Encodable(w)
    ensures var ts := Scan(Flatten(Encodings(w)));
            && ts.Some?
            && Level(ts.value)
            && ReadAll(ts.value) == Some(Reported(w, |w.subs|))
  {
    var rs := Reported(w, |w.subs|);
    EncodingIsLayouts(w, |w.subs|);
    assert Encodings(w)[..|w.subs|] == Encodings(w);
    ScanInvertsPrint(Layouts(rs));
    LayoutsRead(rs);
    LayoutsAreLevel(rs);
  }

  // ---------- what a reader learns ----------

  /**
   The record carries the subscription's terms and the octets of its station: the remote address behind a router,
   the MAC on the local network.
   */
  ghost predicate Tells(r: Record, a: Address, s: Slot) {
    && r.net == a.net
    && (a.net != 0 ==>
          |r.mac| == (if a.len < 7 then a.len else 7) && forall i :: 0 <= i < |r.mac| ==> r.mac[i] == a.adr[i])
    && (a.net == 0 ==>
          |r.mac| == (if a.macLen < 7 then a.macLen else 7) && forall i :: 0 <= i < |r.mac| ==> r.mac[i] == a.mac[i])
    && r.pid == s.pid && r.monitored == s.monitored && r.confirmed == s.confirmed && r.lifetime == s.lifetime
  }

  lemma RecordTells(r: Record, a: Address, s: Slot)
    ensures r == RecordOf(a, s) <==> Tells(r, a, s)
  {
    if Tells(r, a, s) {
      assert r.mac == MacOf(a);
    }
  }

  ghost predicate Live(w: World, i: nat) {
    i < |w.subs| && w.subs[i].valid && w.subs[i].dest < |w.addrs| && w.addrs[w.subs[i].dest].valid
  }

  /** Record k is that of slot at[k], and the slots are all the live ones below n, in order. */
  ghost predicate ReportsAt(w: World, n: nat, rs: seq<Record>, at: seq<nat>) {
    && |at| == |rs|
    && (forall k :: 0 <= k < |at| ==> at[k] < n && TellsOf(w, at[k], rs[k]))
    && (forall k, l :: 0 <= k < l < |at| ==> at[k] < at[l])
    && (forall i :: 0 <= i < n && Live(w, i) ==> i in at)
  }

  ghost predicate TellsOf(w: World, i: nat, r: Record) {
    Live(w, i) && Tells(r, w.addrs[w.subs[i].dest].dest, w.subs[i])
  }

  lemma NothingReported(w: World)
    ensures ReportsAt(w, 0, [], [])
  {
  }

  lemma RecordIfLive(w: World, n: nat)
    requires n < |w.subs|
    ensures if Live(w, n) then |RecordAt(w, n)| == 1 && TellsOf(w, n, RecordAt(w, n)[0]) else RecordAt(w, n) == []
  {
    if Live(w, n) {
      var a := w.addrs[w.subs[n].dest].dest;
      RecordTells(RecordOf(a, w.subs[n]), a, w.subs[n]);
    }
  }

  lemma ReportsOneMore(w: World, n: nat, rs: seq<Record>, at: seq<nat>, r: Record)
    requires ReportsAt(w, n, rs, at) && Live(w, n) && TellsOf(w, n, r)
    ensures ReportsAt(w, n + 1, rs + [r], at + [n])
  {
    hide TellsOf;
    hide Live;
    var next, more := at + [n], rs + [r];
    forall k | 0 <= k < |next|
      ensures next[k] < n + 1 && TellsOf(w, next[k], more[k])
    {
      assert k < |at| ==> next[k] == at[k] && more[k] == rs[k];
    }
    forall i | 0 <= i < n + 1 && Live(w, i)
      ensures i in next
    {
      assert i < n ==> i in at;
      assert next[|at|] == n;
    }
  }

  lemma NextReported(w: World, n: nat, rs: seq<Record>, at: seq<nat>) returns (next: seq<nat>)
    requires n < |w.subs| && ReportsAt(w, n, rs, at)
    ensures ReportsAt(w, n + 1, rs + RecordAt(w, n), next)
  {
    RecordIfLive(w, n);
    hide RecordAt;
    hide TellsOf;
    if Live(w, n) {
      next := at + [n];
      ReportsOneMore(w, n, rs, at, RecordAt(w, n)[0]);
      assert RecordAt(w, n) == [RecordAt(w, n)[0]];
    } else {
      next := at;
      assert rs + RecordAt(w, n) == rs;
    }
  }

  /** The records are those of the valid subscriptions with an address, one for each and in slot order. */
  lemma {:induction false} ReportedInOrder(w: World, n: nat) returns (at: seq<nat>)
    requires n <= |w.subs|
    ensures ReportsAt(w, n, Reported(w, n), at)
  {
    NothingReported(w);
    hide ReportsAt;
    hide RecordAt;
    at := [];
    if n > 0 {
      at := ReportedInOrder(w, n - 1);
      at := NextReported(w, n - 1, Reported(w, n - 1), at);
    }
  }

  /** In particular a record is reported exactly when it tells of some live slot. */
  lemma ReportedAreLive(w: World, n: nat, r: Record)
    requires n <= |w.subs|
    ensures r in Reported(w, n) <==> exists i :: 0 <= i < n && TellsOf(w, i, r)
  {
    var at := ReportedInOrder(w, n);
    var rs := Reported(w, n);
    if r in rs {
      var k :| 0 <= k < |rs| && rs[k] == r;
      assert TellsOf(w, at[k], r);
    }
    if exists i :: 0 <= i < n && TellsOf(w, i, r) {
      var i :| 0 <= i < n && TellsOf(w, i, r);
      var k :| 0 <= k < |at| && at[k] == i;
      var a := w.addrs[w.subs[i].dest].dest;
      assert TellsOf(w, at[k], rs[k]);
      RecordTells(r, a, w.subs[i]);
      RecordTells(rs[k], a, w.subs[i]);
    }
  }
}
