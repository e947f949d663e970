/**
 WritePropertyMultiple on well-formed requests: what the grammar of clause 15.10 of ASHRAE 135 prints is
 written in order, up to and including the first write that the device refuses, exactly when the length of
 every value in it is measured right.
 */
module WpmRequest {
  import opened Octets
  import opened Tags
  import opened Tokens
  import opened Wpm

  datatype PropertyWrite = PropertyWrite(property: u32, index: Option<u32>, value: seq<u8>, priority: Option<u8>)
  datatype ObjectWrites = ObjectWrites(kind: u16, instance: u32, properties: seq<PropertyWrite>)

  // ---------- the grammar ----------

  function OptionalPriority(v: Option<u8>): seq<u8> {
    match v
    case None => []
    case Some(n) => ContextUnsigned(3, n)
  }

  predicate WellFormed(o: ObjectWrites) {
    o.kind < MAX_TYPE && o.instance < MAX_INSTANCE && o.properties != []
  }

  /** The six parts of a printed property. */
  datatype Parts =
    Parts(id: seq<u8>, index: seq<u8>, open: seq<u8>, value: seq<u8>, close: seq<u8>, priority: seq<u8>) {
    function Then(post: seq<u8>): seq<u8> {
      id + (index + (open + (value + (close + (priority + post)))))
    }

    function Length(): nat {
      |id| + |index| + |open| + |value| + |close| + |priority|
    }
  }

  function PartsOf(p: PropertyWrite): Parts {
    Parts(ContextUnsigned(0, p.property), OptionalUnsigned(1, p.index), OpeningTag(2), p.value, ClosingTag(2),
          OptionalPriority(p.priority))
  }

  /** A property, then whatever follows it. */
  function PropertyThen(p: PropertyWrite, post: seq<u8>): seq<u8> {
    PartsOf(p).Then(post)
  }

  function PropertiesThen(ps: seq<PropertyWrite>, post: seq<u8>): seq<u8> {
    if ps == [] then post else PropertyThen(ps[0], PropertiesThen(ps[1..], post))
  }

  function ObjectThen(o: ObjectWrites, post: seq<u8>): seq<u8> {
    ContextObjectId(0, o.kind, o.instance) + (OpeningTag(1) + PropertiesThen(o.properties, ClosingTag(1) + post))
  }

  function PrintRequest(os: seq<ObjectWrites>): seq<u8> {
    if os == [] then [] else ObjectThen(os[0], PrintRequest(os[1..]))
  }

  // ---------- what is asked for ----------

  function WriteOf(kind: u16, instance: u32, p: PropertyWrite): Write {
    Write(kind, instance, p.property, if p.index.Some? then p.index.value else ARRAY_ALL, p.value,
          if p.priority.Some? then p.priority.value else MAX_PRIORITY)
  }

  /** Without index or priority the whole property is written, at the lowest priority. */
  lemma Defaults(kind: u16, instance: u32, p: PropertyWrite)
    ensures WriteOf(kind, instance, p).index == match p.index case None => 0xFFFF_FFFF case Some(i) => i
    ensures WriteOf(kind, instance, p).priority == match p.priority case None => 16 case Some(n) => n
    ensures WriteOf(kind, instance, p).value == p.value && WriteOf(kind, instance, p).property == p.property
    ensures WriteOf(kind, instance, p).kind == kind && WriteOf(kind, instance, p).instance == instance
  {
  }

  function WritesOf(kind: u16, instance: u32, ps: seq<PropertyWrite>): seq<Write> {
    seq(|ps|, i requires 0 <= i < |ps| => WriteOf(kind, instance, ps[i]))
  }

  /** The property writes of a request, in order. */
  function Wanted(os: seq<ObjectWrites>): seq<Write> {
    if os == [] then [] else WritesOf(os[0].kind, os[0].instance, os[0].properties) + Wanted(os[1..])
  }

  /** The writes made after those done, in order, until one is refused; and whether none was. */
  function Carried(wanted: seq<Write>, done: seq<Write>, device: Device): (seq<Write>, bool)
    decreases |wanted|
  {
    if wanted == [] then (done, true)
    else
      var writes := done + [wanted[0]];
      if !device(writes) then (writes, false) else Carried(wanted[1..], writes, device)
  }

  // ---------- the length of a value ----------

  /**
   The steps of bacapp_data_len stay within the value and end where it ends, with the counter at one there
   and never at zero before: all that the sender of a value has to look at.
   */
  predicate Passes(v: seq<u8>, counter: u8, property: u32)
    decreases |v|
  {
    if v == [] then counter == 1
    else
      var h := DecodeHeader(v);
      && h.Some? && StepLength(h.value, property) <= |v|
      && NextCounter(h.value, 2, counter) != 0
      && Passes(v[StepLength(h.value, property)..], NextCounter(h.value, 2, counter), property)
  }

  /** Octets behind a tag do not change how it is read; a tag that is cut off reads beyond the cut. */
  lemma HeaderExtends(v: seq<u8>, tail: seq<u8>)
    requires v != []
    ensures DecodeHeader(v).Some? ==> DecodeHeader(v + tail) == DecodeHeader(v)
    ensures DecodeHeader(v).None? && DecodeHeader(v + tail).Some? ==> DecodeHeader(v + tail).value.len > |v|
  {
    if DecodeHeader(v).Some? {
      HeaderStays(v, tail);
    }
  }

  lemma HeaderStays(v: seq<u8>, tail: seq<u8>)
    requires DecodeHeader(v).Some?
    ensures DecodeHeader(v + tail) == DecodeHeader(v)
  {
  }

  lemma LengthUnfolds(tag: seq<u8> -> Option<Header>, bs: seq<u8>, counter: u8, property: u32)
    ensures var r := ValueLength(tag, bs, 2, counter, property);
            if tag(bs).None? then r == None
            else
              var step, next := StepLength(tag(bs).value, property), NextCounter(tag(bs).value, 2, counter);
              if step > |bs| || step == 0 then r == None
              else if next == 0 then r == Some(0)
              else
                var n := ValueLength(tag, bs[step..], 2, next, property);
                r == if n.None? then None else Some(step + n.value)
  {
    hide StepLength;
    hide NextCounter;
  }

  /** Whatever follows the closing tag, a value is measured right exactly when it passes. */
  lemma {:induction false} MeasuredIffPasses(v: seq<u8>, tail: seq<u8>, counter: u8, property: u32)
    requires ClosesValue(WireReader(), tail)
    ensures ValueLength(DecodeHeader, v + tail, 2, counter, property) == Some(|v|) <==> Passes(v, counter, property)
    decreases |v|
  {
    hide DecodeHeader;
    hide ContentLength;
    hide ValueLength;
    LengthUnfolds(DecodeHeader, v + tail, counter, property);
    if v == [] {
      assert v + tail == tail;
    } else {
      HeaderExtends(v, tail);
      if DecodeHeader(v).Some? {
        var h := DecodeHeader(v).value;
        var step, next := StepLength(h, property), NextCounter(h, 2, counter);
        if step <= |v| && next != 0 {
          assert (v + tail)[step..] == v[step..] + tail;
          MeasuredIffPasses(v[step..], tail, next, property);
        }
      }
    }
  }

  // ---------- values made of tags ----------

  /**
   The stack steps over the octets of the token, or over its header and then, as if it were a tag of its own,
   over the one octet of a context-tagged Boolean.
   */
  predicate HasSize(t: Token, property: u32) {
    t.Prim? ==>
      if !t.context then 2 <= t.number <= 12 || t.octets == []
      else if (property == 2 && 7 <= t.number <= 8) || (property == 152 && t.number == 2)
      then t.octets == [] || t.octets == [0] || t.octets == [1]
      else true
  }

  function CounterAfter(t: Token, counter: u8): u8 {
    if t == Open(2) then (if counter == 0xff then 0 else counter + 1)
    else if t == Close(2) then (if counter == 0 then 0xff else counter - 1)
    else counter
  }

  /** The brackets with the number of the value's own brackets match, as far as the counter can tell. */
  predicate Balanced(ts: seq<Token>, counter: u8)
    decreases |ts|
  {
    counter != 0 && if ts == [] then counter == 1 else Balanced(ts[1..], CounterAfter(ts[0], counter))
  }

  lemma PassesUnfolds(v: seq<u8>, h: Header, counter: u8, property: u32)
    requires DecodeHeader(v) == Some(h) && StepLength(h, property) <= |v|
    ensures Passes(v, counter, property) <==>
            && NextCounter(h, 2, counter) != 0
            && Passes(v[StepLength(h, property)..], NextCounter(h, 2, counter), property)
  {
    hide StepLength;
    hide NextCounter;
  }

  lemma FlagOctetPasses(b: u8, rest: seq<u8>, counter: u8, property: u32)
    requires b <= 1 && counter != 0
    ensures Passes([b] + rest, counter, property) <==> Passes(rest, counter, property)
  {
    var h := Header(0, false, b, b, 1);
    assert DecodeHeader([b] + rest) == Some(h);
    Drops([b], rest);
    PassesUnfolds([b] + rest, h, counter, property);
  }

  /** What the reader of tags sees at the front of a printed token, and how far it steps. */
  lemma TokenHeader(t: Token, rest: seq<u8>, property: u32) returns (h: Header)
    requires t.Printable() && HasSize(t, property)
    ensures DecodeHeader(PrintToken(t) + rest) == Some(h)
    ensures forall counter: u8 :: NextCounter(h, 2, counter) == CounterAfter(t, counter)
    ensures if t.Prim? && t.context && SizedAsFlag(property, t.number)
            then PrintToken(t) == EncodeTag(t.number, true, |t.octets|) + t.octets &&
                 StepLength(h, property) == |EncodeTag(t.number, true, |t.octets|)|
            else StepLength(h, property) == |PrintToken(t)|
  {
    hide DecodeHeader;
    hide EncodeTag;
    hide OpeningTag;
    hide ClosingTag;
    match t
    case Open(n) =>
      OpeningRoundTrip(n, rest);
      h := Header(n, true, 6, 0, |OpeningTag(n)|);
    case Close(n) =>
      ClosingRoundTrip(n, rest);
      h := Header(n, true, 7, 0, |ClosingTag(n)|);
    case Flag(v) =>
      TagRoundTrip(TAG_BOOLEAN, false, if v then 1 else 0, rest);
      h := DecodeHeader(PrintToken(t) + rest).value;
    case Prim(n, context, octets) =>
      PrimitiveRoundTrip(n, context, octets, rest);
      h := DecodeHeader(PrintToken(t) + rest).value;
  }

  /** One token is stepped over. */
  lemma TokenPasses(t: Token, rest: seq<u8>, counter: u8, property: u32)
    requires t.Printable() && HasSize(t, property) && counter != 0
    ensures Passes(PrintToken(t) + rest, counter, property) <==>
            CounterAfter(t, counter) != 0 && Passes(rest, CounterAfter(t, counter), property)
  {
    var h := TokenHeader(t, rest, property);
    var e := PrintToken(t);
    hide PrintToken;
    hide StepLength;
    hide NextCounter;
    hide EncodeTag;
    hide Passes;
    PassesUnfolds(e + rest, h, counter, property);
    Drops(e, rest);
    if t.Prim? && t.context && SizedAsFlag(property, t.number) {
      var head := EncodeTag(t.number, true, |t.octets|);
      Assoc(head, t.octets, rest);
      Drops(head, t.octets + rest);
      if t.octets == [] {
        assert t.octets + rest == rest;
      } else {
        FlagOctetPasses(t.octets[0], rest, counter, property);
      }
    }
  }

  /** Printed tags pass exactly when the brackets of the value's own number match. */
  lemma {:induction false} TokensPassIff(ts: seq<Token>, counter: u8, property: u32)
    requires Printable(ts) && counter != 0 && forall i :: 0 <= i < |ts| ==> HasSize(ts[i], property)
    ensures Passes(Print(ts), counter, property) <==> Balanced(ts, counter)
    decreases |ts|
  {
    if ts != [] {
      var next := CounterAfter(ts[0], counter);
      PrintCons(ts);
      hide Print;
      hide HasSize;
      hide Passes;
      hide CounterAfter;
      hide Token.Printable;
      TokenPasses(ts[0], Print(ts[1..]), counter, property);
      if next != 0 {
        TokensPassIff(ts[1..], next, property);
      }
    }
  }

  function CountOf(open: seq<u8>, number: u8): (n: nat)
    ensures n <= |open|
  {
    if open == [] then 0 else (if open[0] == number then 1 else 0) + CountOf(open[1..], number)
  }

  /** Brackets of the value's own number are at most 254 deep. */
  predicate Shallow(ts: seq<Token>, depth: nat)
    decreases |ts|
  {
    && depth < 255
    && (ts == [] ||
        if ts[0] == Open(2) then Shallow(ts[1..], depth + 1)
        else if ts[0] == Close(2) then depth > 0 ==> Shallow(ts[1..], depth - 1)
        else Shallow(ts[1..], depth))
  }

  /** Constructed data balances, whatever brackets of other numbers it holds and however deep those nest. */
  lemma {:induction false} NestedIsBalanced(ts: seq<Token>, open: seq<u8>)
    requires Nest(ts, open) == Some([]) && Shallow(ts, CountOf(open, 2))
    ensures Balanced(ts, 1 + CountOf(open, 2))
    decreases |ts|
  {
    if ts != [] {
      var rest := ts[1..];
      match ts[0]
      case Open(n) =>
        assert ([n] + open)[1..] == open;
        NestedIsBalanced(rest, [n] + open);
      case Close(n) => NestedIsBalanced(rest, open[1..]);
      case _ => NestedIsBalanced(rest, open);
    }
  }

  /** Every well-formed value passes, unless a context tag taken for a Boolean holds anything but one. */
  lemma ConstructedPasses(ts: seq<Token>, property: u32)
    requires Printable(ts) && forall i :: 0 <= i < |ts| ==> HasSize(ts[i], property)
    requires Nest(ts, []) == Some([]) && Shallow(ts, 0)
    ensures Passes(Print(ts), 1, property)
  {
    NestedIsBalanced(ts, []);
    TokensPassIff(ts, 1, property);
  }

  lemma TwoTokensPrint(a: Token, b: Token)
    requires a.Printable() && b.Printable()
    ensures Printable([a, b]) && Print([a, b]) == PrintToken(a) + PrintToken(b)
  {
    hide PrintToken;
    var ts := [a, b];
    PrintCons(ts);
    PrintCons(ts[1..]);
    assert ts[1..] == [b] && ts[1..][1..] == [];
    assert Print([]) == [] && PrintToken(b) + [] == PrintToken(b);
  }

  lemma TwoTokensLevel(a: Token, b: Token)
    requires a.Prim? && b.Prim?
    ensures Nest([a, b], []) == Some([]) && Shallow([a, b], 0)
  {
    LevelValue(a);
    LevelValue(b);
    LevelAppends([a], [b]);
    assert [a] + [b] == [a, b];
    assert [b][1..] == [] && Shallow([], 0);
    assert [a, b][1..] == [b] && Shallow([b], 0);
  }

  /** A reference to the present value of analog input 1, written to property 132, octet by octet. */
  lemma ReferencePasses()
    ensures Passes([0x0C, 0x00, 0x00, 0x00, 0x01, 0x19, 0x55], 1, 132)
  {
    hide Print;
    hide Passes;
    hide Nest;
    hide Shallow;
    hide PrintToken;
    var a, b := Prim(0, true, [0x00, 0x00, 0x00, 0x01]), Prim(1, true, [0x55]);
    TwoTokensPrint(a, b);
    TwoTokensLevel(a, b);
    ReferenceTokens(a, b);
    ConstructedPasses([a, b], 132);
  }

  lemma ReferenceTokens(a: Token, b: Token)
    requires a == Prim(0, true, [0x00, 0x00, 0x00, 0x01]) && b == Prim(1, true, [0x55])
    ensures PrintToken(a) == [0x0C, 0x00, 0x00, 0x00, 0x01] && PrintToken(b) == [0x19, 0x55]
    ensures PrintToken(a) + PrintToken(b) == [0x0C, 0x00, 0x00, 0x00, 0x01, 0x19, 0x55]
  {
  }

  /**
   Array index 47 under context tag 2 of an active COV subscription is one well-formed tag, and so is the octet
   0x2F under context tag 7 of an action; either is measured as one octet, because its content reads as the
   closing tag of the value.
   */
  lemma MeasuredWrong(tail: seq<u8>)
    requires ClosesValue(WireReader(), tail)
    ensures [0x29, 0x2F] == Print([Prim(2, true, [47])])
    ensures !Passes([0x29, 0x2F], 1, PROP_ACTIVE_COV_SUBSCRIPTIONS) && !Passes([0x79, 0x2F], 1, PROP_ACTION)
    ensures ValueLength(DecodeHeader, [0x29, 0x2F] + tail, 2, 1, PROP_ACTIVE_COV_SUBSCRIPTIONS) == Some(1)
    ensures ValueLength(DecodeHeader, [0x79, 0x2F] + tail, 2, 1, PROP_ACTION) == Some(1)
  {
    hide Passes;
    hide ValueLength;
    hide StepLength;
    hide NextCounter;
    var t := Prim(2, true, [47]);
    PrintCons([t]);
    assert [t][1..] == [] && Print([t]) == PrintToken(t) + [];
    CutShort(0x29, Header(2, true, 1, 1, 1), tail, PROP_ACTIVE_COV_SUBSCRIPTIONS);
    CutShort(0x79, Header(7, true, 1, 1, 1), tail, PROP_ACTION);
  }

  lemma CutShort(head: u8, h: Header, tail: seq<u8>, property: u32)
    requires h.low == h.value == h.len == 1 && h.context && SizedAsFlag(property, h.number)
    requires h.number < 15 && head == h.number * 16 + 9
    ensures !Passes([head, 0x2F], 1, property)
    ensures ValueLength(DecodeHeader, [head, 0x2F] + tail, 2, 1, property) == Some(1)
  {
    hide Passes;
    hide ValueLength;
    var v, c := [head, 0x2F] + tail, [0x2F] + tail;
    var close := Header(2, true, 7, 0, 1);
    assert DecodeHeader(v) == DecodeHeader([head, 0x2F]) == Some(h);
    assert DecodeHeader(c) == DecodeHeader([0x2F]) == Some(close);
    assert v[1..] == c && [head, 0x2F][1..] == [0x2F];
    LengthUnfolds(DecodeHeader, v, 1, property);
    LengthUnfolds(DecodeHeader, c, 1, property);
    PassesUnfolds([head, 0x2F], h, 1, property);
    PassesUnfolds([0x2F], close, 1, property);
  }

  // ---------- one property ----------

  ghost predicate ClosesValue(r: Reader, bs: seq<u8>) {
    r.tag(bs).Some? && r.tag(bs).value.IsClosing(2) && r.tag(bs).value.len == 1 && bs != []
  }

  /** The value v is measured right whenever the closing tag 2 follows. */
  ghost predicate Measured(r: Reader, v: seq<u8>, property: u32) {
    forall tail :: ClosesValue(r, tail) ==> ValueLength(r.tag, v + tail, 2, 1, property) == Some(|v|)
  }

  /** The octets e read as an unsigned value v under a context tag, whatever follows. */
  ghost predicate ReadsUnsigned(r: Reader, e: seq<u8>, number: u8, v: u32) {
    forall post ::
      && r.unsigned(e + post) == Some((number, v, |e|))
      && r.tag(e + post).Some? && r.tag(e + post).value.number == number && r.tag(e + post).value.len > 0
  }

  ghost predicate ReadsTag(r: Reader, e: seq<u8>, low: nat) {
    |e| == 1 && e[0] % 8 == low && forall post ::
      r.tag(e + post).Some? && r.tag(e + post).value.low == low && r.tag(e + post).value.number == 2 &&
      r.tag(e + post).value.len == 1
  }

  ghost predicate ReadsOptional(r: Reader, e: seq<u8>, number: u8, v: Option<u32>) {
    if v.Some? then ReadsUnsigned(r, e, number, v.value) else e == []
  }

  /** The octets behind a property: the next property or the end of the list. */
  ghost predicate Continues(r: Reader, bs: seq<u8>) {
    r.tag(bs).Some? && r.tag(bs).value.len == 1 && r.tag(bs).value.number < 2
  }

  lemma PriorityReads(r: Reader, e: seq<u8>, p: Option<u8>, post: seq<u8>, w: Write)
    requires if p.Some? then ReadsUnsigned(r, e, 3, p.value) else e == []
    requires Continues(r, post)
    ensures DecodePriority(r, e + post, w) == Some((w.(priority := if p.Some? then p.value else w.priority), |e|))
  {
    if p.None? {
      assert e + post == post;
    } else {
      assert r.unsigned(e + post) == Some((3, p.value as u32, |e|));
    }
  }

  lemma ValueReads(r: Reader, o: seq<u8>, v: seq<u8>, c: seq<u8>, post: seq<u8>, w: Write)
    requires ReadsTag(r, o, 6) && ReadsTag(r, c, 7) && Measured(r, v, w.property)
    ensures DecodeValue(r, o + (v + (c + post)), w) == After(|v| + 2, DecodePriority(r, post, w.(value := v)))
  {
    var bs := o + (v + (c + post));
    assert r.tag(bs).Some? && r.tag(c + post).Some?;
    Drops(o, v + (c + post));
    Drops(v, c + post);
    Drops(c, post);
    assert ClosesValue(r, c + post);
    assert bs[1 + |v|..] == c + post && bs[1..1 + |v|] == v;
  }

  lemma IndexReads(r: Reader, e: seq<u8>, index: Option<u32>, tail: seq<u8>, w: Write)
    requires ReadsOptional(r, e, 1, index)
    requires r.tag(tail).Some? && r.tag(tail).value.number != 1
    ensures DecodeIndex(r, e + tail, w) ==
            After(|e|, DecodeValue(r, tail, w.(index := if index.Some? then index.value else w.index)))
  {
    if index.None? {
      assert e + tail == tail;
    } else {
      assert r.unsigned(e + tail) == Some((1 as u8, index.value, |e|));
      Drops(e, tail);
    }
  }

  lemma PartsBehindIndexRead(r: Reader, o: seq<u8>, v: seq<u8>, c: seq<u8>, e4: seq<u8>, post: seq<u8>,
                             w: Write, priority: Option<u8>)
    requires ReadsTag(r, o, 6) && Measured(r, v, w.property) && ReadsTag(r, c, 7)
    requires if priority.Some? then ReadsUnsigned(r, e4, 3, priority.value) else e4 == []
    requires Continues(r, post)
    ensures DecodeValue(r, o + (v + (c + (e4 + post))), w) ==
            Some((w.(value := v, priority := if priority.Some? then priority.value else w.priority), |v| + 2 + |e4|))
  {
    hide DecodeValue;
    hide DecodePriority;
    hide Measured;
    hide ReadsTag;
    hide ReadsUnsigned;
    hide Continues;
    ValueReads(r, o, v, c, e4 + post, w);
    PriorityReads(r, e4, priority, post, w.(value := v));
  }

  lemma PartsBehindIdRead(r: Reader, e1: seq<u8>, o: seq<u8>, v: seq<u8>, c: seq<u8>, e4: seq<u8>, post: seq<u8>,
                          w: Write, index: Option<u32>, priority: Option<u8>)
    requires ReadsOptional(r, e1, 1, index)
    requires ReadsTag(r, o, 6) && Measured(r, v, w.property) && ReadsTag(r, c, 7)
    requires if priority.Some? then ReadsUnsigned(r, e4, 3, priority.value) else e4 == []
    requires Continues(r, post)
    ensures DecodeIndex(r, e1 + (o + (v + (c + (e4 + post)))), w) ==
            Some((w.(index := if index.Some? then index.value else w.index, value := v,
                     priority := if priority.Some? then priority.value else w.priority),
                  |e1| + |v| + 2 + |e4|))
  {
    hide DecodeIndex;
    hide DecodeValue;
    hide Measured;
    hide Continues;
    hide ReadsUnsigned;
    var t2 := o + (v + (c + (e4 + post)));
    assert r.tag(t2).Some? && r.tag(t2).value.number == 2;
    IndexReads(r, e1, index, t2, w);
    PartsBehindIndexRead(r, o, v, c, e4, post, w.(index := if index.Some? then index.value else w.index), priority);
  }

  lemma IdReads(r: Reader, e: seq<u8>, tail: seq<u8>, kind: u16, instance: u32, property: u32)
    requires ReadsUnsigned(r, e, 0, property)
    ensures DecodeProperty(r, e + tail, kind, instance) ==
            After(|e|, DecodeIndex(r, tail, Write(kind, instance, property, ARRAY_ALL, [], MAX_PRIORITY)))
  {
    assert r.unsigned(e + tail) == Some((0 as u8, property, |e|));
    Drops(e, tail);
  }

  /** The primitive readers read every part of the property right, but for the length of its value. */
  ghost predicate Framed(r: Reader, e: Parts, p: PropertyWrite) {
    && ReadsUnsigned(r, e.id, 0, p.property)
    && ReadsOptional(r, e.index, 1, p.index)
    && ReadsTag(r, e.open, 6) && e.value == p.value && ReadsTag(r, e.close, 7)
    && if p.priority.Some? then ReadsUnsigned(r, e.priority, 3, p.priority.value) else e.priority == []
  }

  /** A property decodes to the write it asks for, and takes exactly its octets. */
  lemma PropertyReads(r: Reader, e: Parts, p: PropertyWrite, kind: u16, instance: u32, post: seq<u8>)
    requires Framed(r, e, p) && Measured(r, e.value, p.property) && Continues(r, post)
    ensures DecodeProperty(r, e.Then(post), kind, instance) == Some((WriteOf(kind, instance, p), e.Length()))
  {
    hide DecodeProperty;
    hide DecodeIndex;
    hide Measured;
    hide Continues;
    hide ReadsUnsigned;
    IdReads(r, e.id, e.index + (e.open + (e.value + (e.close + (e.priority + post)))), kind, instance, p.property);
    PartsBehindIdRead(r, e.index, e.open, e.value, e.close, e.priority, post,
                      Write(kind, instance, p.property, ARRAY_ALL, [], MAX_PRIORITY), p.index, p.priority);
  }

  lemma ValueCuts(r: Reader, o: seq<u8>, t: seq<u8>, w: Write)
    requires ReadsTag(r, o, 6) && DecodeValue(r, o + t, w).Some?
    ensures var n := ValueLength(r.tag, t, 2, 1, w.property);
            n.Some? && |DecodeValue(r, o + t, w).value.0.value| == n.value
  {
    Drops(o, t);
  }

  /** Only a value that is measured right is decoded to what was asked for. */
  lemma PropertyReadsOnlyIf(r: Reader, e: Parts, p: PropertyWrite, kind: u16, instance: u32, post: seq<u8>)
    requires Framed(r, e, p)
    requires var d := DecodeProperty(r, e.Then(post), kind, instance); d.Some? && d.value.0.value == p.value
    ensures ValueLength(r.tag, e.value + (e.close + (e.priority + post)), 2, 1, p.property) == Some(|e.value|)
  {
    hide DecodeIndex;
    hide DecodeValue;
    hide DecodeProperty;
    hide ReadsUnsigned;
    hide ValueLength;
    var t := e.value + (e.close + (e.priority + post));
    var w := Write(kind, instance, p.property, ARRAY_ALL, [], MAX_PRIORITY);
    IdReads(r, e.id, e.index + (e.open + t), kind, instance, p.property);
    assert r.tag(e.open + t).Some? && r.tag(e.open + t).value.number == 2;
    IndexReads(r, e.index, p.index, e.open + t, w);
    ValueCuts(r, e.open, t, w.(index := if p.index.Some? then p.index.value else w.index));
  }

  lemma WireReadsUnsigned(number: u8, v: u32)
    ensures ReadsUnsigned(WireReader(), ContextUnsigned(number, v), number, v)
  {
    var e, o := ContextUnsigned(number, v), EncodeUnsigned(v);
    forall post
      ensures UnsignedPrefix(e + post) == Some((number, v, |e|))
      ensures DecodeHeader(e + post).Some? && DecodeHeader(e + post).value.number == number
    {
      PrimitiveRoundTrip(number, true, o, post);
      var h := DecodeHeader(e + post).value;
      assert (e + post)[h.len..] == o + post;
      UnsignedRoundTrip(v, post);
    }
  }

  lemma WireReadsTags()
    ensures ReadsTag(WireReader(), OpeningTag(2), 6)
    ensures ReadsTag(WireReader(), ClosingTag(2), 7)
  {
    forall post
      ensures DecodeHeader(OpeningTag(2) + post) == Some(Header(2, true, 6, 0, 1))
      ensures DecodeHeader(ClosingTag(2) + post) == Some(Header(2, true, 7, 0, 1))
    {
      OpeningRoundTrip(2, post);
      ClosingRoundTrip(2, post);
    }
  }

  lemma WireFrames(p: PropertyWrite)
    ensures Framed(WireReader(), PartsOf(p), p)
  {
    WireReadsUnsigned(0, p.property);
    if p.index.Some? {
      WireReadsUnsigned(1, p.index.value);
    }
    if p.priority.Some? {
      WireReadsUnsigned(3, p.priority.value);
    }
    WireReadsTags();
  }

  lemma PassesIsMeasured(v: seq<u8>, property: u32)
    requires Passes(v, 1, property)
    ensures Measured(WireReader(), v, property)
  {
    forall tail | ClosesValue(WireReader(), tail)
      ensures ValueLength(DecodeHeader, v + tail, 2, 1, property) == Some(|v|)
    {
      MeasuredIffPasses(v, tail, 1, property);
    }
  }

  /** A printed property decodes to the write it asks for, and all its octets, exactly when its value passes. */
  lemma PropertyReadsIff(p: PropertyWrite, kind: u16, instance: u32, post: seq<u8>)
    requires Continues(WireReader(), post)
    ensures var d := DecodeProperty(WireReader(), PropertyThen(p, post), kind, instance);
            && (Passes(p.value, 1, p.property) ==> d == Some((WriteOf(kind, instance, p), PartsOf(p).Length())))
            && (d.Some? && d.value.0.value == p.value ==> Passes(p.value, 1, p.property))
  {
    hide DecodeProperty;
    hide Framed;
    hide Passes;
    var r, e := WireReader(), PartsOf(p);
    WireFrames(p);
    if Passes(p.value, 1, p.property) {
      PassesIsMeasured(p.value, p.property);
      PropertyReads(r, e, p, kind, instance, post);
    }
    var d := DecodeProperty(r, e.Then(post), kind, instance);
    if d.Some? && d.value.0.value == p.value {
      PropertyReadsOnlyIf(r, e, p, kind, instance, post);
      ClosingRoundTrip(2, e.priority + post);
      MeasuredIffPasses(e.value, e.close + (e.priority + post), 1, p.property);
    }
  }

  lemma PartsDrop(e: Parts, post: seq<u8>)
    ensures |e.Then(post)| == e.Length() + |post| && e.Then(post)[e.Length()..] == post
  {
  }

  // ---------- the loops ----------

  /** At s the decoders see the property write w; behind its octets comes t. */
  ghost predicate PropertyAhead(d: Decoders, s: seq<u8>, t: seq<u8>, kind: u16, instance: u32, w: Write) {
    var n := |s| - |t|;
    n > 0 && s[n..] == t && d.property(s, kind, instance) == Some((w, n as nat)) && !d.closesList(s)
  }

  /** The rests of a request from each property of a list on, and from the end of the list on. */
  ghost predicate PropertiesAhead(d: Decoders, ss: seq<seq<u8>>, kind: u16, instance: u32, ws: seq<Write>) {
    && |ss| == |ws| + 1 && ss[|ws|] != [] && d.closesList(ss[|ws|])
    && forall i :: 0 <= i < |ws| ==> PropertyAhead(d, ss[i], ss[i + 1], kind, instance, ws[i])
  }

  lemma {:induction false} InnerLoop(d: Decoders, req: seq<u8>, at: nat, ss: seq<seq<u8>>,
                                     kind: u16, instance: u32, ws: seq<Write>, done: seq<Write>, device: Device)
    requires ws != [] && PropertiesAhead(d, ss, kind, instance, ws)
    requires at <= |req| && req[at..] == ss[0]
    ensures |ss[|ws|]| < |req|
    ensures var (writes, ok) := Carried(ws, done, device);
            Properties(d, req, at, kind, instance, done, device) ==
            if ok then More(writes, |req| - |ss[|ws|]| + 1) else Refused(writes)
    decreases |ws|
  {
    assert PropertyAhead(d, ss[0], ss[1], kind, instance, ws[0]);
    var n := |ss[0]| - |ss[1]|;
    assert req[at + n..] == ss[0][n..] == ss[1];
    if |ws| == 1 {
      InnerStep(d, req, at, kind, instance, done, device, ws[0], n);
    } else {
      assert PropertyAhead(d, ss[1], ss[2], kind, instance, ws[1]);
      InnerStep(d, req, at, kind, instance, done, device, ws[0], n);
      forall i | 0 <= i < |ws| - 1
        ensures PropertyAhead(d, ss[1..][i], ss[1..][i + 1], kind, instance, ws[1..][i])
      {
        assert PropertyAhead(d, ss[i + 1], ss[i + 2], kind, instance, ws[i + 1]);
      }
      InnerLoop(d, req, at + n, ss[1..], kind, instance, ws[1..], done + [ws[0]], device);
    }
  }

  lemma InnerStep(d: Decoders, req: seq<u8>, at: nat, kind: u16, instance: u32, done: seq<Write>, device: Device,
                  w: Write, n: nat)
    requires 0 < n && at + n < |req| && d.property(req[at..], kind, instance) == Some((w, n))
    ensures Properties(d, req, at, kind, instance, done, device) ==
            if !device(done + [w]) then Refused(done + [w])
            else if d.closesList(req[at + n..]) then More(done + [w], at + n + 1)
            else Properties(d, req, at + n, kind, instance, done + [w], device)
  {
  }

  /** At s the decoders see an object identifier of n octets, then the opening of a list whose contents start at t. */
  ghost predicate ObjectAhead(d: Decoders, s: seq<u8>, n: nat, t: seq<u8>, kind: u16, instance: u32) {
    && 0 < n < |s| && s[n + 1..] == t
    && d.objectId(s) == Some(((kind, instance), n))
    && d.opensList(s[n..])
  }

  lemma ObjectStep(d: Decoders, req: seq<u8>, at: nat, n: nat, list: seq<u8>, kind: u16, instance: u32,
                   done: seq<Write>, device: Device)
    requires at <= |req| && ObjectAhead(d, req[at..], n, list, kind, instance)
    ensures at + n + 1 <= |req| && req[at + n + 1..] == list
    ensures Object(d, req, at, done, device) == Properties(d, req, at + n + 1, kind, instance, done, device)
  {
    assert req[at..][n..] == req[at + n..] && req[at..][n + 1..] == req[at + n + 1..];
  }

  lemma OuterStep(d: Decoders, req: seq<u8>, at: nat, n: nat, ss: seq<seq<u8>>, rest: seq<u8>,
                  kind: u16, instance: u32, ws: seq<Write>, done: seq<Write>, device: Device)
    requires ws != [] && PropertiesAhead(d, ss, kind, instance, ws)
    requires ss[|ws|][1..] == rest
    requires at <= |req| && ObjectAhead(d, req[at..], n, ss[0], kind, instance)
    ensures |rest| < |req| && req[|req| - |rest|..] == rest
    ensures var next := |req| - |rest|;
            var (writes, ok) := Carried(ws, done, device);
            Objects(d, req, at, done, device) ==
            if !ok then Refused(writes)
            else if rest == [] then More(writes, next) else Objects(d, req, next, writes, device)
  {
    hide Object;
    hide Properties;
    hide Carried;
    ObjectStep(d, req, at, n, ss[0], kind, instance, done, device);
    InnerLoop(d, req, at + n + 1, ss, kind, instance, ws, done, device);
    assert req[|req| - |rest|..] == rest by {
      SuffixOf(d, ss, kind, instance, ws, 0);
      assert ss[|ws|] == ss[0][|ss[0]| - |ss[|ws|]|..];
    }
  }

  lemma {:induction false} SuffixOf(d: Decoders, ss: seq<seq<u8>>, kind: u16, instance: u32, ws: seq<Write>, i: nat)
    requires i <= |ws| && PropertiesAhead(d, ss, kind, instance, ws)
    ensures |ss[|ws|]| <= |ss[i]| && ss[i][|ss[i]| - |ss[|ws|]|..] == ss[|ws|]
    decreases |ws| - i
  {
    if i < |ws| {
      SuffixOf(d, ss, kind, instance, ws, i + 1);
      assert PropertyAhead(d, ss[i], ss[i + 1], kind, instance, ws[i]);
    }
  }

  // ---------- the printed request ----------

  lemma PropertyStart(p: PropertyWrite, post: seq<u8>)
    ensures Continues(WireReader(), PropertyThen(p, post))
    ensures !ClosesList(PropertyThen(p, post))
  {
    var o := EncodeUnsigned(p.property);
    var tail := PropertyThen(p, post)[|ContextUnsigned(0, p.property)|..];
    assert PropertyThen(p, post) == ContextUnsigned(0, p.property) + tail;
    TagRoundTrip(0, true, |o|, o + tail);
    Assoc(EncodeTag(0, true, |o|), o, tail);
  }

  lemma ListEnd(rest: seq<u8>)
    ensures Continues(WireReader(), ClosingTag(1) + rest)
    ensures ClosesList(ClosingTag(1) + rest)
  {
    ClosingRoundTrip(1, rest);
  }

  /** The rests of a list of properties that is followed by end. */
  function Rests(ps: seq<PropertyWrite>, end: seq<u8>): seq<seq<u8>> {
    seq(|ps| + 1, i requires 0 <= i <= |ps| => PropertiesThen(ps[i..], end))
  }

  lemma RestContinues(ps: seq<PropertyWrite>, rest: seq<u8>)
    ensures Continues(WireReader(), PropertiesThen(ps, ClosingTag(1) + rest))
    ensures ClosesList(PropertiesThen(ps, ClosingTag(1) + rest)) <==> ps == []
  {
    if ps == [] {
      ListEnd(rest);
    } else {
      PropertyStart(ps[0], PropertiesThen(ps[1..], ClosingTag(1) + rest));
    }
  }

  /** Every value of the request passes. */
  predicate Sound(os: seq<ObjectWrites>) {
    forall i :: 0 <= i < |os| ==> AllPass(os[i].properties)
  }

  predicate AllPass(ps: seq<PropertyWrite>) {
    forall i :: 0 <= i < |ps| ==> Passes(ps[i].value, 1, ps[i].property)
  }

  lemma PartsAhead(d: Decoders, e: Parts, post: seq<u8>, kind: u16, instance: u32, w: Write)
    requires d.property(e.Then(post), kind, instance) == Some((w, e.Length())) && e.Length() > 0
    requires !d.closesList(e.Then(post))
    ensures PropertyAhead(d, e.Then(post), post, kind, instance, w)
  {
    PartsDrop(e, post);
  }

  lemma WirePropertyAhead(ps: seq<PropertyWrite>, rest: seq<u8>, kind: u16, instance: u32)
    requires ps != [] && Passes(ps[0].value, 1, ps[0].property)
    ensures var end := ClosingTag(1) + rest;
            PropertyAhead(Wire(), PropertiesThen(ps, end), PropertiesThen(ps[1..], end), kind, instance,
                          WriteOf(kind, instance, ps[0]))
  {
    hide DecodeProperty;
    hide Passes;
    hide PropertyAhead;
    hide OptionalUnsigned;
    hide OptionalPriority;
    hide ContextUnsigned;
    hide ClosesList;
    RestContinues(ps, rest);
    RestContinues(ps[1..], rest);
    var post := PropertiesThen(ps[1..], ClosingTag(1) + rest);
    PropertyReadsIff(ps[0], kind, instance, post);
    PartsAhead(Wire(), PartsOf(ps[0]), post, kind, instance, WriteOf(kind, instance, ps[0]));
  }

  lemma RestAhead(ps: seq<PropertyWrite>, i: nat, rest: seq<u8>, kind: u16, instance: u32)
    requires AllPass(ps) && i < |ps|
    ensures var ss := Rests(ps, ClosingTag(1) + rest);
            PropertyAhead(Wire(), ss[i], ss[i + 1], kind, instance, WritesOf(kind, instance, ps)[i])
  {
    assert ps[i..][1..] == ps[i + 1..];
    WirePropertyAhead(ps[i..], rest, kind, instance);
  }

  lemma RestsEnd(ps: seq<PropertyWrite>, rest: seq<u8>)
    ensures var s := Rests(ps, ClosingTag(1) + rest)[|ps|];
            s != [] && Wire().closesList(s) && s[1..] == rest
  {
    assert ps[|ps|..] == [];
    ListEnd(rest);
  }

  lemma WireAhead(ps: seq<PropertyWrite>, rest: seq<u8>, kind: u16, instance: u32)
    requires AllPass(ps)
    ensures PropertiesAhead(Wire(), Rests(ps, ClosingTag(1) + rest), kind, instance, WritesOf(kind, instance, ps))
  {
    RestsEnd(ps, rest);
    forall i | 0 <= i < |ps| {
      RestAhead(ps, i, rest, kind, instance);
    }
  }

  lemma WireObjectAhead(kind: u16, instance: u32, list: seq<u8>)
    requires kind < MAX_TYPE && instance < MAX_INSTANCE
    ensures ObjectAhead(Wire(), ContextObjectId(0, kind, instance) + (OpeningTag(1) + list), 5, list, kind, instance)
  {
    var v, id, tail := U32(ObjectIdValue(kind, instance)), ContextObjectId(0, kind, instance), OpeningTag(1) + list;
    TagRoundTrip(0, true, 4, v + tail);
    Assoc(EncodeTag(0, true, 4), v, tail);
    Drops(EncodeTag(0, true, 4), v + tail);
    Drops(id, tail);
    ObjectIdRoundTrip(kind, instance, tail);
    OpeningRoundTrip(1, list);
  }

  lemma CarriedNothing(done: seq<Write>, device: Device)
    ensures Carried([], done, device) == (done, true)
  {
  }

  lemma CarriedAppends(a: seq<Write>, b: seq<Write>, done: seq<Write>, device: Device)
    ensures var (writes, ok) := Carried(a, done, device);
            Carried(a + b, done, device) == if ok then Carried(b, writes, device) else (writes, ok)
    decreases |a|
  {
    if a == [] {
      assert a + b == b;
    } else {
      assert (a + b)[1..] == a[1..] + b;
      CarriedAppends(a[1..], b, done + [a[0]], device);
    }
  }

  lemma {:induction false} RequestIsCarried(req: seq<u8>, at: nat, os: seq<ObjectWrites>, done: seq<Write>,
                                            device: Device)
    requires os != [] && Sound(os) && forall i :: 0 <= i < |os| ==> WellFormed(os[i])
    requires at <= |req| && req[at..] == PrintRequest(os)
    ensures var (writes, ok) := Carried(Wanted(os), done, device);
            Objects(Wire(), req, at, done, device) == if ok then More(writes, |req|) else Refused(writes)
    decreases |os|
  {
    hide Wire;
    hide Objects;
    hide Carried;
    hide PropertiesAhead;
    hide ContextObjectId;
    hide PropertiesThen;
    var o, rest := os[0], PrintRequest(os[1..]);
    var ss, ws := Rests(o.properties, ClosingTag(1) + rest), WritesOf(o.kind, o.instance, o.properties);
    WireAhead(o.properties, rest, o.kind, o.instance);
    RestsEnd(o.properties, rest);
    assert o.properties[0..] == o.properties;
    WireObjectAhead(o.kind, o.instance, ss[0]);
    OuterStep(Wire(), req, at, 5, ss, rest, o.kind, o.instance, ws, done, device);
    CarriedAppends(ws, Wanted(os[1..]), done, device);
    CarriedNothing(Carried(ws, done, device).0, device);
    if |os| > 1 {
      PrintedNonEmpty(os[1..]);
      RequestIsCarried(req, |req| - |rest|, os[1..], Carried(ws, done, device).0, device);
    }
  }

  lemma PrintedNonEmpty(os: seq<ObjectWrites>)
    requires os != []
    ensures PrintRequest(os) != []
  {
  }

  /** What is carried out is the list of wanted writes, or its part up to the first refusal. */
  lemma {:induction false} CarriedIsPrefix(wanted: seq<Write>, done: seq<Write>, device: Device) returns (n: nat)
    ensures n <= |wanted| && Carried(wanted, done, device).0 == done + wanted[..n]
    ensures forall m :: 0 < m < n ==> device(done + wanted[..m])
    ensures if Carried(wanted, done, device).1 then n == |wanted| && (n > 0 ==> device(done + wanted[..n]))
            else n > 0 && !device(done + wanted[..n])
    decreases |wanted|
  {
    if wanted == [] {
      n := 0;
    } else {
      var first := done + [wanted[0]];
      assert first == done + wanted[..1];
      if !device(first) {
        n := 1;
      } else {
        var k := CarriedIsPrefix(wanted[1..], first, device);
        n := k + 1;
        forall m | 0 < m <= n
          ensures done + wanted[..m] == first + wanted[1..][..m - 1]
        {
        }
      }
    }
  }

  lemma CarriedFromStart(wanted: seq<Write>, device: Device) returns (n: nat)
    ensures var (writes, ok) := Carried(wanted, [], device);
            && n <= |wanted| && writes == wanted[..n]
            && (forall m :: 0 < m < n ==> device(wanted[..m]))
            && (ok <==> n == 0 || device(wanted[..n]))
            && (ok ==> n == |wanted|)
  {
    n := CarriedIsPrefix(wanted, [], device);
    assert forall m :: 0 <= m <= n ==> [] + wanted[..m] == wanted[..m];
  }

  /**
   A well-formed request makes exactly its writes, in order, up to and including the first that the device
   refuses; it is acknowledged exactly when none is refused, and otherwise answered by a write error.
   */
  lemma RequestIsWritten(os: seq<ObjectWrites>, device: Device) returns (n: nat)
    requires os != [] && Sound(os) && forall i :: 0 <= i < |os| ==> WellFormed(os[i])
    ensures var r, wanted := Objects(Wire(), PrintRequest(os), 0, [], device), Wanted(os);
            && n <= |wanted| && r.writes == wanted[..n]
            && (forall m :: 0 < m < n ==> device(wanted[..m]))
            && ReplyTo(r) == (if n == 0 || device(wanted[..n]) then SimpleAck else WriteError)
            && (ReplyTo(r) == SimpleAck ==> n == |wanted|)
  {
    assert PrintRequest(os)[0..] == PrintRequest(os);
    RequestIsCarried(PrintRequest(os), 0, os, [], device);
    n := CarriedFromStart(Wanted(os), device);
  }

  // ---------- only those requests ----------

  function Accepting(): Device {
    (writes: seq<Write>) => true
  }

  lemma {:induction false} PropertiesExtend(d: Decoders, req: seq<u8>, at: nat, kind: u16, instance: u32,
                                            done: seq<Write>, device: Device)
    requires at <= |req|
    ensures done <= Properties(d, req, at, kind, instance, done, device).writes
    decreases |req| - at
  {
    var p := d.property(req[at..], kind, instance);
    if p.Some? && 0 < p.value.1 < |req| - at {
      PropertiesExtend(d, req, at + p.value.1, kind, instance, done + [p.value.0], device);
    }
  }

  lemma {:induction false} ObjectsExtend(d: Decoders, req: seq<u8>, at: nat, done: seq<Write>, device: Device)
    requires at <= |req|
    ensures var r := Object(d, req, at, done, device);
            && done <= r.writes <= Objects(d, req, at, done, device).writes
            && (!r.More? ==> Objects(d, req, at, done, device).writes == r.writes)
    decreases |req| - at
  {
    hide Properties;
    var o := d.objectId(req[at..]);
    if o.Some? && 0 < o.value.1 < |req| - at && d.opensList(req[at + o.value.1..]) {
      PropertiesExtend(d, req, at + o.value.1 + 1, o.value.0.0, o.value.0.1, done, device);
    }
    var r := Object(d, req, at, done, device);
    if r.More? && r.at < |req| {
      ObjectsExtend(d, req, r.at, r.writes, device);
    }
  }

  /** The outcome of a list agrees with the writes in the end, all of them when it ends the request. */
  predicate LeadsTo(r: Outcome, end: seq<Write>) {
    if r.More? then r.writes <= end else r.writes == end
  }

  /** The write made first is the next one in the end, and the loop has gone on from behind it. */
  lemma FirstWriteStays(d: Decoders, req: seq<u8>, at: nat, kind: u16, instance: u32, done: seq<Write>,
                        end: seq<Write>)
    requires at <= |req| && done <= end && |done| < |end|
    requires LeadsTo(Properties(d, req, at, kind, instance, done, Accepting()), end)
    ensures var p := d.property(req[at..], kind, instance); p.Some? && p.value.0 == end[|done|]
  {
    hide Wire;
    var p := d.property(req[at..], kind, instance);
    if p.Some? && 0 < p.value.1 <= |req| - at {
      var first := done + [p.value.0];
      if p.value.1 < |req| - at {
        PropertiesExtend(d, req, at + p.value.1, kind, instance, first, Accepting());
      }
      assert first[|done|] == p.value.0 && first <= end;
    }
  }

  lemma ListTurn(d: Decoders, req: seq<u8>, at: nat, s: seq<u8>, t: seq<u8>, kind: u16, instance: u32, w: Write,
                 done: seq<Write>)
    requires at <= |req| && req[at..] == s && PropertyAhead(d, s, t, kind, instance, w) && t != []
    ensures |req| >= |t| && req[|req| - |t|..] == t
    ensures d.closesList(t) || Properties(d, req, at, kind, instance, done, Accepting()) ==
                               Properties(d, req, |req| - |t|, kind, instance, done + [w], Accepting())
  {
    var n := |s| - |t|;
    assert req[at + n..] == s[n..] == t;
    InnerStep(d, req, at, kind, instance, done, Accepting(), w, n);
  }

  /** At s either the decoders do not see the write w, or w is ahead as it should be. */
  ghost predicate AheadIfRead(d: Decoders, s: seq<u8>, t: seq<u8>, kind: u16, instance: u32, w: Write) {
    var p := d.property(s, kind, instance);
    s != [] && !d.closesList(s) && (p.Some? && p.value.0 == w ==> PropertyAhead(d, s, t, kind, instance, w))
  }

  ghost predicate AllAheadIfRead(d: Decoders, ss: seq<seq<u8>>, kind: u16, instance: u32, ws: seq<Write>) {
    && |ss| == |ws| + 1 && ss[|ws|] != [] && d.closesList(ss[|ws|])
    && forall i :: 0 <= i < |ws| ==> AheadIfRead(d, ss[i], ss[i + 1], kind, instance, ws[i])
  }

  lemma RestAheadIfRead(d: Decoders, ss: seq<seq<u8>>, kind: u16, instance: u32, ws: seq<Write>)
    requires AllAheadIfRead(d, ss, kind, instance, ws) && ws != []
    ensures AheadIfRead(d, ss[0], ss[1], kind, instance, ws[0]) && ss[1] != []
    ensures d.closesList(ss[1]) <==> |ws| == 1
    ensures AllAheadIfRead(d, ss[1..], kind, instance, ws[1..])
  {
    hide PropertyAhead;
    forall i | 0 <= i < |ws| - 1
      ensures AheadIfRead(d, ss[1..][i], ss[1..][i + 1], kind, instance, ws[1..][i])
    {
      assert AheadIfRead(d, ss[i + 1], ss[i + 2], kind, instance, ws[i + 1]);
    }
    if |ws| > 1 {
      assert AheadIfRead(d, ss[1], ss[2], kind, instance, ws[1]);
    }
  }

  /** The first k properties of the list are ahead as they should be. */
  ghost predicate AheadUpTo(d: Decoders, ss: seq<seq<u8>>, kind: u16, instance: u32, ws: seq<Write>, k: nat) {
    k <= |ws| < |ss| && forall i :: 0 <= i < k ==> PropertyAhead(d, ss[i], ss[i + 1], kind, instance, ws[i])
  }

  lemma AheadUpToCons(d: Decoders, ss: seq<seq<u8>>, kind: u16, instance: u32, ws: seq<Write>, k: nat)
    requires 0 < k <= |ws| < |ss|
    ensures AheadUpTo(d, ss, kind, instance, ws, k) <==>
            && PropertyAhead(d, ss[0], ss[1], kind, instance, ws[0])
            && AheadUpTo(d, ss[1..], kind, instance, ws[1..], k - 1)
  {
    hide PropertyAhead;
    if PropertyAhead(d, ss[0], ss[1], kind, instance, ws[0]) && AheadUpTo(d, ss[1..], kind, instance, ws[1..], k - 1) {
      forall i | 0 < i < k
        ensures PropertyAhead(d, ss[i], ss[i + 1], kind, instance, ws[i])
      {
        assert PropertyAhead(d, ss[1..][i - 1], ss[1..][i], kind, instance, ws[1..][i - 1]);
      }
    }
    if AheadUpTo(d, ss, kind, instance, ws, k) {
      forall i | 0 <= i < k - 1
        ensures PropertyAhead(d, ss[1..][i], ss[1..][i + 1], kind, instance, ws[1..][i])
      {
        assert PropertyAhead(d, ss[i + 1], ss[i + 2], kind, instance, ws[i + 1]);
      }
    }
  }

  lemma PrefixCons(done: seq<Write>, ws: seq<Write>, end: seq<Write>, k: nat)
    requires 0 < k <= |ws|
    ensures done + ws[..k] <= end <==> done + [ws[0]] <= end && done + [ws[0]] + ws[1..][..k - 1] <= end
  {
    assert done + ws[..k] == done + [ws[0]] + ws[1..][..k - 1];
  }

  /** A write that is ahead is made. */
  lemma FirstWriteMade(d: Decoders, req: seq<u8>, at: nat, s: seq<u8>, t: seq<u8>, kind: u16, instance: u32,
                       w: Write, done: seq<Write>, end: seq<Write>)
    requires at <= |req| && req[at..] == s && PropertyAhead(d, s, t, kind, instance, w)
    requires LeadsTo(Properties(d, req, at, kind, instance, done, Accepting()), end)
    ensures done + [w] <= end
  {
    var n := |s| - |t|;
    if at + n < |req| {
      PropertiesExtend(d, req, at + n, kind, instance, done + [w], Accepting());
    }
  }

  /** Of the first property: its write is made exactly when it is ahead. */
  lemma FirstWriteIff(d: Decoders, req: seq<u8>, at: nat, s: seq<u8>, t: seq<u8>, kind: u16, instance: u32,
                      w: Write, done: seq<Write>, end: seq<Write>)
    requires at <= |req| && req[at..] == s && AheadIfRead(d, s, t, kind, instance, w) && done <= end
    requires LeadsTo(Properties(d, req, at, kind, instance, done, Accepting()), end)
    ensures done + [w] <= end <==> PropertyAhead(d, s, t, kind, instance, w)
  {
    hide PropertyAhead;
    hide Properties;
    hide LeadsTo;
    if PropertyAhead(d, s, t, kind, instance, w) {
      FirstWriteMade(d, req, at, s, t, kind, instance, w, done, end);
    } else if done + [w] <= end {
      assert end[|done|] == (done + [w])[|done|];
      FirstWriteStays(d, req, at, kind, instance, done, end);
    }
  }

  /** The first k writes of a list are made exactly when its first k properties are ahead as they should be. */
  lemma {:induction false} InnerIff(d: Decoders, req: seq<u8>, at: nat, ss: seq<seq<u8>>, kind: u16, instance: u32,
                                    ws: seq<Write>, done: seq<Write>, end: seq<Write>, k: nat)
    requires AllAheadIfRead(d, ss, kind, instance, ws) && k <= |ws|
    requires at <= |req| && req[at..] == ss[0] && done <= end
    requires ws != [] ==> LeadsTo(Properties(d, req, at, kind, instance, done, Accepting()), end)
    ensures done + ws[..k] <= end <==> AheadUpTo(d, ss, kind, instance, ws, k)
    decreases k
  {
    if k == 0 {
      assert done + ws[..0] == done;
    } else {
      hide Properties;
      hide LeadsTo;
      hide AllAheadIfRead;
      hide AheadIfRead;
      hide PropertyAhead;
      hide AheadUpTo;
      RestAheadIfRead(d, ss, kind, instance, ws);
      FirstWriteIff(d, req, at, ss[0], ss[1], kind, instance, ws[0], done, end);
      PrefixCons(done, ws, end, k);
      AheadUpToCons(d, ss, kind, instance, ws, k);
      if PropertyAhead(d, ss[0], ss[1], kind, instance, ws[0]) {
        ListTurn(d, req, at, ss[0], ss[1], kind, instance, ws[0], done);
        InnerIff(d, req, |req| - |ss[1]|, ss[1..], kind, instance, ws[1..], done + [ws[0]], end, k - 1);
      }
    }
  }

  /** Reading the write that was asked for takes its value passing, and then all is read. */
  lemma WireAheadIfRead(ps: seq<PropertyWrite>, i: nat, rest: seq<u8>, kind: u16, instance: u32)
    requires i < |ps|
    ensures var ss, w := Rests(ps, ClosingTag(1) + rest), WriteOf(kind, instance, ps[i]);
            && AheadIfRead(Wire(), ss[i], ss[i + 1], kind, instance, w)
            && (PropertyAhead(Wire(), ss[i], ss[i + 1], kind, instance, w) <==>
                  Passes(ps[i].value, 1, ps[i].property))
  {
    hide DecodeProperty;
    hide Passes;
    hide ClosesList;
    hide PropertyThen;
    var s := PropertiesThen(ps[i..], ClosingTag(1) + rest);
    assert ps[i..][1..] == ps[i + 1..];
    RestContinues(ps[i..], rest);
    if s == [] {
      ListEnd(rest);
    }
    var p := DecodeProperty(WireReader(), s, kind, instance);
    if p.Some? && p.value.0 == WriteOf(kind, instance, ps[i]) {
      FrontPasses(ps[i..], rest, kind, instance);
    }
    if Passes(ps[i].value, 1, ps[i].property) {
      WirePropertyAhead(ps[i..], rest, kind, instance);
    }
  }

  /** The values of the first k writes pass. */
  predicate Passing(ws: seq<Write>, k: nat) {
    k <= |ws| && forall i :: 0 <= i < k ==> Passes(ws[i].value, 1, ws[i].property)
  }

  lemma AheadIsPassing(d: Decoders, ss: seq<seq<u8>>, kind: u16, instance: u32, ws: seq<Write>, k: nat)
    requires k <= |ws| < |ss|
    requires forall i :: 0 <= i < |ws| ==>
      (PropertyAhead(d, ss[i], ss[i + 1], kind, instance, ws[i]) <==> Passes(ws[i].value, 1, ws[i].property))
    ensures AheadUpTo(d, ss, kind, instance, ws, k) <==> Passing(ws, k)
  {
    hide PropertyAhead;
    hide Passes;
    if AheadUpTo(d, ss, kind, instance, ws, k) {
      forall i | 0 <= i < k
        ensures Passes(ws[i].value, 1, ws[i].property)
      {
        assert PropertyAhead(d, ss[i], ss[i + 1], kind, instance, ws[i]);
      }
    }
  }

  lemma ListIff(req: seq<u8>, at: nat, ps: seq<PropertyWrite>, rest: seq<u8>, kind: u16, instance: u32,
                done: seq<Write>, end: seq<Write>, k: nat)
    requires at <= |req| && ps != [] && req[at..] == PropertiesThen(ps, ClosingTag(1) + rest) && k <= |ps|
    requires done <= end && LeadsTo(Properties(Wire(), req, at, kind, instance, done, Accepting()), end)
    ensures done + WritesOf(kind, instance, ps)[..k] <= end <==> Passing(WritesOf(kind, instance, ps), k)
  {
    hide Properties;
    hide LeadsTo;
    hide Passes;
    hide Wire;
    hide PropertiesThen;
    hide AheadIfRead;
    hide PropertyAhead;
    hide AheadUpTo;
    hide Passing;
    var ss, ws := Rests(ps, ClosingTag(1) + rest), WritesOf(kind, instance, ps);
    assert ps[0..] == ps;
    RestsEnd(ps, rest);
    forall i | 0 <= i < |ps|
      ensures AheadIfRead(Wire(), ss[i], ss[i + 1], kind, instance, ws[i])
      ensures PropertyAhead(Wire(), ss[i], ss[i + 1], kind, instance, ws[i]) <==> Passes(ws[i].value, 1, ws[i].property)
    {
      WireAheadIfRead(ps, i, rest, kind, instance);
    }
    InnerIff(Wire(), req, at, ss, kind, instance, ws, done, end, k);
    AheadIsPassing(Wire(), ss, kind, instance, ws, k);
  }

  lemma FrontPasses(ps: seq<PropertyWrite>, rest: seq<u8>, kind: u16, instance: u32)
    requires ps != []
    requires var d := DecodeProperty(WireReader(), PropertiesThen(ps, ClosingTag(1) + rest), kind, instance);
             d.Some? && d.value.0 == WriteOf(kind, instance, ps[0])
    ensures Passes(ps[0].value, 1, ps[0].property)
  {
    hide DecodeProperty;
    hide Passes;
    RestContinues(ps[1..], rest);
    PropertyReadsIff(ps[0], kind, instance, PropertiesThen(ps[1..], ClosingTag(1) + rest));
  }

  lemma {:induction false} AllCarried(wanted: seq<Write>, done: seq<Write>)
    ensures Carried(wanted, done, Accepting()) == (done + wanted, true)
    decreases |wanted|
  {
    if wanted == [] {
      assert done + wanted == done;
    } else {
      AllCarried(wanted[1..], done + [wanted[0]]);
      assert done + [wanted[0]] + wanted[1..] == done + wanted;
    }
  }

  lemma WellFormedRest(os: seq<ObjectWrites>)
    requires os != [] && forall i :: 0 <= i < |os| ==> WellFormed(os[i])
    ensures WellFormed(os[0]) && forall i :: 0 <= i < |os[1..]| ==> WellFormed(os[1..][i])
  {
  }

  lemma PassingIsAllPass(kind: u16, instance: u32, ps: seq<PropertyWrite>)
    ensures Passing(WritesOf(kind, instance, ps), |ps|) <==> AllPass(ps)
  {
    hide Passes;
    var ws := WritesOf(kind, instance, ps);
    assert forall i :: 0 <= i < |ps| ==> ws[i].value == ps[i].value && ws[i].property == ps[i].property;
  }

  /** Behind the first list the rest of the request is looked at alone. */
  lemma PassingSplits(ws: seq<Write>, others: seq<Write>, k: nat)
    requires |ws| <= k <= |ws| + |others|
    ensures Passing(ws + others, k) <==> Passing(ws, |ws|) && Passing(others, k - |ws|)
    ensures (ws + others)[..k] == ws + others[..k - |ws|]
  {
    hide Passes;
    var all := ws + others;
    if Passing(all, k) {
      assert forall i :: 0 <= i < |ws| ==> all[i] == ws[i];
      assert forall i :: 0 <= i < k - |ws| ==> all[i + |ws|] == others[i];
    }
  }

  lemma PassingPrefix(ws: seq<Write>, others: seq<Write>, k: nat)
    requires k <= |ws|
    ensures Passing(ws + others, k) <==> Passing(ws, k)
    ensures (ws + others)[..k] == ws[..k]
  {
    hide Passes;
    assert forall i :: 0 <= i < |ws| ==> (ws + others)[i] == ws[i];
  }

  /** The first object of a request: where its list stands, and that the rest is reached when all of it passes. */
  lemma FirstList(req: seq<u8>, at: nat, os: seq<ObjectWrites>, done: seq<Write>, k: nat)
    requires os != [] && WellFormed(os[0]) && at <= |req| && req[at..] == PrintRequest(os)
    requires k <= |os[0].properties|
    ensures var o, ws := os[0], WritesOf(os[0].kind, os[0].instance, os[0].properties);
            done + ws[..k] <= Objects(Wire(), req, at, done, Accepting()).writes <==> Passing(ws, k)
  {
    hide Wire;
    hide Objects;
    hide Properties;
    hide ContextObjectId;
    hide PropertiesThen;
    hide Passing;
    hide WritesOf;
    var o, rest := os[0], PrintRequest(os[1..]);
    var list := PropertiesThen(o.properties, ClosingTag(1) + rest);
    WireObjectAhead(o.kind, o.instance, list);
    ObjectStep(Wire(), req, at, 5, list, o.kind, o.instance, done, Accepting());
    ObjectsExtend(Wire(), req, at, done, Accepting());
    ListIff(req, at + 6, o.properties, rest, o.kind, o.instance, done,
            Objects(Wire(), req, at, done, Accepting()).writes, k);
  }

  lemma RestIsReached(req: seq<u8>, at: nat, os: seq<ObjectWrites>, done: seq<Write>)
    requires |os| > 1 && WellFormed(os[0]) && AllPass(os[0].properties)
    requires at <= |req| && req[at..] == PrintRequest(os)
    ensures var next := |req| - |PrintRequest(os[1..])|;
            && 0 <= next && req[next..] == PrintRequest(os[1..])
            && Objects(Wire(), req, at, done, Accepting()) ==
               Objects(Wire(), req, next, done + WritesOf(os[0].kind, os[0].instance, os[0].properties), Accepting())
  {
    hide Wire;
    hide Objects;
    hide Carried;
    hide PropertiesAhead;
    hide ContextObjectId;
    hide PropertiesThen;
    hide AllPass;
    hide WritesOf;
    var o, rest := os[0], PrintRequest(os[1..]);
    var ss, ws := Rests(o.properties, ClosingTag(1) + rest), WritesOf(o.kind, o.instance, o.properties);
    assert o.properties[0..] == o.properties;
    WritesLength(o.kind, o.instance, o.properties);
    WireObjectAhead(o.kind, o.instance, ss[0]);
    WireAhead(o.properties, rest, o.kind, o.instance);
    RestsEnd(o.properties, rest);
    OuterStep(Wire(), req, at, 5, ss, rest, o.kind, o.instance, ws, done, Accepting());
    AllCarried(ws, done);
    PrintedNonEmpty(os[1..]);
  }

  lemma WritesLength(kind: u16, instance: u32, ps: seq<PropertyWrite>)
    ensures |WritesOf(kind, instance, ps)| == |ps|
  {
  }

  /** A device that refuses nothing is written the first k writes asked for exactly when their values pass. */
  lemma {:induction false} FirstWritesIff(req: seq<u8>, at: nat, os: seq<ObjectWrites>, done: seq<Write>, k: nat)
    requires os != [] && forall i :: 0 <= i < |os| ==> WellFormed(os[i])
    requires at <= |req| && req[at..] == PrintRequest(os) && k <= |Wanted(os)|
    ensures done + Wanted(os)[..k] <= Objects(Wire(), req, at, done, Accepting()).writes <==> Passing(Wanted(os), k)
    decreases |os|
  {
    hide Objects;
    hide Passing;
    hide AllPass;
    hide WritesOf;
    hide ObjectThen;
    hide Wire;
    var o := os[0];
    var ws, others := WritesOf(o.kind, o.instance, o.properties), Wanted(os[1..]);
    WellFormedRest(os);
    WritesLength(o.kind, o.instance, o.properties);
    if k <= |ws| {
      PassingPrefix(ws, others, k);
      FirstList(req, at, os, done, k);
    } else {
      FirstList(req, at, os, done, |ws|);
      PassingSplits(ws, others, k);
      PassingIsAllPass(o.kind, o.instance, o.properties);
      var end := Objects(Wire(), req, at, done, Accepting()).writes;
      assert ws[..|ws|] == ws;
      Assoc(done, ws, others[..k - |ws|]);
      if Passing(ws, |ws|) {
        RestIsReached(req, at, os, done);
        FirstWritesIff(req, |req| - |PrintRequest(os[1..])|, os[1..], done + ws, k - |ws|);
      }
    }
  }

  // ---------- what the device decides ----------

  /**
   What the reply says: a write error that the last write was refused, and no write before it; and otherwise that
   none was, an acknowledgement or a rejection.
   */
  lemma ReplySays(req: seq<u8>, device: Device)
    ensures var r := Objects(Wire(), req, 0, [], device);
            && (ReplyTo(r) == WriteError <==> r.writes != [] && !device(r.writes))
            && (forall m :: 0 < m < |r.writes| ==> device(r.writes[..m]))
  {
    hide Objects;
    hide Wire;
    RefusalStopsRequest(Wire(), req, 0, [], device);
    var r, s := Objects(Wire(), req, 0, [], Accepting()), Objects(Wire(), req, 0, [], device);
    var n := CarriedFromStart(r.writes, device);
    assert r.writes[0..] == r.writes;
    CutWrites(r, s, device);
    forall m | 0 < m < n
      ensures device(s.writes[..m])
    {
      assert s.writes[..m] == r.writes[..m];
    }
  }

  /** Octets in front of which no object identifier can be read are rejected, and nothing is written. */
  lemma UndecodableRejected(req: seq<u8>, device: Device)
    requires |req| <= 5 || 1 <= req[0] / 16 <= 14
    ensures var r := Objects(Wire(), req, 0, [], device); ReplyTo(r) == Reject && r.writes == []
  {
    assert DecodeObject(req).None?;
    hide DecodeObject;
    assert req[0..] == req;
    NoObject(Wire(), req, device);
  }

  lemma NoObject(d: Decoders, req: seq<u8>, device: Device)
    requires d.objectId(req[0..]).None?
    ensures Objects(d, req, 0, [], device) == Malformed([])
  {
  }

  /** A property that cannot be read is answered by a rejection; what was written before it stays written. */
  lemma UndecodableProperty(req: seq<u8>, at: nat, kind: u16, instance: u32, done: seq<Write>, device: Device)
    requires at <= |req| && DecodeProperty(WireReader(), req[at..], kind, instance).None?
    ensures var r := Properties(Wire(), req, at, kind, instance, done, device);
            ReplyTo(r) == Reject && r.writes == done
  {
    hide DecodeProperty;
  }

  /** With the device s is the outcome r of a device that accepts everything, cut at the first refusal. */
  predicate Cut(r: Outcome, s: Outcome, done: seq<Write>, device: Device) {
    && done <= r.writes && !r.Refused?
    && var (writes, ok) := Carried(r.writes[|done|..], done, device); s == if ok then r else Refused(writes)
  }

  lemma CutNothing(r: Outcome, device: Device)
    requires !r.Refused?
    ensures Cut(r, r, r.writes, device)
  {
    assert r.writes[|r.writes|..] == [];
  }

  lemma CutLater(r: Outcome, s: Outcome, done: seq<Write>, w: Write, device: Device)
    requires if device(done + [w]) then Cut(r, s, done + [w], device) else s == Refused(done + [w])
    requires done + [w] <= r.writes && !r.Refused?
    ensures Cut(r, s, done, device)
  {
    assert r.writes[|done|..][1..] == r.writes[|done| + 1..];
  }

  /** Whatever the octets, the device decides only where the writing of a list stops. */
  lemma {:induction false} RefusalStopsList(d: Decoders, req: seq<u8>, at: nat, kind: u16, instance: u32,
                                            done: seq<Write>, device: Device)
    requires at <= |req|
    ensures Cut(Properties(d, req, at, kind, instance, done, Accepting()),
                Properties(d, req, at, kind, instance, done, device), done, device)
    decreases |req| - at
  {
    var p := d.property(req[at..], kind, instance);
    var r := Properties(d, req, at, kind, instance, done, Accepting());
    if p.None? || !(0 < p.value.1 <= |req| - at) {
      CutNothing(r, device);
    } else {
      var first, next := done + [p.value.0], at + p.value.1;
      if next == |req| || d.closesList(req[next..]) {
        CutNothing(r, device);
      } else {
        RefusalStopsList(d, req, next, kind, instance, first, device);
      }
      PropertiesExtend(d, req, next, kind, instance, first, Accepting());
      hide Cut;
      CutLater(r, Properties(d, req, at, kind, instance, done, device), done, p.value.0, device);
    }
  }

  lemma CarriedWhole(wanted: seq<Write>, done: seq<Write>, device: Device)
    ensures Carried(wanted, done, device).1 ==> Carried(wanted, done, device).0 == done + wanted
  {
    var n := CarriedIsPrefix(wanted, done, device);
    assert wanted[..|wanted|] == wanted;
  }

  lemma RefusalStopsObject(d: Decoders, req: seq<u8>, at: nat, done: seq<Write>, device: Device)
    requires at <= |req|
    ensures Cut(Object(d, req, at, done, Accepting()), Object(d, req, at, done, device), done, device)
  {
    hide Properties;
    hide Cut;
    hide Accepting;
    var o := d.objectId(req[at..]);
    if o.Some? && 0 < o.value.1 < |req| - at && d.opensList(req[at + o.value.1..]) {
      RefusalStopsList(d, req, at + o.value.1 + 1, o.value.0.0, o.value.0.1, done, device);
    } else {
      CutNothing(Object(d, req, at, done, device), device);
    }
  }

  lemma CutJoins(r: Outcome, s: Outcome, r': Outcome, s': Outcome, done: seq<Write>, device: Device)
    requires Cut(r, s, done, device) && (s == r ==> Cut(r', s', r.writes, device)) && (s != r ==> s' == s)
    requires r.writes <= r'.writes && !r'.Refused?
    ensures Cut(r', s', done, device)
  {
    var a, b := r.writes[|done|..], r'.writes[|r.writes|..];
    assert r'.writes[|done|..] == a + b;
    CarriedAppends(a, b, done, device);
    CarriedWhole(a, done, device);
    assert done + a == r.writes;
  }

  /** Nor does it decide anything else about a whole request. */
  lemma {:induction false} RefusalStopsRequest(d: Decoders, req: seq<u8>, at: nat, done: seq<Write>, device: Device)
    requires at <= |req|
    ensures Cut(Objects(d, req, at, done, Accepting()), Objects(d, req, at, done, device), done, device)
    decreases |req| - at
  {
    hide Object;
    hide Carried;
    RefusalStopsObject(d, req, at, done, device);
    var r, s := Object(d, req, at, done, Accepting()), Object(d, req, at, done, device);
    if r.More? && r.at < |req| {
      RefusalStopsRequest(d, req, r.at, r.writes, device);
      var r', s' := Objects(d, req, at, done, Accepting()), Objects(d, req, at, done, device);
      CutJoins(r, s, r', s', done, device);
    }
  }

  lemma CutWrites(r: Outcome, s: Outcome, device: Device)
    requires Cut(r, s, [], device)
    ensures s.writes == Carried(r.writes, [], device).0
  {
    assert r.writes[0..] == r.writes;
    CarriedWhole(r.writes, [], device);
    assert [] + r.writes == r.writes;
  }

  /** Two lists are carried out alike exactly when they agree on what the first one gets carried out. */
  lemma CarriedAlike(a: seq<Write>, b: seq<Write>, device: Device)
    ensures var n := |Carried(a, [], device).0|;
            && n <= |a|
            && (Carried(b, [], device).0 == Carried(a, [], device).0 ==> a[..n] <= b)
            && (a[..n] <= b && (Carried(a, [], device).1 ==> a == b) ==>
                  Carried(b, [], device) == Carried(a, [], device))
  {
    var m := CarriedFromStart(a, device);
    var k := CarriedFromStart(b, device);
    if a[..m] <= b {
      assert forall j :: 0 <= j <= m ==> b[..j] == a[..j];
    }
  }

  lemma SoundCons(os: seq<ObjectWrites>)
    requires os != []
    ensures Sound(os) <==> AllPass(os[0].properties) && Sound(os[1..])
  {
    hide AllPass;
    assert os == [os[0]] + os[1..];
  }

  lemma {:induction false} SoundIsPassing(os: seq<ObjectWrites>)
    ensures Sound(os) <==> Passing(Wanted(os), |Wanted(os)|)
    decreases |os|
  {
    if os != [] {
      SoundCons(os);
      hide Sound;
      hide Passing;
      hide AllPass;
      hide WritesOf;
      var o := os[0];
      var ws, others := WritesOf(o.kind, o.instance, o.properties), Wanted(os[1..]);
      SoundIsPassing(os[1..]);
      WritesLength(o.kind, o.instance, o.properties);
      PassingIsAllPass(o.kind, o.instance, o.properties);
      PassingSplits(ws, others, |ws| + |others|);
    }
  }

  /**
   For any device: what is written is what the request asks for, up to and including the first refusal, exactly when
   the values of those writes pass; values behind the refusal do not matter.
   */
  lemma WrittenIffPassing(os: seq<ObjectWrites>, device: Device)
    requires os != [] && forall i :: 0 <= i < |os| ==> WellFormed(os[i])
    ensures var asked := Carried(Wanted(os), [], device).0;
            |asked| <= |Wanted(os)| &&
            (Objects(Wire(), PrintRequest(os), 0, [], device).writes == asked <==> Passing(Wanted(os), |asked|))
  {
    hide Objects;
    hide Carried;
    hide Cut;
    hide Passing;
    hide Wire;
    hide ObjectThen;
    hide WritesOf;
    hide AllPass;
    var req, wanted := PrintRequest(os), Wanted(os);
    var made := Objects(Wire(), req, 0, [], Accepting()).writes;
    var n := |Carried(wanted, [], device).0|;
    assert req[0..] == req;
    RefusalStopsRequest(Wire(), req, 0, [], device);
    CutWrites(Objects(Wire(), req, 0, [], Accepting()), Objects(Wire(), req, 0, [], device), device);
    CarriedAlike(wanted, made, device);
    FirstWritesIff(req, 0, os, [], n);
    assert [] + wanted[..n] == wanted[..n];
    if Carried(wanted, [], device).1 {
      var m := CarriedFromStart(wanted, device);
      SoundIsPassing(os);
      if Passing(wanted, n) {
        RequestIsCarried(req, 0, os, [], Accepting());
        AllAsked(wanted);
      }
    }
  }

  lemma AllAsked(wanted: seq<Write>)
    ensures Carried(wanted, [], Accepting()) == (wanted, true)
  {
    AllCarried(wanted, []);
    assert [] + wanted == wanted;
  }

  /** A device that refuses nothing is written what the request asks for exactly when all its values pass. */
  lemma WrittenIffAllPass(os: seq<ObjectWrites>)
    requires os != [] && forall i :: 0 <= i < |os| ==> WellFormed(os[i])
    ensures Objects(Wire(), PrintRequest(os), 0, [], Accepting()).writes == Wanted(os) <==> Sound(os)
  {
    hide *;
    AllAsked(Wanted(os));
    SoundIsPassing(os);
    WrittenIffPassing(os, Accepting());
  }

  // ---------- an example, octet by octet ----------

  /** Analog output 1, present value, real number 25. */
  function ExampleOctets(): seq<u8> {
    [0x0C, 0x00, 0x40, 0x00, 0x01, 0x1E, 0x09, 0x55, 0x2E, 0x44, 0x41, 0xC8, 0x00, 0x00, 0x2F, 0x1F]
  }

  function ExampleWrites(): ObjectWrites {
    ObjectWrites(1, 1, [PropertyWrite(85, None, [0x44, 0x41, 0xC8, 0x00, 0x00], None)])
  }

  lemma ExamplePropertyPrints(end: seq<u8>)
    requires end == [0x1F]
    ensures PropertyThen(ExampleWrites().properties[0], end) ==
            [0x09, 0x55, 0x2E, 0x44, 0x41, 0xC8, 0x00, 0x00, 0x2F, 0x1F]
  {
    assert ContextUnsigned(0, 85) == [0x09, 0x55] && OpeningTag(2) == [0x2E] && ClosingTag(2) == [0x2F];
  }

  lemma ExamplePrints()
    ensures PrintRequest([ExampleWrites()]) == ExampleOctets()
  {
    var o, end := ExampleWrites(), ClosingTag(1) + PrintRequest([]);
    assert [o][1..] == [] && o.properties[1..] == [] && end == [0x1F];
    ExamplePropertyPrints(end);
    hide PropertyThen;
    assert PropertiesThen(o.properties, end) == PropertyThen(o.properties[0], end);
    assert ContextObjectId(0, 1, 1) == [0x0C, 0x00, 0x40, 0x00, 0x01] && OpeningTag(1) == [0x1E];
  }

  /** Array element 3 of the present value, at priority 8. */
  lemma PropertyInOctets(v: seq<u8>, post: seq<u8>)
    ensures PropertyThen(PropertyWrite(85, Some(3), v, Some(8)), post) ==
            [0x09, 0x55, 0x19, 0x03, 0x2E] + v + [0x2F, 0x39, 0x08] + post
  {
    assert ContextUnsigned(0, 85) == [0x09, 0x55] && ContextUnsigned(1, 3) == [0x19, 0x03];
    assert OpeningTag(2) == [0x2E] && ClosingTag(2) == [0x2F] && ContextUnsigned(3, 8) == [0x39, 0x08];
  }

  lemma ExampleIsSound()
    ensures WellFormed(ExampleWrites()) && Sound([ExampleWrites()])
    ensures Wanted([ExampleWrites()]) == [Write(1, 1, 85, 0xFFFF_FFFF, [0x44, 0x41, 0xC8, 0x00, 0x00], 16)]
  {
    var o := ExampleWrites();
    var v := o.properties[0].value;
    assert DecodeHeader(v) == Some(Header(4, false, 4, 4, 1)) && v[5..] == [];
    assert Passes(v, 1, 85);
    assert [o][1..] == [];
    assert WritesOf(1, 1, o.properties) == [WriteOf(1, 1, o.properties[0])];
  }

  /** It is written with the default index and priority, and the reply is up to the device. */
  lemma ExampleIsWritten(device: Device)
    ensures var w := Write(1, 1, 85, 0xFFFF_FFFF, [0x44, 0x41, 0xC8, 0x00, 0x00], 16);
            var r := Objects(Wire(), ExampleOctets(), 0, [], device);
            r.writes == [w] && ReplyTo(r) == if device([w]) then SimpleAck else WriteError
  {
    ExamplePrints();
    ExampleIsSound();
    var w := Write(1, 1, 85, 0xFFFF_FFFF, [0x44, 0x41, 0xC8, 0x00, 0x00], 16);
    assert [] + [w] == [w];
    assert Carried([w], [], device) == ([w], device([w])) by { CarriedOne(w, device); }
    hide ExampleWrites;
    hide ExampleOctets;
    hide Objects;
    hide Wanted;
    hide PrintRequest;
    hide Sound;
    hide WellFormed;
    assert ExampleOctets()[0..] == ExampleOctets();
    RequestIsCarried(ExampleOctets(), 0, [ExampleWrites()], [], device);
  }

  lemma CarriedOne(w: Write, device: Device)
    ensures Carried([w], [], device) == ([w], device([w]))
  {
    assert [] + [w] == [w] && [w][1..] == [];
  }
}
