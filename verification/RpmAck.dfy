/**
 The ReadPropertyMultiple acknowledgement read back: the parser inverts the grammar of clause 15.7 of
 ASHRAE 135, over any self-delimiting value codec and over the application tags of the stack in particular.
 */
module RpmAck {
  import opened Octets
  import opened Chains
  import opened Tags
  import opened Rpm

  // ---------- the grammar ----------

  datatype Answer = Data(values: seq<Value>) | Fault(errorClass: u32, errorCode: u32)
  datatype Written = Written(property: u32, index: Option<u32>, answer: Answer)
  datatype WrittenObject = WrittenObject(kind: u16, instance: u32, properties: seq<Written>)

  type Encoder = Value -> seq<u8>

  function ValuesThen(encode: Encoder, vs: seq<Value>, post: seq<u8>): seq<u8> {
    if vs == [] then post else encode(vs[0]) + ValuesThen(encode, vs[1..], post)
  }

  function AnswerThen(encode: Encoder, a: Answer, post: seq<u8>): seq<u8> {
    match a
    case Data(vs) => OpeningTag(4) + ValuesThen(encode, vs, ClosingTag(4) + post)
    case Fault(errorClass, errorCode) =>
      OpeningTag(5) + (ApplicationEnumerated(errorClass) + (ApplicationEnumerated(errorCode) + (ClosingTag(5) + post)))
  }

  function PropertyThen(encode: Encoder, w: Written, post: seq<u8>): seq<u8> {
    ContextUnsigned(2, w.property) + (OptionalUnsigned(3, w.index) + AnswerThen(encode, w.answer, post))
  }

  function PropertiesThen(encode: Encoder, ws: seq<Written>, post: seq<u8>): seq<u8> {
    if ws == [] then post else PropertyThen(encode, ws[0], PropertiesThen(encode, ws[1..], post))
  }

  function ObjectThen(encode: Encoder, o: WrittenObject, post: seq<u8>): seq<u8> {
    ContextObjectId(0, o.kind, o.instance) +
    (OpeningTag(1) + PropertiesThen(encode, o.properties, ClosingTag(1) + post))
  }

  function Print(encode: Encoder, os: seq<WrittenObject>): seq<u8> {
    if os == [] then [] else ObjectThen(encode, os[0], Print(encode, os[1..]))
  }

  // ---------- what it means ----------

  /** A list without values is read as one empty value. */
  function ValuesOf(a: Answer): seq<Value> {
    if a.Fault? then [] else if a.values == [] then [Empty] else a.values
  }

  function Meaning(w: Written): PropertyResult {
    PropertyResult(w.property, if w.index.Some? then w.index.value else ARRAY_ALL, ValuesOf(w.answer),
                   if w.answer.Fault? then w.answer.errorClass else 0,
                   if w.answer.Fault? then w.answer.errorCode else 0)
  }

  function Meanings(ws: seq<Written>): seq<PropertyResult> {
    seq(|ws|, i requires 0 <= i < |ws| => Meaning(ws[i]))
  }

  function ObjectMeaning(o: WrittenObject): ObjectResult {
    ObjectResult(o.kind, o.instance, Meanings(o.properties))
  }

  function ObjectMeanings(os: seq<WrittenObject>): seq<ObjectResult> {
    seq(|os|, i requires 0 <= i < |os| => ObjectMeaning(os[i]))
  }

  // ---------- the values of a property ----------

  /** The octets e decode to v and delimit themselves, and are not mistaken for the end of the list. */
  ghost predicate SelfDelimiting(d: Decoders, e: seq<u8>, v: Value, property: u32) {
    e != [] && forall rest :: ValueAt(d, e + rest, property) == (v, |e|) && !d.closes(e + rest, 4)
  }

  ghost predicate AllDelimited(d: Decoders, encode: Encoder, vs: seq<Value>, property: u32) {
    forall i :: 0 <= i < |vs| ==> SelfDelimiting(d, encode(vs[i]), vs[i], property)
  }

  lemma ValueRead(d: Decoders, e: seq<u8>, v: Value, property: u32, rest: seq<u8>, done: seq<Value>)
    requires InBounds(d) && SelfDelimiting(d, e, v, property)
    ensures !Closes(d, e + rest, 4)
    ensures Values(d, e + rest, property, done) ==
            if Closes(d, rest, 4) then Read(done + [v], rest[1..]) else Values(d, rest, property, done + [v])
  {
    assert ValueAt(d, e + rest, property) == (v, |e|);
    Drops(e, rest);
  }

  lemma {:induction false} ValuesRead(d: Decoders, encode: Encoder, vs: seq<Value>, property: u32, end: seq<u8>,
                                      done: seq<Value>)
    requires InBounds(d) && vs != [] && AllDelimited(d, encode, vs, property) && Closes(d, end, 4)
    ensures !Closes(d, ValuesThen(encode, vs, end), 4)
    ensures Values(d, ValuesThen(encode, vs, end), property, done) == Read(done + vs, end[1..])
    decreases |vs|
  {
    hide InBounds;
    hide SelfDelimiting;
    hide Values;
    hide Closes;
    ValueRead(d, encode(vs[0]), vs[0], property, ValuesThen(encode, vs[1..], end), done);
    if |vs| == 1 {
      assert vs == [vs[0]];
    } else {
      assert forall i :: 0 <= i < |vs| - 1 ==> vs[1..][i] == vs[i + 1];
      ValuesRead(d, encode, vs[1..], property, end, done + [vs[0]]);
      assert done + [vs[0]] + vs[1..] == done + vs;
    }
  }

  // ---------- one property ----------

  ghost predicate OneOctet(e: seq<u8>, number: u8, test: (seq<u8>, u8) -> bool) {
    |e| == 1 && forall rest :: test(e + rest, number)
  }

  ghost predicate ReadsEnumerated(d: Decoders, e: seq<u8>, v: u32) {
    forall rest ::
      var (n, a) := d.tag(e + rest);
      && a <= |e| && var (x, b) := d.enumerated((e + rest)[a..], n); x == v && a + b == |e|
  }

  /** How the decoders take the brackets of an answer. */
  ghost predicate Brackets(d: Decoders) {
    && OneOctet(OpeningTag(4), 4, d.opens) && OneOctet(ClosingTag(4), 4, d.closes)
    && OneOctet(OpeningTag(5), 5, d.opens) && OneOctet(ClosingTag(5), 5, d.closes)
    && (forall rest :: !d.opens(OpeningTag(5) + rest, 4))
    && (forall rest, property :: ValueAt(d, ClosingTag(4) + rest, property) == (Empty, 0))
  }

  ghost predicate ReadsAnswer(d: Decoders, encode: Encoder, w: Written) {
    match w.answer
    case Data(vs) => AllDelimited(d, encode, vs, w.property)
    case Fault(errorClass, errorCode) =>
      && ReadsEnumerated(d, ApplicationEnumerated(errorClass), errorClass)
      && ReadsEnumerated(d, ApplicationEnumerated(errorCode), errorCode)
  }

  lemma FaultReads(d: Decoders, a: seq<u8>, b: seq<u8>, close: seq<u8>, post: seq<u8>, errorClass: u32, errorCode: u32)
    requires InBounds(d) && ReadsEnumerated(d, a, errorClass) && ReadsEnumerated(d, b, errorCode)
    requires OneOctet(close, 5, d.closes)
    ensures ErrorAt(d, a + (b + (close + post))) == (errorClass, errorCode, post)
  {
    var s, t, u := a + (b + (close + post)), b + (close + post), close + post;
    var (n, i) := d.tag(s);
    var (m, j) := d.tag(t);
    assert s[i..][|a| - i..] == s[|a|..];
    assert t[j..][|b| - j..] == t[|b|..];
    Drops(a, t);
    Drops(b, u);
    Drops(close, post);
  }

  lemma DataReads(d: Decoders, encode: Encoder, vs: seq<Value>, property: u32, index: u32, post: seq<u8>)
    requires InBounds(d) && Brackets(d) && AllDelimited(d, encode, vs, property)
    ensures Body(d, AnswerThen(encode, Data(vs), post), property, index) ==
            Read(PropertyResult(property, index, ValuesOf(Data(vs)), 0, 0), post)
  {
    hide SelfDelimiting;
    var end := ClosingTag(4) + post;
    Drops(OpeningTag(4), ValuesThen(encode, vs, end));
    Drops(ClosingTag(4), post);
    if vs != [] {
      ValuesRead(d, encode, vs, property, end, []);
      assert [] + vs == vs;
    } else {
      assert ValueAt(d, end, property) == (Empty, 0);
      assert end[0..] == end && [] + [Empty] == [Empty];
    }
  }

  lemma BodyReads(d: Decoders, encode: Encoder, w: Written, index: u32, post: seq<u8>)
    requires InBounds(d) && Brackets(d) && ReadsAnswer(d, encode, w)
    requires index == if w.index.Some? then w.index.value else ARRAY_ALL
    ensures Body(d, AnswerThen(encode, w.answer, post), w.property, index) == Read(Meaning(w), post)
  {
    hide InBounds;
    match w.answer
    case Data(vs) =>
      DataReads(d, encode, vs, w.property, index, post);
    case Fault(errorClass, errorCode) =>
      var e, f := ApplicationEnumerated(errorClass), ApplicationEnumerated(errorCode);
      Drops(OpeningTag(5), e + (f + (ClosingTag(5) + post)));
      FaultReads(d, e, f, ClosingTag(5), post, errorClass, errorCode);
  }

  // ---------- the lists of properties and of objects ----------

  ghost predicate ReadsIdentifier(d: Decoders, encode: Encoder, w: Written) {
    forall post ::
      d.property(PropertyThen(encode, w, post)) ==
      Some(((w.property, if w.index.Some? then w.index.value else ARRAY_ALL),
            |ContextUnsigned(2, w.property)| + |OptionalUnsigned(3, w.index)|))
  }

  ghost predicate AllRead(d: Decoders, encode: Encoder, ws: seq<Written>) {
    forall i :: 0 <= i < |ws| ==> ReadsIdentifier(d, encode, ws[i]) && ReadsAnswer(d, encode, ws[i])
  }

  lemma DropsTwo(a: seq<u8>, b: seq<u8>, post: seq<u8>)
    ensures (a + (b + post))[|a| + |b|..] == post
  {
  }

  lemma PropertyReads(d: Decoders, encode: Encoder, w: Written, post: seq<u8>)
    requires InBounds(d) && Brackets(d) && ReadsIdentifier(d, encode, w) && ReadsAnswer(d, encode, w)
    ensures PropertyThen(encode, w, post) != []
    ensures Property(d, PropertyThen(encode, w, post)) == Some(Read(Meaning(w), post))
  {
    hide Body;
    hide Brackets;
    hide ReadsAnswer;
    hide AnswerThen;
    hide ContextUnsigned;
    hide OptionalUnsigned;
    var index := if w.index.Some? then w.index.value else ARRAY_ALL;
    DropsTwo(ContextUnsigned(2, w.property), OptionalUnsigned(3, w.index), AnswerThen(encode, w.answer, post));
    assert d.property(PropertyThen(encode, w, post)).Some?;
    BodyReads(d, encode, w, index, post);
  }

  lemma PropertiesTurn(d: Decoders, bs: seq<u8>, p: PropertyResult, rest: seq<u8>, done: seq<PropertyResult>)
    requires InBounds(d) && bs != [] && Property(d, bs) == Some(Read(p, rest))
    ensures Properties(d, bs, done) == Properties(d, rest, done + [p])
  {
    hide Property;
  }

  lemma PropertiesEnd(d: Decoders, bs: seq<u8>, done: seq<PropertyResult>)
    requires InBounds(d) && bs != [] && d.property(bs).None?
    ensures Properties(d, bs, done) == Read(done, bs)
  {
    hide Body;
  }

  lemma MeaningsCons(ws: seq<Written>, done: seq<PropertyResult>)
    requires ws != []
    ensures done + Meanings(ws) == done + [Meaning(ws[0])] + Meanings(ws[1..])
  {
    hide Meaning;
  }

  lemma {:induction false} PropertiesRead(d: Decoders, encode: Encoder, ws: seq<Written>, end: seq<u8>,
                                          done: seq<PropertyResult>)
    requires InBounds(d) && Brackets(d) && AllRead(d, encode, ws)
    requires end != [] && d.property(end).None?
    ensures Properties(d, PropertiesThen(encode, ws, end), done) == Read(done + Meanings(ws), end)
    decreases |ws|
  {
    hide Properties;
    hide Property;
    hide InBounds;
    hide Brackets;
    hide ReadsIdentifier;
    hide ReadsAnswer;
    hide Meaning;
    hide PropertyThen;
    if ws == [] {
      PropertiesEnd(d, end, done);
      assert done + Meanings(ws) == done;
    } else {
      var post := PropertiesThen(encode, ws[1..], end);
      PropertyReads(d, encode, ws[0], post);
      PropertiesTurn(d, PropertyThen(encode, ws[0], post), Meaning(ws[0]), post, done);
      assert forall i :: 0 <= i < |ws| - 1 ==> ws[1..][i] == ws[i + 1];
      PropertiesRead(d, encode, ws[1..], end, done + [Meaning(ws[0])]);
      MeaningsCons(ws, done);
    }
  }

  ghost predicate ReadsObject(d: Decoders, encode: Encoder, o: WrittenObject) {
    && (forall list ::
          d.objectId(ContextObjectId(0, o.kind, o.instance) + (OpeningTag(1) + list)) ==
          Some(((o.kind, o.instance), 6)))
    && |ContextObjectId(0, o.kind, o.instance)| == 5
    && AllRead(d, encode, o.properties)
  }

  /** How the decoders take the end of a list of properties. */
  ghost predicate ListEnds(d: Decoders) {
    OneOctet(ClosingTag(1), 1, d.closes) && forall post :: d.property(ClosingTag(1) + post).None?
  }

  lemma ObjectTurn(d: Decoders, id: seq<u8>, kind: u16, instance: u32, list: seq<u8>,
                   ps: seq<PropertyResult>, end: seq<u8>)
    requires InBounds(d) && d.objectId(id + list) == Some(((kind, instance), |id|))
    requires Properties(d, list, []) == Read(ps, end) && Closes(d, end, 1)
    ensures Object(d, id + list) == Some(Read(ObjectResult(kind, instance, ps), end[1..]))
  {
    hide Properties;
    Drops(id, list);
  }

  lemma ObjectReads(d: Decoders, encode: Encoder, o: WrittenObject, post: seq<u8>)
    requires InBounds(d) && Brackets(d) && ListEnds(d) && ReadsObject(d, encode, o)
    ensures ObjectThen(encode, o, post) != []
    ensures Object(d, ObjectThen(encode, o, post)) == Some(Read(ObjectMeaning(o), post))
  {
    hide InBounds;
    hide Brackets;
    hide AllRead;
    hide Object;
    hide Properties;
    hide PropertiesThen;
    hide ContextObjectId;
    var end := ClosingTag(1) + post;
    var list := PropertiesThen(encode, o.properties, end);
    var id := ContextObjectId(0, o.kind, o.instance);
    assert d.objectId(id + (OpeningTag(1) + list)) == Some(((o.kind, o.instance), 6));
    Assoc(id, OpeningTag(1), list);
    Drops(ClosingTag(1), post);
    assert d.property(end).None? && d.closes(end, 1);
    PropertiesRead(d, encode, o.properties, end, []);
    assert [] + Meanings(o.properties) == Meanings(o.properties);
    ObjectTurn(d, id + OpeningTag(1), o.kind, o.instance, list, Meanings(o.properties), end);
  }

  lemma ObjectsTake(d: Decoders, bs: seq<u8>, o: ObjectResult, rest: seq<u8>, done: seq<ObjectResult>)
    requires InBounds(d) && bs != [] && Object(d, bs) == Some(Read(o, rest))
    ensures Objects(d, bs, done) == if rest == [] then Read(done + [o], []) else Objects(d, rest, done + [o])
  {
    hide Object;
  }

  lemma ObjectMeaningsCons(os: seq<WrittenObject>, done: seq<ObjectResult>)
    requires os != []
    ensures done + ObjectMeanings(os) == done + [ObjectMeaning(os[0])] + ObjectMeanings(os[1..])
  {
    hide ObjectMeaning;
  }

  /** The parser inverts the printer, over any decoders that read the parts right. */
  lemma {:induction false} ObjectsRead(d: Decoders, encode: Encoder, os: seq<WrittenObject>, done: seq<ObjectResult>)
    requires InBounds(d) && Brackets(d) && ListEnds(d)
    requires os != [] && forall i :: 0 <= i < |os| ==> ReadsObject(d, encode, os[i])
    ensures Print(encode, os) != []
    ensures Objects(d, Print(encode, os), done) == Read(done + ObjectMeanings(os), [])
    decreases |os|
  {
    hide InBounds;
    hide Objects;
    hide Object;
    hide ObjectThen;
    hide Brackets;
    hide ListEnds;
    hide ObjectMeaning;
    hide ReadsObject;
    var post := Print(encode, os[1..]);
    ObjectReads(d, encode, os[0], post);
    ObjectsTake(d, Print(encode, os), ObjectMeaning(os[0]), post, done);
    ObjectMeaningsCons(os, done);
    if |os| == 1 {
      assert done + [ObjectMeaning(os[0])] + ObjectMeanings(os[1..]) == done + [ObjectMeaning(os[0])];
    } else {
      assert forall i :: 0 <= i < |os| - 1 ==> os[1..][i] == os[i + 1];
      ObjectsRead(d, encode, os[1..], done + [ObjectMeaning(os[0])]);
    }
  }

  // ---------- how much memory it takes ----------

  /** The octets of an object's own list, and the nodes they call for. */
  lemma OwnList(d: Decoders, encode: Encoder, o: WrittenObject, post: seq<u8>)
    requires InBounds(d) && Brackets(d) && ListEnds(d) && ReadsObject(d, encode, o)
    ensures var s := ObjectThen(encode, o, post);
            && d.objectId(s).Some?
            && PropertiesPeak(d, s[d.objectId(s).value.1..]) == Some(Nodes(Meanings(o.properties)) + 1)
  {
    hide InBounds;
    hide Brackets;
    hide AllRead;
    hide Properties;
    hide PropertiesPeak;
    hide Nodes;
    hide PropertiesThen;
    hide ContextObjectId;
    var end := ClosingTag(1) + post;
    var list := PropertiesThen(encode, o.properties, end);
    var id := ContextObjectId(0, o.kind, o.instance);
    assert d.objectId(id + (OpeningTag(1) + list)) == Some(((o.kind, o.instance), 6));
    Assoc(id, OpeningTag(1), list);
    Drops(id + OpeningTag(1), list);
    assert d.property(end).None?;
    PropertiesRead(d, encode, o.properties, end, []);
    assert [] + Meanings(o.properties) == Meanings(o.properties);
    PeakOfProperties(d, list, []);
    PendingStarts(d, list);
  }

  lemma {:induction false} PrintedPeak(d: Decoders, encode: Encoder, os: seq<WrittenObject>, apdu: seq<u8>,
                                       done: seq<ObjectResult>)
    requires InBounds(d) && Brackets(d) && ListEnds(d)
    requires os != [] && forall i :: 0 <= i < |os| ==> ReadsObject(d, encode, os[i])
    requires ObjectsPending(d, apdu, Print(encode, os), done)
    ensures ObjectsPeak(d, apdu) == Some(AllNodes(done + ObjectMeanings(os)))
    decreases |os|
  {
    hide InBounds;
    hide Object;
    hide ObjectThen;
    hide Brackets;
    hide ListEnds;
    hide ObjectsPending;
    hide ObjectsPeak;
    hide PropertiesPeak;
    hide ReadsObject;
    hide AllNodes;
    hide Nodes;
    var post := Print(encode, os[1..]);
    ObjectReads(d, encode, os[0], post);
    OwnList(d, encode, os[0], post);
    ObjectsTurn(d, apdu, Print(encode, os), done);
    AllNodesSnoc(done, ObjectMeaning(os[0]));
    ObjectMeaningsCons(os, done);
    if |os| == 1 {
      assert done + [ObjectMeaning(os[0])] + ObjectMeanings(os[1..]) == done + [ObjectMeaning(os[0])];
    } else {
      assert forall i :: 0 <= i < |os| - 1 ==> os[1..][i] == os[i + 1];
      ObjectReads(d, encode, os[1], Print(encode, os[1..][1..]));
      PrintedPeak(d, encode, os[1..], apdu, done + [ObjectMeaning(os[0])]);
    }
  }

  // ---------- the decoders of the stack ----------

  const MAX_OCTET_STRING: nat := 474
  const MAX_CHARACTER_STRING: nat := 474
  const MAX_BIT_STRING: nat := 16

  /** decode_tag_number. */
  function TagNumber(bs: seq<u8>): Option<u8> {
    if bs == [] then None
    else if bs[0] / 16 < 15 then Some(bs[0] / 16)
    else if |bs| < 2 then None else Some(bs[1])
  }

  /** rpm_ack_decode_object_id: a tag of one octet, four octets of identifier, the opening tag 1. */
  function ObjectIdAt(bs: seq<u8>): (r: Option<((u16, u32), nat)>)
    ensures r.Some? ==> r.value.1 == 6 <= |bs|
  {
    if |bs| < 6 || !IsContext(bs[0]) || TagNumber(bs) != Some(0) || !OpensAt(bs[5..], 1) then None
    else Some((DecodeObjectId(bs[1..]), 6))
  }

  /** rpm_ack_decode_object_property. */
  function PropertyAt(bs: seq<u8>): (r: Option<((u32, u32), nat)>)
    ensures r.Some? ==> 0 < r.value.1 <= |bs|
  {
    var h := DecodeHeader(bs);
    if h.None? || !IsContext(bs[0]) || h.value.number != 2 || h.value.len + h.value.value > |bs| then None
    else
      var len := h.value.len + h.value.value;
      var id := DecodeUnsigned(bs[h.value.len..], h.value.value);
      match IndexAt(bs[len..])
      case None => None
      case Some((index, n)) => Some(((id, index), len + n))
  }

  /** The optional array index behind the property identifier. */
  function IndexAt(bs: seq<u8>): (r: Option<(u32, nat)>)
    ensures r.Some? ==> r.value.1 <= |bs|
  {
    if bs == [] || !IsContext(bs[0]) || bs[0] % 8 == 7 then Some((ARRAY_ALL, 0))
    else
      var h := DecodeHeader(bs);
      if h.None? then None
      else if h.value.number != 3 then Some((ARRAY_ALL, 0))
      else if h.value.len + h.value.value > |bs| then None
      else Some((DecodeUnsigned(bs[h.value.len..], h.value.value), h.value.len + h.value.value))
  }

  function TagAt(bs: seq<u8>): (r: (u32, nat))
    ensures r.1 <= |bs|
  {
    var h := DecodeHeader(bs);
    if h.None? then (0, 0) else (h.value.value, h.value.len)
  }

  function EnumeratedAt(bs: seq<u8>, len: u32): (r: (u32, nat))
    ensures r.1 <= |bs|
  {
    if len <= |bs| then (DecodeUnsigned(bs, len), len) else (0, |bs|)
  }

  /** Lengths that the primitive decoders of an application tag accept. */
  predicate Accepts(tag: u8, len: nat) {
    || (tag in {2, 3, 4, 5, 9, 10, 11} && len > 0)
    || (tag == 6 && len <= MAX_OCTET_STRING)
    || (tag == 7 && 0 < len <= MAX_CHARACTER_STRING)
    || (tag == 8 && 0 < len <= MAX_BIT_STRING)
    || (tag == 12 && len == 4)
  }

  /** bacapp_decode_application_data, as to which octets make up the value. */
  function ApplicationAt(bs: seq<u8>): (r: (Value, int))
    ensures r.1 <= |bs|
  {
    var h := DecodeHeader(bs);
    if h.None? then (Blank, -1)
    else if h.value.number == 0 then (Datum(0, []), h.value.len)
    else if h.value.number == 1 then (Datum(1, [if h.value.value != 0 then 1 else 0]), h.value.len)
    else if Accepts(h.value.number, h.value.value) then
      var end := h.value.len + h.value.value;
      if end > |bs| then (Blank, -1) else (Datum(h.value.number, bs[h.value.len..end]), end)
    else if h.value.number == 6 then (Datum(6, []), h.value.len)
    else (Blank, -1)
  }

  /** bacapp_decode_context_data: a closing tag is not stepped over; any other value is decoded by inner. */
  function ContextAt(inner: (seq<u8>, u32) -> (Value, int)): (seq<u8>, u32) -> (Value, int) {
    (bs: seq<u8>, property: u32) =>
      if bs != [] && bs[0] % 8 == 7 && bs[0] / 16 < 15 then (Empty, 0) else inner(bs, property)
  }

  /** The decoders of the stack, but for the contents of context-tagged values. */
  function Stack(inner: (seq<u8>, u32) -> (Value, int)): Decoders {
    Decoders(ObjectIdAt, PropertyAt, OpensAt, ClosesAt, TagAt, EnumeratedAt, ContextAt(inner), ApplicationAt)
  }

  /**
   Where the first object identifier does not decode: no context tag 0 in front, no opening tag 1 behind it, or
   too few octets. A single octet 0 will do.
   */
  lemma IdentifierFails(inner: (seq<u8>, u32) -> (Value, int), bs: seq<u8>)
    ensures Stack(inner).objectId(bs).None? <==>
            |bs| < 6 || bs[0] / 8 % 2 == 0 || (bs[0] / 16 != 0 && (bs[0] / 16 != 15 || bs[1] != 0)) ||
            !OpensAt(bs[5..], 1)
    ensures Stack(inner).objectId([0x00]).None?
  {
  }

  lemma StackInBounds(inner: (seq<u8>, u32) -> (Value, int))
    requires forall bs, property :: inner(bs, property).1 <= |bs|
    ensures InBounds(Stack(inner))
  {
    hide ObjectIdAt;
    hide PropertyAt;
    hide TagAt;
    hide EnumeratedAt;
    hide ApplicationAt;
  }

  lemma StackBrackets(inner: (seq<u8>, u32) -> (Value, int))
    ensures Brackets(Stack(inner))
  {
    hide ObjectIdAt;
    hide PropertyAt;
    hide ApplicationAt;
    forall rest, property
      ensures ValueAt(Stack(inner), ClosingTag(4) + rest, property) == (Empty, 0)
    {
      assert (ClosingTag(4) + rest)[0] == ClosingTag(4)[0];
    }
  }

  lemma StackListEnds(inner: (seq<u8>, u32) -> (Value, int))
    ensures ListEnds(Stack(inner))
  {
    forall post
      ensures PropertyAt(ClosingTag(1) + post).None?
    {
      ClosingRoundTrip(1, post);
    }
  }

  lemma StackReadsEnumerated(inner: (seq<u8>, u32) -> (Value, int), v: u32)
    ensures ReadsEnumerated(Stack(inner), ApplicationEnumerated(v), v)
  {
    var o, e := EncodeUnsigned(v), ApplicationEnumerated(v);
    forall rest
      ensures var (n, a) := TagAt(e + rest);
              && a <= |e| && var (x, b) := EnumeratedAt((e + rest)[a..], n); x == v && a + b == |e|
    {
      TagRoundTrip(TAG_ENUMERATED, false, |o|, o + rest);
      Assoc(EncodeTag(TAG_ENUMERATED, false, |o|), o, rest);
      Drops(EncodeTag(TAG_ENUMERATED, false, |o|), o + rest);
      UnsignedRoundTrip(v, rest);
    }
  }

  /** A context-tagged unsigned value read by its header. */
  lemma UnsignedReads(number: u8, v: u32, rest: seq<u8>)
    requires number < 15
    ensures var e := ContextUnsigned(number, v);
            var h := DecodeHeader(e + rest);
            && h.Some? && h.value.number == number && IsContext((e + rest)[0]) && (e + rest)[0] % 8 < 6
            && h.value.len + h.value.value == |e|
            && DecodeUnsigned((e + rest)[h.value.len..], h.value.value) == v
  {
    var o, tag := EncodeUnsigned(v), EncodeTag(number, true, |EncodeUnsigned(v)|);
    TagRoundTrip(number, true, |o|, o + rest);
    Assoc(tag, o, rest);
    Drops(tag, o + rest);
    assert (tag + (o + rest))[0] == FirstOctet(number, true, |o|);
    UnsignedRoundTrip(v, rest);
  }

  lemma IndexReads(index: Option<u32>, tail: seq<u8>)
    requires tail != [] && tail[0] % 8 == 6 && tail[0] / 16 in {4, 5}
    ensures IndexAt(OptionalUnsigned(3, index) + tail) ==
            Some((if index.Some? then index.value else ARRAY_ALL, |OptionalUnsigned(3, index)|))
  {
    if index.Some? {
      UnsignedReads(3, index.value, tail);
    } else {
      assert OptionalUnsigned(3, index) + tail == tail;
    }
  }

  lemma AnswerOpens(encode: Encoder, a: Answer, post: seq<u8>)
    ensures var s := AnswerThen(encode, a, post); s != [] && s[0] % 8 == 6 && s[0] / 16 in {4, 5}
  {
  }

  lemma PropertyAtParts(id: u32, index: Option<u32>, tail: seq<u8>)
    requires tail != [] && tail[0] % 8 == 6 && tail[0] / 16 in {4, 5}
    ensures PropertyAt(ContextUnsigned(2, id) + (OptionalUnsigned(3, index) + tail)) ==
            Some(((id, if index.Some? then index.value else ARRAY_ALL),
                  |ContextUnsigned(2, id)| + |OptionalUnsigned(3, index)|))
  {
    hide ContextUnsigned;
    hide OptionalUnsigned;
    hide IndexAt;
    hide DecodeHeader;
    var rest := OptionalUnsigned(3, index) + tail;
    UnsignedReads(2, id, rest);
    Drops(ContextUnsigned(2, id), rest);
    IndexReads(index, tail);
  }

  lemma StackReadsIdentifier(inner: (seq<u8>, u32) -> (Value, int), encode: Encoder, w: Written)
    ensures ReadsIdentifier(Stack(inner), encode, w)
  {
    hide PropertyAt;
    hide ContextUnsigned;
    hide OptionalUnsigned;
    hide AnswerThen;
    forall post
      ensures PropertyAt(PropertyThen(encode, w, post)) ==
              Some(((w.property, if w.index.Some? then w.index.value else ARRAY_ALL),
                    |ContextUnsigned(2, w.property)| + |OptionalUnsigned(3, w.index)|))
    {
      AnswerOpens(encode, w.answer, post);
      PropertyAtParts(w.property, w.index, AnswerThen(encode, w.answer, post));
    }
  }

  lemma ObjectIdReads(kind: u16, instance: u32, list: seq<u8>)
    requires kind < MAX_TYPE && instance < MAX_INSTANCE
    ensures |ContextObjectId(0, kind, instance)| == 5
    ensures ObjectIdAt(ContextObjectId(0, kind, instance) + (OpeningTag(1) + list)) == Some(((kind, instance), 6))
  {
    var v, id, tail := U32(ObjectIdValue(kind, instance)), ContextObjectId(0, kind, instance), OpeningTag(1) + list;
    Assoc(EncodeTag(0, true, 4), v, tail);
    assert EncodeTag(0, true, 4) == [12];
    Drops(EncodeTag(0, true, 4), v + tail);
    Drops(id, tail);
    ObjectIdRoundTrip(kind, instance, tail);
    assert tail[0] == OpeningTag(1)[0];
  }

  /** What the grammar lets an acknowledgement say, with the codec of its values. */
  ghost predicate Sayable(inner: (seq<u8>, u32) -> (Value, int), encode: Encoder, o: WrittenObject) {
    && o.kind < MAX_TYPE && o.instance < MAX_INSTANCE
    && forall i :: 0 <= i < |o.properties| && o.properties[i].answer.Data? ==>
         AllDelimited(Stack(inner), encode, o.properties[i].answer.values, o.properties[i].property)
  }

  lemma StackReadsObject(inner: (seq<u8>, u32) -> (Value, int), encode: Encoder, o: WrittenObject)
    requires Sayable(inner, encode, o)
    ensures ReadsObject(Stack(inner), encode, o)
  {
    hide ObjectIdAt;
    hide ContextObjectId;
    hide ReadsIdentifier;
    hide AllDelimited;
    hide ReadsEnumerated;
    forall list
      ensures ObjectIdAt(ContextObjectId(0, o.kind, o.instance) + (OpeningTag(1) + list)) ==
              Some(((o.kind, o.instance), 6))
    {
      ObjectIdReads(o.kind, o.instance, list);
    }
    ObjectIdReads(o.kind, o.instance, []);
    forall i | 0 <= i < |o.properties|
      ensures ReadsIdentifier(Stack(inner), encode, o.properties[i])
      ensures ReadsAnswer(Stack(inner), encode, o.properties[i])
    {
      StackReadsIdentifier(inner, encode, o.properties[i]);
      if o.properties[i].answer.Fault? {
        StackReadsEnumerated(inner, o.properties[i].answer.errorClass);
        StackReadsEnumerated(inner, o.properties[i].answer.errorCode);
      }
    }
  }

  /**
   The parser inverts the grammar: any non-empty list of objects, each with any list of properties that carry
   values or an error, is read from its octets as that same structure, and all the octets are consumed.
   */
  lemma AckReadsBack(inner: (seq<u8>, u32) -> (Value, int), encode: Encoder, os: seq<WrittenObject>)
    requires forall bs, property :: inner(bs, property).1 <= |bs|
    requires os != [] && forall i :: 0 <= i < |os| ==> Sayable(inner, encode, os[i])
    ensures InBounds(Stack(inner)) && Objects(Stack(inner), Print(encode, os), []) == Read(ObjectMeanings(os), [])
  {
    hide *;
    StackInBounds(inner);
    StackBrackets(inner);
    StackListEnds(inner);
    forall i | 0 <= i < |os| {
      StackReadsObject(inner, encode, os[i]);
    }
    ObjectsRead(Stack(inner), encode, os, []);
    assert [] + ObjectMeanings(os) == ObjectMeanings(os);
  }

  /** It takes exactly as many nodes as the lists have, the one allocated in vain in place of the caller's. */
  lemma AckPeak(inner: (seq<u8>, u32) -> (Value, int), encode: Encoder, os: seq<WrittenObject>)
    requires forall bs, property :: inner(bs, property).1 <= |bs|
    requires os != [] && forall i :: 0 <= i < |os| ==> Sayable(inner, encode, os[i])
    ensures InBounds(Stack(inner))
    ensures ObjectsPeak(Stack(inner), Print(encode, os)) == Some(AllNodes(ObjectMeanings(os)))
  {
    hide *;
    StackInBounds(inner);
    StackBrackets(inner);
    StackListEnds(inner);
    forall i | 0 <= i < |os| {
      StackReadsObject(inner, encode, os[i]);
    }
    ObjectsStart(Stack(inner), Print(encode, os));
    PrintedPeak(Stack(inner), encode, os, Print(encode, os), []);
    assert [] + ObjectMeanings(os) == ObjectMeanings(os);
  }

  /**
   The parser on a printed acknowledgement: with room for as many nodes as the lists have it builds exactly
   those lists and takes all the octets, and with any less it uses up the room.
   */
  method ParsePrinted(inner: (seq<u8>, u32) -> (Value, int), heap: Heap, head: Ptr, apdu: seq<u8>,
                      ghost encode: Encoder, ghost os: seq<WrittenObject>)
    returns (len: int, ghost lists: seq<ObjectTree>)
    requires forall bs, property :: inner(bs, property).1 <= |bs|
    requires os != [] && forall i :: 0 <= i < |os| ==> Sayable(inner, encode, os[i])
    requires apdu == Print(encode, os)
    requires heap.Valid() && head != 0 && head in heap.objects && heap.objects[head] == Node(CLEAR_OBJECT, 0)
    modifies heap
    ensures heap.Valid()
    ensures Stored(heap.State(), old(Base(heap.objects - {head}, heap.properties, heap.values)), lists)
    ensures lists != [] && lists[0].ptr == head
    ensures if old(heap.Room()) >= AllNodes(ObjectMeanings(os))
            then ObjectResults(lists) == ObjectMeanings(os) && len == |apdu|
            else heap.Room() == 0
  {
    hide Stack;
    hide InBounds;
    hide Print;
    hide Sayable;
    hide Objects;
    hide ObjectsPeak;
    hide AllNodes;
    hide Stored;
    AckPeak(inner, encode, os);
    AckReadsBack(inner, encode, os);
    FirstIdReads(inner, encode, os);
    ghost var rest;
    len, rest, lists := Parse(Stack(inner), heap, head, apdu);
  }

  lemma FirstIdReads(inner: (seq<u8>, u32) -> (Value, int), encode: Encoder, os: seq<WrittenObject>)
    requires os != [] && Sayable(inner, encode, os[0])
    ensures Print(encode, os) != [] && Stack(inner).objectId(Print(encode, os)).Some?
  {
    hide ObjectIdAt;
    hide ContextObjectId;
    hide PropertiesThen;
    ObjectIdReads(os[0].kind, os[0].instance,
                  PropertiesThen(encode, os[0].properties, ClosingTag(1) + Print(encode, os[1..])));
  }

  // ---------- values that never end ----------

  /** The parser gets stuck exactly at a closing tag other than 4, or where the contents of a value take no octets. */
  lemma StuckInStack(inner: (seq<u8>, u32) -> (Value, int), bs: seq<u8>, property: u32)
    requires bs != [] ==> inner(bs, property).1 != 0
    ensures Stuck(Stack(inner), bs, property) <==>
            bs != [] && IsContext(bs[0]) && bs[0] % 8 == 7 && bs[0] / 16 != 4 && bs[0] / 16 < 15
  {
    if bs != [] && IsContext(bs[0]) && bs[0] % 8 == 7 {
      assert DecodeHeader(bs).Some? ==> DecodeHeader(bs).value.IsClosing(bs[0] / 16) || bs[0] / 16 == 15;
    }
  }

  /** A closing tag 1 where a value should be: no amount of memory is enough. */
  lemma StrayClosingTag(inner: (seq<u8>, u32) -> (Value, int), property: u32)
    requires forall bs, p :: inner(bs, p).1 <= |bs|
    ensures InBounds(Stack(inner)) && Values(Stack(inner), [0x1F], property, []).Endless?
  {
    StackInBounds(inner);
    hide InBounds;
    hide Values;
    hide ObjectIdAt;
    hide PropertyAt;
    hide ApplicationAt;
    var d, bs := Stack(inner), [0x1F];
    assert ContextAt(inner)(bs, property) == (Empty, 0);
    assert Stuck(d, bs, property) && Behind(d, bs, property, 0) == Some(bs);
    hide *;
    assert GetsStuck(d, bs, property) by { GetsStuckAtOnce(d, bs, property); }
    EndlessIffStuck(d, bs, property, []);
  }

  lemma GetsStuckAtOnce(d: Decoders, bs: seq<u8>, property: u32)
    requires InBounds(d) && Stuck(d, bs, property) && Behind(d, bs, property, 0) == Some(bs)
    ensures GetsStuck(d, bs, property)
  {
    hide InBounds;
    hide Stuck;
    hide Behind;
  }

  // ---------- the application tags ----------

  /** The encoding of clause 20.2: null and Boolean values in the tag alone, all others behind it. */
  function EncodeValue(v: Value): seq<u8> {
    match v
    case Datum(0, _) => EncodeTag(0, false, 0)
    case Datum(1, octets) => EncodeTag(1, false, if octets == [1] then 1 else 0)
    case Datum(tag, octets) => if |octets| < 0x1_0000_0000 then Tagged(tag, false, octets) else []
    case _ => []
  }

  /**
   The values that the application tags can carry and the stack takes: null, Boolean, the numbers and the date and
   time of any length but zero, strings in the limits of its buffers, object identifiers.
   */
  predicate Encodable(v: Value) {
    && v.Datum? && |v.octets| < 0x1_0000_0000
    && match v.tag
       case 0 => v.octets == []
       case 1 => v.octets == [0] || v.octets == [1]
       case 2 => v.octets != []
       case 3 => v.octets != []
       case 4 => v.octets != []
       case 5 => v.octets != []
       case 6 => |v.octets| <= 474
       case 7 => 1 <= |v.octets| <= 474
       case 8 => 1 <= |v.octets| <= 16
       case 9 => v.octets != []
       case 10 => v.octets != []
       case 11 => v.octets != []
       case 12 => |v.octets| == 4
       case _ => false
  }

  /** The values of clause 20.2. */
  predicate Standard(v: Value) {
    && v.Datum?
    && match v.tag
       case 0 => v.octets == []                      // null
       case 1 => v.octets == [0] || v.octets == [1]  // Boolean
       case 2 => 1 <= |v.octets| <= 4                // unsigned
       case 3 => 1 <= |v.octets| <= 4                // signed
       case 4 => |v.octets| == 4                     // real
       case 5 => |v.octets| == 8                     // double
       case 6 => |v.octets| <= 474                   // octet string
       case 7 => 1 <= |v.octets| <= 474              // character string
       case 8 => 1 <= |v.octets| <= 16               // bit string
       case 9 => 1 <= |v.octets| <= 4                // enumerated
       case 10 => |v.octets| == 4                    // date
       case 11 => |v.octets| == 4                    // time
       case 12 => |v.octets| == 4                    // object identifier
       case _ => false
  }

  /** Nothing else decodes: what the decoder of application tags delivers is such a value, whatever the octets. */
  lemma OnlyEncodable(bs: seq<u8>)
    requires ApplicationAt(bs).1 >= 0
    ensures Encodable(ApplicationAt(bs).0) && 0 < ApplicationAt(bs).1 <= |bs|
  {
  }

  /** Every value under an application tag delimits itself. */
  lemma ValueDelimits(inner: (seq<u8>, u32) -> (Value, int), v: Value, property: u32)
    requires Encodable(v)
    ensures SelfDelimiting(Stack(inner), EncodeValue(v), v, property)
  {
    var e := EncodeValue(v);
    forall rest
      ensures ValueAt(Stack(inner), e + rest, property) == (v, |e|) && !ClosesAt(e + rest, 4)
    {
      if v.tag <= 1 {
        TagRoundTrip(v.tag, false, if v.octets == [1] then 1 else 0, rest);
      } else {
        PrimitiveRoundTrip(v.tag, false, v.octets, rest);
      }
      assert (e + rest)[0] == e[0];
    }
  }

  /** An object with values of clause 20.2 and errors. */
  predicate StandardObject(o: WrittenObject) {
    && o.kind < 1024 && o.instance < 0x40_0000
    && forall j :: 0 <= j < |o.properties| && o.properties[j].answer.Data? ==> AllStandard(o.properties[j].answer.values)
  }

  predicate AllStandard(vs: seq<Value>) {
    forall k :: 0 <= k < |vs| ==> Standard(vs[k])
  }

  lemma StandardDelimited(inner: (seq<u8>, u32) -> (Value, int), vs: seq<Value>, property: u32)
    requires AllStandard(vs)
    ensures AllDelimited(Stack(inner), EncodeValue, vs, property)
  {
    hide SelfDelimiting;
    hide EncodeValue;
    forall k | 0 <= k < |vs|
      ensures SelfDelimiting(Stack(inner), EncodeValue(vs[k]), vs[k], property)
    {
      ValueDelimits(inner, vs[k], property);
    }
  }

  lemma StandardSayable(inner: (seq<u8>, u32) -> (Value, int), o: WrittenObject)
    requires StandardObject(o)
    ensures Sayable(inner, EncodeValue, o)
  {
    hide AllDelimited;
    hide AllStandard;
    hide EncodeValue;
    hide Stack;
    forall j | 0 <= j < |o.properties| && o.properties[j].answer.Data?
      ensures AllDelimited(Stack(inner), EncodeValue, o.properties[j].answer.values, o.properties[j].property)
    {
      StandardDelimited(inner, o.properties[j].answer.values, o.properties[j].property);
    }
  }

  /**
   An acknowledgement of values of clause 20.2 and errors reads back as the structure it was printed from, however
   context-tagged values are decoded.
   */
  lemma StandardReadsBack(inner: (seq<u8>, u32) -> (Value, int), os: seq<WrittenObject>)
    requires forall bs, property :: inner(bs, property).1 <= |bs|
    requires os != [] && forall i :: 0 <= i < |os| ==> StandardObject(os[i])
    ensures InBounds(Stack(inner))
    ensures Objects(Stack(inner), Print(EncodeValue, os), []) == Read(ObjectMeanings(os), [])
  {
    hide *;
    forall i | 0 <= i < |os|
      ensures Sayable(inner, EncodeValue, os[i])
    {
      StandardSayable(inner, os[i]);
    }
    AckReadsBack(inner, EncodeValue, os);
  }

  // ---------- an example, octet by octet ----------

  /** Analog input 1 says that its present value, property 85, is the real number 25. */
  function ExampleOctets(): seq<u8> {
    [0x0C, 0x00, 0x00, 0x00, 0x01, 0x1E, 0x29, 0x55, 0x4E, 0x44, 0x41, 0xC8, 0x00, 0x00, 0x4F, 0x1F]
  }

  function ExampleValue(): Value {
    Datum(4, [0x41, 0xC8, 0x00, 0x00])
  }

  function ExampleObject(): WrittenObject {
    WrittenObject(0, 1, [Written(85, None, Data([ExampleValue()]))])
  }

  /** Array element 3 of the present value cannot be read: error class 2, code 31. */
  lemma FaultInOctets(post: seq<u8>)
    ensures PropertyThen(EncodeValue, Written(85, Some(3), Fault(2, 31)), post) ==
            [0x29, 0x55, 0x39, 0x03, 0x5E, 0x91, 0x02, 0x91, 0x1F, 0x5F] + post
  {
    FaultAnswers(post);
    hide AnswerThen;
    assert ContextUnsigned(2, 85) == [0x29, 0x55] && ContextUnsigned(3, 3) == [0x39, 0x03];
  }

  lemma FaultAnswers(post: seq<u8>)
    ensures AnswerThen(EncodeValue, Fault(2, 31), post) == [0x5E, 0x91, 0x02, 0x91, 0x1F, 0x5F] + post
  {
    hide OpeningTag;
    hide ClosingTag;
    hide ApplicationEnumerated;
    FaultPieces();
    assert [0x5E] + ([0x91, 0x02] + ([0x91, 0x1F] + ([0x5F] + post))) ==
           [0x5E, 0x91, 0x02, 0x91, 0x1F, 0x5F] + post;
  }

  lemma FaultPieces()
    ensures OpeningTag(5) == [0x5E] && ClosingTag(5) == [0x5F]
    ensures ApplicationEnumerated(2) == [0x91, 0x02] && ApplicationEnumerated(31) == [0x91, 0x1F]
  {
  }

  lemma ExampleMeans()
    ensures StandardObject(ExampleObject())
    ensures ObjectMeanings([ExampleObject()]) ==
            [ObjectResult(0, 1, [PropertyResult(85, 0xFFFF_FFFF, [Datum(4, [0x41, 0xC8, 0x00, 0x00])], 0, 0)])]
  {
    var w := Written(85, None, Data([ExampleValue()]));
    assert Meanings([w]) == [PropertyResult(85, 0xFFFF_FFFF, [ExampleValue()], 0, 0)];
  }

  lemma ExampleAnswers(post: seq<u8>)
    requires post == [0x1F]
    ensures AnswerThen(EncodeValue, Data([ExampleValue()]), post) ==
            [0x4E, 0x44, 0x41, 0xC8, 0x00, 0x00, 0x4F, 0x1F]
  {
    var vs := [ExampleValue()];
    assert vs[1..] == [];
    assert ValuesThen(EncodeValue, vs, ClosingTag(4) + post) == EncodeValue(vs[0]) + (ClosingTag(4) + post);
    assert EncodeValue(vs[0]) == [0x44, 0x41, 0xC8, 0x00, 0x00];
    assert ClosingTag(4) + post == [0x4F, 0x1F];
    assert OpeningTag(4) == [0x4E];
  }

  lemma ExamplePrints()
    ensures Print(EncodeValue, [ExampleObject()]) == ExampleOctets()
  {
    var o, end := ExampleObject(), ClosingTag(1) + Print(EncodeValue, []);
    var ws := o.properties;
    assert end == [0x1F] && ws[1..] == [] && [o][1..] == [];
    ExampleAnswers(end);
    hide AnswerThen;
    assert ContextUnsigned(2, 85) == [0x29, 0x55];
    assert ContextObjectId(0, 0, 1) == [0x0C, 0x00, 0x00, 0x00, 0x01];
    assert PropertiesThen(EncodeValue, ws, end) == PropertyThen(EncodeValue, ws[0], end);
    assert OpeningTag(1) == [0x1E];
  }

  /** Octet by octet, as clause 20.2 encodes it. */
  lemma ExampleReads(inner: (seq<u8>, u32) -> (Value, int))
    requires forall bs, property :: inner(bs, property).1 <= |bs|
    ensures InBounds(Stack(inner))
    ensures Objects(Stack(inner), ExampleOctets(), []) ==
            Read([ObjectResult(0, 1, [PropertyResult(85, 0xFFFF_FFFF, [Datum(4, [0x41, 0xC8, 0x00, 0x00])], 0, 0)])], [])
  {
    hide *;
    ExampleMeans();
    ExamplePrints();
    StandardReadsBack(inner, [ExampleObject()]);
  }
}
