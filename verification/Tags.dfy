/**
 The octet codecs of bacdcode.c and bacint.c that the modelled services use: tags (ASHRAE 135,
 clause 20.2.1), unsigned integers (20.2.4), octet strings and object identifiers (20.2.14). Encoders
 give the octets they write; decoders read a prefix of the octets they are given and answer None when
 those run out.
 */
module Tags {
  import opened Octets

  const TAG_BOOLEAN: u8 := 1
  const TAG_UNSIGNED: u8 := 2
  const TAG_REAL: u8 := 4
  const TAG_OCTET_STRING: u8 := 6
  const TAG_CHARACTER_STRING: u8 := 7
  const TAG_ENUMERATED: u8 := 9

  const MAX_TYPE: nat := 0x400
  const MAX_INSTANCE: nat := 0x40_0000

  // ---------- big-endian integers ----------

  function U16(v: u16): seq<u8> {
    [v / 0x100, v % 0x100]
  }

  function U24(v: u32): seq<u8> {
    [v / 0x1_0000 % 0x100, v / 0x100 % 0x100, v % 0x100]
  }

  function U32(v: u32): seq<u8> {
    [v / 0x100_0000, v / 0x1_0000 % 0x100, v / 0x100 % 0x100, v % 0x100]
  }

  function FromU16(bs: seq<u8>): u16
    requires |bs| >= 2
  {
    bs[0] as nat * 0x100 + bs[1]
  }

  function FromU24(bs: seq<u8>): u32
    requires |bs| >= 3
  {
    bs[0] as nat * 0x1_0000 + bs[1] as nat * 0x100 + bs[2]
  }

  function FromU32(bs: seq<u8>): u32
    requires |bs| >= 4
  {
    bs[0] as nat * 0x100_0000 + bs[1] as nat * 0x1_0000 + bs[2] as nat * 0x100 + bs[3]
  }

  lemma U32RoundTrip(v: u32, rest: seq<u8>)
    ensures FromU32(U32(v) + rest) == v
  {
    var a, b, c, d := v / 0x100_0000, v / 0x1_0000 % 0x100, v / 0x100 % 0x100, v % 0x100;
    assert v / 0x100 == v / 0x1_0000 * 0x100 + c;
    assert v / 0x1_0000 == a * 0x100 + b;
  }

  // ---------- tags ----------

  function FirstOctet(number: u8, context: bool, low: nat): u8
    requires low < 8
  {
    (if number <= 14 then number else 15) * 16 + (if context then 8 else 0) + low
  }

  function Extension(number: u8): seq<u8> {
    if number <= 14 then [] else [number]
  }

  function EncodeTag(number: u8, context: bool, value: u32): seq<u8> {
    [FirstOctet(number, context, if value <= 4 then value else 5)] + Extension(number) +
    (if value <= 4 then [] else if value <= 253 then [value]
     else if value <= 65535 then [254] + U16(value) else [255] + U32(value))
  }

  function OpeningTag(number: u8): seq<u8> {
    [FirstOctet(number, true, 6)] + Extension(number)
  }

  function ClosingTag(number: u8): seq<u8> {
    [FirstOctet(number, true, 7)] + Extension(number)
  }

  /** The octets of a tag in numbers: the short forms, the length octets, and the number octet behind the first. */
  lemma TagInOctets(number: u8, value: u32)
    requires number <= 14
    ensures value <= 4 ==>
              && EncodeTag(number, false, value) == [16 * number + value]
              && EncodeTag(number, true, value) == [16 * number + 8 + value]
    ensures 5 <= value <= 253 ==>
              && EncodeTag(number, false, value) == [16 * number + 5, value]
              && EncodeTag(number, true, value) == [16 * number + 13, value]
    ensures 254 <= value < 65536 ==>
              && EncodeTag(number, false, value) == [16 * number + 5, 254, value / 256, value % 256]
              && EncodeTag(number, true, value) == [16 * number + 13, 254, value / 256, value % 256]
    ensures OpeningTag(number) == [16 * number + 14] && ClosingTag(number) == [16 * number + 15]
  {
  }

  lemma ExtendedTagInOctets(number: u8, value: u32)
    requires number > 14
    ensures value <= 4 ==>
              && EncodeTag(number, false, value) == [0xF0 + value, number]
              && EncodeTag(number, true, value) == [0xF8 + value, number]
    ensures 5 <= value <= 253 ==>
              && EncodeTag(number, false, value) == [0xF5, number, value]
              && EncodeTag(number, true, value) == [0xFD, number, value]
    ensures OpeningTag(number) == [0xFE, number] && ClosingTag(number) == [0xFF, number]
  {
  }

  /** What decode_tag_number_and_value and the tag macros read off the front of the octets. */
  datatype Header = Header(number: u8, context: bool, low: nat, value: u32, len: nat) {
    predicate IsOpening(n: u8) { low == 6 && number == n }
    predicate IsClosing(n: u8) { low == 7 && number == n }
  }

  function DecodeHeader(bs: seq<u8>): (r: Option<Header>)
    ensures r.Some? ==> 1 <= r.value.len <= |bs| && r.value.low < 8
  {
    if bs == [] then None
    else
      var n := if bs[0] / 16 == 15 then 2 else 1;
      if |bs| < n then None
      else
        var number := if n == 2 then bs[1] else bs[0] / 16;
        var context, low := bs[0] / 8 % 2 == 1, bs[0] % 8;
        if low == 5 then
          if |bs| < n + 1 then None
          else if bs[n] == 255 then
            if |bs| < n + 5 then None else Some(Header(number, context, low, FromU32(bs[n + 1..]), n + 5))
          else if bs[n] == 254 then
            if |bs| < n + 3 then None else Some(Header(number, context, low, FromU16(bs[n + 1..]), n + 3))
          else Some(Header(number, context, low, bs[n], n + 1))
        else Some(Header(number, context, low, if low >= 6 then 0 else low, n))
  }

  lemma TagRoundTrip(number: u8, context: bool, value: u32, rest: seq<u8>)
    ensures DecodeHeader(EncodeTag(number, context, value) + rest) ==
            Some(Header(number, context, if value <= 4 then value else 5, value, |EncodeTag(number, context, value)|))
  {
    if value <= 253 {
      ShortTagRoundTrip(number, context, value, rest);
    } else {
      LongTagRoundTrip(number, context, value, rest);
    }
  }

  lemma ShortTagRoundTrip(number: u8, context: bool, value: u32, rest: seq<u8>)
    requires value <= 253
    ensures DecodeHeader(EncodeTag(number, context, value) + rest) ==
            Some(Header(number, context, if value <= 4 then value else 5, value, |EncodeTag(number, context, value)|))
  {
    assert (EncodeTag(number, context, value) + rest)[0] ==
           FirstOctet(number, context, if value <= 4 then value else 5);
  }

  lemma LongTagRoundTrip(number: u8, context: bool, value: u32, rest: seq<u8>)
    requires value > 253
    ensures DecodeHeader(EncodeTag(number, context, value) + rest) ==
            Some(Header(number, context, 5, value, |EncodeTag(number, context, value)|))
  {
    var bs := EncodeTag(number, context, value) + rest;
    var n := if number <= 14 then 1 else 2;
    assert bs[0] == FirstOctet(number, context, 5);
    if value > 65535 {
      assert bs[n + 1..] == U32(value) + rest;
      U32RoundTrip(value, rest);
    } else {
      assert bs[n + 1..] == U16(value) + rest;
    }
  }

  lemma OpeningRoundTrip(number: u8, rest: seq<u8>)
    ensures DecodeHeader(OpeningTag(number) + rest) == Some(Header(number, true, 6, 0, |OpeningTag(number)|))
  {
  }

  lemma ClosingRoundTrip(number: u8, rest: seq<u8>)
    ensures DecodeHeader(ClosingTag(number) + rest) == Some(Header(number, true, 7, 0, |ClosingTag(number)|))
  {
  }

  /** decode_is_opening_tag_number. */
  predicate OpensAt(bs: seq<u8>, number: u8) {
    var h := DecodeHeader(bs);
    h.Some? && h.value.IsOpening(number)
  }

  /** decode_is_closing_tag_number. */
  predicate ClosesAt(bs: seq<u8>, number: u8) {
    var h := DecodeHeader(bs);
    h.Some? && h.value.IsClosing(number)
  }

  // ---------- primitive values ----------

  /** The array index that stands for the whole array. */
  const ARRAY_ALL: u32 := 0xFFFF_FFFF

  function EncodeUnsigned(v: u32): (r: seq<u8>)
    ensures 1 <= |r| <= 4
  {
    if v < 0x100 then [v] else if v < 0x1_0000 then U16(v) else if v < 0x100_0000 then U24(v) else U32(v)
  }

  /** decode_unsigned: a length other than 1 to 4 reads as 0. */
  function DecodeUnsigned(bs: seq<u8>, len: u32): u32
    requires |bs| >= len
  {
    if len == 1 then bs[0]
    else if len == 2 then FromU16(bs)
    else if len == 3 then FromU24(bs)
    else if len == 4 then FromU32(bs)
    else 0
  }

  lemma UnsignedRoundTrip(v: u32, rest: seq<u8>)
    ensures DecodeUnsigned(EncodeUnsigned(v) + rest, |EncodeUnsigned(v)|) == v
  {
    if v >= 0x100_0000 {
      U32RoundTrip(v, rest);
    } else if v >= 0x1_0000 {
      assert v / 0x100 == v / 0x1_0000 * 0x100 + v / 0x100 % 0x100;
    }
  }

  /** The octets of an integer are its digits to base 256, the highest first, and no more than it needs. */
  lemma IntegersInOctets(v: u32)
    ensures var e := EncodeUnsigned(v);
            && (v < 256 ==> e == [v])
            && (256 <= v < 65536 ==> |e| == 2 && e[0] as nat * 256 + e[1] == v)
            && (65536 <= v < 16777216 ==> |e| == 3 && (e[0] as nat * 256 + e[1]) * 256 + e[2] == v)
            && (16777216 <= v ==> |e| == 4 && ((e[0] as nat * 256 + e[1]) * 256 + e[2]) * 256 + e[3] == v)
    ensures var e := U32(v); ((e[0] as nat * 256 + e[1]) * 256 + e[2]) * 256 + e[3] == v
  {
    assert v / 0x100 == v / 0x1_0000 * 0x100 + v / 0x100 % 0x100;
    assert v / 0x1_0000 == v / 0x100_0000 * 0x100 + v / 0x1_0000 % 0x100;
  }

  /** A primitive value after its tag. */
  function Tagged(number: u8, context: bool, octets: seq<u8>): seq<u8>
    requires |octets| < 0x1_0000_0000
  {
    EncodeTag(number, context, |octets|) + octets
  }

  function ContextUnsigned(number: u8, v: u32): seq<u8> {
    Tagged(number, true, EncodeUnsigned(v))
  }

  function OptionalUnsigned(number: u8, v: Option<u32>): seq<u8> {
    match v
    case None => []
    case Some(n) => ContextUnsigned(number, n)
  }

  function ApplicationUnsigned(v: u32): seq<u8> {
    Tagged(TAG_UNSIGNED, false, EncodeUnsigned(v))
  }

  function ApplicationEnumerated(v: u32): seq<u8> {
    Tagged(TAG_ENUMERATED, false, EncodeUnsigned(v))
  }

  function ContextBoolean(number: u8, v: bool): seq<u8> {
    Tagged(number, true, [if v then 1 else 0])
  }

  function ApplicationOctets(v: seq<u8>): seq<u8>
    requires |v| < 0x1_0000_0000
  {
    Tagged(TAG_OCTET_STRING, false, v)
  }

  function ObjectIdValue(kind: u16, instance: u32): u32 {
    kind % MAX_TYPE * MAX_INSTANCE + instance % MAX_INSTANCE
  }

  function ContextObjectId(number: u8, kind: u16, instance: u32): seq<u8> {
    Tagged(number, true, U32(ObjectIdValue(kind, instance)))
  }

  /** decode_object_id. */
  function DecodeObjectId(bs: seq<u8>): (u16, u32)
    requires |bs| >= 4
  {
    (FromU32(bs) / MAX_INSTANCE % MAX_TYPE, FromU32(bs) % MAX_INSTANCE)
  }

  lemma ObjectIdRoundTrip(kind: u16, instance: u32, rest: seq<u8>)
    requires kind < MAX_TYPE && instance < MAX_INSTANCE
    ensures DecodeObjectId(U32(ObjectIdValue(kind, instance)) + rest) == (kind, instance)
  {
    hide U32;
    hide FromU32;
    U32RoundTrip(ObjectIdValue(kind, instance), rest);
    ObjectIdSplits(kind, instance);
  }

  /** Ten bits of type above 22 bits of instance. */
  lemma ObjectIdInNumbers(kind: u16, instance: u32)
    requires kind < 1024 && instance < 4194304
    ensures ObjectIdValue(kind, instance) == kind * 4194304 + instance
  {
  }

  lemma ObjectIdSplits(kind: u16, instance: u32)
    requires kind < MAX_TYPE && instance < MAX_INSTANCE
    ensures ObjectIdValue(kind, instance) / MAX_INSTANCE % MAX_TYPE == kind
    ensures ObjectIdValue(kind, instance) % MAX_INSTANCE == instance
  {
  }

  // ---------- reading one tagged value ----------

  /** A header that is not an opening or closing tag, with the octets of its value. */
  function Primitive(bs: seq<u8>): (r: Option<(Header, seq<u8>)>)
    ensures r.Some? ==> r.value.0.len + |r.value.1| <= |bs| && |r.value.1| == r.value.0.value
  {
    var h := DecodeHeader(bs);
    if h.None? || h.value.low >= 6 || h.value.len + h.value.value > |bs| then None
    else Some((h.value, bs[h.value.len..h.value.len + h.value.value]))
  }

  lemma PrimitiveRoundTrip(number: u8, context: bool, v: seq<u8>, rest: seq<u8>)
    requires |v| < 0x1_0000_0000
    ensures var e := Tagged(number, context, v);
            var h := DecodeHeader(e + rest);
            && h.Some? && h.value.low < 6
            && h.value.number == number && h.value.context == context && h.value.len + |v| == |e|
            && Primitive(e + rest) == Some((h.value, v))
            && (e + rest)[|e|..] == rest
  {
    var e := EncodeTag(number, context, |v|) + v;
    TagRoundTrip(number, context, |v|, v + rest);
    assert e + rest == EncodeTag(number, context, |v|) + (v + rest);
    assert (e + rest)[|EncodeTag(number, context, |v|)|..|e|] == v;
  }
}
