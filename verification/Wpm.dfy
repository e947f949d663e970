/**
 WritePropertyMultiple (ASHRAE 135, clause 15.10): the decode-and-write loops of h_wpm.c over the decoders
 of wpm.c and bacapp.c. The properties are written one by one while the request is being decoded.
 */
module Wpm {
  import opened Octets
  import opened Tags

  const MAX_PRIORITY: u8 := 16
  const PROP_ACTION: u32 := 2
  const PROP_ACTIVE_COV_SUBSCRIPTIONS: u32 := 152

  /** The data handed to Device_Write_Property. */
  datatype Write = Write(kind: u16, instance: u32, property: u32, index: u32, value: seq<u8>, priority: u8)

  /** How the device answers a write, given all writes of the request so far and this one last. */
  type Device = seq<Write> -> bool

  datatype Reply = SimpleAck | WriteError | Reject

  // ---------- how long a value is ----------

  /** Context tags whose type bacapp.c takes to be BOOLEAN, and therefore gives no octets. */
  predicate SizedAsFlag(property: u32, number: u8) {
    || (property == PROP_ACTION && number in {7, 8})
    || (property == PROP_ACTIVE_COV_SUBSCRIPTIONS && number == 2)
  }

  /** The octets that bacapp_data_len steps over for a tag that neither opens nor closes. */
  function ContentLength(h: Header, property: u32): nat {
    if h.context then if SizedAsFlag(property, h.number) then 0 else h.value
    else if 2 <= h.number <= 12 then h.value else 0
  }

  function StepLength(h: Header, property: u32): nat {
    if h.low >= 6 then h.len else h.len + ContentLength(h, property)
  }

  /** The open-tag counter, in eight bits, after the tag h. */
  function NextCounter(h: Header, number: u8, counter: u8): u8 {
    if h.IsOpening(number) then (if counter == 0xff then 0 else counter + 1)
    else if h.IsClosing(number) then (if counter == 0 then 0xff else counter - 1)
    else counter
  }

  /** The loop of bacapp_data_len: octets up to the closing tag that brings the counter to zero. */
  function ValueLength(tag: seq<u8> -> Option<Header>, bs: seq<u8>, number: u8, counter: u8, property: u32)
    : (r: Option<nat>)
    ensures r.Some? ==> r.value <= |bs|
    decreases |bs|
  {
    var h := tag(bs);
    if h.None? || StepLength(h.value, property) > |bs| || StepLength(h.value, property) == 0 then None
    else
      var step, next := StepLength(h.value, property), NextCounter(h.value, number, counter);
      if next == 0 then Some(0)
      else
        var rest := ValueLength(tag, bs[step..], number, next, property);
        if rest.None? then None else Some(step + rest.value)
  }

  // ---------- the decoders ----------

  /** Tag number, unsigned value and octets taken at the front. */
  function UnsignedPrefix(bs: seq<u8>): Option<(u8, u32, nat)> {
    var h := DecodeHeader(bs);
    if h.None? || h.value.len + h.value.value > |bs| then None
    else Some((h.value.number, DecodeUnsigned(bs[h.value.len..], h.value.value), h.value.len + h.value.value))
  }

  /** The two primitive readers that the property decoder is made of. */
  datatype Reader = Reader(tag: seq<u8> -> Option<Header>, unsigned: seq<u8> -> Option<(u8, u32, nat)>)

  function WireReader(): Reader {
    Reader(DecodeHeader, UnsignedPrefix)
  }

  /** A write, and the octets consumed. */
  type Decoded = Option<(Write, nat)>

  function After(n: nat, d: Decoded): Decoded {
    match d
    case None => None
    case Some((w, len)) => Some((w, n + len))
  }

  /** wpm_decode_object_property, over any primitive readers. */
  function DecodeProperty(r: Reader, bs: seq<u8>, kind: u16, instance: u32): Decoded {
    var id := r.unsigned(bs);
    if id.None? || id.value.0 != 0 || id.value.2 > |bs| then None
    else
      After(id.value.2,
            DecodeIndex(r, bs[id.value.2..], Write(kind, instance, id.value.1, ARRAY_ALL, [], MAX_PRIORITY)))
  }

  function DecodeIndex(r: Reader, bs: seq<u8>, w: Write): Decoded {
    var h := r.tag(bs);
    if h.None? then None
    else if h.value.number == 1 then
      var index := r.unsigned(bs);
      if index.None? || index.value.2 > |bs| then None
      else After(index.value.2, DecodeValue(r, bs[index.value.2..], w.(index := index.value.1)))
    else DecodeValue(r, bs, w)
  }

  /** The last octet of a tag, which is where the decoder looks for the kind of bracket. */
  predicate EndsAs(bs: seq<u8>, h: Header, low: nat) {
    0 < h.len <= |bs| && bs[h.len - 1] % 8 == low
  }

  function DecodeValue(r: Reader, bs: seq<u8>, w: Write): Decoded {
    var open := r.tag(bs);
    if open.None? || open.value.number != 2 || !EndsAs(bs, open.value, 6) then None
    else
      // that octet is read again as the tag whose closing tag is looked for
      var at := open.value.len - 1;
      var bracket := r.tag(bs[at..]);
      if bracket.None? || !(0 < bracket.value.len <= |bs| - at) then None
      else
        var n := ValueLength(r.tag, bs[at + bracket.value.len..], bracket.value.number, 1, w.property);
        if n.None? then None
        else
          var rest := bs[at + 1 + n.value..];
          var close := r.tag(rest);
          if close.None? || close.value.len > |rest| then None
          else if close.value.number != 2 && EndsAs(rest, close.value, 7) then None
          else
            After(at + 1 + n.value + close.value.len,
                  DecodePriority(r, rest[close.value.len..], w.(value := bs[at + 1..at + 1 + n.value])))
  }

  function DecodePriority(r: Reader, bs: seq<u8>, w: Write): Decoded {
    var h := r.tag(bs);
    if h.None? || h.value.len == 0 then None
    else if h.value.number == 3 then
      var p := r.unsigned(bs);
      if p.None? then None else Some((w.(priority := p.value.1 % 0x100), p.value.2))
    else Some((w, h.value.len - 1))
  }

  /** wpm_decode_object_id: object type and instance, and the octets consumed. */
  function DecodeObject(bs: seq<u8>): Option<((u16, u32), nat)> {
    var h := DecodeHeader(bs);
    if |bs| <= 5 || h.None? || h.value.number != 0 || |bs| < h.value.len + 4 then None
    else
      var len := h.value.len + 4;
      // what is left is computed in sixteen bits with the tag length subtracted twice
      var left := (|bs| - h.value.len - len) % 0x1_0000;
      if left != 0 && !OpensList(bs[len..]) then None
      else Some((DecodeObjectId(bs[h.value.len..]), len))
  }

  /** The brackets of the list of properties. */
  predicate OpensList(bs: seq<u8>) {
    OpensAt(bs, 1)
  }

  predicate ClosesList(bs: seq<u8>) {
    ClosesAt(bs, 1)
  }

  // ---------- the loops as functions ----------

  /** An object identifier, or one property of it, at the front of the octets, and how many octets that took. */
  datatype Decoders = Decoders(
    objectId: seq<u8> -> Option<((u16, u32), nat)>,
    property: (seq<u8>, u16, u32) -> Decoded,
    opensList: seq<u8> -> bool,
    closesList: seq<u8> -> bool)

  function PropertyDecoder(r: Reader): (seq<u8>, u16, u32) -> Decoded {
    (bs, kind, instance) => DecodeProperty(r, bs, kind, instance)
  }

  /** The decoders of the stack. */
  function Wire(): Decoders {
    Decoders(DecodeObject, PropertyDecoder(WireReader()), OpensList, ClosesList)
  }

  /** The loops go on behind the octets consumed, or end for good; the writes made come with either. */
  datatype Outcome = More(writes: seq<Write>, at: nat) | Refused(writes: seq<Write>) | Malformed(writes: seq<Write>)

  /** The inner loop from position at: the properties of one object. */
  function Properties(d: Decoders, req: seq<u8>, at: nat, kind: u16, instance: u32, done: seq<Write>, device: Device)
    : (r: Outcome)
    requires at <= |req|
    ensures r.More? ==> at < r.at <= |req|
    decreases |req| - at
  {
    var p := d.property(req[at..], kind, instance);
    if p.None? || !(0 < p.value.1 <= |req| - at) then Malformed(done)
    else
      var writes, next := done + [p.value.0], at + p.value.1;
      if !device(writes) then Refused(writes)
      else if next == |req| then Malformed(writes)
      else if d.closesList(req[next..]) then More(writes, next + 1)
      else Properties(d, req, next, kind, instance, writes, device)
  }

  /** One turn of the outer loop, at position at. */
  function Object(d: Decoders, req: seq<u8>, at: nat, done: seq<Write>, device: Device): (r: Outcome)
    requires at <= |req|
    ensures r.More? ==> at < r.at <= |req|
  {
    var o := d.objectId(req[at..]);
    if o.None? || !(0 < o.value.1 < |req| - at) then Malformed(done)
    else
      var next := at + o.value.1;
      if d.opensList(req[next..]) then Properties(d, req, next + 1, o.value.0.0, o.value.0.1, done, device)
      else More(done, next + 1)
  }

  /** The outer loop from position at: the remaining objects. */
  function Objects(d: Decoders, req: seq<u8>, at: nat, done: seq<Write>, device: Device): Outcome
    requires at <= |req|
    decreases |req| - at
  {
    var r := Object(d, req, at, done, device);
    if r.More? && r.at < |req| then Objects(d, req, r.at, r.writes, device) else r
  }

  function ReplyTo(r: Outcome): Reply {
    match r
    case More(_, _) => SimpleAck
    case Refused(_) => WriteError
    case Malformed(_) => Reject
  }

  // ---------- the handler ----------

  /** The inner do-while loop. */
  method WriteProperties(d: Decoders, req: seq<u8>, start: nat, kind: u16, instance: u32, device: Device,
                         done: seq<Write>)
    returns (writes: seq<Write>, decodeLen: nat, status: Reply)
    requires start <= |req|
    ensures var r := Properties(d, req, start, kind, instance, done, device);
            && status == ReplyTo(r) && writes == r.writes
            && (r.More? ==> decodeLen == r.at)
  {
    writes, decodeLen, status := done, start, SimpleAck;
    ghost var outcome := Properties(d, req, start, kind, instance, done, device);
    var tagNumber := 0;
    while tagNumber != 1
      invariant 0 <= tagNumber <= 1 && decodeLen <= |req|
      invariant if tagNumber == 0 then outcome == Properties(d, req, decodeLen, kind, instance, writes, device)
                else outcome == More(writes, decodeLen)
      decreases 1 - tagNumber, |req| - decodeLen
    {
      var p := d.property(req[decodeLen..], kind, instance);
      if p.None? || p.value.1 == 0 || decodeLen + p.value.1 > |req| {
        return writes, decodeLen, Reject;
      }
      decodeLen := decodeLen + p.value.1;
      writes := writes + [p.value.0];
      if !device(writes) {
        return writes, decodeLen, WriteError;
      }
      if decodeLen == |req| {
        return writes, decodeLen, Reject;
      }
      if d.closesList(req[decodeLen..]) {
        tagNumber := 1;
        decodeLen := decodeLen + 1;
      } else {
        tagNumber := 0;
      }
    }
  }

  /** The body of the outer do-while loop. */
  method WriteObject(d: Decoders, req: seq<u8>, start: nat, device: Device, done: seq<Write>)
    returns (writes: seq<Write>, decodeLen: nat, status: Reply)
    requires start <= |req|
    ensures var r := Object(d, req, start, done, device);
            && status == ReplyTo(r) && writes == r.writes
            && (r.More? ==> decodeLen == r.at)
  {
    writes, decodeLen, status := done, start, SimpleAck;
    var o := d.objectId(req[decodeLen..]);
    if o.None? || o.value.1 == 0 || decodeLen + o.value.1 >= |req| {
      return done, decodeLen, Reject;
    }
    var at := decodeLen + o.value.1;
    decodeLen := at + 1;
    if d.opensList(req[at..]) {
      writes, decodeLen, status := WriteProperties(d, req, decodeLen, o.value.0.0, o.value.0.1, device, writes);
    }
  }

  /** The outer do-while loop. */
  method WriteObjects(d: Decoders, req: seq<u8>, device: Device) returns (reply: Reply, writes: seq<Write>)
    ensures var r := Objects(d, req, 0, [], device); reply == ReplyTo(r) && writes == r.writes
  {
    ghost var outcome := Objects(d, req, 0, [], device);
    var decodeLen: nat;
    writes, decodeLen, reply := WriteObject(d, req, 0, device, []);
    while reply == SimpleAck && decodeLen < |req|
      invariant if reply == SimpleAck && decodeLen < |req| then outcome == Objects(d, req, decodeLen, writes, device)
                else reply == ReplyTo(outcome) && writes == outcome.writes
      decreases reply == SimpleAck, |req| - decodeLen
    {
      writes, decodeLen, reply := WriteObject(d, req, decodeLen, device, writes);
    }
  }

  /** handler_write_property_multiple: the writes made and the reply sent. */
  method Handle(req: seq<u8>, segmented: bool, device: Device) returns (reply: Reply, writes: seq<Write>)
    ensures segmented ==> reply == SimpleAck && writes == []
    ensures !segmented ==> var r := Objects(Wire(), req, 0, [], device); reply == ReplyTo(r) && writes == r.writes
  {
    if segmented {
      // the length is set to an abort status, but no error is recorded
      return SimpleAck, [];
    }
    reply, writes := WriteObjects(Wire(), req, device);
  }
}
