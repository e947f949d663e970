/**
 The private transfer example: a client writes and reads data blocks on a server. The block codec is
 spread over s_ptransfer.c (request), h_pt.c (server) and h_pt_a.c (reply).
 */
module PrivateTransfer {
  import opened Octets
  import opened Tags

  const MAX_BLOCK: nat := 8
  const MAX_STR: nat := 32
  const MAX_TEXT_VALUE: nat := 474
  const SVC_READ: u32 := 0
  const SVC_WRITE: u32 := 1
  const ERR_OK: u32 := 0
  const ERR_BAD_INDEX: u32 := 1
  const ANSI_X34: u8 := 0

  /** A DATABLOCK; the real number is its 32-bit pattern, the string its buffer with the final NUL. */
  datatype BlockFields = Block(byte1: u8, byte2: u8, bits: u32, str: seq<u8>)

  type DataBlock = b: BlockFields | |b.str| == MAX_STR + 1 && b.str[MAX_STR] == 0
    witness Block(0, 0, 0, [0, 0, 0, 0, 0, 0, 0, 0, 0, 0, 0, 0, 0, 0, 0, 0, 0,
                            0, 0, 0, 0, 0, 0, 0, 0, 0, 0, 0, 0, 0, 0, 0, 0])

  /** The characters before the first NUL. */
  function CString(bs: seq<u8>): seq<u8> {
    bs[..First(bs, (c: u8) => c == 0)]
  }

  /** strncpy of at most 32 characters into a buffer of 33, and the terminating NUL. */
  function Stored(bs: seq<u8>): (r: seq<u8>)
    ensures |r| == MAX_STR + 1 && r[MAX_STR] == 0
  {
    var text := CString(bs);
    var n := Min(|text|, MAX_STR);
    text[..n] + seq(MAX_STR + 1 - n, _ => 0)
  }

  /**
   The first 32 characters before a NUL are stored, and NULs behind them: character i is the one written if none up
   to it is NUL.
   */
  lemma StoredByIndex(bs: seq<u8>, i: nat)
    requires i < 33
    ensures |Stored(bs)| == 33
    ensures Stored(bs)[i] ==
            if i < 32 && i < |bs| && forall j :: 0 <= j <= i ==> bs[j] != 0 then bs[i] else 0
  {
    var n := First(bs, (c: u8) => c == 0);
    assert n < |bs| ==> bs[n] == 0;
    assert forall j :: 0 <= j < n ==> bs[j] != 0;
  }

  // ---------- the request ----------

  function ApplicationReal(bits: u32): seq<u8> {
    Tagged(TAG_REAL, false, U32(bits))
  }

  function ApplicationText(text: seq<u8>): seq<u8>
    requires |text| < MAX_TEXT_VALUE
  {
    Tagged(TAG_CHARACTER_STRING, false, [ANSI_X34] + text)
  }

  function BlockOctets(b: DataBlock): seq<u8> {
    ApplicationUnsigned(b.byte1) + (ApplicationUnsigned(b.byte2) +
    (ApplicationReal(b.bits) + ApplicationText(CString(b.str))))
  }

  lemma Nested(a: seq<u8>, b: seq<u8>, c: seq<u8>, d: seq<u8>, e: seq<u8>)
    ensures a + b + c + d + e == a + (b + (c + (d + e)))
  {
  }

  /** The service parameters of Send_Private_Transfer_Request. */
  method EncodeRequest(service: u32, block: u8, b: DataBlock) returns (octets: seq<u8>)
    ensures octets == ApplicationUnsigned(block) + if service == SVC_READ then [] else BlockOctets(b)
  {
    hide ApplicationUnsigned;
    hide ApplicationReal;
    hide ApplicationText;
    octets := [];
    if service == SVC_READ {
      octets := octets + ApplicationUnsigned(block);
    } else {
      octets := octets + ApplicationUnsigned(block);
      Nested(octets, ApplicationUnsigned(b.byte1), ApplicationUnsigned(b.byte2),
             ApplicationReal(b.bits), ApplicationText(CString(b.str)));
      octets := octets + ApplicationUnsigned(b.byte1);
      octets := octets + ApplicationUnsigned(b.byte2);
      octets := octets + ApplicationReal(b.bits);
      octets := octets + ApplicationText(CString(b.str));
    }
  }

  /** The block 7, 255, 25.0, "A" octet by octet. */
  lemma ExampleBlock(b: DataBlock)
    requires b.byte1 == 7 && b.byte2 == 255 && b.bits == 0x41C8_0000 && b.str[0] == 0x41 && b.str[1] == 0
    ensures BlockOctets(b) == [0x21, 7, 0x21, 255, 0x44, 0x41, 0xC8, 0x00, 0x00, 0x72, 0x00, 0x41]
    ensures ApplicationUnsigned(3) + BlockOctets(b) == [0x21, 3] + BlockOctets(b)
  {
    assert First(b.str, (c: u8) => c == 0) == 1;
    assert CString(b.str) == [0x41];
    assert ApplicationText([0x41]) == [0x72, 0x00, 0x41];
    assert ApplicationReal(0x41C8_0000) == [0x44, 0x41, 0xC8, 0x00, 0x00];
    assert ApplicationUnsigned(7) == [0x21, 7] && ApplicationUnsigned(255) == [0x21, 255];
    assert ApplicationUnsigned(3) == [0x21, 3];
  }

  // ---------- reading values with the tag number checked ----------

  /** Tag and unsigned value at the front, as decode_tag_number_and_value and decode_unsigned read them. */
  function ReadUnsigned(bs: seq<u8>): (r: Option<(u32, nat)>)
    ensures r.Some? ==> r.value.1 <= |bs|
  {
    var h := DecodeHeader(bs);
    if h.None? || h.value.number != TAG_UNSIGNED || h.value.len + h.value.value > |bs| then None
    else Some((DecodeUnsigned(bs[h.value.len..], h.value.value), h.value.len + h.value.value))
  }

  function ReadReal(bs: seq<u8>): (r: Option<(u32, nat)>)
    ensures r.Some? ==> r.value.1 <= |bs|
  {
    var h := DecodeHeader(bs);
    if h.None? || h.value.number != TAG_REAL || h.value.len + 4 > |bs| then None
    else Some((FromU32(bs[h.value.len..]), h.value.len + 4))
  }

  /** The characters of a character string, without the encoding octet. */
  function ReadText(bs: seq<u8>): Option<seq<u8>> {
    var h := DecodeHeader(bs);
    if h.None? || h.value.number != TAG_CHARACTER_STRING || !(1 <= h.value.value <= MAX_TEXT_VALUE) ||
       h.value.len + h.value.value > |bs|
    then None
    else Some(bs[h.value.len + 1..h.value.len + h.value.value])
  }

  lemma UnsignedReads(v: u32, rest: seq<u8>)
    ensures ReadUnsigned(ApplicationUnsigned(v) + rest) == Some((v, |ApplicationUnsigned(v)|))
    ensures (ApplicationUnsigned(v) + rest)[|ApplicationUnsigned(v)|..] == rest
  {
    var o, e := EncodeUnsigned(v), ApplicationUnsigned(v);
    PrimitiveRoundTrip(TAG_UNSIGNED, false, o, rest);
    var h := DecodeHeader(e + rest).value;
    assert (e + rest)[h.len..] == o + rest;
    UnsignedRoundTrip(v, rest);
  }

  lemma RealReads(bits: u32, rest: seq<u8>)
    ensures ReadReal(ApplicationReal(bits) + rest) == Some((bits, |ApplicationReal(bits)|))
    ensures (ApplicationReal(bits) + rest)[|ApplicationReal(bits)|..] == rest
  {
    var e := ApplicationReal(bits);
    PrimitiveRoundTrip(TAG_REAL, false, U32(bits), rest);
    var h := DecodeHeader(e + rest).value;
    assert (e + rest)[h.len..] == U32(bits) + rest;
    U32RoundTrip(bits, rest);
  }

  lemma TextReads(text: seq<u8>)
    requires |text| < MAX_TEXT_VALUE
    ensures ReadText(ApplicationText(text)) == Some(text)
  {
    var v, e := [ANSI_X34] + text, ApplicationText(text);
    PrimitiveRoundTrip(TAG_CHARACTER_STRING, false, v, []);
    assert e + [] == e;
    var h := DecodeHeader(e).value;
    assert e[h.len..h.len + |v|] == v;
    assert e[h.len + 1..h.len + |v|] == v[1..];
  }

  // ---------- the block as both ends decode it ----------

  /** The fields written into b before the first value that does not decode, and whether all were. */
  function DecodeInto(b: DataBlock, bs: seq<u8>): (DataBlock, bool) {
    var r := ReadUnsigned(bs);
    if r.None? then (b, false) else DecodeByte2(b.(byte1 := r.value.0 % 0x100), bs[r.value.1..])
  }

  function DecodeByte2(b: DataBlock, bs: seq<u8>): (DataBlock, bool) {
    var r := ReadUnsigned(bs);
    if r.None? then (b, false) else DecodeReal(b.(byte2 := r.value.0 % 0x100), bs[r.value.1..])
  }

  function DecodeReal(b: DataBlock, bs: seq<u8>): (DataBlock, bool) {
    var r := ReadReal(bs);
    if r.None? then (b, false) else DecodeText(b.(bits := r.value.0), bs[r.value.1..])
  }

  function DecodeText(b: DataBlock, bs: seq<u8>): (DataBlock, bool) {
    var r := ReadText(bs);
    if r.None? then (b, false) else (b.(str := Stored(r.value)), true)
  }

  lemma StoredText(b: DataBlock, into: DataBlock)
    ensures DecodeText(into, ApplicationText(CString(b.str))) == (into.(str := Stored(b.str)), true)
  {
    TextReads(CString(b.str));
    CStringTwice(b.str);
  }

  /** What decoding four consecutive values does, for any octets that read as those values. */
  lemma PartsRead(into: DataBlock, v1: u8, v2: u8, bits: u32, e1: seq<u8>, e2: seq<u8>, e3: seq<u8>, e4: seq<u8>)
    requires ReadUnsigned(e1 + (e2 + (e3 + e4))) == Some((v1 as u32, |e1|))
    requires ReadUnsigned(e2 + (e3 + e4)) == Some((v2 as u32, |e2|))
    requires ReadReal(e3 + e4) == Some((bits, |e3|))
    ensures DecodeInto(into, e1 + (e2 + (e3 + e4))) == DecodeText(into.(byte1 := v1, byte2 := v2, bits := bits), e4)
  {
    hide ReadUnsigned;
    hide ReadReal;
    hide DecodeText;
    assert (e1 + (e2 + (e3 + e4)))[|e1|..] == e2 + (e3 + e4);
    assert (e2 + (e3 + e4))[|e2|..] == e3 + e4;
    assert (e3 + e4)[|e3|..] == e4;
  }

  /** Decoding a printed block gives that block, with the buffer behind its text cleared. */
  lemma BlockReads(b: DataBlock, into: DataBlock)
    ensures DecodeInto(into, BlockOctets(b)) == (b.(str := Stored(b.str)), true)
  {
    var e1, e2, e3, e4 := ApplicationUnsigned(b.byte1), ApplicationUnsigned(b.byte2),
                          ApplicationReal(b.bits), ApplicationText(CString(b.str));
    UnsignedReads(b.byte1, e2 + (e3 + e4));
    UnsignedReads(b.byte2, e3 + e4);
    RealReads(b.bits, e4);
    PartsRead(into, b.byte1, b.byte2, b.bits, e1, e2, e3, e4);
    StoredText(b, into.(byte1 := b.byte1, byte2 := b.byte2, bits := b.bits));
  }

  lemma CStringTwice(bs: seq<u8>)
    ensures CString(CString(bs)) == CString(bs)
  {
    var c := CString(bs);
    assert forall i :: 0 <= i < |c| ==> c[i] == bs[i] && bs[i] != 0;
    assert First(c, (x: u8) => x == 0) == |c|;
  }

  /** A buffer that holds its text and then only NULs is stored as it is. */
  lemma CleanIsStored(text: seq<u8>)
    requires |text| <= MAX_STR && 0 !in text
    ensures CString(text) == text
    ensures Stored(text + seq(MAX_STR + 1 - |text|, _ => 0)) == text + seq(MAX_STR + 1 - |text|, _ => 0)
  {
    var buffer := text + seq(MAX_STR + 1 - |text|, _ => 0);
    assert forall i :: 0 <= i < |text| ==> buffer[i] == text[i] && text[i] in text;
    assert First(buffer, (c: u8) => c == 0) == |text| by {
      assert buffer[|text|] == 0;
    }
    assert CString(buffer) == text;
    assert First(text, (c: u8) => c == 0) == |text|;
  }

  // ---------- the server ----------

  /** Whether the type char of the platform has a sign. */
  datatype Platform = UnsignedChar | SignedChar

  /** The block number cut to a char, as the comparison with the number of blocks sees it. */
  function AsChar(p: Platform, n: u32): int {
    if p.SignedChar? && n % 0x100 >= 0x80 then n % 0x100 - 0x100 else n % 0x100
  }

  /** The reply parameters, an error, or an access to the table in front of its first block. */
  datatype Reply = Answer(octets: seq<u8>) | Error | InFront(index: int)

  /** The blocks after a request, and the reply. */
  function Serve(p: Platform, data: seq<DataBlock>, service: u32, params: seq<u8>): (seq<DataBlock>, Reply)
    requires |data| == MAX_BLOCK
  {
    var n := ReadUnsigned(params);
    if n.None? then (data, Error)
    else
      var block := AsChar(p, n.value.0);
      if block >= MAX_BLOCK then (data, Answer(ApplicationUnsigned(ERR_BAD_INDEX)))
      else if block < 0 then (data, InFront(block))
      else if service == SVC_READ then
        (data, Answer(ApplicationUnsigned(ERR_OK) + (ApplicationUnsigned(block) + BlockOctets(data[block]))))
      else
        var (b, ok) := DecodeInto(data[block], params[n.value.1..]);
        (data[block := b], if ok then Answer(ApplicationUnsigned(ERR_OK)) else Error)
  }

  class Server {
    const data: array<DataBlock>

    constructor ()
      ensures data.Length == MAX_BLOCK && fresh(data)
    {
      data := new DataBlock[MAX_BLOCK](_ => Block(0, 0, 0, Stored([])));
    }

    /** The write branch of ProcessPT: each field goes into the table as soon as it is decoded. */
    method WriteBlock(block: nat, bs: seq<u8>) returns (ok: bool)
      requires data.Length == MAX_BLOCK && block < MAX_BLOCK
      modifies data
      ensures var (b, done) := DecodeInto(old(data[block]), bs);
              ok == done && data[..] == old(data[..])[block := b]
    {
      hide ReadUnsigned;
      hide ReadReal;
      hide ReadText;
      hide Stored;
      var iLen := 0;
      var r := ReadUnsigned(bs[iLen..]);
      if r.None? {
        return false;
      }
      iLen := iLen + r.value.1;
      data[block] := data[block].(byte1 := r.value.0 % 0x100);
      r := ReadUnsigned(bs[iLen..]);
      if r.None? {
        return false;
      }
      ghost var bs1 := bs[iLen..];
      iLen := iLen + r.value.1;
      assert bs1[r.value.1..] == bs[iLen..];
      data[block] := data[block].(byte2 := r.value.0 % 0x100);
      r := ReadReal(bs[iLen..]);
      if r.None? {
        return false;
      }
      ghost var bs2 := bs[iLen..];
      iLen := iLen + r.value.1;
      assert bs2[r.value.1..] == bs[iLen..];
      data[block] := data[block].(bits := r.value.0);
      var text := ReadText(bs[iLen..]);
      if text.None? {
        return false;
      }
      data[block] := data[block].(str := Stored(text.value));
      return true;
    }

    /** ProcessPT; the block number is cut to a char. */
    method ProcessPT(p: Platform, service: u32, params: seq<u8>) returns (reply: Reply)
      requires data.Length == MAX_BLOCK
      modifies data
      ensures (data[..], reply) == Serve(p, old(data[..]), service, params)
    {
      var n := ReadUnsigned(params);
      if n.None? {
        return Error;
      }
      var block := AsChar(p, n.value.0);
      if block < MAX_BLOCK {
        if block < 0 {
          return InFront(block);
        }
        if service == SVC_READ {
          var octets := ApplicationUnsigned(ERR_OK);
          octets := octets + ApplicationUnsigned(block);
          octets := octets + BlockOctets(data[block]);
          assert octets == ApplicationUnsigned(ERR_OK) + (ApplicationUnsigned(block) + BlockOctets(data[block]));
          reply := Answer(octets);
        } else {
          var ok := WriteBlock(block, params[n.value.1..]);
          reply := if ok then Answer(ApplicationUnsigned(ERR_OK)) else Error;
        }
      } else {
        reply := Answer(ApplicationUnsigned(ERR_BAD_INDEX));
      }
    }
  }

  // ---------- the reply ----------

  datatype Reading = Malformed | Failed(error: u32) | Received(block: int, contents: DataBlock)

  /** ProcessPTA for a read request: what it goes on to print. */
  function ReadReply(p: Platform, params: seq<u8>, scratch: DataBlock): Reading {
    var e := ReadUnsigned(params);
    if e.None? then Malformed
    else if e.value.0 != ERR_OK then Failed(e.value.0)
    else
      var rest := params[e.value.1..];
      var n := ReadUnsigned(rest);
      if n.None? || AsChar(p, n.value.0) >= MAX_BLOCK then Malformed
      else
        var (b, ok) := DecodeInto(scratch, rest[n.value.1..]);
        if ok then Received(AsChar(p, n.value.0), b) else Malformed
  }

  /** The replies octet by octet: a bad index, a block written, a block read. */
  lemma RepliesInOctets(p: Platform, data: seq<DataBlock>, block: u8, tail: seq<u8>)
    requires |data| == 8
    ensures var params := [0x21, block] + tail;
            && (8 <= block < 128 ==> Serve(p, data, SVC_READ, params).1 == Answer([0x21, 1]))
            && (block < 8 ==>
                  && Serve(p, data, SVC_READ, params).1 == Answer([0x21, 0, 0x21, block] + BlockOctets(data[block]))
                  && Serve(p, data, SVC_WRITE, params).1 in {Answer([0x21, 0]), Error})
  {
    hide BlockOctets;
    hide DecodeInto;
    var params := [0x21, block] + tail;
    assert DecodeHeader(params) == Some(Header(2, false, 1, 1, 1)) && params[1..][0] == block;
    assert ReadUnsigned(params) == Some((block as u32, 2));
    assert ApplicationUnsigned(0) == [0x21, 0] && ApplicationUnsigned(1) == [0x21, 1];
    assert ApplicationUnsigned(block) == [0x21, block];
    if block < 8 {
      Assoc([0x21, 0], [0x21, block], BlockOctets(data[block]));
      assert [0x21, 0, 0x21, block] == [0x21, 0] + [0x21, block];
    }
  }

  // ---------- write, then read ----------

  function WriteRequest(block: u8, b: DataBlock): seq<u8> {
    ApplicationUnsigned(block) + BlockOctets(b)
  }

  /** A write acknowledges and changes only its block, to the written contents. */
  lemma WriteStores(p: Platform, data: seq<DataBlock>, block: u8, b: DataBlock)
    requires |data| == MAX_BLOCK && block < MAX_BLOCK
    ensures Serve(p, data, SVC_WRITE, WriteRequest(block, b)) ==
            (data[block := b.(str := Stored(b.str))], Answer(ApplicationUnsigned(ERR_OK)))
  {
    hide DecodeInto;
    hide ReadUnsigned;
    hide BlockOctets;
    hide ApplicationUnsigned;
    hide Stored;
    UnsignedReads(block, BlockOctets(b));
    BlockReads(b, data[block]);
  }

  lemma ReadFetches(p: Platform, data: seq<DataBlock>, block: u8, scratch: DataBlock)
    requires |data| == MAX_BLOCK && block < MAX_BLOCK
    ensures Serve(p, data, SVC_READ, ApplicationUnsigned(block)).0 == data
    ensures var reply := Serve(p, data, SVC_READ, ApplicationUnsigned(block)).1;
            && reply.Answer?
            && ReadReply(p, reply.octets, scratch) == Received(block, data[block].(str := Stored(data[block].str)))
  {
    hide DecodeInto;
    hide ReadUnsigned;
    hide BlockOctets;
    hide ApplicationUnsigned;
    hide Stored;
    UnsignedReads(block, []);
    assert ApplicationUnsigned(block) + [] == ApplicationUnsigned(block);
    var rest := ApplicationUnsigned(block) + BlockOctets(data[block]);
    UnsignedReads(ERR_OK, rest);
    UnsignedReads(block, BlockOctets(data[block]));
    BlockReads(data[block], scratch);
  }

  /** Writing a block and reading it back through the protocol yields the same block. */
  lemma WriteThenRead(p: Platform, data: seq<DataBlock>, block: u8, byte1: u8, byte2: u8, bits: u32, text: seq<u8>,
                      scratch: DataBlock)
    requires |data| == MAX_BLOCK && block < MAX_BLOCK
    requires |text| <= MAX_STR && 0 !in text
    ensures var b := Block(byte1, byte2, bits, text + seq(MAX_STR + 1 - |text|, _ => 0));
            var (after, ack) := Serve(p, data, SVC_WRITE, WriteRequest(block, b));
            var (same, reply) := Serve(p, after, SVC_READ, ApplicationUnsigned(block));
            && after == same == data[block := b]
            && reply.Answer? && ReadReply(p, reply.octets, scratch) == Received(block, b)
  {
    var b: DataBlock := Block(byte1, byte2, bits, text + seq(MAX_STR + 1 - |text|, _ => 0));
    CleanIsStored(text);
    WriteStores(p, data, block, b);
    ReadFetches(p, data[block := b], block, scratch);
  }

  lemma StoredTwice(bs: seq<u8>)
    ensures Stored(Stored(bs)) == Stored(bs)
  {
    var c := CString(bs);
    var text := c[..Min(|c|, MAX_STR)];
    assert forall i :: 0 <= i < |c| ==> c[i] == bs[i] && bs[i] != 0;
    CleanIsStored(text);
  }

  /** Any block, cut to what the table holds, is fetched after it was sent. */
  lemma FetchedAfterSent(p: Platform, data: seq<DataBlock>, block: u8, b: DataBlock, scratch: DataBlock)
    requires |data| == MAX_BLOCK && block < MAX_BLOCK
    ensures var c := b.(str := Stored(b.str));
            var (after, ack) := Serve(p, data, SVC_WRITE, WriteRequest(block, b));
            var (same, reply) := Serve(p, after, SVC_READ, ApplicationUnsigned(block));
            && after == same == data[block := c]
            && reply.Answer? && ReadReply(p, reply.octets, scratch) == Received(block, c)
  {
    hide Serve;
    hide ReadReply;
    hide Stored;
    WriteStores(p, data, block, b);
    ReadFetches(p, data[block := b.(str := Stored(b.str))], block, scratch);
    StoredTwice(b.str);
  }

  /** Client and server: a block is sent with a write request, asked for with a read request, and decoded. */
  method SendThenFetch(p: Platform, server: Server, block: u8, b: DataBlock, scratch: DataBlock)
    returns (reading: Reading)
    requires server.data.Length == MAX_BLOCK && block < MAX_BLOCK
    modifies server.data
    ensures var c := b.(str := Stored(b.str));
            server.data[..] == old(server.data[..])[block := c] && reading == Received(block, c)
  {
    hide Serve;
    hide ReadReply;
    hide Stored;
    hide ApplicationUnsigned;
    hide BlockOctets;
    FetchedAfterSent(p, server.data[..], block, b, scratch);
    var params := EncodeRequest(SVC_WRITE, block, b);
    var ack := server.ProcessPT(p, SVC_WRITE, params);
    params := EncodeRequest(SVC_READ, block, b);
    assert params == ApplicationUnsigned(block);
    var reply := server.ProcessPT(p, SVC_READ, params);
    reading := ReadReply(p, reply.octets, scratch);
  }

  /**
   A block number that reads as 8 or more changes nothing and is reported as such for both services; on a platform
   whose char has a sign, one from 128 to 255 reaches in front of the table instead.
   */
  lemma BadIndexRefused(p: Platform, data: seq<DataBlock>, service: u32, block: u8, tail: seq<u8>,
                        scratch: DataBlock)
    requires |data| == 8 <= block
    ensures var (after, reply) := Serve(p, data, service, ApplicationUnsigned(block) + tail);
            && after == data
            && (if p.SignedChar? && block >= 0x80 then reply == InFront(block - 0x100)
                else reply.Answer? && ReadReply(p, reply.octets, scratch) == Failed(ERR_BAD_INDEX))
  {
    hide ReadUnsigned;
    hide ApplicationUnsigned;
    UnsignedReads(block, tail);
    UnsignedReads(ERR_BAD_INDEX, []);
    assert ApplicationUnsigned(ERR_BAD_INDEX) + [] == ApplicationUnsigned(ERR_BAD_INDEX);
  }
}
