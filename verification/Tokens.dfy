/**
 Octets as a sequence of tags: the structure of clause 20.2.1 of ASHRAE 135. Printing a token list and
 reading it back are inverse, and constructed data is well formed when its tags are bracketed.
 */
module Tokens {
  import opened Octets
  import opened Tags

  /** An application-tagged Boolean carries its value in the tag (clause 20.2.3) and has no octets of its own. */
  datatype Token =
    | Open(number: u8)
    | Close(number: u8)
    | Flag(value: bool)
    | Prim(number: u8, context: bool, octets: seq<u8>)
  {
    predicate Printable() {
      Prim? ==> |octets| < 0x1_0000_0000 && (context || number != TAG_BOOLEAN)
    }
  }

  predicate Printable(ts: seq<Token>) {
    forall i :: 0 <= i < |ts| ==> ts[i].Printable()
  }

  function PrintToken(t: Token): seq<u8>
    requires t.Printable()
  {
    match t
    case Open(n) => OpeningTag(n)
    case Close(n) => ClosingTag(n)
    case Flag(v) => EncodeTag(TAG_BOOLEAN, false, if v then 1 else 0)
    case Prim(n, context, octets) => Tagged(n, context, octets)
  }

  function Printed(ts: seq<Token>): seq<seq<u8>>
    requires Printable(ts)
  {
    seq(|ts|, i requires 0 <= i < |ts| => PrintToken(ts[i]))
  }

  function Print(ts: seq<Token>): seq<u8>
    requires Printable(ts)
  {
    Flatten(Printed(ts))
  }

  /** The tags in the octets, or None when the octets are not a whole number of tagged items. */
  ghost function Scan(bs: seq<u8>): Option<seq<Token>>
    decreases |bs|
  {
    if bs == [] then Some([])
    else
      var h := DecodeHeader(bs);
      if h.None? then None
      else if h.value.low >= 6 then
        var rest := Scan(bs[h.value.len..]);
        if rest.None? then None
        else Some([if h.value.low == 6 then Open(h.value.number) else Close(h.value.number)] + rest.value)
      else if !h.value.context && h.value.number == TAG_BOOLEAN then
        var rest := Scan(bs[h.value.len..]);
        if rest.None? then None else Some([Flag(h.value.value != 0)] + rest.value)
      else if h.value.len + h.value.value > |bs| then None
      else
        var end := h.value.len + h.value.value;
        var rest := Scan(bs[end..]);
        if rest.None? then None
        else Some([Prim(h.value.number, h.value.context, bs[h.value.len..end])] + rest.value)
  }

  lemma ScanToken(t: Token, rest: seq<u8>)
    requires t.Printable()
    ensures Scan(PrintToken(t) + rest) == if Scan(rest).None? then None else Some([t] + Scan(rest).value)
  {
    var bs := PrintToken(t) + rest;
    match t
    case Open(n) =>
      OpeningRoundTrip(n, rest);
      assert bs[|OpeningTag(n)|..] == rest;
    case Close(n) =>
      ClosingRoundTrip(n, rest);
      assert bs[|ClosingTag(n)|..] == rest;
    case Flag(v) =>
      TagRoundTrip(TAG_BOOLEAN, false, if v then 1 else 0, rest);
      assert bs[|EncodeTag(TAG_BOOLEAN, false, if v then 1 else 0)|..] == rest;
    case Prim(n, context, octets) =>
      PrimitiveRoundTrip(n, context, octets, rest);
      assert bs[|EncodeTag(n, context, |octets|)|..][..|octets|] == octets;
  }

  lemma PrintCons(ts: seq<Token>)
    requires Printable(ts) && ts != []
    ensures Print(ts) == PrintToken(ts[0]) + Print(ts[1..])
    ensures ts == [ts[0]] + ts[1..]
  {
    assert Printed(ts)[1..] == Printed(ts[1..]);
  }

  lemma {:induction false} ScanInvertsPrint(ts: seq<Token>)
    requires Printable(ts)
    ensures Scan(Print(ts)) == Some(ts)
    decreases |ts|
  {
    if ts != [] {
      ScanInvertsPrint(ts[1..]);
      PrintCons(ts);
      ScanToken(ts[0], Print(ts[1..]));
    }
  }

  lemma PrintAppends(s: seq<Token>, t: seq<Token>)
    requires Printable(s) && Printable(t)
    ensures Printable(s + t) && Print(s + t) == Print(s) + Print(t)
  {
    assert Printed(s + t) == Printed(s) + Printed(t);
    FlattenAppends(Printed(s), Printed(t));
  }

  // ---------- nesting ----------

  /** The tags still open after ts, innermost first; None when a closing tag does not match. */
  ghost function Nest(ts: seq<Token>, open: seq<u8>): Option<seq<u8>>
    decreases |ts|
  {
    if ts == [] then Some(open)
    else
      match ts[0]
      case Open(n) => Nest(ts[1..], [n] + open)
      case Close(n) => if open != [] && open[0] == n then Nest(ts[1..], open[1..]) else None
      case _ => Nest(ts[1..], open)
  }

  /** Whatever ts opens it closes again, in order. */
  ghost predicate Level(ts: seq<Token>) {
    forall open :: Nest(ts, open) == Some(open)
  }

  function Wrap(n: u8, ts: seq<Token>): seq<Token> {
    [Open(n)] + ts + [Close(n)]
  }

  lemma {:induction false} NestAppends(s: seq<Token>, t: seq<Token>, open: seq<u8>)
    ensures Nest(s + t, open) == if Nest(s, open).None? then None else Nest(t, Nest(s, open).value)
    decreases |s|
  {
    if s == [] {
      assert s + t == t;
    } else {
      assert (s + t)[1..] == s[1..] + t;
      match s[0]
      case Open(n) => NestAppends(s[1..], t, [n] + open);
      case Close(n) => NestAppends(s[1..], t, if open == [] then [] else open[1..]);
      case _ => NestAppends(s[1..], t, open);
    }
  }

  lemma LevelAppends(s: seq<Token>, t: seq<Token>)
    requires Level(s) && Level(t)
    ensures Level(s + t)
  {
    forall open
      ensures Nest(s + t, open) == Some(open)
    {
      NestAppends(s, t, open);
    }
  }

  lemma LevelWraps(n: u8, ts: seq<Token>)
    requires Level(ts)
    ensures Level(Wrap(n, ts))
  {
    forall open
      ensures Nest(Wrap(n, ts), open) == Some(open)
    {
      var w := [n] + open;
      NestAppends([Open(n)] + ts, [Close(n)], open);
      assert ([Open(n)] + ts)[1..] == ts;
      assert Nest([Open(n)] + ts, open) == Nest(ts, w) == Some(w);
      assert [Close(n)][1..] == [] && w[1..] == open;
    }
  }

  lemma LevelValue(t: Token)
    requires t.Prim? || t.Flag?
    ensures Level([t])
  {
    assert [t][1..] == [];
  }
}
