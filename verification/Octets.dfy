/** Machine integers of the C sources and the few sequence helpers shared by all modules. */
module Octets {
  type u8 = n: nat | n < 0x100
  type u16 = n: nat | n < 0x1_0000
  type u32 = n: nat | n < 0x1_0000_0000

  datatype Option<+T> = None | Some(value: T)

  function Min(a: nat, b: nat): nat {
    if a <= b then a else b
  }

  /** Index of the first element that satisfies p, or |s| when there is none. */
  function First<T>(s: seq<T>, p: T -> bool): (r: nat)
    ensures r <= |s|
    ensures r < |s| ==> p(s[r])
    ensures forall j :: 0 <= j < r ==> !p(s[j])
  {
    if s == [] then 0 else if p(s[0]) then 0 else 1 + First(s[1..], p)
  }

  ghost function Below(n: nat): (r: set<nat>)
    ensures forall i :: i in r <==> 0 <= i < n
    ensures |r| == n
  {
    if n == 0 then {} else Below(n - 1) + {n - 1}
  }

  lemma {:induction false} InjectiveSize<T>(f: map<T, nat>)
    requires forall x, y :: x in f && y in f && f[x] == f[y] ==> x == y
    ensures |f.Keys| == |f.Values|
    decreases |f|
  {
    if f.Keys == {} {
      assert f.Values == {};
    } else {
      var x :| x in f;
      var rest := f - {x};
      InjectiveSize(rest);
      assert rest.Keys == f.Keys - {x};
      forall v | v in f.Values - {f[x]}
        ensures v in rest.Values
      {
        var y :| y in f && f[y] == v;
        assert y in rest && rest[y] == v;
      }
      assert rest.Values == f.Values - {f[x]};
    }
  }

  /** Different things placed on places below n: at most n of them, and n only if no place is empty. */
  lemma Pigeonhole<T>(f: map<T, nat>, n: nat)
    requires forall x, y :: x in f && y in f && f[x] == f[y] ==> x == y
    requires forall x :: x in f ==> f[x] < n
    ensures |f.Keys| <= n
    ensures |f.Keys| == n <==> Below(n) <= f.Values
  {
    InjectiveSize(f);
    assert f.Values <= Below(n);
    SubsetSize(f.Values, Below(n));
  }

  lemma SubsetSize<T>(a: set<T>, b: set<T>)
    requires a <= b
    ensures |a| <= |b|
    ensures |a| == |b| <==> b <= a
  {
    var rest := b - a;
    assert b == a + rest;
    assert rest == {} <==> b <= a;
  }

  // ---------- concatenation ----------

  lemma Assoc<T>(a: seq<T>, b: seq<T>, c: seq<T>)
    ensures a + b + c == a + (b + c)
  {
  }

  lemma Drops<T>(e: seq<T>, post: seq<T>)
    ensures (e + post)[|e|..] == post && |e| <= |e + post|
    ensures (e + post)[..|e|] == e
  {
  }

  function Flatten<T>(ss: seq<seq<T>>): seq<T> {
    if ss == [] then [] else ss[0] + Flatten(ss[1..])
  }

  lemma {:induction false} FlattenAppends<T>(ss: seq<seq<T>>, ts: seq<seq<T>>)
    ensures Flatten(ss + ts) == Flatten(ss) + Flatten(ts)
    decreases |ss|
  {
    if ss == [] {
      assert ss + ts == ts;
    } else {
      FlattenAppends(ss[1..], ts);
      assert (ss + ts)[1..] == ss[1..] + ts;
    }
  }

  lemma FlattenOne<T>(ss: seq<seq<T>>, n: nat)
    requires n < |ss|
    ensures Flatten(ss[..n + 1]) == Flatten(ss[..n]) + ss[n]
  {
    var one := [ss[n]];
    FlattenAppends(ss[..n], one);
    assert ss[..n + 1] == ss[..n] + one;
    assert one[1..] == [];
  }

  lemma FlattenNothing<T>(ss: seq<seq<T>>)
    ensures Flatten(ss[..0]) == []
  {
  }

  lemma FlattenPrefix<T>(ss: seq<seq<T>>, n: nat)
    requires n <= |ss|
    ensures Flatten(ss[..n]) <= Flatten(ss)
  {
    hide Flatten;
    FlattenAppends(ss[..n], ss[n..]);
    assert ss[..n] + ss[n..] == ss;
  }
}
