/**
 Linked lists in an explicit heap: nodes live at addresses, a list is a chain of nodes by their next
 pointers, and a heap holds a list beside a base when the nodes added to the base are exactly the list's.
 */
module Chains {
  import opened Octets

  /** An address; 0 is the null pointer. */
  type Ptr = nat

  datatype Node<+D> = Node(data: D, next: Ptr)
  datatype Cell<+D> = Cell(ptr: Ptr, data: D)
  datatype Binding<+D> = Binding(ptr: Ptr, node: Node<D>)

  type Memory<D> = map<Ptr, Node<D>>

  /** Where a chain begins that goes on at end. */
  function Start<D>(c: seq<Cell<D>>, end: Ptr): Ptr {
    if c == [] then end else c[0].ptr
  }

  /** The nodes of a chain that goes on at end. */
  function Links<D>(c: seq<Cell<D>>, end: Ptr): seq<Binding<D>> {
    seq(|c|, i requires 0 <= i < |c| =>
      Binding(c[i].ptr, Node(c[i].data, if i + 1 < |c| then c[i + 1].ptr else end)))
  }

  /** The memory m is base and, at other addresses, the bindings, each at its own. */
  ghost predicate Holds<D>(m: Memory<D>, base: Memory<D>, bs: seq<Binding<D>>) {
    && (forall k :: k in base ==> k in m && m[k] == base[k])
    && (forall i :: 0 <= i < |bs| ==> Bound(m, base, bs[i]))
    && (forall i, j :: 0 <= i < j < |bs| ==> bs[i].ptr != bs[j].ptr)
    && (forall k :: k in m && k !in base ==> exists i :: 0 <= i < |bs| && bs[i].ptr == k)
  }

  ghost predicate Bound<D>(m: Memory<D>, base: Memory<D>, b: Binding<D>) {
    b.ptr != 0 && b.ptr !in base && b.ptr in m && m[b.ptr] == b.node
  }

  // ---------- bindings ----------

  lemma HoldsNothing<D>(m: Memory<D>, base: Memory<D>)
    ensures Holds(m, base, []) <==> m == base
  {
    if Holds(m, base, []) {
      assert forall k :: k in m ==> k in base;
      assert m.Keys == base.Keys;
    }
  }

  lemma HoldsMore<D>(m: Memory<D>, base: Memory<D>, bs: seq<Binding<D>>, p: Ptr, n: Node<D>)
    requires Holds(m, base, bs) && p != 0 && p !in m
    ensures Holds(m[p := n], base, bs + [Binding(p, n)])
  {
    var m', bs' := m[p := n], bs + [Binding(p, n)];
    forall k | k in m' && k !in base
      ensures exists i :: 0 <= i < |bs'| && bs'[i].ptr == k
    {
      if k == p {
        assert bs'[|bs|].ptr == k;
      } else {
        var i :| 0 <= i < |bs| && bs[i].ptr == k;
        assert bs'[i].ptr == k;
      }
    }
  }

  lemma HoldsUpdated<D>(m: Memory<D>, base: Memory<D>, bs: seq<Binding<D>>, i: nat, n: Node<D>)
    requires Holds(m, base, bs) && i < |bs|
    ensures Holds(m[bs[i].ptr := n], base, bs[i := Binding(bs[i].ptr, n)])
  {
    var m', bs' := m[bs[i].ptr := n], bs[i := Binding(bs[i].ptr, n)];
    forall j | 0 <= j < |bs'|
      ensures Bound(m', base, bs'[j])
    {
      assert Bound(m, base, bs[j]) && Bound(m, base, bs[i]);
    }
    forall k | k in m' && k !in base
      ensures exists j :: 0 <= j < |bs'| && bs'[j].ptr == k
    {
      var j :| 0 <= j < |bs| && bs[j].ptr == k;
      assert bs'[j].ptr == k;
    }
  }

  /** Two layers of nodes over a base are one. */
  lemma HoldsJoined<D>(m: Memory<D>, mid: Memory<D>, base: Memory<D>, a: seq<Binding<D>>, b: seq<Binding<D>>)
    requires Holds(mid, base, a) && Holds(m, mid, b)
    ensures Holds(m, base, a + b)
  {
    var bs := a + b;
    forall i | 0 <= i < |bs|
      ensures Bound(m, base, bs[i])
    {
      if i < |a| {
        assert Bound(mid, base, a[i]);
      } else {
        assert Bound(m, mid, b[i - |a|]);
      }
    }
    forall i, j | 0 <= i < j < |bs|
      ensures bs[i].ptr != bs[j].ptr
    {
      if i < |a| <= j {
        assert Bound(mid, base, a[i]) && Bound(m, mid, b[j - |a|]);
      }
    }
    forall k | k in m && k !in base
      ensures exists i :: 0 <= i < |bs| && bs[i].ptr == k
    {
      if k in mid {
        var i :| 0 <= i < |a| && a[i].ptr == k;
        assert bs[i].ptr == k;
      } else {
        var i :| 0 <= i < |b| && b[i].ptr == k;
        assert bs[|a| + i].ptr == k;
      }
    }
  }

  ghost function Without<D>(m: Memory<D>, bs: seq<Binding<D>>): (r: Memory<D>)
    ensures forall k :: k in r <==> k in m && forall i :: 0 <= i < |bs| ==> bs[i].ptr != k
    ensures forall k :: k in r ==> r[k] == m[k]
  {
    map k | k in m && forall i :: 0 <= i < |bs| ==> bs[i].ptr != k :: m[k]
  }

  /** One layer of nodes taken apart into two. */
  lemma HoldsSplit<D>(m: Memory<D>, base: Memory<D>, a: seq<Binding<D>>, b: seq<Binding<D>>)
    requires Holds(m, base, a + b)
    ensures Holds(Without(m, a), base, b) && Holds(m, Without(m, a), a)
  {
    var bs, mid := a + b, Without(m, a);
    assert forall i :: 0 <= i < |a| ==> a[i] == bs[i];
    assert forall i :: 0 <= i < |b| ==> b[i] == bs[|a| + i];
    forall k | k in base
      ensures k in mid
    {
      assert forall i :: 0 <= i < |a| ==> Bound(m, base, bs[i]);
    }
    forall i | 0 <= i < |b|
      ensures Bound(mid, base, b[i])
    {
      assert Bound(m, base, bs[|a| + i]);
      assert forall j :: 0 <= j < |a| ==> bs[j].ptr != bs[|a| + i].ptr;
    }
    forall i | 0 <= i < |a|
      ensures Bound(m, mid, a[i])
    {
      assert Bound(m, base, bs[i]);
    }
    forall k | k in mid && k !in base
      ensures exists i :: 0 <= i < |b| && b[i].ptr == k
    {
      var i :| 0 <= i < |bs| && bs[i].ptr == k;
      assert i >= |a|;
      assert b[i - |a|].ptr == k;
    }
  }

  lemma HoldsOne<D>(m: Memory<D>, base: Memory<D>, b: Binding<D>)
    requires Holds(m, base, [b])
    ensures b.ptr in m && m[b.ptr] == b.node && m - {b.ptr} == base
  {
    assert Bound(m, base, [b][0]);
    assert (m - {b.ptr}).Keys == base.Keys;
  }

  // ---------- chains ----------

  lemma BoundAt<D>(m: Memory<D>, base: Memory<D>, bs: seq<Binding<D>>, i: nat)
    requires Holds(m, base, bs) && i < |bs|
    ensures Bound(m, base, bs[i])
    ensures forall j :: 0 <= j < |bs| && j != i ==> bs[j].ptr != bs[i].ptr
  {
  }

  lemma LinksCons<D>(c: seq<Cell<D>>, end: Ptr)
    requires c != []
    ensures Links(c, end) == [Binding(c[0].ptr, Node(c[0].data, Start(c[1..], end)))] + Links(c[1..], end)
  {
  }

  lemma LinksGrow<D>(c: seq<Cell<D>>, x: Cell<D>, p: Ptr, d: D)
    ensures var bs := Links(c + [x], 0);
            && |bs| == |c| + 1 && bs[|c|] == Binding(x.ptr, Node(x.data, 0))
            && (bs + [Binding(p, Node(d, 0))])[|c| := Binding(x.ptr, Node(x.data, p))] ==
               Links(c + [x] + [Cell(p, d)], 0)
  {
  }

  /** A node is allocated behind the last one and then linked to it. */
  lemma ChainGrows<D>(m: Memory<D>, base: Memory<D>, c: seq<Cell<D>>, x: Cell<D>, p: Ptr, d: D)
    requires Holds(m, base, Links(c + [x], 0)) && p != 0 && p !in m
    ensures x.ptr in m && m[x.ptr] == Node(x.data, 0)
    ensures Holds(m[p := Node(d, 0)][x.ptr := Node(x.data, p)], base, Links(c + [x] + [Cell(p, d)], 0))
  {
    var bs := Links(c + [x], 0);
    BoundAt(m, base, bs, |c|);
    LinksGrow(c, x, p, d);
    hide Holds;
    hide Links;
    HoldsMore(m, base, bs, p, Node(d, 0));
    HoldsUpdated(m[p := Node(d, 0)], base, bs + [Binding(p, Node(d, 0))], |c|, Node(x.data, p));
  }

  /** The last node of a chain gets new data. */
  lemma ChainFilled<D>(m: Memory<D>, base: Memory<D>, c: seq<Cell<D>>, x: Cell<D>, d: D)
    requires Holds(m, base, Links(c + [x], 0))
    ensures x.ptr in m && m[x.ptr] == Node(x.data, 0)
    ensures Holds(m[x.ptr := Node(d, 0)], base, Links(c + [Cell(x.ptr, d)], 0))
  {
    var bs := Links(c + [x], 0);
    BoundAt(m, base, bs, |c|);
    hide Holds;
    HoldsUpdated(m, base, bs, |c|, Node(d, 0));
    assert bs[|c| := Binding(x.ptr, Node(d, 0))] == Links(c + [Cell(x.ptr, d)], 0);
  }

  /** The last node is unlinked from the one before and freed. */
  lemma ChainShrinks<D>(m: Memory<D>, base: Memory<D>, c: seq<Cell<D>>, x: Cell<D>)
    requires Holds(m, base, Links(c + [x], 0))
    ensures x.ptr in m
    ensures c == [] ==> m[x.ptr := Node(x.data, 0)] - {x.ptr} == base
    ensures c != [] ==>
              var last := c[|c| - 1];
              && last.ptr in m && m[last.ptr].data == last.data && last.ptr != x.ptr && c[0].ptr != x.ptr
              && Holds(m[last.ptr := Node(last.data, 0)] - {x.ptr}, base, Links(c, 0))
  {
    var bs := Links(c + [x], 0);
    BoundAt(m, base, bs, |c|);
    hide Holds;
    if c == [] {
      assert bs == [Binding(x.ptr, Node(x.data, 0))];
      HoldsOne(m, base, bs[0]);
      assert m[x.ptr := Node(x.data, 0)] - {x.ptr} == m - {x.ptr};
    } else {
      var last := c[|c| - 1];
      BoundAt(m, base, bs, |c| - 1);
      assert bs[0].ptr != bs[|c|].ptr;
      var m' := m[last.ptr := Node(last.data, 0)];
      HoldsUpdated(m, base, bs, |c| - 1, Node(last.data, 0));
      var tail := [Binding(x.ptr, Node(x.data, 0))];
      assert bs[|c| - 1 := Binding(last.ptr, Node(last.data, 0))] == Links(c, 0) + tail;
      HoldsSwapped(m', base, Links(c, 0), tail);
      HoldsSplit(m', base, tail, Links(c, 0));
      HoldsOne(m', Without(m', tail), tail[0]);
    }
  }

  /** The same by the address of the node before the last, or of the last when it is alone. */
  lemma ChainDrops<D>(m: Memory<D>, base: Memory<D>, c: seq<Cell<D>>, x: Cell<D>, previous: Ptr)
    requires Holds(m, base, Links(c + [x], 0))
    requires previous == if c == [] then x.ptr else c[|c| - 1].ptr
    ensures previous in m && x.ptr in m && (c != [] ==> c[0].ptr != x.ptr)
    ensures Holds(m[previous := m[previous].(next := 0)] - {x.ptr}, base, Links(c, 0))
  {
    ChainShrinks(m, base, c, x);
    hide Holds;
    if c == [] {
      HoldsNothing(base, base);
      assert Links(c, 0) == [];
      assert m[x.ptr := Node(x.data, 0)] - {x.ptr} == m[previous := m[previous].(next := 0)] - {x.ptr};
    }
  }

  lemma HoldsSwapped<D>(m: Memory<D>, base: Memory<D>, a: seq<Binding<D>>, b: seq<Binding<D>>)
    requires Holds(m, base, a + b)
    ensures Holds(m, base, b + a)
  {
    hide Holds;
    hide Without;
    HoldsSplit(m, base, a, b);
    HoldsJoined(m, Without(m, a), base, b, a);
  }

  /** The first node is read and freed. */
  lemma ChainPops<D>(m: Memory<D>, base: Memory<D>, c: seq<Cell<D>>)
    requires Holds(m, base, Links(c, 0)) && c != []
    ensures c[0].ptr != 0 && c[0].ptr in m && m[c[0].ptr] == Node(c[0].data, Start(c[1..], 0))
    ensures Holds(m - {c[0].ptr}, base, Links(c[1..], 0))
  {
    LinksCons(c, 0);
    var first := [Binding(c[0].ptr, Node(c[0].data, Start(c[1..], 0)))];
    HoldsSplit(m, base, first, Links(c[1..], 0));
    HoldsOne(m, Without(m, first), first[0]);
    assert Bound(m, Without(m, first), first[0]);
  }

  // ---------- fresh addresses ----------

  /** The lowest free address. */
  method FreeAddress<D>(m: Memory<D>) returns (p: Ptr)
    ensures p != 0 && p !in m
    ensures forall k :: 0 < k < p ==> k in m
  {
    p := 1;
    while p in m
      invariant p > 0 && forall k :: 0 < k < p ==> k in m
      decreases |m| + 1 - p
    {
      Crowded(m.Keys, p + 1);
      p := p + 1;
    }
  }

  lemma Crowded(keys: set<Ptr>, n: nat)
    requires n > 0 && forall k :: 0 < k < n ==> k in keys
    ensures n - 1 <= |keys|
  {
    var low := Below(n) - {0};
    assert Below(n) == low + {0};
    assert low <= keys;
    assert keys == low + (keys - low);
  }
}
