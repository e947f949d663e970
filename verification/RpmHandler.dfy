/**
 handler_read_property_multiple_ack: what the parser has allocated is freed node by node, and the heap is
 left as it was found.
 */
module RpmHandler {
  import opened Octets
  import opened Chains
  import opened Rpm

  /** The innermost freeing loop: one list of values. */
  method FreeValues(heap: Heap, first: Ptr, ghost c: seq<Cell<Value>>, ghost base: Memory<Value>)
    requires heap.Valid() && first == Start(c, 0) && Holds(heap.values, base, Links(c, 0))
    modifies heap`values
    ensures heap.Valid() && heap.values == base
  {
    hide Holds;
    var value := first;
    ghost var left := c;
    while value != 0
      invariant heap.Valid() && value == Start(left, 0) && Holds(heap.values, base, Links(left, 0))
      decreases |left|
    {
      ChainPops(heap.values, base, left);
      var oldValue := value;
      value := heap.values[value].next;
      heap.FreeValue(oldValue);
      left := left[1..];
    }
    if left != [] {
      ChainPops(heap.values, base, left);
    }
    assert Links(left, 0) == [];
    HoldsNothing(heap.values, base);
  }

  lemma CellsCons(ps: seq<PropertyTree>)
    requires ps != []
    ensures Cells(ps)[0] == Cell(ps[0].ptr, ps[0].data) && Cells(ps)[1..] == Cells(ps[1..])
  {
  }

  /** The first property of a list can be freed together with its values. */
  lemma PropertyPops(mp: Memory<PropertyData>, baseP: Memory<PropertyData>, mv: Memory<Value>, baseV: Memory<Value>,
                     ps: seq<PropertyTree>)
    requires ps != [] && Listed(mp, baseP, mv, baseV, ps)
    ensures var t := ps[0];
            && t.ptr != 0 && t.ptr in mp
            && mp[t.ptr] == Node(t.data, Start(Cells(ps[1..]), 0)) && t.data.value == Start(t.values, 0)
    ensures var mid := Without(mv, Links(ps[0].values, 0));
            && Holds(mv, mid, Links(ps[0].values, 0))
            && Listed(mp - {ps[0].ptr}, baseP, mid, baseV, ps[1..])
  {
    hide Holds;
    hide Without;
    CellsCons(ps);
    ChainPops(mp, baseP, Cells(ps));
    HoldsSplit(mv, baseV, Links(ps[0].values, 0), ValueLinks(ps[1..]));
  }

  lemma NothingListed(mp: Memory<PropertyData>, baseP: Memory<PropertyData>, mv: Memory<Value>, baseV: Memory<Value>)
    requires Listed(mp, baseP, mv, baseV, [])
    ensures mp == baseP && mv == baseV
  {
    hide Holds;
    HoldsNothing(mp, baseP);
    HoldsNothing(mv, baseV);
    assert Links(Cells([]), 0) == [];
  }

  /** The freeing loop over the properties of one object. */
  method FreeProperties(heap: Heap, first: Ptr, ghost ps: seq<PropertyTree>,
                        ghost baseP: Memory<PropertyData>, ghost baseV: Memory<Value>)
    requires heap.Valid() && first == Start(Cells(ps), 0) && Listed(heap.properties, baseP, heap.values, baseV, ps)
    modifies heap`properties, heap`values
    ensures heap.Valid() && heap.properties == baseP && heap.values == baseV
  {
    hide Listed;
    hide Holds;
    hide Without;
    var property := first;
    ghost var left := ps;
    while property != 0
      invariant heap.Valid()
      invariant property == Start(Cells(left), 0) && Listed(heap.properties, baseP, heap.values, baseV, left)
      decreases |left|
    {
      PropertyPops(heap.properties, baseP, heap.values, baseV, left);
      FreeValues(heap, heap.properties[property].data.value, left[0].values,
                 Without(heap.values, Links(left[0].values, 0)));
      var oldProperty := property;
      property := heap.properties[property].next;
      heap.FreeProperty(oldProperty);
      left := left[1..];
    }
    if left != [] {
      PropertyPops(heap.properties, baseP, heap.values, baseV, left);
    }
    NothingListed(heap.properties, baseP, heap.values, baseV);
  }

  lemma ObjectCellsCons(os: seq<ObjectTree>)
    requires os != []
    ensures ObjectCells(os)[0] == Cell(os[0].ptr, os[0].data) && ObjectCells(os)[1..] == ObjectCells(os[1..])
  {
  }

  /** The base of the first object's own lists: all but those lists. */
  ghost function Others(m: Base, o: ObjectTree): Base {
    Base(m.objects - {o.ptr}, Without(m.properties, Links(Cells(o.properties), 0)),
         Without(m.values, ValueLinks(o.properties)))
  }

  /** The first object of the list can be freed together with its properties and their values. */
  lemma ObjectPops(m: Base, base: Base, os: seq<ObjectTree>)
    requires os != [] && Stored(m, base, os)
    ensures var o := os[0];
            && o.ptr != 0 && o.ptr in m.objects
            && m.objects[o.ptr] == Node(o.data, Start(ObjectCells(os[1..]), 0))
            && o.data.properties == Start(Cells(o.properties), 0)
    ensures Listed(m.properties, Others(m, os[0]).properties, m.values, Others(m, os[0]).values, os[0].properties)
    ensures Stored(Others(m, os[0]), base, os[1..])
  {
    hide Holds;
    hide Without;
    ObjectCellsCons(os);
    ChainPops(m.objects, base.objects, ObjectCells(os));
    HoldsSplit(m.properties, base.properties, Links(Cells(os[0].properties), 0), PropertyLinks(os[1..]));
    HoldsSplit(m.values, base.values, ValueLinks(os[0].properties), AllValueLinks(os[1..]));
  }

  lemma NothingStored(m: Base, base: Base)
    requires Stored(m, base, [])
    ensures m == base
  {
    hide Holds;
    HoldsNothing(m.objects, base.objects);
    HoldsNothing(m.properties, base.properties);
    HoldsNothing(m.values, base.values);
    assert Links(ObjectCells([]), 0) == [];
  }

  /** The outermost freeing loop. */
  method FreeObjects(heap: Heap, first: Ptr, ghost os: seq<ObjectTree>, ghost base: Base)
    requires heap.Valid() && first == Start(ObjectCells(os), 0) && Stored(heap.State(), base, os)
    modifies heap`objects, heap`properties, heap`values
    ensures heap.Valid() && heap.State() == base
  {
    hide Stored;
    hide Listed;
    hide Without;
    var data := first;
    ghost var left := os;
    while data != 0
      invariant heap.Valid()
      invariant data == Start(ObjectCells(left), 0) && Stored(heap.State(), base, left)
      decreases |left|
    {
      ghost var others := Others(heap.State(), left[0]);
      ObjectPops(heap.State(), base, left);
      FreeProperties(heap, heap.objects[data].data.properties, left[0].properties, others.properties, others.values);
      var oldData := data;
      data := heap.objects[data].next;
      heap.FreeObject(oldData);
      left := left[1..];
    }
    if left != [] {
      ObjectPops(heap.State(), base, left);
    }
    NothingStored(heap.State(), base);
  }

  /** How the handler ends: all nodes are freed, or the freeing loop reads one that is free already. */
  datatype Ending = AllFreed | ReadsFreed(node: Ptr)

  /**
   The handler, for well-formed and malformed octets alike and any amount of memory. It frees every node that
   was allocated for the acknowledgement exactly once, and no other, so that the heap is as before; except that
   the parser has freed the handler's own node exactly when the first object identifier does not decode. Then
   the heap is as before already, and the freeing loop starts at a node that is no longer in it.
   */
  method Handle(d: Decoders, heap: Heap, apdu: seq<u8>) returns (len: int, ending: Ending)
    requires InBounds(d) && heap.Valid()
    modifies heap
    ensures heap.Valid() && heap.State() == old(heap.State())
    ensures ending.ReadsFreed? <==> old(heap.Room()) > 0 && apdu != [] && d.objectId(apdu).None?
    ensures ending.ReadsFreed? ==> ending.node != 0 && ending.node !in heap.objects
  {
    len, ending := 0, AllFreed;
    var data := heap.CallocObject();
    if data != 0 {
      assert heap.objects - {data} == old(heap.objects);
      len, ending := ParseAndFree(d, heap, data, apdu, old(heap.State()));
    }
  }

  /** From the handler's own node on. */
  method ParseAndFree(d: Decoders, heap: Heap, data: Ptr, apdu: seq<u8>, ghost base: Base)
    returns (len: int, ending: Ending)
    requires InBounds(d) && heap.Valid()
    requires data != 0 && data in heap.objects && heap.objects[data] == Node(CLEAR_OBJECT, 0)
    requires base == Base(heap.objects - {data}, heap.properties, heap.values)
    modifies heap
    ensures heap.Valid() && heap.State() == base
    ensures ending == if apdu != [] && d.objectId(apdu).None? then ReadsFreed(data) else AllFreed
  {
    hide Stored;
    hide ObjectsPeak;
    hide Objects;
    hide AllNodes;
    ghost var rest, os;
    len, rest, os := Parse(d, heap, data, apdu);
    // a positive length and a malformed acknowledgement differ only in what is printed
    if os != [] {
      assert data in heap.objects by { ObjectPops(heap.State(), base, os); }
    } else {
      NothingStored(heap.State(), base);
    }
    if data in heap.objects {
      FreeObjects(heap, data, os, base);
      ending := AllFreed;
    } else {
      ending := ReadsFreed(data);
    }
  }
}
