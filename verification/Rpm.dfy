/**
 The ReadPropertyMultiple acknowledgement (ASHRAE 135, clause 15.7): the three nested loops of h_rpm_a.c
 that turn octets into linked lists, over a heap that can run out of room.
 */
module Rpm {
  import opened Octets
  import opened Chains

  /** A decoded value, by its tag and content octets; Blank is the content of a freshly cleared node. */
  datatype Value = Blank | Empty | Datum(tag: u8, octets: seq<u8>)

  datatype PropertyData = PropertyData(property: u32, index: u32, value: Ptr, errorClass: u32, errorCode: u32)
  datatype ObjectData = ObjectData(kind: u16, instance: u32, properties: Ptr)

  const CLEAR_PROPERTY := PropertyData(0, 0, 0, 0, 0)
  const CLEAR_OBJECT := ObjectData(0, 0, 0)

  // ---------- the decoders ----------

  /** Decoders read a prefix; those of rpm.c that report failure give None, those of bacapp.c a negative length. */
  datatype Decoders = Decoders(
    objectId: seq<u8> -> Option<((u16, u32), nat)>,
    property: seq<u8> -> Option<((u32, u32), nat)>,
    opens: (seq<u8>, u8) -> bool,
    closes: (seq<u8>, u8) -> bool,
    tag: seq<u8> -> (u32, nat),
    enumerated: (seq<u8>, u32) -> (u32, nat),
    context: (seq<u8>, u32) -> (Value, int),
    application: seq<u8> -> (Value, int))

  /** No decoder takes more octets than there are. */
  ghost predicate InBounds(d: Decoders) {
    && (forall bs :: d.objectId(bs).Some? ==> 0 < d.objectId(bs).value.1 <= |bs|)
    && (forall bs :: d.property(bs).Some? ==> 0 < d.property(bs).value.1 <= |bs|)
    && (forall bs :: d.tag(bs).1 <= |bs|)
    && (forall bs, n :: d.enumerated(bs, n).1 <= |bs|)
    && (forall bs, p :: d.context(bs, p).1 <= |bs|)
    && (forall bs :: d.application(bs).1 <= |bs|)
  }

  predicate IsContext(octet: u8) {
    octet / 8 % 2 == 1
  }

  function ValueAt(d: Decoders, bs: seq<u8>, property: u32): (Value, int)
    requires bs != []
  {
    if IsContext(bs[0]) then d.context(bs, property) else d.application(bs)
  }

  predicate Opens(d: Decoders, bs: seq<u8>, number: u8) {
    bs != [] && d.opens(bs, number)
  }

  predicate Closes(d: Decoders, bs: seq<u8>, number: u8) {
    bs != [] && d.closes(bs, number)
  }

  // ---------- what the lists say ----------

  datatype PropertyResult =
    PropertyResult(property: u32, index: u32, values: seq<Value>, errorClass: u32, errorCode: u32)
  datatype ObjectResult = ObjectResult(kind: u16, instance: u32, properties: seq<PropertyResult>)

  /** A loop over a list ends before rest, fails, or goes on for ever. */
  datatype Outcome<T> = Read(done: T, rest: seq<u8>) | Failed(done: T) | Endless

  /** The values behind those done, the node of the next one being allocated already. */
  function Values(d: Decoders, bs: seq<u8>, property: u32, done: seq<Value>): (r: Outcome<seq<Value>>)
    requires InBounds(d)
    ensures r.Read? ==> |r.rest| <= |bs|
    decreases |bs|
  {
    if bs == [] then Read(done + [Blank], [])
    else
      var (v, len) := ValueAt(d, bs, property);
      if len < 0 then Failed(done + [v])
      else
        var rest := bs[len..];
        if Closes(d, rest, 4) then Read(done + [v], rest[1..])
        else if len == 0 then Endless
        else Values(d, rest, property, done + [v])
  }

  /** The octets at bs read as an error class and an error code. */
  function ErrorAt(d: Decoders, bs: seq<u8>): (r: (u32, u32, seq<u8>))
    requires InBounds(d)
    ensures |r.2| <= |bs|
  {
    var (n, a) := d.tag(bs);
    var (errorClass, b) := d.enumerated(bs[a..], n);
    var more := bs[a..][b..];
    var (m, c) := d.tag(more);
    var (errorCode, e) := d.enumerated(more[c..], m);
    var rest := more[c..][e..];
    (errorClass, errorCode, if Closes(d, rest, 5) then rest[1..] else rest)
  }

  /** What follows the identifier of a property: its values, its error, or neither. */
  function Body(d: Decoders, bs: seq<u8>, id: u32, index: u32): (r: Outcome<PropertyResult>)
    requires InBounds(d)
    ensures r.Read? ==> |r.rest| <= |bs|
  {
    if Opens(d, bs, 4) then
      match Values(d, bs[1..], id, [])
      case Read(vs, rest) => Read(PropertyResult(id, index, vs, 0, 0), rest)
      case Failed(vs) => Failed(PropertyResult(id, index, vs, 0, 0))
      case Endless => Endless
    else if Opens(d, bs, 5) then
      var (errorClass, errorCode, rest) := ErrorAt(d, bs[1..]);
      Read(PropertyResult(id, index, [], errorClass, errorCode), rest)
    else Read(PropertyResult(id, index, [], 0, 0), bs)
  }

  /** One property at the front of bs, up to the next. */
  function Property(d: Decoders, bs: seq<u8>): (r: Option<Outcome<PropertyResult>>)
    requires InBounds(d)
    ensures r.Some? && r.value.Read? ==> |r.value.rest| < |bs|
  {
    var p := d.property(bs);
    if p.None? then None else Some(Body(d, bs[p.value.1..], p.value.0.0, p.value.0.1))
  }

  const CLEAR_RESULT := PropertyResult(0, 0, [], 0, 0)

  function Properties(d: Decoders, bs: seq<u8>, done: seq<PropertyResult>): (r: Outcome<seq<PropertyResult>>)
    requires InBounds(d)
    ensures r.Read? ==> |r.rest| <= |bs|
    decreases |bs|
  {
    if bs == [] then Read(done + [CLEAR_RESULT], [])
    else
      match Property(d, bs)
      case None => Read(done, bs)
      case Some(Read(p, rest)) => Properties(d, rest, done + [p])
      case Some(Failed(p)) => Failed(done + [p])
      case Some(Endless) => Endless
  }

  /** One object at the front of bs, up to the next. */
  function Object(d: Decoders, bs: seq<u8>): (r: Option<Outcome<ObjectResult>>)
    requires InBounds(d)
    ensures r.Some? && r.value.Read? ==> |r.value.rest| < |bs|
  {
    var o := d.objectId(bs);
    if o.None? then None
    else
      var ((kind, instance), len) := o.value;
      match Properties(d, bs[len..], [])
      case Read(ps, rest) =>
        Some(Read(ObjectResult(kind, instance, ps), if Closes(d, rest, 1) then rest[1..] else rest))
      case Failed(ps) => Some(Failed(ObjectResult(kind, instance, ps)))
      case Endless => Some(Endless)
  }

  /** What the parser makes of the octets, the node of the next object being allocated already. */
  function Objects(d: Decoders, bs: seq<u8>, done: seq<ObjectResult>): (r: Outcome<seq<ObjectResult>>)
    requires InBounds(d)
    ensures r.Read? ==> |r.rest| <= |bs|
    decreases |bs|
  {
    if bs == [] then Read(done + [ObjectResult(0, 0, [])], [])
    else
      match Object(d, bs)
      case None => Read(done, bs)
      case Some(Read(o, rest)) => if rest == [] then Read(done + [o], []) else Objects(d, rest, done + [o])
      case Some(Failed(o)) => Failed(done + [o])
      case Some(Endless) => Endless
  }

  // ---------- how many nodes it takes ----------

  /** The nodes of a list of properties with their values. */
  function Nodes(ps: seq<PropertyResult>): nat {
    if ps == [] then 0 else Nodes(ps[..|ps| - 1]) + 1 + |ps[|ps| - 1].values|
  }

  /** The nodes of a list of objects with all their lists. */
  function AllNodes(os: seq<ObjectResult>): nat {
    if os == [] then 0 else AllNodes(os[..|os| - 1]) + 1 + Nodes(os[|os| - 1].properties)
  }

  function Plus(n: nat, more: Option<nat>): Option<nat> {
    if more.None? then None else Some(n + more.value)
  }

  /** The most nodes in use at a time; None when there is no bound. */
  function ValuesPeak(r: Outcome<seq<Value>>): Option<nat> {
    match r
    case Read(vs, _) => Some(|vs|)
    case Failed(vs) => Some(|vs|)
    case Endless => None
  }

  /** The same for what follows the identifier of a property, whose own node is there already. */
  function BodyPeak(r: Outcome<PropertyResult>): Option<nat> {
    match r
    case Read(p, _) => Some(|p.values|)
    case Failed(p) => Some(|p.values|)
    case Endless => None
  }

  /** A node is allocated for a property before it is known that there is one. */
  function PropertiesPeak(d: Decoders, bs: seq<u8>): (r: Option<nat>)
    requires InBounds(d)
    ensures r.Some? ==> r.value > 0
    decreases |bs|
  {
    if bs == [] then Some(1)
    else
      match Property(d, bs)
      case None => Some(1)
      case Some(Read(p, rest)) => Plus(1 + |p.values|, PropertiesPeak(d, rest))
      case Some(Failed(p)) => Some(1 + |p.values|)
      case Some(Endless) => None
  }

  /** Beside the node of the first object, which is the caller's. */
  function ObjectsPeak(d: Decoders, bs: seq<u8>): Option<nat>
    requires InBounds(d)
    decreases |bs|
  {
    if bs == [] then Some(0)
    else
      match Object(d, bs)
      case None => Some(0)
      case Some(Read(o, rest)) =>
        if rest == [] then PropertiesPeak(d, bs[d.objectId(bs).value.1..])
        else Plus(Nodes(o.properties) + 1, ObjectsPeak(d, rest))
      case Some(Failed(o)) => Some(Nodes(o.properties))
      case Some(Endless) => None
  }

  predicate Starves(peak: Option<nat>, room: int) {
    peak.None? || room < peak.value
  }

  lemma NodesSnoc(ps: seq<PropertyResult>, p: PropertyResult)
    ensures Nodes(ps + [p]) == Nodes(ps) + 1 + |p.values|
  {
    assert (ps + [p])[..|ps|] == ps;
  }

  lemma AllNodesSnoc(os: seq<ObjectResult>, o: ObjectResult)
    ensures AllNodes(os + [o]) == AllNodes(os) + 1 + Nodes(o.properties)
  {
    assert (os + [o])[..|os|] == os;
  }

  /** The peak is the nodes of the result, and one more if that was allocated in vain. */
  lemma {:induction false} PeakOfProperties(d: Decoders, bs: seq<u8>, done: seq<PropertyResult>)
    requires InBounds(d)
    ensures var r, n := Properties(d, bs, done), PropertiesPeak(d, bs);
            match r
            case Endless => n.None?
            case Failed(ps) => n.Some? && Nodes(done) + n.value == Nodes(ps)
            case Read(ps, rest) => n.Some? && Nodes(done) + n.value == Nodes(ps) + if rest == [] then 0 else 1
    decreases |bs|
  {
    hide Property;
    hide Nodes;
    if bs == [] {
      NodesSnoc(done, CLEAR_RESULT);
    } else {
      match Property(d, bs)
      case None =>
      case Some(Read(p, rest)) =>
        NodesSnoc(done, p);
        PeakOfProperties(d, rest, done + [p]);
      case Some(Failed(p)) => NodesSnoc(done, p);
      case Some(Endless) =>
    }
  }

  /** There is a bound exactly when the octets come to an end. */
  lemma {:induction false} PeakIffEnds(d: Decoders, bs: seq<u8>, done: seq<ObjectResult>)
    requires InBounds(d)
    ensures ObjectsPeak(d, bs).None? <==> Objects(d, bs, done).Endless?
    decreases |bs|
  {
    if bs != [] && d.objectId(bs).Some? {
      PeakOfProperties(d, bs[d.objectId(bs).value.1..], []);
      match Object(d, bs)
      case Some(Read(o, rest)) =>
        if rest != [] {
          PeakIffEnds(d, rest, done + [o]);
        }
      case _ =>
    }
  }

  // ---------- values without end ----------

  /** The octets behind n values, each of some octets and without the closing tag behind it. */
  function Behind(d: Decoders, bs: seq<u8>, property: u32, n: nat): Option<seq<u8>>
    requires InBounds(d)
  {
    if n == 0 then Some(bs)
    else if bs == [] then None
    else
      var (v, len) := ValueAt(d, bs, property);
      if len <= 0 || Closes(d, bs[len..], 4) then None else Behind(d, bs[len..], property, n - 1)
  }

  /** A value that decodes to no octets and is not followed by the closing tag. */
  predicate Stuck(d: Decoders, bs: seq<u8>, property: u32) {
    bs != [] && ValueAt(d, bs, property).1 == 0 && !Closes(d, bs, 4)
  }

  ghost predicate GetsStuck(d: Decoders, bs: seq<u8>, property: u32)
    requires InBounds(d)
  {
    exists n: nat :: Behind(d, bs, property, n).Some? && Stuck(d, Behind(d, bs, property, n).value, property)
  }

  lemma {:induction false} EndlessIffStuck(d: Decoders, bs: seq<u8>, property: u32, done: seq<Value>)
    requires InBounds(d)
    ensures Values(d, bs, property, done).Endless? <==> GetsStuck(d, bs, property)
    decreases |bs|
  {
    if Stuck(d, bs, property) {
      assert Behind(d, bs, property, 0) == Some(bs);
      assert bs[0..] == bs;
    } else if bs != [] {
      var (v, len) := ValueAt(d, bs, property);
      if len == 0 {
        assert bs[0..] == bs;
      } else if len > 0 && !Closes(d, bs[len..], 4) {
        EndlessIffStuck(d, bs[len..], property, done + [v]);
        StuckLater(d, bs, property);
      }
    }
  }

  lemma StuckLater(d: Decoders, bs: seq<u8>, property: u32)
    requires InBounds(d) && bs != [] && ValueAt(d, bs, property).1 > 0
    requires !Closes(d, bs[ValueAt(d, bs, property).1..], 4)
    ensures GetsStuck(d, bs, property) <==> GetsStuck(d, bs[ValueAt(d, bs, property).1..], property)
  {
    var rest := bs[ValueAt(d, bs, property).1..];
    if GetsStuck(d, bs, property) {
      var n: nat :| Behind(d, bs, property, n).Some? && Stuck(d, Behind(d, bs, property, n).value, property);
      assert n > 0 && Behind(d, rest, property, n - 1) == Behind(d, bs, property, n);
    }
    if GetsStuck(d, rest, property) {
      var n: nat :| Behind(d, rest, property, n).Some? && Stuck(d, Behind(d, rest, property, n).value, property);
      assert Behind(d, bs, property, n + 1) == Behind(d, rest, property, n);
    }
  }

  /** No amount of memory is enough for a list of values exactly when the parser gets stuck in it. */
  lemma NeverEnoughIffStuck(d: Decoders, bs: seq<u8>, property: u32)
    requires InBounds(d)
    ensures (forall room: nat :: Starves(ValuesPeak(Values(d, bs, property, [])), room)) <==> GetsStuck(d, bs, property)
  {
    EndlessIffStuck(d, bs, property, []);
    var peak := ValuesPeak(Values(d, bs, property, []));
    if peak.Some? {
      assert !Starves(peak, peak.value);
    }
  }

  // ---------- the lists in the heap ----------

  datatype PropertyTree = PropertyTree(ptr: Ptr, data: PropertyData, values: seq<Cell<Value>>)
  datatype ObjectTree = ObjectTree(ptr: Ptr, data: ObjectData, properties: seq<PropertyTree>)

  function Cells(ps: seq<PropertyTree>): seq<Cell<PropertyData>> {
    seq(|ps|, i requires 0 <= i < |ps| => Cell(ps[i].ptr, ps[i].data))
  }

  function ObjectCells(os: seq<ObjectTree>): seq<Cell<ObjectData>> {
    seq(|os|, i requires 0 <= i < |os| => Cell(os[i].ptr, os[i].data))
  }

  function ValueLinks(ps: seq<PropertyTree>): seq<Binding<Value>> {
    if ps == [] then [] else Links(ps[0].values, 0) + ValueLinks(ps[1..])
  }

  function PropertyLinks(os: seq<ObjectTree>): seq<Binding<PropertyData>> {
    if os == [] then [] else Links(Cells(os[0].properties), 0) + PropertyLinks(os[1..])
  }

  function AllValueLinks(os: seq<ObjectTree>): seq<Binding<Value>> {
    if os == [] then [] else ValueLinks(os[0].properties) + AllValueLinks(os[1..])
  }

  /** Every property node points to its values. */
  predicate Rooted(ps: seq<PropertyTree>) {
    forall i :: 0 <= i < |ps| ==> ps[i].data.value == Start(ps[i].values, 0)
  }

  /** Every object node points to its properties. */
  predicate AllRooted(os: seq<ObjectTree>) {
    forall i :: 0 <= i < |os| ==>
      Rooted(os[i].properties) && os[i].data.properties == Start(Cells(os[i].properties), 0)
  }

  function Data(c: seq<Cell<Value>>): seq<Value> {
    seq(|c|, i requires 0 <= i < |c| => c[i].data)
  }

  function ResultOf(p: PropertyTree): PropertyResult {
    PropertyResult(p.data.property, p.data.index, Data(p.values), p.data.errorClass, p.data.errorCode)
  }

  function Results(ps: seq<PropertyTree>): seq<PropertyResult> {
    seq(|ps|, i requires 0 <= i < |ps| => ResultOf(ps[i]))
  }

  function ObjectOf(o: ObjectTree): ObjectResult {
    ObjectResult(o.data.kind, o.data.instance, Results(o.properties))
  }

  function ObjectResults(os: seq<ObjectTree>): seq<ObjectResult> {
    seq(|os|, i requires 0 <= i < |os| => ObjectOf(os[i]))
  }

  lemma {:induction false} ValueLinksSnoc(ps: seq<PropertyTree>, p: PropertyTree)
    ensures ValueLinks(ps + [p]) == ValueLinks(ps) + Links(p.values, 0)
    decreases |ps|
  {
    if ps == [] {
      assert [p][1..] == [];
    } else {
      ValueLinksSnoc(ps[1..], p);
      assert (ps + [p])[1..] == ps[1..] + [p];
    }
  }

  lemma {:induction false} PropertyLinksSnoc(os: seq<ObjectTree>, o: ObjectTree)
    ensures PropertyLinks(os + [o]) == PropertyLinks(os) + Links(Cells(o.properties), 0)
    decreases |os|
  {
    if os == [] {
      assert [o][1..] == [];
    } else {
      PropertyLinksSnoc(os[1..], o);
      assert (os + [o])[1..] == os[1..] + [o];
      Assoc(Links(Cells(os[0].properties), 0), PropertyLinks(os[1..]), Links(Cells(o.properties), 0));
    }
  }

  lemma {:induction false} AllValueLinksSnoc(os: seq<ObjectTree>, o: ObjectTree)
    ensures AllValueLinks(os + [o]) == AllValueLinks(os) + ValueLinks(o.properties)
    decreases |os|
  {
    if os == [] {
      assert [o][1..] == [];
    } else {
      AllValueLinksSnoc(os[1..], o);
      assert (os + [o])[1..] == os[1..] + [o];
      Assoc(ValueLinks(os[0].properties), AllValueLinks(os[1..]), ValueLinks(o.properties));
    }
  }

  // ---------- the heap ----------

  /** A heap with room for a number of nodes; calloc answers the null pointer when there is none left. */
  class Heap {
    var values: Memory<Value>
    var properties: Memory<PropertyData>
    var objects: Memory<ObjectData>
    const capacity: nat

    ghost predicate Valid()
      reads this
    {
      Room() >= 0
    }

    constructor (capacity: nat)
      ensures Valid() && values == map[] && properties == map[] && objects == map[] && this.capacity == capacity
    {
      values, properties, objects := map[], map[], map[];
      this.capacity := capacity;
    }

    function Room(): int
      reads this
    {
      capacity - |values| - |properties| - |objects|
    }

    ghost function State(): Base
      reads this
    {
      Base(objects, properties, values)
    }

    method CallocValue() returns (p: Ptr)
      requires Valid()
      modifies `values
      ensures Valid()
      ensures p == 0 <==> old(Room()) == 0
      ensures p == 0 ==> values == old(values)
      ensures p != 0 ==>
                p !in old(values) && values == old(values)[p := Node(Blank, 0)] && Room() == old(Room()) - 1
    {
      if Room() == 0 {
        return 0;
      }
      p := FreeAddress(values);
      values := values[p := Node(Blank, 0)];
    }

    method CallocProperty() returns (p: Ptr)
      requires Valid()
      modifies `properties
      ensures Valid()
      ensures p == 0 <==> old(Room()) == 0
      ensures p == 0 ==> properties == old(properties)
      ensures p != 0 ==>
                p !in old(properties) && properties == old(properties)[p := Node(CLEAR_PROPERTY, 0)] &&
                Room() == old(Room()) - 1
    {
      if Room() == 0 {
        return 0;
      }
      p := FreeAddress(properties);
      properties := properties[p := Node(CLEAR_PROPERTY, 0)];
    }

    method CallocObject() returns (p: Ptr)
      requires Valid()
      modifies `objects
      ensures Valid()
      ensures p == 0 <==> old(Room()) == 0
      ensures p == 0 ==> objects == old(objects)
      ensures p != 0 ==>
                p !in old(objects) && objects == old(objects)[p := Node(CLEAR_OBJECT, 0)] && Room() == old(Room()) - 1
    {
      if Room() == 0 {
        return 0;
      }
      p := FreeAddress(objects);
      objects := objects[p := Node(CLEAR_OBJECT, 0)];
    }

    /** free: only a node that is there can be freed. */
    method FreeValue(p: Ptr)
      requires Valid() && p in values
      modifies `values
      ensures Valid() && values == old(values) - {p} && Room() == old(Room()) + 1
    {
      values := values - {p};
    }

    method FreeProperty(p: Ptr)
      requires Valid() && p in properties
      modifies `properties
      ensures Valid() && properties == old(properties) - {p} && Room() == old(Room()) + 1
    {
      properties := properties - {p};
    }

    method FreeObject(p: Ptr)
      requires Valid() && p in objects
      modifies `objects
      ensures Valid() && objects == old(objects) - {p} && Room() == old(Room()) + 1
    {
      objects := objects - {p};
    }
  }

  // ---------- the parser ----------

  lemma DataSnoc(c: seq<Cell<Value>>, x: Cell<Value>)
    ensures Data(c + [x]) == Data(c) + [x.data]
  {
  }

  /** Overwriting a node takes no room. */
  lemma SameSize<D>(m: Memory<D>, p: Ptr, n: Node<D>)
    requires p in m
    ensures |m[p := n]| == |m|
  {
    assert m[p := n].Keys == m.Keys;
  }

  /** A first value node for the property, or none. */
  method FirstValue(heap: Heap, property: Ptr) returns (value: Ptr, ghost values: seq<Cell<Value>>)
    requires heap.Valid() && property in heap.properties
    modifies heap`values, heap`properties
    ensures heap.Valid() && heap.Room() == old(heap.Room()) - |values| && (value == 0 <==> old(heap.Room()) == 0)
    ensures values == if value == 0 then [] else [Cell(value, Blank)]
    ensures Holds(heap.values, old(heap.values), Links(values, 0))
    ensures var n := old(heap.properties)[property];
            heap.properties == old(heap.properties)[property := n.(data := n.data.(value := value))]
  {
    HoldsNothing(heap.values, heap.values);
    ghost var base := heap.values;
    value := heap.CallocValue();
    var node := heap.properties[property];
    SameSize(heap.properties, property, node.(data := node.data.(value := value)));
    heap.properties := heap.properties[property := node.(data := node.data.(value := value))];
    values := if value == 0 then [] else [Cell(value, Blank)];
    if value != 0 {
      HoldsMore(base, base, [], value, Node(Blank, 0));
      assert Links(values, 0) == [] + [Binding(value, Node(Blank, 0))];
    }
  }

  /** The decoder writes a value into the last value node. */
  method StoreValue(heap: Heap, value: Ptr, v: Value, ghost base: Memory<Value>, ghost done: seq<Cell<Value>>)
    requires heap.Valid() && Holds(heap.values, base, Links(done + [Cell(value, Blank)], 0))
    modifies heap`values
    ensures heap.Valid() && heap.Room() == old(heap.Room())
    ensures Holds(heap.values, base, Links(done + [Cell(value, v)], 0))
  {
    ChainFilled(heap.values, base, done, Cell(value, Blank), v);
    SameSize(heap.values, value, Node(v, 0));
    heap.values := heap.values[value := Node(v, 0)];
  }

  /** A node behind the last value node, or none. */
  method NextValue(heap: Heap, oldValue: Ptr, ghost base: Memory<Value>, ghost done: seq<Cell<Value>>)
    returns (value: Ptr, ghost values: seq<Cell<Value>>)
    requires done != [] && done[|done| - 1].ptr == oldValue
    requires heap.Valid() && Holds(heap.values, base, Links(done, 0))
    modifies heap`values
    ensures heap.Valid() && heap.Room() == old(heap.Room()) + |done| - |values|
    ensures value == 0 <==> old(heap.Room()) == 0
    ensures values == if value == 0 then done else done + [Cell(value, Blank)]
    ensures Holds(heap.values, base, Links(values, 0))
  {
    hide Holds;
    ghost var before, front, last := heap.values, done[..|done| - 1], done[|done| - 1];
    assert done == front + [last];
    ChainFilled(before, base, front, last, last.data);
    value := heap.CallocValue();
    SameSize(heap.values, oldValue, heap.values[oldValue].(next := value));
    heap.values := heap.values[oldValue := heap.values[oldValue].(next := value)];
    values := if value == 0 then done else done + [Cell(value, Blank)];
    if value != 0 {
      ChainGrows(before, base, front, last, value, Blank);
    } else {
      assert heap.values == before;
    }
  }

  lemma {:induction false} ValuesGrow(d: Decoders, bs: seq<u8>, property: u32, done: seq<Value>)
    requires InBounds(d)
    ensures var n := ValuesPeak(Values(d, bs, property, done)); n.Some? ==> n.value > |done|
    decreases |bs|
  {
    if bs != [] {
      var (v, len) := ValueAt(d, bs, property);
      if len > 0 && !Closes(d, bs[len..], 4) {
        ValuesGrow(d, bs[len..], property, done + [v]);
      }
    }
  }

  /** One turn of the loop over values. */
  lemma ValuesTurn(d: Decoders, bs: seq<u8>, property: u32, done: seq<Value>)
    requires InBounds(d) && bs != []
    ensures var (v, len) := ValueAt(d, bs, property);
            var r := Values(d, bs, property, done);
            && len <= |bs|
            && if len < 0 then r == Failed(done + [v])
               else if Closes(d, bs[len..], 4) then r == Read(done + [v], bs[len..][1..])
               else r == Values(d, bs[len..], property, done + [v])
  {
    var (v, len) := ValueAt(d, bs, property);
    assert len == 0 ==> bs[len..] == bs;
    hide InBounds;
    hide ValueAt;
    hide Closes;
  }

  lemma ValuesEnd(d: Decoders, property: u32, done: seq<Value>)
    requires InBounds(d)
    ensures Values(d, [], property, done) == Read(done + [Blank], [])
  {
  }

  /**
   The values of one property, behind the opening tag 4; false for a value that does not decode. With room
   for all of them they are what the octets say; without, or when they never end, the room is used up.
   */
  method ParseValues(d: Decoders, heap: Heap, property: Ptr, apdu: seq<u8>)
    returns (ok: bool, rest: seq<u8>, ghost values: seq<Cell<Value>>)
    requires InBounds(d) && heap.Valid() && property in heap.properties
    modifies heap`values, heap`properties
    ensures heap.Valid() && heap.Room() == old(heap.Room()) - |values|
    ensures Holds(heap.values, old(heap.values), Links(values, 0))
    ensures var n := old(heap.properties)[property];
            heap.properties == old(heap.properties)[property := n.(data := n.data.(value := Start(values, 0)))]
    ensures |rest| <= |apdu|
    ensures var r := Values(d, apdu, old(heap.properties)[property].data.property, []);
            if Starves(ValuesPeak(r), old(heap.Room())) then ok && heap.Room() == 0
            else r == if ok then Read(Data(values), rest) else Failed(Data(values))
  {
    hide Holds;
    hide InBounds;
    hide ValueAt;
    hide Values;
    ghost var base, room := heap.values, heap.Room();
    var id := heap.properties[property].data.property;
    ok, rest := true, apdu;
    var value;
    value, values := FirstValue(heap, property);
    ghost var done: seq<Cell<Value>>, linked := [], heap.properties;
    assert Data(done) == [];
    ghost var outcome := Values(d, apdu, id, []);
    while value != 0 && |rest| > 0
      invariant |rest| <= |apdu| && heap.properties == linked
      invariant heap.Valid() && heap.Room() == room - |values|
      invariant if value == 0 then heap.Room() == 0 && values == done else values == done + [Cell(value, Blank)]
      invariant Holds(heap.values, base, Links(values, 0))
      invariant Start(values, 0) == linked[property].data.value
      invariant outcome == Values(d, rest, id, Data(done))
      decreases if value == 0 then 0 else heap.Room() + 1
    {
      var (v, len) := ValueAt(d, rest, id);
      ValuesTurn(d, rest, id, Data(done));
      StoreValue(heap, value, v, base, done);
      values := done + [Cell(value, v)];
      DataSnoc(done, Cell(value, v));
      if len < 0 {
        return false, rest, values;
      }
      rest := rest[len..];
      if Closes(d, rest, 4) {
        return true, rest[1..], values;
      }
      done := values;
      value, values := NextValue(heap, value, base, done);
    }
    DataSnoc(done, Cell(value, Blank));
    ValuesGrow(d, rest, id, Data(done));
    ValuesEnd(d, id, Data(done));
  }

  /** The error class and code of one property, behind the opening tag 5. */
  method ParseError(d: Decoders, heap: Heap, property: Ptr, apdu: seq<u8>) returns (rest: seq<u8>)
    requires InBounds(d) && property in heap.properties
    modifies heap`properties
    ensures heap.Room() == old(heap.Room())
    ensures var n, e := old(heap.properties)[property], ErrorAt(d, apdu);
            && heap.properties ==
                 old(heap.properties)[property := n.(data := n.data.(errorClass := e.0, errorCode := e.1))]
            && rest == e.2
  {
    var node := heap.properties[property];
    var (n, tagLen) := d.tag(apdu);
    rest := apdu[tagLen..];
    var (errorClass, classLen) := d.enumerated(rest, n);
    rest := rest[classLen..];
    var (m, tagLen') := d.tag(rest);
    rest := rest[tagLen'..];
    var (errorCode, codeLen) := d.enumerated(rest, m);
    rest := rest[codeLen..];
    SameSize(heap.properties, property, node.(data := node.data.(errorClass := errorClass, errorCode := errorCode)));
    heap.properties :=
      heap.properties[property := node.(data := node.data.(errorClass := errorClass, errorCode := errorCode))];
    if Closes(d, rest, 5) {
      rest := rest[1..];
    }
  }

  /** What follows the identifier of a property; false when a value does not decode. */
  method ParseBody(d: Decoders, heap: Heap, property: Ptr, id: u32, index: u32, apdu: seq<u8>)
    returns (ok: bool, rest: seq<u8>, ghost tree: PropertyTree)
    requires InBounds(d) && heap.Valid() && property in heap.properties
    requires heap.properties[property] == Node(PropertyData(id, index, 0, 0, 0), 0)
    modifies heap`values, heap`properties
    ensures heap.Valid() && heap.Room() == old(heap.Room()) - |tree.values|
    ensures tree.ptr == property && heap.properties == old(heap.properties)[property := Node(tree.data, 0)]
    ensures Holds(heap.values, old(heap.values), Links(tree.values, 0)) && tree.data.value == Start(tree.values, 0)
    ensures |rest| <= |apdu|
    ensures var r := Body(d, apdu, id, index);
            if Starves(BodyPeak(r), old(heap.Room())) then ok && heap.Room() == 0
            else r == if ok then Read(ResultOf(tree), rest) else Failed(ResultOf(tree))
  {
    hide Holds;
    ok, rest := true, apdu;
    if Opens(d, rest, 4) {
      ghost var values;
      ok, rest, values := ParseValues(d, heap, property, rest[1..]);
      tree := PropertyTree(property, PropertyData(id, index, Start(values, 0), 0, 0), values);
      assert |Data(values)| == |values|;
    } else {
      HoldsNothing(heap.values, heap.values);
      if Opens(d, rest, 5) {
        rest := ParseError(d, heap, property, rest[1..]);
      }
      tree := PropertyTree(property, heap.properties[property].data, []);
      assert Data(tree.values) == [] && Links(tree.values, 0) == [];
    }
  }

  lemma CellsSnoc(ps: seq<PropertyTree>, p: PropertyTree)
    ensures Cells(ps + [p]) == Cells(ps) + [Cell(p.ptr, p.data)]
    ensures Results(ps + [p]) == Results(ps) + [ResultOf(p)] && |ResultOf(p).values| == |p.values|
  {
  }

  /** The lists of properties ps and of their values stand beside what was there before. */
  ghost predicate Listed(mp: Memory<PropertyData>, baseP: Memory<PropertyData>, mv: Memory<Value>, baseV: Memory<Value>,
                         ps: seq<PropertyTree>) {
    Holds(mp, baseP, Links(Cells(ps), 0)) && Holds(mv, baseV, ValueLinks(ps)) && Rooted(ps)
  }

  function ClearTree(property: Ptr): PropertyTree {
    PropertyTree(property, CLEAR_PROPERTY, [])
  }

  lemma ClearAtEnd(ps: seq<PropertyTree>, property: Ptr)
    ensures Cells(ps + [ClearTree(property)]) == Cells(ps) + [Cell(property, CLEAR_PROPERTY)]
    ensures ValueLinks(ps + [ClearTree(property)]) == ValueLinks(ps)
    ensures Rooted(ps) <==> Rooted(ps + [ClearTree(property)])
    ensures Results(ps + [ClearTree(property)]) == Results(ps) + [CLEAR_RESULT]
  {
    var t := ClearTree(property);
    CellsSnoc(ps, t);
    ValueLinksSnoc(ps, t);
    assert (ps + [t])[|ps|] == t && Data([]) == [];
    assert Rooted(ps + [t]) ==> forall i :: 0 <= i < |ps| ==> ps[i] == (ps + [t])[i];
  }

  lemma ClearInPlace(mp: Memory<PropertyData>, baseP: Memory<PropertyData>, mv: Memory<Value>, baseV: Memory<Value>,
                     ps: seq<PropertyTree>, property: Ptr)
    requires Listed(mp, baseP, mv, baseV, ps + [ClearTree(property)])
    ensures property in mp && mp[property] == Node(CLEAR_PROPERTY, 0)
  {
    ClearAtEnd(ps, property);
    ChainFilled(mp, baseP, Cells(ps), Cell(property, CLEAR_PROPERTY), CLEAR_PROPERTY);
  }

  /** The empty node at the end is filled, and gets its values. */
  lemma TreeAtEnd(mp: Memory<PropertyData>, baseP: Memory<PropertyData>, mv: Memory<Value>, midV: Memory<Value>,
                  baseV: Memory<Value>, ps: seq<PropertyTree>, t: PropertyTree)
    requires Listed(mp, baseP, midV, baseV, ps + [ClearTree(t.ptr)])
    requires Holds(mv, midV, Links(t.values, 0)) && t.data.value == Start(t.values, 0)
    ensures Listed(mp[t.ptr := Node(t.data, 0)], baseP, mv, baseV, ps + [t])
  {
    ClearAtEnd(ps, t.ptr);
    ChainFilled(mp, baseP, Cells(ps), Cell(t.ptr, CLEAR_PROPERTY), t.data);
    CellsSnoc(ps, t);
    HoldsJoined(mv, midV, baseV, ValueLinks(ps), Links(t.values, 0));
    ValueLinksSnoc(ps, t);
  }

  /** The object node points to p as its first property. */
  function Pointing(m: Memory<ObjectData>, owner: Ptr, p: Ptr): (r: Memory<ObjectData>)
    requires owner in m
    ensures r.Keys == m.Keys
  {
    m[owner := m[owner].(data := m[owner].data.(properties := p))]
  }

  lemma PointingTwice(m: Memory<ObjectData>, owner: Ptr, p: Ptr, q: Ptr)
    requires owner in m
    ensures Pointing(Pointing(m, owner, p), owner, q) == Pointing(m, owner, q)
    ensures Pointing(m, owner, p)[owner].data.properties == p
  {
  }

  /** A first property node for the object, or none. */
  method FirstProperty(heap: Heap, owner: Ptr) returns (property: Ptr, ghost ps: seq<PropertyTree>)
    requires heap.Valid() && owner in heap.objects
    modifies heap`properties, heap`objects
    ensures heap.Valid() && heap.Room() == old(heap.Room()) - |ps| && (property == 0 <==> old(heap.Room()) == 0)
    ensures ps == if property == 0 then [] else [ClearTree(property)]
    ensures Start(Cells(ps), 0) == property == Start(Cells([]), property)
    ensures Listed(heap.properties, old(heap.properties), heap.values, heap.values, ps)
    ensures heap.objects == Pointing(old(heap.objects), owner, property)
  {
    ghost var base := heap.properties;
    HoldsNothing(base, base);
    HoldsNothing(heap.values, heap.values);
    property := heap.CallocProperty();
    var node := heap.objects[owner];
    SameSize(heap.objects, owner, node.(data := node.data.(properties := property)));
    heap.objects := heap.objects[owner := node.(data := node.data.(properties := property))];
    ps := if property == 0 then [] else [ClearTree(property)];
    if property != 0 {
      HoldsMore(base, base, [], property, Node(CLEAR_PROPERTY, 0));
      assert Links(Cells(ps), 0) == [] + [Binding(property, Node(CLEAR_PROPERTY, 0))];
    }
  }

  lemma LastInPlace(mp: Memory<PropertyData>, baseP: Memory<PropertyData>, mv: Memory<Value>, baseV: Memory<Value>,
                    ps: seq<PropertyTree>)
    requires ps != [] && Listed(mp, baseP, mv, baseV, ps)
    ensures var t := ps[|ps| - 1]; t.ptr in mp && mp[t.ptr] == Node(t.data, 0)
  {
    hide Holds;
    hide Rooted;
    hide ValueLinks;
    var front, t := ps[..|ps| - 1], ps[|ps| - 1];
    assert ps == front + [t];
    CellsSnoc(front, t);
    ChainFilled(mp, baseP, Cells(front), Cell(t.ptr, t.data), t.data);
  }

  lemma ClearLinked(mp: Memory<PropertyData>, baseP: Memory<PropertyData>, mv: Memory<Value>, baseV: Memory<Value>,
                    ps: seq<PropertyTree>, p: Ptr)
    requires ps != [] && Listed(mp, baseP, mv, baseV, ps) && p != 0 && p !in mp
    ensures var t := ps[|ps| - 1];
            Listed(mp[p := Node(CLEAR_PROPERTY, 0)][t.ptr := Node(t.data, p)], baseP, mv, baseV, ps + [ClearTree(p)])
  {
    hide Holds;
    hide Rooted;
    hide ValueLinks;
    var front, t := ps[..|ps| - 1], ps[|ps| - 1];
    assert ps == front + [t];
    CellsSnoc(front, t);
    ChainGrows(mp, baseP, Cells(front), Cell(t.ptr, t.data), p, CLEAR_PROPERTY);
    ClearAtEnd(ps, p);
  }

  /** A node behind the last property node, or none. */
  method NextProperty(heap: Heap, oldProperty: Ptr, ghost baseP: Memory<PropertyData>, ghost baseV: Memory<Value>,
                      ghost done: seq<PropertyTree>)
    returns (property: Ptr, ghost ps: seq<PropertyTree>)
    requires done != [] && done[|done| - 1].ptr == oldProperty
    requires heap.Valid() && Listed(heap.properties, baseP, heap.values, baseV, done)
    modifies heap`properties
    ensures heap.Valid() && heap.Room() == old(heap.Room()) - (if property == 0 then 0 else 1)
    ensures property == 0 <==> old(heap.Room()) == 0
    ensures ps == if property == 0 then done else done + [ClearTree(property)]
    ensures Listed(heap.properties, baseP, heap.values, baseV, ps)
  {
    hide Listed;
    ghost var before := heap.properties;
    LastInPlace(before, baseP, heap.values, baseV, done);
    property := heap.CallocProperty();
    if property != 0 {
      ClearLinked(before, baseP, heap.values, baseV, done, property);
    } else {
      assert before == before[oldProperty := before[oldProperty].(next := 0)];
    }
    SameSize(heap.properties, oldProperty, heap.properties[oldProperty].(next := property));
    heap.properties := heap.properties[oldProperty := heap.properties[oldProperty].(next := property)];
    ps := if property == 0 then done else done + [ClearTree(property)];
  }

  /** The last property node, left empty, is taken off the list again. */
  method DropProperty(heap: Heap, owner: Ptr, oldProperty: Ptr, property: Ptr,
                      ghost baseP: Memory<PropertyData>, ghost baseV: Memory<Value>, ghost done: seq<PropertyTree>)
    requires heap.Valid() && owner in heap.objects
    requires Listed(heap.properties, baseP, heap.values, baseV, done + [ClearTree(property)])
    requires oldProperty == if done == [] then property else done[|done| - 1].ptr
    requires heap.objects[owner].data.properties == Start(Cells(done), property)
    modifies heap`properties, heap`objects
    ensures heap.Valid() && heap.Room() == old(heap.Room()) + 1
    ensures Listed(heap.properties, baseP, heap.values, baseV, done)
    ensures heap.objects == Pointing(old(heap.objects), owner, Start(Cells(done), 0))
  {
    hide Holds;
    ClearAtEnd(done, property);
    hide Links;
    hide ValueLinks;
    hide Rooted;
    ChainDrops(heap.properties, baseP, Cells(done), Cell(property, CLEAR_PROPERTY), oldProperty);
    var node := heap.objects[owner];
    SameSize(heap.properties, oldProperty, heap.properties[oldProperty].(next := 0));
    heap.properties := heap.properties[oldProperty := heap.properties[oldProperty].(next := 0)];
    if node.data.properties == property {
      SameSize(heap.objects, owner, node.(data := node.data.(properties := 0)));
      heap.objects := heap.objects[owner := node.(data := node.data.(properties := 0))];
    } else {
      assert heap.objects == heap.objects[owner := node];
    }
    heap.FreeProperty(property);
  }

  /** Behind the identifier of a property: the last, empty node is filled. */
  method ParseProperty(d: Decoders, heap: Heap, property: Ptr, id: u32, index: u32, apdu: seq<u8>,
                       ghost baseP: Memory<PropertyData>, ghost baseV: Memory<Value>, ghost done: seq<PropertyTree>)
    returns (ok: bool, rest: seq<u8>, ghost tree: PropertyTree)
    requires InBounds(d) && heap.Valid()
    requires Listed(heap.properties, baseP, heap.values, baseV, done + [ClearTree(property)])
    modifies heap`values, heap`properties
    ensures heap.Valid() && heap.Room() == old(heap.Room()) - |tree.values|
    ensures tree.ptr == property && Listed(heap.properties, baseP, heap.values, baseV, done + [tree])
    ensures |rest| <= |apdu|
    ensures var r := Body(d, apdu, id, index);
            if Starves(BodyPeak(r), old(heap.Room())) then ok && heap.Room() == 0
            else r == if ok then Read(ResultOf(tree), rest) else Failed(ResultOf(tree))
  {
    hide Listed;
    ghost var before, beforeV := heap.properties, heap.values;
    ClearInPlace(before, baseP, beforeV, baseV, done, property);
    SameSize(before, property, Node(PropertyData(id, index, 0, 0, 0), 0));
    heap.properties := heap.properties[property := Node(PropertyData(id, index, 0, 0, 0), 0)];
    ok, rest, tree := ParseBody(d, heap, property, id, index, apdu);
    assert heap.properties == before[property := Node(tree.data, 0)];
    TreeAtEnd(before, baseP, heap.values, beforeV, baseV, done, tree);
  }

  /** One turn of the loop over properties: the last, empty node is filled, and the next one allocated behind it. */
  method PropertyTurn(d: Decoders, heap: Heap, property: Ptr, id: u32, index: u32, apdu: seq<u8>,
                      ghost baseP: Memory<PropertyData>, ghost baseV: Memory<Value>, ghost done: seq<PropertyTree>)
    returns (ok: bool, rest: seq<u8>, ghost tree: PropertyTree, next: Ptr, ghost ps: seq<PropertyTree>)
    requires InBounds(d) && heap.Valid()
    requires Listed(heap.properties, baseP, heap.values, baseV, done + [ClearTree(property)])
    modifies heap`values, heap`properties
    ensures heap.Valid() && heap.Room() == old(heap.Room()) - |tree.values| - (if next == 0 then 0 else 1)
    ensures tree.ptr == property && Listed(heap.properties, baseP, heap.values, baseV, ps)
    ensures ps == if next == 0 then done + [tree] else done + [tree] + [ClearTree(next)]
    ensures Start(Cells(ps), 0) == Start(Cells(done), property)
    ensures Start(Cells(done + [tree]), next) == Start(Cells(done), property)
    ensures if ok then next == 0 <==> old(heap.Room()) == |tree.values| else next == 0
    ensures |rest| <= |apdu|
    ensures var r := Body(d, apdu, id, index);
            if Starves(BodyPeak(r), old(heap.Room())) then ok && next == 0
            else r == if ok then Read(ResultOf(tree), rest) else Failed(ResultOf(tree))
  {
    hide Listed;
    hide Body;
    ok, rest, tree := ParseProperty(d, heap, property, id, index, apdu, baseP, baseV, done);
    next, ps := 0, done + [tree];
    if ok {
      next, ps := NextProperty(heap, property, baseP, baseV, ps);
    }
  }

  /** What is left of the loop over properties, after those done. */
  ghost predicate Pending(d: Decoders, apdu: seq<u8>, rest: seq<u8>, done: seq<PropertyResult>)
    requires InBounds(d)
  {
    && Properties(d, apdu, []) == Properties(d, rest, done)
    && PropertiesPeak(d, apdu) == Plus(Nodes(done), PropertiesPeak(d, rest))
  }

  lemma PendingStarts(d: Decoders, apdu: seq<u8>)
    requires InBounds(d)
    ensures Pending(d, apdu, apdu, []) && Nodes([]) == 0
    ensures PropertiesPeak(d, apdu) != Some(0)
  {
    hide InBounds;
    hide Properties;
    hide PropertiesPeak;
  }

  lemma PendingEnds(d: Decoders, apdu: seq<u8>, rest: seq<u8>, done: seq<PropertyResult>)
    requires InBounds(d) && Pending(d, apdu, rest, done) && (rest == [] || d.property(rest).None?)
    ensures Properties(d, apdu, []) == if rest == [] then Read(done + [CLEAR_RESULT], []) else Read(done, rest)
    ensures PropertiesPeak(d, apdu) == Some(Nodes(done) + 1)
  {
    hide Body;
    hide Nodes;
  }

  lemma PropertiesUnfold(d: Decoders, rest: seq<u8>, done: seq<PropertyResult>)
    requires InBounds(d) && rest != [] && d.property(rest).Some?
    ensures 0 < d.property(rest).value.1 <= |rest|
    ensures var p := d.property(rest).value;
            var r := Body(d, rest[p.1..], p.0.0, p.0.1);
            Properties(d, rest, done) ==
            if r.Read? then Properties(d, r.rest, done + [r.done])
            else if r.Failed? then Failed(done + [r.done]) else Endless
  {
    hide Body;
  }

  lemma PeakUnfolds(d: Decoders, rest: seq<u8>)
    requires InBounds(d) && rest != [] && d.property(rest).Some?
    ensures 0 < d.property(rest).value.1 <= |rest|
    ensures var p := d.property(rest).value;
            var r := Body(d, rest[p.1..], p.0.0, p.0.1);
            PropertiesPeak(d, rest) ==
            if r.Read? then Plus(1 + |r.done.values|, PropertiesPeak(d, r.rest))
            else if r.Failed? then Some(1 + |r.done.values|) else None
  {
    hide Body;
  }

  lemma PlusTwice(n: nat, m: nat, more: Option<nat>)
    ensures Plus(n, Plus(m, more)) == Plus(n + m, more)
  {
  }

  /** The same over any outcome r of the property at the front. */
  lemma PendingBehind(d: Decoders, apdu: seq<u8>, rest: seq<u8>, done: seq<PropertyResult>,
                      r: Outcome<PropertyResult>)
    requires InBounds(d) && Pending(d, apdu, rest, done)
    requires Properties(d, rest, done) ==
             if r.Read? then Properties(d, r.rest, done + [r.done])
             else if r.Failed? then Failed(done + [r.done]) else Endless
    requires PropertiesPeak(d, rest) ==
             if r.Read? then Plus(1 + |r.done.values|, PropertiesPeak(d, r.rest))
             else if r.Failed? then Some(1 + |r.done.values|) else None
    ensures var peak := PropertiesPeak(d, apdu);
            && (r.Read? ==> Pending(d, apdu, r.rest, done + [r.done]))
            && (r.Read? && peak.Some? ==> peak.value > Nodes(done) + 1 + |r.done.values|)
            && (r.Failed? ==> Properties(d, apdu, []) == Failed(done + [r.done]))
            && (r.Failed? ==> peak == Some(Nodes(done) + 1 + |r.done.values|))
            && (r.Endless? ==> peak.None?)
  {
    hide InBounds;
    hide Nodes;
    hide Properties;
    hide PropertiesPeak;
    if r.Read? {
      NodesSnoc(done, r.done);
      PlusTwice(Nodes(done), 1 + |r.done.values|, PropertiesPeak(d, r.rest));
    }
  }

  lemma PendingTurn(d: Decoders, apdu: seq<u8>, rest: seq<u8>, done: seq<PropertyResult>)
    requires InBounds(d) && Pending(d, apdu, rest, done) && rest != [] && d.property(rest).Some?
    ensures 0 < d.property(rest).value.1 <= |rest|
    ensures var p, peak := d.property(rest).value, PropertiesPeak(d, apdu);
            var r := Body(d, rest[p.1..], p.0.0, p.0.1);
            && (r.Read? ==> Pending(d, apdu, r.rest, done + [r.done]))
            && (r.Read? && peak.Some? ==> peak.value > Nodes(done) + 1 + |r.done.values|)
            && (r.Failed? ==> Properties(d, apdu, []) == Failed(done + [r.done]))
            && (r.Failed? ==> peak == Some(Nodes(done) + 1 + |r.done.values|))
            && (r.Endless? ==> peak.None?)
  {
    hide InBounds;
    hide Body;
    hide Properties;
    hide PropertiesPeak;
    hide Pending;
    hide Nodes;
    hide Plus;
    PropertiesUnfold(d, rest, done);
    PeakUnfolds(d, rest);
    var p := d.property(rest).value;
    PendingBehind(d, apdu, rest, done, Body(d, rest[p.1..], p.0.0, p.0.1));
  }

  /**
   The list ps that starts at first is what was done, and behind it, as long as property is not null, that empty
   node; previous is the node before it, or the node itself.
   */
  ghost predicate AtProperty(ps: seq<PropertyTree>, done: seq<PropertyTree>, previous: Ptr, property: Ptr, first: Ptr) {
    && ps == (if property == 0 then done else done + [ClearTree(property)])
    && Start(Cells(ps), 0) == first
    && (property != 0 ==> Start(Cells(done), property) == first)
    && (property != 0 ==> previous == if done == [] then property else done[|done| - 1].ptr)
  }

  lemma AtFirstProperty(ps: seq<PropertyTree>, property: Ptr)
    requires ps == if property == 0 then [] else [ClearTree(property)]
    ensures AtProperty(ps, [], property, property, property)
  {
    assert [] + [ClearTree(property)] == [ClearTree(property)];
  }

  lemma PropertyIsLast(ps: seq<PropertyTree>, done: seq<PropertyTree>, previous: Ptr, property: Ptr, first: Ptr)
    requires AtProperty(ps, done, previous, property, first) && property != 0
    ensures ps == done + [ClearTree(property)] && Start(Cells(done), property) == first
    ensures previous == if done == [] then property else done[|done| - 1].ptr
  {
  }

  lemma AtPropertyStarts(ps: seq<PropertyTree>, done: seq<PropertyTree>, previous: Ptr, property: Ptr, first: Ptr)
    requires AtProperty(ps, done, previous, property, first)
    ensures ps == (if property == 0 then done else done + [ClearTree(property)]) && Start(Cells(ps), 0) == first
  {
  }

  lemma AtNextProperty(ps: seq<PropertyTree>, done: seq<PropertyTree>, tree: PropertyTree, property: Ptr, next: Ptr,
                       first: Ptr)
    requires property != 0 && tree.ptr == property && Start(Cells(done), property) == first
    requires ps == if next == 0 then done + [tree] else done + [tree] + [ClearTree(next)]
    requires Start(Cells(ps), 0) == first && Start(Cells(done + [tree]), next) == first
    ensures AtProperty(ps, done + [tree], property, next, first)
  {
    hide Start;
    hide Cells;
  }

  /**
   The loop over the properties of one object; false when a value does not decode. With room for all nodes
   the list is what the octets say; without, the room is used up.
   */
  method ParseProperties(d: Decoders, heap: Heap, owner: Ptr, apdu: seq<u8>)
    returns (ok: bool, rest: seq<u8>, ghost ps: seq<PropertyTree>)
    requires InBounds(d) && heap.Valid() && owner in heap.objects
    modifies heap`values, heap`properties, heap`objects
    ensures heap.Valid() && heap.Room() == old(heap.Room()) - Nodes(Results(ps))
    ensures Listed(heap.properties, old(heap.properties), heap.values, old(heap.values), ps)
    ensures heap.objects == Pointing(old(heap.objects), owner, Start(Cells(ps), 0))
    ensures |rest| <= |apdu|
    ensures if Starves(PropertiesPeak(d, apdu), old(heap.Room())) then ok && heap.Room() == 0
            else Properties(d, apdu, []) == if ok then Read(Results(ps), rest) else Failed(Results(ps))
  {
    hide InBounds;
    hide Listed;
    hide Body;
    hide ResultOf;
    hide Pointing;
    hide Nodes;
    hide Properties;
    hide PropertiesPeak;
    hide Pending;
    hide Cells;
    hide Start;
    hide Heap.Room;
    PendingStarts(d, apdu);
    ghost var baseP, baseV, room := heap.properties, heap.values, heap.Room();
    ghost var done: seq<PropertyTree>, tree, peak := [], ClearTree(0), PropertiesPeak(d, apdu);
    var property: Ptr;
    ok, rest := true, apdu;
    property, ps := FirstProperty(heap, owner);
    var oldProperty := property;
    ghost var first, linked := property, heap.objects;
    assert Results(done) == [] && done + ps == ps;
    AtFirstProperty(ps, property);
    hide Results;
    hide AtProperty;
    while property != 0 && rest != []
      invariant |rest| <= |apdu| && heap.objects == linked && heap.Valid()
      invariant heap.Room() == room - Nodes(Results(done)) - (if property == 0 then 0 else 1)
      invariant AtProperty(ps, done, oldProperty, property, first)
      invariant Listed(heap.properties, baseP, heap.values, baseV, ps)
      invariant if property == 0 then heap.Room() == 0 && Starves(peak, room) else Pending(d, apdu, rest, Results(done))
      decreases |rest|
    {
      var p := d.property(rest);
      PropertyIsLast(ps, done, oldProperty, property, first);
      if p.None? {
        PendingEnds(d, apdu, rest, Results(done));
        PointingTwice(old(heap.objects), owner, first, Start(Cells(done), 0));
        DropProperty(heap, owner, oldProperty, property, baseP, baseV, done);
        return true, rest, done;
      }
      PendingTurn(d, apdu, rest, Results(done));
      oldProperty := property;
      ok, rest, tree, property, ps :=
        PropertyTurn(d, heap, property, p.value.0.0, p.value.0.1, rest[p.value.1..], baseP, baseV, done);
      AtNextProperty(ps, done, tree, oldProperty, property, first);
      CellsSnoc(done, tree);
      NodesSnoc(Results(done), ResultOf(tree));
      done := done + [tree];
      if !ok {
        return false, rest, done;
      }
    }
    AtPropertyStarts(ps, done, oldProperty, property, first);
    ClearAtEnd(done, property);
    NodesSnoc(Results(done), CLEAR_RESULT);
    if property != 0 {
      PendingEnds(d, apdu, rest, Results(done));
    }
  }

  // ---------- the objects ----------

  /** What the parser builds on. */
  datatype Base = Base(objects: Memory<ObjectData>, properties: Memory<PropertyData>, values: Memory<Value>)

  /** The list of objects with all its lists stands beside the base, and nothing else does. */
  ghost predicate Stored(m: Base, base: Base, os: seq<ObjectTree>) {
    && Holds(m.objects, base.objects, Links(ObjectCells(os), 0))
    && Holds(m.properties, base.properties, PropertyLinks(os))
    && Holds(m.values, base.values, AllValueLinks(os))
    && AllRooted(os)
  }

  function ClearObject(p: Ptr): ObjectTree {
    ObjectTree(p, CLEAR_OBJECT, [])
  }

  lemma ObjectCellsSnoc(os: seq<ObjectTree>, o: ObjectTree)
    ensures ObjectCells(os + [o]) == ObjectCells(os) + [Cell(o.ptr, o.data)]
    ensures ObjectResults(os + [o]) == ObjectResults(os) + [ObjectOf(o)]
    ensures ObjectOf(o).properties == Results(o.properties)
  {
  }

  lemma ClearObjectAtEnd(os: seq<ObjectTree>, p: Ptr)
    ensures ObjectCells(os + [ClearObject(p)]) == ObjectCells(os) + [Cell(p, CLEAR_OBJECT)]
    ensures PropertyLinks(os + [ClearObject(p)]) == PropertyLinks(os)
    ensures AllValueLinks(os + [ClearObject(p)]) == AllValueLinks(os)
    ensures AllRooted(os) <==> AllRooted(os + [ClearObject(p)])
    ensures ObjectResults(os + [ClearObject(p)]) == ObjectResults(os) + [ObjectResult(0, 0, [])]
  {
    var o := ClearObject(p);
    ObjectCellsSnoc(os, o);
    PropertyLinksSnoc(os, o);
    AllValueLinksSnoc(os, o);
    assert (os + [o])[|os|] == o && Cells([]) == [] && Links<PropertyData>([], 0) == [] && Results([]) == [];
    assert AllRooted(os + [o]) ==> forall i :: 0 <= i < |os| ==> os[i] == (os + [o])[i];
  }

  lemma RootedAtEnd(os: seq<ObjectTree>, o: ObjectTree)
    requires AllRooted(os) && Rooted(o.properties) && o.data.properties == Start(Cells(o.properties), 0)
    ensures AllRooted(os + [o])
  {
  }

  lemma ClearObjectInPlace(m: Base, base: Base, os: seq<ObjectTree>, p: Ptr)
    requires Stored(m, base, os + [ClearObject(p)])
    ensures p in m.objects && m.objects[p] == Node(CLEAR_OBJECT, 0)
  {
    hide Holds;
    ClearObjectAtEnd(os, p);
    ChainFilled(m.objects, base.objects, ObjectCells(os), Cell(p, CLEAR_OBJECT), CLEAR_OBJECT);
  }

  /** The empty object at the end is filled, and gets its properties and their values. */
  lemma ObjectAtEnd(mid: Base, m: Base, base: Base, os: seq<ObjectTree>, o: ObjectTree)
    requires Stored(mid, base, os + [ClearObject(o.ptr)])
    requires Listed(m.properties, mid.properties, m.values, mid.values, o.properties)
    requires o.data.properties == Start(Cells(o.properties), 0) && m.objects == mid.objects[o.ptr := Node(o.data, 0)]
    ensures Stored(m, base, os + [o])
  {
    hide Holds;
    ClearObjectAtEnd(os, o.ptr);
    ChainFilled(mid.objects, base.objects, ObjectCells(os), Cell(o.ptr, CLEAR_OBJECT), o.data);
    ObjectCellsSnoc(os, o);
    HoldsJoined(m.properties, mid.properties, base.properties, PropertyLinks(os), Links(Cells(o.properties), 0));
    PropertyLinksSnoc(os, o);
    HoldsJoined(m.values, mid.values, base.values, AllValueLinks(os), ValueLinks(o.properties));
    AllValueLinksSnoc(os, o);
    RootedAtEnd(os, o);
  }

  /** Behind the identifier of an object: the last, empty node is filled; false when a value does not decode. */
  method ParseObject(d: Decoders, heap: Heap, owner: Ptr, kind: u16, instance: u32, apdu: seq<u8>,
                     ghost base: Base, ghost done: seq<ObjectTree>)
    returns (ok: bool, rest: seq<u8>, ghost tree: ObjectTree)
    requires InBounds(d) && heap.Valid() && Stored(heap.State(), base, done + [ClearObject(owner)])
    modifies heap`values, heap`properties, heap`objects
    ensures heap.Valid() && heap.Room() == old(heap.Room()) - Nodes(Results(tree.properties))
    ensures tree.ptr == owner && Stored(heap.State(), base, done + [tree])
    ensures |rest| <= |apdu|
    ensures tree.data.kind == kind && tree.data.instance == instance
    ensures if Starves(PropertiesPeak(d, apdu), old(heap.Room())) then ok && heap.Room() == 0
            else Properties(d, apdu, []) ==
                 if ok then Read(Results(tree.properties), rest) else Failed(Results(tree.properties))
  {
    hide Properties;
    hide PropertiesPeak;
    hide Nodes;
    hide Stored;
    hide Listed;
    ghost var before := heap.State();
    ClearObjectInPlace(before, base, done, owner);
    SameSize(heap.objects, owner, Node(ObjectData(kind, instance, 0), 0));
    heap.objects := heap.objects[owner := Node(ObjectData(kind, instance, 0), 0)];
    ghost var ps;
    ok, rest, ps := ParseProperties(d, heap, owner, apdu);
    tree := ObjectTree(owner, ObjectData(kind, instance, Start(Cells(ps), 0)), ps);
    assert heap.objects == before.objects[owner := Node(tree.data, 0)];
    ObjectAtEnd(before, heap.State(), base, done, tree);
  }

  lemma LastObjectInPlace(m: Base, base: Base, os: seq<ObjectTree>)
    requires os != [] && Stored(m, base, os)
    ensures var o := os[|os| - 1]; o.ptr in m.objects && m.objects[o.ptr] == Node(o.data, 0)
  {
    hide Holds;
    hide AllRooted;
    hide PropertyLinks;
    hide AllValueLinks;
    var front, o := os[..|os| - 1], os[|os| - 1];
    assert os == front + [o];
    ObjectCellsSnoc(front, o);
    ChainFilled(m.objects, base.objects, ObjectCells(front), Cell(o.ptr, o.data), o.data);
  }

  lemma ClearObjectLinked(m: Base, base: Base, os: seq<ObjectTree>, p: Ptr)
    requires os != [] && Stored(m, base, os) && p != 0 && p !in m.objects
    ensures var o := os[|os| - 1];
            var m' := m.(objects := m.objects[p := Node(CLEAR_OBJECT, 0)][o.ptr := Node(o.data, p)]);
            Stored(m', base, os + [ClearObject(p)])
  {
    hide Holds;
    hide AllRooted;
    hide PropertyLinks;
    hide AllValueLinks;
    var front, o := os[..|os| - 1], os[|os| - 1];
    assert os == front + [o];
    ObjectCellsSnoc(front, o);
    ChainGrows(m.objects, base.objects, ObjectCells(front), Cell(o.ptr, o.data), p, CLEAR_OBJECT);
    ClearObjectAtEnd(os, p);
  }

  /** A node behind the last object node, or none. */
  method NextObject(heap: Heap, oldObject: Ptr, ghost base: Base, ghost done: seq<ObjectTree>)
    returns (owner: Ptr, ghost os: seq<ObjectTree>)
    requires done != [] && done[|done| - 1].ptr == oldObject
    requires heap.Valid() && Stored(heap.State(), base, done)
    modifies heap`objects
    ensures heap.Valid() && heap.Room() == old(heap.Room()) - (if owner == 0 then 0 else 1)
    ensures owner == 0 <==> old(heap.Room()) == 0
    ensures os == if owner == 0 then done else done + [ClearObject(owner)]
    ensures Stored(heap.State(), base, os)
  {
    hide Stored;
    ghost var before := heap.State();
    LastObjectInPlace(before, base, done);
    owner := heap.CallocObject();
    if owner != 0 {
      ClearObjectLinked(before, base, done, owner);
    } else {
      assert before.objects == before.objects[oldObject := before.objects[oldObject].(next := 0)];
    }
    SameSize(heap.objects, oldObject, heap.objects[oldObject].(next := owner));
    heap.objects := heap.objects[oldObject := heap.objects[oldObject].(next := owner)];
    os := if owner == 0 then done else done + [ClearObject(owner)];
  }

  /** The last object node, left empty, is unlinked and freed. */
  method DropObject(heap: Heap, oldObject: Ptr, owner: Ptr, ghost base: Base, ghost done: seq<ObjectTree>)
    requires heap.Valid() && Stored(heap.State(), base, done + [ClearObject(owner)])
    requires oldObject == if done == [] then owner else done[|done| - 1].ptr
    modifies heap`objects
    ensures heap.Valid() && heap.Room() == old(heap.Room()) + 1
    ensures Stored(heap.State(), base, done)
  {
    hide Holds;
    ClearObjectAtEnd(done, owner);
    hide Links;
    hide PropertyLinks;
    hide AllValueLinks;
    hide AllRooted;
    ChainDrops(heap.objects, base.objects, ObjectCells(done), Cell(owner, CLEAR_OBJECT), oldObject);
    SameSize(heap.objects, oldObject, heap.objects[oldObject].(next := 0));
    heap.objects := heap.objects[oldObject := heap.objects[oldObject].(next := 0)];
    heap.FreeObject(owner);
  }

  /** What is left of the loop over objects, after those done. */
  ghost predicate ObjectsPending(d: Decoders, apdu: seq<u8>, rest: seq<u8>, done: seq<ObjectResult>)
    requires InBounds(d)
  {
    && Objects(d, apdu, []) == Objects(d, rest, done)
    && ObjectsPeak(d, apdu) == Plus(AllNodes(done), ObjectsPeak(d, rest))
  }

  lemma ObjectsStart(d: Decoders, apdu: seq<u8>)
    requires InBounds(d)
    ensures ObjectsPending(d, apdu, apdu, []) && AllNodes([]) == 0 && Nodes([]) == 0
  {
    hide Object;
  }

  lemma ObjectsEnd(d: Decoders, apdu: seq<u8>, rest: seq<u8>, done: seq<ObjectResult>)
    requires InBounds(d) && ObjectsPending(d, apdu, rest, done) && (rest == [] || d.objectId(rest).None?)
    ensures Objects(d, apdu, []) == if rest == [] then Read(done + [ObjectResult(0, 0, [])], []) else Read(done, rest)
    ensures ObjectsPeak(d, apdu) == Some(AllNodes(done))
  {
    hide Properties;
    hide AllNodes;
  }

  lemma OwnPeak(d: Decoders, bs: seq<u8>)
    requires InBounds(d) && d.objectId(bs).Some?
    ensures Object(d, bs).Some?
    ensures var own, r := PropertiesPeak(d, bs[d.objectId(bs).value.1..]), Object(d, bs).value;
            && (r.Endless? <==> own.None?)
            && (r.Failed? ==> own.value == Nodes(r.done.properties))
            && (r.Read? ==> Nodes(r.done.properties) <= own.value <= Nodes(r.done.properties) + 1)
  {
    PeakOfProperties(d, bs[d.objectId(bs).value.1..], []);
    assert Nodes([]) == 0;
    hide Properties;
    hide PropertiesPeak;
    hide Nodes;
  }

  lemma ObjectsUnfold(d: Decoders, bs: seq<u8>, done: seq<ObjectResult>, r: Outcome<ObjectResult>)
    requires InBounds(d) && bs != [] && Object(d, bs) == Some(r)
    ensures Objects(d, bs, done) ==
            if r.Endless? then Endless
            else if r.Failed? then Failed(done + [r.done])
            else if r.rest == [] then Read(done + [r.done], [])
            else Objects(d, r.rest, done + [r.done])
  {
    hide Object;
    hide ObjectsPeak;
  }

  lemma ObjectsPeakUnfolds(d: Decoders, bs: seq<u8>, r: Outcome<ObjectResult>)
    requires InBounds(d) && bs != [] && Object(d, bs) == Some(r)
    ensures ObjectsPeak(d, bs) ==
            if r.Endless? then None
            else if r.Failed? then Some(Nodes(r.done.properties))
            else if r.rest == [] then PropertiesPeak(d, bs[d.objectId(bs).value.1..])
            else Plus(Nodes(r.done.properties) + 1, ObjectsPeak(d, r.rest))
  {
    hide Object;
    hide Objects;
    hide PropertiesPeak;
    hide Nodes;
  }

  lemma ObjectsTurn(d: Decoders, apdu: seq<u8>, rest: seq<u8>, done: seq<ObjectResult>)
    requires InBounds(d) && ObjectsPending(d, apdu, rest, done) && rest != [] && d.objectId(rest).Some?
    ensures Object(d, rest).Some?
    ensures var own, peak := PropertiesPeak(d, rest[d.objectId(rest).value.1..]), ObjectsPeak(d, apdu);
            && (own.None? ==> peak.None?)
            && (own.Some? && peak.Some? ==> peak.value >= AllNodes(done) + own.value)
    ensures var r, all := Object(d, rest).value, Objects(d, apdu, []);
            && (r.Read? && r.rest == [] ==> all == Read(done + [r.done], []))
            && (r.Read? && r.rest != [] ==> ObjectsPending(d, apdu, r.rest, done + [r.done]))
            && (r.Failed? ==> all == Failed(done + [r.done]))
    ensures var own, peak := PropertiesPeak(d, rest[d.objectId(rest).value.1..]), ObjectsPeak(d, apdu);
            var r := Object(d, rest).value;
            && (r.Failed? || (r.Read? && r.rest == []) ==> own.Some? && peak == Some(AllNodes(done) + own.value))
            && (r.Read? && r.rest != [] && peak.Some? ==> peak.value > AllNodes(done) + Nodes(r.done.properties))
  {
    hide Object;
    hide Objects;
    hide ObjectsPeak;
    hide PropertiesPeak;
    hide Nodes;
    hide AllNodes;
    OwnPeak(d, rest);
    var r := Object(d, rest).value;
    ObjectsUnfold(d, rest, done, r);
    ObjectsPeakUnfolds(d, rest, r);
    if r.Read? {
      AllNodesSnoc(done, r.done);
    }
  }

  /** One turn of the loop over objects: the last, empty node is filled, and one more allocated if octets are left. */
  method ObjectTurn(d: Decoders, heap: Heap, owner: Ptr, apdu: seq<u8>, ghost base: Base, ghost done: seq<ObjectTree>)
    returns (ok: bool, rest: seq<u8>, ghost tree: ObjectTree, next: Ptr, ghost os: seq<ObjectTree>)
    requires InBounds(d) && heap.Valid() && Stored(heap.State(), base, done + [ClearObject(owner)])
    requires d.objectId(apdu).Some?
    modifies heap`values, heap`properties, heap`objects
    ensures var nodes := Nodes(Results(tree.properties));
            && heap.Valid() && heap.Room() == old(heap.Room()) - nodes - (if next == 0 then 0 else 1)
            && if ok && rest != [] then next == 0 <==> old(heap.Room()) == nodes else next == 0
    ensures tree.ptr == owner && Stored(heap.State(), base, os)
    ensures os == if next == 0 then done + [tree] else done + [tree] + [ClearObject(next)]
    ensures |rest| < |apdu|
    ensures if Starves(PropertiesPeak(d, apdu[d.objectId(apdu).value.1..]), old(heap.Room()))
            then ok && next == 0 && heap.Room() == 0
            else Object(d, apdu) == Some(if ok then Read(ObjectOf(tree), rest) else Failed(ObjectOf(tree)))
  {
    hide Stored;
    hide Properties;
    hide PropertiesPeak;
    hide Nodes;
    var o := d.objectId(apdu).value;
    ok, rest, tree := ParseObject(d, heap, owner, o.0.0, o.0.1, apdu[o.1..], base, done);
    if ok && Closes(d, rest, 1) {
      rest := rest[1..];
    }
    next, os := 0, done + [tree];
    if ok && rest != [] {
      next, os := NextObject(heap, owner, base, os);
    }
  }

  lemma OneObject(m: Base, base: Base, head: Ptr)
    requires head != 0 && head in m.objects && m.objects[head] == Node(CLEAR_OBJECT, 0)
    requires base == Base(m.objects - {head}, m.properties, m.values)
    ensures Stored(m, base, [ClearObject(head)])
  {
    var os := [ClearObject(head)];
    HoldsNothing(base.objects, base.objects);
    HoldsMore(base.objects, base.objects, [], head, Node(CLEAR_OBJECT, 0));
    assert base.objects[head := Node(CLEAR_OBJECT, 0)] == m.objects;
    assert Links(ObjectCells(os), 0) == [] + [Binding(head, Node(CLEAR_OBJECT, 0))];
    HoldsNothing(m.properties, base.properties);
    HoldsNothing(m.values, base.values);
    ClearObjectAtEnd([], head);
    assert [] + os == os;
  }

  /**
   rpm_ack_decode_service_request: the octets decoded, or -1 when a value does not decode. Whatever happens,
   even when memory runs out, the nodes that are left are exactly those of one list of lists, each once. That
   list starts at the caller's node, unless the first object identifier does not decode: then it is empty,
   and the caller's node is freed. With room for the nodes it takes, length and lists are what the octets say;
   without, the room is used up.
   */
  method Parse(d: Decoders, heap: Heap, head: Ptr, apdu: seq<u8>)
    returns (len: int, ghost rest: seq<u8>, ghost os: seq<ObjectTree>)
    requires InBounds(d) && heap.Valid()
    requires head != 0 && head in heap.objects && heap.objects[head] == Node(CLEAR_OBJECT, 0)
    modifies heap`values, heap`properties, heap`objects
    ensures heap.Valid() && heap.Room() == old(heap.Room()) + 1 - AllNodes(ObjectResults(os))
    ensures Stored(heap.State(), old(Base(heap.objects - {head}, heap.properties, heap.values)), os)
    ensures os == [] <==> apdu != [] && d.objectId(apdu).None?
    ensures os != [] ==> os[0].ptr == head
    ensures len == -1 || len == |apdu| - |rest| >= 0
    ensures if Starves(ObjectsPeak(d, apdu), old(heap.Room())) then len >= 0 && heap.Room() == 0
            else Objects(d, apdu, []) == if len < 0 then Failed(ObjectResults(os)) else Read(ObjectResults(os), rest)
  {
    hide InBounds;
    hide Stored;
    hide ObjectOf;
    hide Object;
    hide AllNodes;
    hide ObjectsPeak;
    hide PropertiesPeak;
    hide Nodes;
    hide Objects;
    hide ObjectsPending;
    ObjectsStart(d, apdu);
    ghost var base, room := Base(heap.objects - {head}, heap.properties, heap.values), heap.Room();
    ghost var peak, done: seq<ObjectTree>, tree := ObjectsPeak(d, apdu), [], ClearObject(0);
    var data, ok := apdu, true;
    var owner: Ptr, oldObject: Ptr := head, head;
    OneObject(heap.State(), base, head);
    os := [ClearObject(head)];
    assert done + os == os && ObjectResults(done) == [];
    if apdu == [] {
      ObjectsEnd(d, apdu, [], []);
      ClearObjectAtEnd(done, head);
      AllNodesSnoc([], ObjectResult(0, 0, []));
      return 0, [], os;
    }
    while owner != 0 && data != []
      invariant |data| <= |apdu| && heap.Valid()
      invariant heap.Room() == room - AllNodes(ObjectResults(done)) + if os == done then 1 else 0
      invariant owner != 0 && data != [] ==> os == done + [ClearObject(owner)]
      invariant owner != 0 && data != [] ==> oldObject == if done == [] then owner else done[|done| - 1].ptr
      invariant Stored(heap.State(), base, os)
      invariant os != [] && os[0].ptr == head
      invariant if done == [] then data == apdu && owner == head else d.objectId(apdu).Some? && done[0].ptr == head
      invariant owner != 0 && data != [] ==> ObjectsPending(d, apdu, data, ObjectResults(done))
      invariant owner == 0 || data == [] ==>
                  && os == done
                  && if Starves(peak, room) then heap.Room() == 0
                     else data == [] && Objects(d, apdu, []) == Read(ObjectResults(os), [])
      decreases |data|
    {
      if d.objectId(data).None? {
        ObjectsEnd(d, apdu, data, ObjectResults(done));
        DropObject(heap, oldObject, owner, base, done);
        return |apdu| - |data|, data, done;
      }
      ObjectsTurn(d, apdu, data, ObjectResults(done));
      oldObject := owner;
      ok, data, tree, owner, os := ObjectTurn(d, heap, owner, data, base, done);
      ObjectCellsSnoc(done, tree);
      AllNodesSnoc(ObjectResults(done), ObjectOf(tree));
      done := done + [tree];
      if !ok {
        return -1, data, os;
      }
    }
    return |apdu| - |data|, data, os;
  }
}
