/**
 Network layer messages of a router (ASHRAE 135, clause 6.4): the payloads that s_router.c writes from
 lists of network numbers ending in a negative value, and the loop of h_routed_npdu.c that reads them.
 */
module Router {
  import opened Octets
  import opened Tags

  /** The number of values before the terminator. */
  function Count(args: seq<int>): nat {
    First(args, (v: int) => v < 0)
  }

  ghost predicate Terminated(args: seq<int>) {
    Count(args) < |args|
  }

  function Dnet(v: int): u16 {
    v % 0x1_0000
  }

  // ---------- I-Am-Router-To-Network and its likes ----------

  function DnetOctets(args: seq<int>): seq<u8> {
    if args == [] then [] else DnetOctets(args[..|args| - 1]) + U16(Dnet(args[|args| - 1]))
  }

  method EncodeDnets(args: seq<int>) returns (payload: seq<u8>)
    requires Terminated(args)
    ensures payload == DnetOctets(args[..Count(args)])
  {
    payload := [];
    var i := 0;
    while args[i] >= 0
      invariant i <= Count(args)
      invariant payload == DnetOctets(args[..i])
      decreases |args| - i
    {
      payload := payload + U16(Dnet(args[i]));
      i := i + 1;
      assert args[..i][..i - 1] == args[..i - 1];
    }
  }

  function DnetsIn(npdu: seq<u8>): seq<u16> {
    if |npdu| < 2 then [] else [FromU16(npdu)] + DnetsIn(npdu[2..])
  }

  /** The I-Am-Router branch of network_control_handler: the networks it names, two octets at a time. */
  method DecodeDnets(npdu: seq<u8>) returns (dnets: seq<u16>, consumed: nat)
    ensures dnets == DnetsIn(npdu)
    ensures consumed == |npdu| - |npdu| % 2
  {
    dnets, consumed := [], 0;
    var len := |npdu|;
    while len >= 2
      invariant len >= 0 && consumed + len == |npdu| && consumed % 2 == 0
      invariant dnets + DnetsIn(npdu[consumed..]) == DnetsIn(npdu)
    {
      ghost var rest := npdu[consumed..];
      dnets := dnets + [FromU16(npdu[consumed..])];
      len := len - 2;
      consumed := consumed + 2;
      assert rest[2..] == npdu[consumed..];
    }
    assert dnets + [] == dnets;
  }

  /** The networks of the list, each cut to sixteen bits. */
  function Networks(args: seq<int>): seq<u16> {
    seq(|args|, i requires 0 <= i < |args| => Dnet(args[i]))
  }

  lemma {:induction false} DnetsRead(args: seq<int>, tail: seq<u8>)
    ensures DnetsIn(DnetOctets(args) + tail) == Networks(args) + DnetsIn(tail)
    decreases |args|
  {
    if args == [] {
      assert DnetOctets(args) + tail == tail;
    } else {
      var front, v := args[..|args| - 1], Dnet(args[|args| - 1]);
      var more := U16(v) + tail;
      assert DnetOctets(args) + tail == DnetOctets(front) + more;
      DnetsRead(front, more);
      assert more[2..] == tail && FromU16(more) == v;
      assert Networks(args) == Networks(front) + [v];
    }
  }

  /** Any list of network numbers is read back as written; an odd octet at the end is ignored. */
  lemma DnetRoundTrip(args: seq<int>, odd: seq<u8>)
    requires Terminated(args) && |odd| <= 1
    requires forall i :: 0 <= i < Count(args) ==> args[i] < 0x1_0000
    ensures DnetsIn(DnetOctets(args[..Count(args)]) + odd) == args[..Count(args)]
  {
    assert DnetsIn(odd) == [];
    hide DnetsIn;
    hide DnetOctets;
    hide Networks;
    var dnets := args[..Count(args)];
    DnetsRead(dnets, odd);
    SmallNetworks(dnets);
  }

  lemma SmallNetworks(args: seq<int>)
    requires forall i :: 0 <= i < |args| ==> 0 <= args[i] < 0x1_0000
    ensures Networks(args) == args
  {
  }

  /** Network i stands in octets 2i and 2i + 1, the high one first. */
  lemma {:induction false} DnetsByIndex(args: seq<int>, i: nat)
    requires i < |args| && 0 <= args[i] < 0x1_0000
    ensures |DnetOctets(args)| == 2 * |args|
    ensures DnetOctets(args)[2 * i] == args[i] / 256 && DnetOctets(args)[2 * i + 1] == args[i] % 256
    decreases |args|
  {
    var n := |args| - 1;
    DnetsLength(args);
    DnetsLength(args[..n]);
    if i < n {
      DnetsByIndex(args[..n], i);
    }
  }

  lemma {:induction false} DnetsLength(args: seq<int>)
    ensures |DnetOctets(args)| == 2 * |args|
  {
    if args != [] {
      DnetsLength(args[..|args| - 1]);
    }
  }

  // ---------- Initialize-Routing-Table ----------

  const NO_PORT_INFO: u8 := 0

  datatype Port = Port(dnet: u16, portId: u8)

  function PortEntry(p: Port): (r: seq<u8>)
    ensures |r| == 4
  {
    U16(p.dnet) + [p.portId, NO_PORT_INFO]
  }

  function PortOctets(ports: seq<Port>): seq<u8> {
    if ports == [] then []
    else PortOctets(ports[..|ports| - 1]) + PortEntry(ports[|ports| - 1])
  }

  /** One port for each network, numbered from 1 in eight bits. */
  function PortsFor(args: seq<int>): seq<Port> {
    seq(|args|, i requires 0 <= i < |args| => Port(Dnet(args[i]), (i + 1) % 0x100))
  }

  /** Port i stands in four octets: its network, the high octet first, its number, and no further information. */
  lemma {:induction false} PortsByIndex(ports: seq<Port>, i: nat)
    requires i < |ports|
    ensures |PortOctets(ports)| == 4 * |ports|
    ensures PortOctets(ports)[4 * i..4 * i + 4] == [ports[i].dnet / 256, ports[i].dnet % 256, ports[i].portId, 0]
    decreases |ports|
  {
    var n := |ports| - 1;
    PortOctetsLength(ports);
    PortOctetsLength(ports[..n]);
    if i < n {
      PortsByIndex(ports[..n], i);
      assert PortOctets(ports)[4 * i..4 * i + 4] == PortOctets(ports[..n])[4 * i..4 * i + 4];
    }
  }

  lemma NextPort(args: seq<int>, i: nat)
    requires i < |args|
    ensures PortOctets(PortsFor(args[..i + 1])) ==
            PortOctets(PortsFor(args[..i])) + PortEntry(Port(Dnet(args[i]), (i + 1) % 0x100))
  {
    var before, after := PortsFor(args[..i]), PortsFor(args[..i + 1]);
    assert after[..i] == before && after[i] == Port(Dnet(args[i]), (i + 1) % 0x100);
  }

  lemma PortIdNext(i: nat)
    ensures ((i + 1) % 0x100 + 1) % 0x100 == (i + 2) % 0x100
  {
  }

  method EncodePorts(args: seq<int>) returns (octets: seq<u8>)
    requires Terminated(args)
    ensures octets == PortOctets(PortsFor(args[..Count(args)]))
  {
    octets := [];
    ghost var n := Count(args);
    assert forall j :: 0 <= j < n ==> args[j] >= 0;
    var i := 0;
    var portId: u8 := 1;
    while args[i] >= 0
      invariant i <= n && portId == (i + 1) % 0x100
      invariant octets == PortOctets(PortsFor(args[..i]))
      decreases |args| - i
    {
      NextPort(args, i);
      PortIdNext(i);
      octets := octets + PortEntry(Port(Dnet(args[i]), portId));
      portId := (portId as nat + 1) % 0x100;
      i := i + 1;
    }
  }

  /** The routing table payload: the count octet, then the ports. */
  method EncodeRoutingTable(args: seq<int>) returns (payload: seq<u8>)
    requires Terminated(args)
    ensures payload == [Count(args) % 0x100] + PortOctets(PortsFor(args[..Count(args)]))
    ensures |payload| == 1 + 4 * Count(args)
  {
    var n := 0;
    while args[n] >= 0
      invariant n <= Count(args)
      decreases |args| - n
    {
      n := n + 1;
    }
    payload := [n % 0x100];
    PortOctetsLength(PortsFor(args[..n]));
    if n > 0 {
      var ports := EncodePorts(args);
      payload := payload + ports;
    }
  }

  /** A reader for the payload: as many ports as the count octet says, and nothing after them. */
  function ReadRoutingTable(payload: seq<u8>): Option<seq<Port>> {
    if payload == [] then None else ReadPorts(payload[1..], payload[0])
  }

  function ReadPorts(bs: seq<u8>, n: nat): Option<seq<Port>> {
    if n == 0 then if bs == [] then Some([]) else None
    else if |bs| < 4 || bs[3] != NO_PORT_INFO then None
    else
      var rest := ReadPorts(bs[4..], n - 1);
      if rest.None? then None else Some([Port(FromU16(bs), bs[2])] + rest.value)
  }

  lemma PortRead(p: Port, tail: seq<u8>, n: nat)
    ensures ReadPorts(PortEntry(p) + tail, n + 1) ==
            if ReadPorts(tail, n).None? then None else Some([p] + ReadPorts(tail, n).value)
  {
    var bs := PortEntry(p) + tail;
    assert bs[4..] == tail && FromU16(bs) == p.dnet && bs[2] == p.portId && bs[3] == NO_PORT_INFO;
  }

  lemma {:induction false} PortsRead(ports: seq<Port>, tail: seq<u8>, n: nat)
    ensures ReadPorts(PortOctets(ports) + tail, |ports| + n) ==
            if ReadPorts(tail, n).None? then None else Some(ports + ReadPorts(tail, n).value)
    decreases |ports|
  {
    if ports == [] {
      assert PortOctets(ports) + tail == tail;
      assert ReadPorts(tail, n).Some? ==> ports + ReadPorts(tail, n).value == ReadPorts(tail, n).value;
    } else {
      var front, p := ports[..|ports| - 1], ports[|ports| - 1];
      var more := PortEntry(p) + tail;
      Assoc(PortOctets(front), PortEntry(p), tail);
      PortsRead(front, more, n + 1);
      PortRead(p, tail, n);
      if ReadPorts(tail, n).Some? {
        Assoc(front, [p], ReadPorts(tail, n).value);
        assert front + [p] == ports;
      }
    }
  }

  lemma {:induction false} PortOctetsLength(ports: seq<Port>)
    ensures |PortOctets(ports)| == 4 * |ports|
    decreases |ports|
  {
    if ports != [] {
      PortOctetsLength(ports[..|ports| - 1]);
    }
  }

  lemma {:induction false} PortsReadLength(bs: seq<u8>, n: nat)
    ensures ReadPorts(bs, n).Some? ==> |bs| == 4 * n
    decreases n
  {
    if n > 0 && |bs| >= 4 {
      PortsReadLength(bs[4..], n - 1);
    }
  }

  /**
   The table reads back as one port for each network, numbered 1 to n, exactly when there are at most
   255 networks: the count octet then holds their number.
   */
  lemma RoutingTableRoundTrip(args: seq<int>)
    ensures var payload := [|args| % 0x100] + PortOctets(PortsFor(args));
            && (ReadRoutingTable(payload) == Some(PortsFor(args)) <==> |args| <= 255)
            && (|args| <= 255 ==> forall i :: 0 <= i < |args| ==> PortsFor(args)[i].portId == i + 1)
  {
    hide PortOctets;
    var ports := PortsFor(args);
    var octets := PortOctets(ports);
    var payload := [|args| % 0x100] + octets;
    assert payload[1..] == octets;
    PortOctetsLength(ports);
    if |args| <= 255 {
      PortsRead(ports, [], 0);
      assert octets + [] == octets && ports + [] == ports;
    } else {
      PortsReadLength(octets, |args| % 0x100);
    }
  }
}
