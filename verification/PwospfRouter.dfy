/** One router: its graph, neighbours and routing table, and the handlers that update them in place. */
module PwospfRouters {
  import opened Words
  import opened PacketFields
  import opened Topology
  import opened ShortestPaths
  import opened Convergence
  import opened Distances
  import opened SubnetGraphs
  import opened RouteTables
  import opened Checksum
  import opened LsuPackets
  import opened RouteBuilding
  import opened ArpCaches
  import opened Hellos

  function SubnetOf(i: Interface): Subnet { Subnet(And(i.ip, i.mask), i.mask) }

  function SubnetsOf(ifs: seq<Interface>): (r: seq<Subnet>)
    ensures |r| == |ifs|
  {
    seq(|ifs|, k requires 0 <= k < |ifs| => SubnetOf(ifs[k]))
  }

  /** The table entry made for an interface at start-up. */
  function OwnRoute(i: Interface): Route { Route(And(i.ip, i.mask), 0, i.mask, i.name) }

  function OwnRoutes(ifs: seq<Interface>): (r: seq<Route>)
    ensures |r| == |ifs|
  {
    seq(|ifs|, k requires 0 <= k < |ifs| => OwnRoute(ifs[k]))
  }

  // ----- the router id -------------------------------------------------------------------

  /** The number the machine, which is little-endian, sees in an address. */
  function HostOrder(a: Addr): Addr {
    a % 256 * 0x100_0000 + a / 256 % 256 * 0x1_0000 + a / 0x1_0000 % 256 * 0x100 + a / 0x100_0000
  }

  /** The id after a look at every interface in turn; 0 means none yet. */
  function ChosenId(ifs: seq<Interface>): Addr {
    if ifs == [] then 0
    else
      var id, ip := ChosenId(ifs[..|ifs| - 1]), ifs[|ifs| - 1].ip;
      if HostOrder(ip) < HostOrder(id) || id == 0 then ip else id
  }

  /** The id is the smallest interface address, as the machine compares them; an unset address would start anew. */
  lemma {:induction false} ChosenIdIsSmallest(ifs: seq<Interface>)
    requires ifs != [] && forall k :: 0 <= k < |ifs| ==> ifs[k].ip != 0
    ensures exists k :: 0 <= k < |ifs| && ifs[k].ip == ChosenId(ifs)
    ensures forall k :: 0 <= k < |ifs| ==> HostOrder(ChosenId(ifs)) <= HostOrder(ifs[k].ip)
  {
    hide HostOrder;
    var init := ifs[..|ifs| - 1];
    if init == [] {
      assert ChosenId(ifs) == ifs[0].ip;
    } else {
      ChosenIdIsSmallest(init);
      var k :| 0 <= k < |init| && init[k].ip == ChosenId(init);
      assert ifs[k] == init[k];
    }
  }

  /** The machine's number has the four octets of the address in the opposite order. */
  lemma HostOrderReverses(p: seq<byte>, a: Addr)
    requires |p| == 4 && AddressAt(p, 0, a)
    ensures AddressAt([p[3], p[2], p[1], p[0]], 0, HostOrder(a))
  {
    var q: nat := 0x1_0000 * (p[0] as int) + 0x100 * (p[1] as int) + p[2] as int;
    assert a == 256 * q + p[3] as int;
    LastOctet(a, q, p[3]);
    LastOctet(q, 256 * (p[0] as int) + p[1] as int, p[2]);
    LastOctet(256 * (p[0] as int) + p[1] as int, p[0], p[1]);
    assert a / 0x1_0000 == a / 256 / 256 && a / 0x100_0000 == a / 256 / 256 / 256;
  }

  lemma LastOctet(a: nat, q: nat, b: byte)
    requires a == 256 * q + b as int
    ensures a / 256 == q && a % 256 == b
  {
  }

  /**
    What start-up enters for interface `k`: its network and mask in the graph, and a route without
    gateway, out on that interface, to the addresses that agree with its own on the bits of the mask.
  */
  lemma StartRoutesExactly(ifs: seq<Interface>, k: nat, ip: Addr)
    requires k < |ifs|
    ensures var i, r := ifs[k], OwnRoutes(ifs)[k];
      && r.gw == 0 && r.mask == i.mask && r.iface == i.name
      && SubnetsOf(ifs)[k] == Subnet(r.dest, i.mask)
      && (Matches(r, ip) <==>
            i.mask != 0 && forall b: bv5 :: BitAt(i.mask, b) ==> (BitAt(ip, b) <==> BitAt(i.ip, b)))
      && forall b: bv5 :: BitAt(r.dest, b) <==> BitAt(i.ip, b) && BitAt(i.mask, b)
  {
    var i, r := ifs[k], OwnRoutes(ifs)[k];
    assert r.dest == And(i.ip, i.mask);
    hide Matches, BitAt, And;
    MatchesExactly(r, ip);
    forall b: bv5 ensures BitAt(r.dest, b) <==> BitAt(i.ip, b) && BitAt(i.mask, b) { AndExactly(i.ip, i.mask, b); }
  }

  method ChooseRouterId(ifs: seq<Interface>) returns (id: Addr)
    ensures id == ChosenId(ifs)
  {
    id := 0;
    var k := 0;
    while k < |ifs|
      invariant 0 <= k <= |ifs| && id == ChosenId(ifs[..k])
    {
      assert ifs[..k + 1][..k] == ifs[..k];
      if HostOrder(ifs[k].ip) < HostOrder(id) || id == 0 { id := ifs[k].ip; }
      k := k + 1;
    }
    assert ifs[..k] == ifs;
  }

  class PwospfRouter {
    const routerId: Addr
    const ifList: seq<Interface>
    const neighbour: array<Neighbour>
    const subnetGraph: SubnetGraph
    const routingTable: RouteTable
    const cache: ArpCache
    var seqCountLsu: nat           // number of the next update; 16 bits of it go on the wire
    var sent: seq<Frame>           // frames handed to the network so far

    ghost predicate Valid()
      reads this, neighbour, subnetGraph, subnetGraph.vrtxList, routingTable, routingTable.nodes
    {
      && MacsOk(ifList) && neighbour.Length == |ifList| > 0
      && subnetGraph.Valid() && routingTable.Valid()
      && FindId(subnetGraph.graph, RouterKey(routerId)) == 0
      && (forall k :: 0 <= k < neighbour.Length ==> neighbour[k].alive)
    }

    /** The labels are the exact capped distances from the router itself, found by visiting in `order`. */
    ghost predicate Searched(order: seq<int>)
      reads subnetGraph
    {
      && Exact(subnetGraph.graph, 0, subnetGraph.labels)
      && Ordered(subnetGraph.labels, order) && |order| == |subnetGraph.graph|
    }

    /** The routing table is what one build makes of table `t`. */
    ghost predicate Rebuilt(t: seq<Route>)
      reads this, neighbour, subnetGraph, routingTable
    {
      && |subnetGraph.graph| == |subnetGraph.labels| && neighbour.Length > 0
      && routingTable.Routes() == BuildAll(subnetGraph.graph, subnetGraph.labels, neighbour[..], t)
    }

    /** Start-up in dynamic mode: the id, the own vertex, then a subnet vertex, an edge and a route per interface. */
    constructor (ifList: seq<Interface>, routes: RouteTable, cache: ArpCache, now: real)
      requires MacsOk(ifList) && |ifList| > 0 && routes.Valid()
      modifies routes, routes.nodes
      ensures Valid() && fresh(subnetGraph) && fresh(subnetGraph.vrtxList) && fresh(neighbour)
      ensures routingTable == routes && this.cache == cache && this.ifList == ifList && seqCountLsu == 1 && sent == []
      ensures routerId == ChosenId(ifList)
      ensures subnetGraph.graph == InitGraph(routerId, SubnetsOf(ifList))
      ensures routingTable.Routes() == old(routes.Routes()) + OwnRoutes(ifList)
      ensures neighbour[..] == StartRecords(|ifList|, now)
    {
      hide FindId, SubnetGraph.Valid, SubnetGraph.Holds, RouteTable.Valid, RouteTable.Routes;
      hide OwnRoutes, SubnetsOf, MacsOk, InitGraph;
      var id := ChooseRouterId(ifList);
      routerId, this.ifList, routingTable, this.cache, seqCountLsu, sent := id, ifList, routes, cache, 1, [];
      neighbour := new Neighbour[|ifList|](k requires 0 <= k < |ifList| => Neighbour(0, 0, 0, true, EthName(k), now));
      subnetGraph := new SubnetGraph();
      new;
      InitializeGraph();
    }

    method InitializeGraph()
      requires MacsOk(ifList) && subnetGraph.Valid() && routingTable.Valid() && subnetGraph.graph == []
      modifies subnetGraph, subnetGraph.vrtxList, routingTable, routingTable.nodes
      ensures subnetGraph.Valid() && subnetGraph.OnlyGrows() && routingTable.Valid() && routingTable.OnlyGrows()
      ensures subnetGraph.graph == InitGraph(routerId, SubnetsOf(ifList))
      ensures FindId(subnetGraph.graph, RouterKey(routerId)) == 0
      ensures routingTable.Routes() == old(routingTable.Routes()) + OwnRoutes(ifList)
    {
      hide FindId, SubnetGraph.Valid, SubnetGraph.Holds, RouteTable.Valid, OwnRoutes, SubnetsOf, MacsOk;
      subnetGraph.AddVertex(routerId, 0, 0, ROUTER);
      AddInterfaceVertices();
    }

    method AddInterfaceVertices()
      requires MacsOk(ifList) && subnetGraph.Valid() && routingTable.Valid()
      requires subnetGraph.graph == InitGraph(routerId, [])
      modifies subnetGraph, subnetGraph.vrtxList, routingTable, routingTable.nodes
      ensures subnetGraph.Valid() && subnetGraph.OnlyGrows() && routingTable.Valid() && routingTable.OnlyGrows()
      ensures subnetGraph.graph == InitGraph(routerId, SubnetsOf(ifList))
      ensures FindId(subnetGraph.graph, RouterKey(routerId)) == 0
      ensures routingTable.Routes() == old(routingTable.Routes()) + OwnRoutes(ifList)
    {
      hide FindId, SubnetGraph.Valid, SubnetGraph.Holds, RouteTable.Valid, InitGraph;
      hide Topology.AddEdge, Topology.AddVertex;
      ghost var own, nets, before := OwnRoutes(ifList), SubnetsOf(ifList), routingTable.Routes();
      InitFindsItself(routerId, []);
      assert nets[..0] == [] && own[..0] == [];
      var router := subnetGraph.GetRouterById(routerId);
      var k := 0;
      while k < |ifList|
        invariant 0 <= k <= |ifList| && subnetGraph.Valid() && subnetGraph.OnlyGrows() && routingTable.Valid()
        invariant subnetGraph.graph == InitGraph(routerId, nets[..k])
        invariant router in subnetGraph.vrtxList && router.id == 0
        invariant routingTable.Routes() == before + own[..k]
        invariant routingTable.OnlyGrows()
      {
        AddInterface(router, ifList[k]);
        InitNext(routerId, nets, k);
        assert own[..k + 1] == own[..k] + [own[k]];
        k := k + 1;
      }
      assert nets[..k] == nets && own[..k] == own;
      InitFindsItself(routerId, nets);
    }

    method AddInterface(router: VertexNode, i: Interface)
      requires subnetGraph.Valid() && routingTable.Valid() && router in subnetGraph.vrtxList && router.id == 0
      modifies subnetGraph, subnetGraph.vrtxList, routingTable, routingTable.nodes
      ensures subnetGraph.Valid() && subnetGraph.OnlyGrows() && routingTable.Valid() && routingTable.OnlyGrows()
      ensures |old(subnetGraph.graph)| > 0 && router in subnetGraph.vrtxList
      ensures subnetGraph.graph == Convergence.AddInterface(old(subnetGraph.graph), routerId, 0, SubnetOf(i))
      ensures routingTable.Routes() == old(routingTable.Routes()) + [OwnRoute(i)]
    {
      hide SubnetGraph.Holds, RouteTable.Valid, Topology.AddEdge;
      var net, mask := And(i.ip, i.mask), i.mask;
      subnetGraph.AddVertex(routerId, net, mask, SUBNET);
      assert subnetGraph.vrtxList == [subnetGraph.vrtxList[0]] + old(subnetGraph.vrtxList);
      subnetGraph.Sizes();
      subnetGraph.AddEdge(router, subnetGraph.vrtxList[0], 1);
      routingTable.AddEntry(net, 0, mask, i.name);
    }

    // ----- the link-state update handler -------------------------------------------------

    /** Copies an interface address into the source field. */
    method SetSource(packet: array<byte>, mac: seq<byte>)
      requires packet.Length >= ADVERTS_AT && |mac| == 6
      modifies packet
      ensures packet[..] == WithSource(old(packet[..]), mac)
    {
      ghost var q := packet[..];
      for j := 0 to 6
        invariant packet[..] == q[..6] + mac[..j] + q[6 + j..]
      {
        packet[6 + j] := mac[j];
      }
    }

    /** One pass over the interface list for one advertisement. */
    method ForwardOnOthers(packet: array<byte>, incoming: string)
      requires MacsOk(ifList) && packet.Length >= ADVERTS_AT
      modifies this`sent, packet
      ensures sent == old(sent) + OnOthers(old(packet[..]), ifList, incoming)
      ensures SameButSource(packet[..], old(packet[..]))
    {
      ghost var p := packet[..];
      var k := 0;
      while k < |ifList|
        invariant 0 <= k <= |ifList| && SameButSource(packet[..], p)
        invariant sent == old(sent) + OnOthers(p, ifList[..k], incoming)
      {
        ghost var q, before := packet[..], sent;
        SetSource(packet, ifList[k].mac);
        SourceOverwritten(q, p, ifList[k].mac);
        if ifList[k].name != incoming {
          sent := sent + [Frame(ifList[k].name, packet[..])];
        }
        OnOthersNext(p, ifList, incoming, k);
        k := k + 1;
      }
      assert ifList[..k] == ifList;
    }

    method HandleLsuPacket(packet: array<byte>, incoming: string) returns (accepted: bool, ghost order: seq<int>)
      requires Valid() && GraphInv(subnetGraph.graph) && Decodable(packet[..])
      modifies this`sent, packet, subnetGraph, subnetGraph.vrtxList, routingTable, routingTable.nodes
      ensures Valid() && subnetGraph.OnlyGrows() && routingTable.OnlyGrows() && GraphInv(subnetGraph.graph)
      ensures accepted <==> Accepts(old(subnetGraph.graph), routerId, Decode(old(packet[..])))
      ensures subnetGraph.graph == Receive(old(subnetGraph.graph), routerId, Decode(old(packet[..])))
      ensures !accepted ==> sent == old(sent) && routingTable.Routes() == old(routingTable.Routes())
      ensures accepted ==>
                sent == old(sent) + Forwards(old(packet[..]), ifList, incoming, |Decode(old(packet[..])).adverts|)
      ensures accepted ==> Searched(order) && Rebuilt(old(routingTable.Routes()))
      ensures accepted ==> TableServes(subnetGraph.graph, subnetGraph.labels, neighbour[..],
                                       old(routingTable.Routes()), routingTable.Routes())
    {
      DecodableLength(packet[..]);
      hide TableServes;
      hide FindId, GraphInv, Searched, Rebuilt, Forwards, Receive, Accepts, MacsOk, Decode, Decodable;
      hide SubnetGraph.Valid, SubnetGraph.Holds, RouteTable.Valid, RouteTable.Routes;
      var l := ReadLsu(packet);
      ReceiveInTwoSteps(subnetGraph.graph, routerId, l);
      accepted, order := HandleLsu(packet, incoming, l);
      if accepted { TableServed(order, old(routingTable.Routes())); }
    }

    method ReadLsu(packet: array<byte>) returns (l: Lsu)
      requires Decodable(packet[..])
      ensures l == Decode(packet[..])
    {
      l := Decode(packet[..]);
    }

    /** The handler after the fields have been read. */
    method HandleLsu(packet: array<byte>, incoming: string, l: Lsu) returns (accepted: bool, ghost order: seq<int>)
      requires Valid() && packet.Length >= ADVERTS_AT
      requires GraphInv(Receive(subnetGraph.graph, routerId, l))
      requires FindId(Receive(subnetGraph.graph, routerId, l), RouterKey(routerId)) == 0
      modifies this`sent, packet, subnetGraph, subnetGraph.vrtxList, routingTable, routingTable.nodes
      ensures Valid() && subnetGraph.OnlyGrows() && routingTable.OnlyGrows()
      ensures accepted <==> Accepts(old(subnetGraph.graph), routerId, l)
      ensures subnetGraph.graph == Receive(old(subnetGraph.graph), routerId, l)
      ensures !accepted ==> sent == old(sent) && routingTable.Routes() == old(routingTable.Routes())
      ensures accepted ==> sent == old(sent) + Forwards(old(packet[..]), ifList, incoming, |l.adverts|)
      ensures accepted ==> Searched(order) && Rebuilt(old(routingTable.Routes()))
    {
      hide FindId, GraphInv, Searched, Rebuilt, Forwards, Receive, Accepts, Record, ApplyAdverts, MacsOk;
      hide SubnetGraph.Valid, SubnetGraph.Holds, RouteTable.Valid, RouteTable.Routes;
      ReceiveSteps(subnetGraph.graph, routerId, l);
      order := [];
      accepted := subnetGraph.Gate(routerId, l.origin, l.seqNbr);
      if accepted {
        ApplyAndForward(packet, incoming, l);
        order := RecomputeRoutes();
      }
    }

    /** The end of the handler: the search from the router's own vertex, then the table. */
    method RecomputeRoutes() returns (ghost order: seq<int>)
      requires Valid() && GraphInv(subnetGraph.graph)
      modifies subnetGraph`labels, subnetGraph.vrtxList, routingTable, routingTable.nodes
      ensures Valid() && routingTable.OnlyGrows() && Searched(order) && Rebuilt(old(routingTable.Routes()))
    {
      hide FindId, Exact, Ordered, BuildAll, SubnetGraph.Valid, SubnetGraph.Holds, RouteTable.Valid;
      InvIsSound(subnetGraph.graph);
      hide GraphInv;
      subnetGraph.Sizes();
      var dijkstrasRouter := subnetGraph.GetRouterById(routerId);
      order := subnetGraph.Dijkstra(dijkstrasRouter);
      PopulateRoutingTable();
    }

    /** What the table then serves, in terms of the graph, the labels and the neighbour records. */
    lemma TableServed(order: seq<int>, t: seq<Route>)
      requires Valid() && GraphInv(subnetGraph.graph) && Searched(order) && Rebuilt(t)
      ensures TableServes(subnetGraph.graph, subnetGraph.labels, neighbour[..], t, routingTable.Routes())
    {
      hide GraphInv, Exact, TableServes, BuildAll;
      BuildServes(subnetGraph.graph, 0, subnetGraph.labels, neighbour[..], t);
    }

    /** The per-advertisement loop: update the graph, lower the time-to-live, forward. */
    method ApplyAndForward(packet: array<byte>, incoming: string, l: Lsu)
      requires MacsOk(ifList) && subnetGraph.Valid() && packet.Length >= ADVERTS_AT
      requires FindId(subnetGraph.graph, RouterKey(l.origin)) >= 0
      modifies this`sent, packet, subnetGraph, subnetGraph.vrtxList
      ensures subnetGraph.Valid() && subnetGraph.OnlyGrows()
      ensures subnetGraph.graph == ApplyAdverts(old(subnetGraph.graph), l.origin, l.adverts)
      ensures sent == old(sent) + Forwards(old(packet[..]), ifList, incoming, |l.adverts|)
    {
      hide FindId, Topology.ApplyAdvert, TtlLowered, OnOthers, SameButSource, MacsOk;
      hide SubnetGraph.Valid, SubnetGraph.Holds;
      ghost var g, p := subnetGraph.graph, packet[..];
      TtlStarts(p);
      var i := 0;
      while i < |l.adverts|
        invariant 0 <= i <= |l.adverts| && subnetGraph.Valid() && subnetGraph.OnlyGrows()
        invariant subnetGraph.graph == ApplyAdverts(g, l.origin, l.adverts[..i])
        invariant SameButSource(packet[..], TtlLowered(p, i))
        invariant sent == old(sent) + Forwards(p, ifList, incoming, i)
      {
        assert l.adverts[..i + 1][..i] == l.adverts[..i];
        ApplyAdvert(l.origin, l.adverts[i]);
        LowerAndForward(packet, incoming, p, i);
        i := i + 1;
      }
      assert l.adverts[..i] == l.adverts;
    }

    /** The packet has been lowered `i` times so far; only its source address may differ. */
    method LowerAndForward(packet: array<byte>, incoming: string, ghost p: seq<byte>, ghost i: nat)
      requires MacsOk(ifList) && |p| >= ADVERTS_AT && SameButSource(packet[..], TtlLowered(p, i))
      modifies this`sent, packet
      ensures sent == old(sent) + OnOthers(TtlLowered(p, i + 1), ifList, incoming)
      ensures SameButSource(packet[..], TtlLowered(p, i + 1))
    {
      hide TtlLowered, OnOthers, MacsOk;
      TtlLoweredNext(packet[..], p, i);
      packet[TTL_AT] := (packet[TTL_AT] as int - 1) % 256;
      SourceDoesNotMatter(packet[..], TtlLowered(p, i + 1), ifList, incoming);
      ForwardOnOthers(packet, incoming);
    }

    method ApplyAdvert(o: Addr, a: Advert)
      requires subnetGraph.Valid() && FindId(subnetGraph.graph, RouterKey(o)) >= 0
      modifies subnetGraph, subnetGraph.vrtxList
      ensures subnetGraph.Valid() && subnetGraph.OnlyGrows()
      ensures subnetGraph.graph == Topology.ApplyAdvert(old(subnetGraph.graph), o, a)
    {
      subnetGraph.ApplyLeaf(o, a);
      subnetGraph.ApplyLink(o, a.rid);
    }

    // ----- the periodic sender -----------------------------------------------------------

    method FindRouterIdForNeighbourFromSubNet(subnet: Addr) returns (rid: Addr)
      ensures rid == RidFrom(neighbour[..], subnet, 0)
    {
      var i := 0;
      while i < neighbour.Length
        invariant 0 <= i <= neighbour.Length
        invariant RidFrom(neighbour[..], subnet, 0) == RidFrom(neighbour[..], subnet, i)
      {
        if And(neighbour[i].ip, neighbour[i].netMask) == subnet {
          if neighbour[i].alive { return neighbour[i].routerId; }
        }
        i := i + 1;
      }
      return 0;
    }

    method CountAlive() returns (aliveInterFaces: nat)
      ensures aliveInterFaces == AliveCount(neighbour[..])
    {
      aliveInterFaces := 0;
      var i := 0;
      while i < neighbour.Length
        invariant 0 <= i <= neighbour.Length
        invariant aliveInterFaces == AliveCount(neighbour[..i])
      {
        assert neighbour[..i + 1][..i] == neighbour[..i];
        if neighbour[i].alive { aliveInterFaces := aliveInterFaces + 1; }
        i := i + 1;
      }
      assert neighbour[..i] == neighbour[..];
    }

    method MakeAdvert(i: Interface) returns (a: Advert)
      requires neighbour.Length > 0
      ensures a == AdvertFor(neighbour[..], i)
    {
      var subnet := And(i.ip, i.mask);
      var rid := FindRouterIdForNeighbourFromSubNet(subnet);
      a := Advert(subnet, i.mask, rid);
      if rid == 0 {
        var k := FindNeighborUsingRouterId(0);
        if IsEth0(neighbour[k].interFace) { a := Advert(0, 0, 0); }
      }
    }

    method BuildLsuPacket(i: Interface) returns (packet: array<byte>)
      requires Valid() && |i.mac| == 6
      ensures fresh(packet) && packet[..] == LsuPacket(routerId, neighbour[..], ifList, seqCountLsu, i)
    {
      hide FindId, SubnetGraph.Valid, RouteTable.Valid, MacsOk, AdvertFor, IpChecksummed, EncodeAdverts, Headers;
      ghost var wanted := Adverts(neighbour[..], ifList);
      var aliveInterFaces := CountAlive();
      var ospfLsuArray: seq<Advert> := [];
      while |ospfLsuArray| < |ifList|
        invariant |ospfLsuArray| <= |ifList| && ospfLsuArray == wanted[..|ospfLsuArray|]
        decreases |ifList| - |ospfLsuArray|
      {
        var a := MakeAdvert(ifList[|ospfLsuArray|]);
        ospfLsuArray := ospfLsuArray + [a];
      }
      assert ospfLsuArray == wanted;
      var bytes := Headers(routerId, i, seqCountLsu, |ifList|, aliveInterFaces)
                   + EncodeAdverts(ospfLsuArray)[..ADVERT_LEN * aliveInterFaces];
      packet := new byte[|bytes|](k requires 0 <= k < |bytes| => bytes[k]);
      assert packet[..] == bytes;
      SetIpChecksum(packet, ETHER_LEN);
    }

    /** One round of the sender: the current update on every interface, then the next number. */
    method SendLsuRound()
      requires Valid()
      modifies this`sent, this`seqCountLsu
      ensures Valid() && seqCountLsu == old(seqCountLsu) + 1
      ensures sent == old(sent) + RoundFrames(routerId, neighbour[..], ifList, old(seqCountLsu), |ifList|)
    {
      hide FindId, SubnetGraph.Valid, RouteTable.Valid, LsuPacket;
      var k := 0;
      while k < |ifList|
        invariant 0 <= k <= |ifList| && Valid() && seqCountLsu == old(seqCountLsu)
        invariant sent == old(sent) + RoundFrames(routerId, neighbour[..], ifList, seqCountLsu, k)
      {
        var packet := BuildLsuPacket(ifList[k]);
        sent := sent + [Frame(ifList[k].name, packet[..])];
        k := k + 1;
      }
      seqCountLsu := seqCountLsu + 1;
    }

    // ----- hellos ------------------------------------------------------------------------

    /**
      A hello with the right mask and interval makes its sender the neighbour on that interface, once
      and for all; its hardware address is cached either way.
    */
    method HandleHello(incoming: string, shost: seq<byte>, src: Addr, rid: Addr, nmask: Addr, helloint: nat, now: real)
      requires Valid() && cache.Valid() && cache.HasRoom() && |shost| == 6
      requires Arrives(ifList, neighbour.Length, Hello(incoming, src, rid, nmask, helloint, now))
      modifies neighbour, cache`freePos, cache.entries
      ensures Valid() && cache.Valid()
      ensures var h := Hello(incoming, src, rid, nmask, helloint, now);
        && neighbour[..] == AfterHello(old(neighbour[..]), ifList, h)
        && cache.entries[..] ==
           if !Fits(ifList, h) then old(cache.entries[..])
           else Learn(old(cache.entries[..]), old(cache.freePos), src, shost, now, false)
    {
      hide FindId, SubnetGraph.Valid, RouteTable.Valid, ArpCache.Valid, Learn;
      var val := RecordOf(incoming);
      var i := FindInterface(incoming);
      if ifList[i].mask != nmask || helloint != OSPF_DEFAULT_HELLOINT { return; }
      cache.CacheMacAddress(src, shost, 2, now);
      if neighbour[val].routerId == 0 {
        neighbour[val] := Neighbour(rid, src, nmask, true, neighbour[val].interFace, now);
      } else {
        neighbour[val] := neighbour[val].(timeStamp := now);
      }
    }

    method FindInterface(name: string) returns (i: nat)
      requires Named(ifList, name) < |ifList|
      ensures i == Named(ifList, name)
    {
      i := 0;
      while ifList[i].name != name
        invariant 0 <= i < |ifList| && Named(ifList, name) == i + Named(ifList[i..], name)
        decreases |ifList| - i
      {
        assert ifList[i..][1..] == ifList[i + 1..];
        i := i + 1;
      }
    }

    // ----- building routes ---------------------------------------------------------------

    method FindNeighborUsingRouterId(rid: Addr) returns (i: nat)
      requires neighbour.Length > 0
      ensures i == NeighbourIndex(neighbour[..], rid) && i < neighbour.Length
    {
      NeighbourFromInRange(neighbour[..], rid, 0);
      i := 0;
      while i < neighbour.Length
        invariant 0 <= i <= neighbour.Length
        invariant NeighbourIndex(neighbour[..], rid) == NeighbourFrom(neighbour[..], rid, i)
      {
        if neighbour[i].routerId == rid && neighbour[i].alive { return i; }
        i := i + 1;
      }
      return 0;
    }

    method PopulateRoutingTable()
      requires subnetGraph.Valid() && routingTable.Valid() && neighbour.Length > 0
      modifies routingTable, routingTable.nodes
      ensures routingTable.Valid() && subnetGraph.Valid() && routingTable.OnlyGrows()
      ensures routingTable.Routes()
           == BuildAll(subnetGraph.graph, subnetGraph.labels, neighbour[..], old(routingTable.Routes()))
    {
      hide SubnetGraph.Valid, SubnetGraph.Holds, RouteTable.Valid, BuildAll, BuildOne, Build;
      ghost var g, l, nb, t := subnetGraph.graph, subnetGraph.labels, neighbour[..], routingTable.Routes();
      subnetGraph.Sizes();
      BuildEnds(g, l, nb, t);
      var p := 0;
      while p < |subnetGraph.vrtxList|
        invariant 0 <= p <= |subnetGraph.vrtxList| == |g| && routingTable.Valid() && subnetGraph.Valid()
        invariant subnetGraph.graph == g && subnetGraph.labels == l && neighbour[..] == nb
        invariant routingTable.Routes() == Build(g, l, nb, t, p)
        invariant routingTable.OnlyGrows()
      {
        subnetGraph.Sizes();
        BuildNext(g, l, nb, t, p);
        PopulateOne(subnetGraph.vrtxList[p]);
        p := p + 1;
      }
    }

    method PopulateOne(walker: VertexNode)
      requires subnetGraph.Valid() && routingTable.Valid() && neighbour.Length > 0 && walker in subnetGraph.vrtxList
      modifies routingTable, routingTable.nodes
      ensures routingTable.Valid() && subnetGraph.Valid() && 0 <= walker.id < |subnetGraph.graph|
      ensures routingTable.Routes()
           == BuildOne(subnetGraph.graph, subnetGraph.labels, neighbour[..], old(routingTable.Routes()), walker.id)
      ensures routingTable.OnlyGrows()
    {
      ghost var p := subnetGraph.PositionOf(walker);
      WalkerFields(subnetGraph, walker, p);
      hide SubnetGraph.Valid, SubnetGraph.Holds, RouteTable.Valid, RouteTable.At;
      hide HasDest, NeighbourFrom, NeighbourIndex;
      if walker.kind == SUBNET {
        var u := subnetGraph.GetVertexFromEdge(walker.parent);
        if u != null {
          ghost var q := subnetGraph.PositionOf(u);
          WalkerFields(subnetGraph, u, q);
          var idx := FindNeighborUsingRouterId(u.rid);
          AddIfNew(walker.subnet, neighbour[idx].ip, walker.networkMask, neighbour[idx].interFace);
        }
      }
    }

    method AddIfNew(dest: Addr, gw: Addr, mask: Addr, iface: string)
      requires routingTable.Valid() && subnetGraph.Valid()
      modifies routingTable, routingTable.nodes
      ensures routingTable.Valid() && subnetGraph.Valid() && routingTable.OnlyGrows()
      ensures routingTable.Routes() == old(routingTable.Routes())
                + if HasDest(old(routingTable.Routes()), dest) then [] else [Route(dest, gw, mask, iface)]
    {
      hide SubnetGraph.Holds, RouteTable.Valid, RouteTable.At, HasDest;
      var known := routingTable.FindDest(dest);
      if !known { routingTable.AddEntry(dest, gw, mask, iface); }
    }
  }

  ghost function RoundFrames(routerId: Addr, nb: seq<Neighbour>, ifs: seq<Interface>, seqCount: nat, k: nat): seq<Frame>
    requires MacsOk(ifs) && |nb| == |ifs| && nb != [] && k <= |ifs|
  {
    if k == 0 then []
    else RoundFrames(routerId, nb, ifs, seqCount, k - 1)
         + [Frame(ifs[k - 1].name, LsuPacket(routerId, nb, ifs, seqCount, ifs[k - 1]))]
  }

  /** A round is one update on each interface, in the order of the list, each with that interface's addresses. */
  lemma {:induction false} RoundExactly(routerId: Addr, nb: seq<Neighbour>, ifs: seq<Interface>, number: nat, k: nat)
    requires MacsOk(ifs) && |nb| == |ifs| && nb != [] && k <= |ifs|
    ensures var fs := RoundFrames(routerId, nb, ifs, number, k);
      |fs| == k && forall j :: 0 <= j < k ==> fs[j] == Frame(ifs[j].name, LsuPacket(routerId, nb, ifs, number, ifs[j]))
  {
    hide LsuPacket;
    if k > 0 { RoundExactly(routerId, nb, ifs, number, k - 1); }
  }

  // ----- facts used above ----------------------------------------------------------------

  ghost predicate SameButSource(p: seq<byte>, q: seq<byte>) {
    |p| == |q| && forall k :: 0 <= k < |p| && !(6 <= k < 12) ==> p[k] == q[k]
  }

  lemma WalkerFields(graph: SubnetGraph, walker: VertexNode, p: int)
    requires graph.Valid() && 0 <= p < |graph.vrtxList| && graph.vrtxList[p] == walker
    ensures |graph.vrtxList| == |graph.graph| == |graph.labels| && 0 <= walker.id < |graph.graph|
    ensures graph.graph[walker.id] == walker.View() && graph.labels[walker.id] == walker.LabelView()
  {
    assert graph.Holds(p);
  }

  lemma BuildEnds(g: Graph, l: seq<Label>, nb: seq<Neighbour>, t: seq<Route>)
    requires |g| == |l| && nb != []
    ensures Build(g, l, nb, t, 0) == t && Build(g, l, nb, t, |g|) == BuildAll(g, l, nb, t)
  {
  }

  lemma BuildNext(g: Graph, l: seq<Label>, nb: seq<Neighbour>, t: seq<Route>, p: nat)
    requires p < |g| == |l| && nb != []
    ensures Build(g, l, nb, t, p + 1) == BuildOne(g, l, nb, Build(g, l, nb, t, p), |g| - 1 - p)
  {
  }

  lemma SourceOverwritten(p: seq<byte>, q: seq<byte>, mac: seq<byte>)
    requires |p| >= ADVERTS_AT && |mac| == 6 && SameButSource(p, q)
    ensures WithSource(p, mac) == WithSource(q, mac) && SameButSource(WithSource(p, mac), q)
  {
  }

  lemma OnOthersNext(p: seq<byte>, ifs: seq<Interface>, incoming: string, k: nat)
    requires |p| >= ADVERTS_AT && MacsOk(ifs) && k < |ifs|
    ensures OnOthers(p, ifs[..k + 1], incoming) == OnOthers(p, ifs[..k], incoming)
              + if ifs[k].name != incoming then [Frame(ifs[k].name, WithSource(p, ifs[k].mac))] else []
  {
    assert ifs[..k + 1][..k] == ifs[..k];
  }

  lemma TtlStarts(p: seq<byte>)
    requires |p| >= ADVERTS_AT
    ensures SameButSource(p, TtlLowered(p, 0))
  {
  }

  lemma TtlLoweredNext(q: seq<byte>, p: seq<byte>, i: nat)
    requires |p| >= ADVERTS_AT && SameButSource(q, TtlLowered(p, i))
    ensures SameButSource(q[TTL_AT := (q[TTL_AT] as int - 1) % 256], TtlLowered(p, i + 1))
  {
  }

  lemma {:induction false} SourceDoesNotMatter(p: seq<byte>, q: seq<byte>, ifs: seq<Interface>, incoming: string)
    requires |p| >= ADVERTS_AT && MacsOk(ifs) && SameButSource(p, q)
    ensures OnOthers(p, ifs, incoming) == OnOthers(q, ifs, incoming)
  {
    if ifs != [] {
      SourceDoesNotMatter(p, q, ifs[..|ifs| - 1], incoming);
      assert WithSource(p, ifs[|ifs| - 1].mac) == WithSource(q, ifs[|ifs| - 1].mac);
    }
  }

  lemma InitNext(self: Addr, ifs: seq<Subnet>, k: nat)
    requires k < |ifs|
    ensures InitGraph(self, ifs[..k + 1]) == AddInterface(InitGraph(self, ifs[..k]), self, 0, ifs[k])
  {
    assert ifs[..k + 1][..k] == ifs[..k];
  }

  lemma InitFindsItself(self: Addr, ifs: seq<Subnet>)
    ensures FindId(InitGraph(self, ifs), RouterKey(self)) == 0
  {
    var g := InitGraph(self, ifs);
    InitShape(self, ifs);
    FindIdSpec(g, RouterKey(self));
    forall id | 0 < id < |g| ensures KeyOf(g[id]) != RouterKey(self) {
      assert KeyOf(g[(id - 1) + 1]) == LeafKey(self, ifs[id - 1].net);
    }
  }

  lemma InvIsSound(g: Graph)
    requires GraphInv(g)
    ensures Sound(g)
  {
    BasicIsSound(g);
  }

  lemma DecodableLength(p: seq<byte>)
    requires Decodable(p)
    ensures |p| >= ADVERTS_AT
  {
  }

  /** The handler's two steps, gate and loop, make up the reception of an update. */
  lemma ReceiveSteps(g: Graph, self: Addr, l: Lsu)
    ensures Accepts(g, self, l) <==> Accepts(g, self, Lsu(l.origin, l.seqNbr, []))
    ensures !Accepts(g, self, l) ==> Receive(g, self, l) == g
    ensures FindId(Record(g, l.origin, l.seqNbr), RouterKey(l.origin)) >= 0
    ensures Accepts(g, self, l) ==>
              Receive(g, self, l) == ApplyAdverts(Record(g, l.origin, l.seqNbr), l.origin, l.adverts)
  {
  }

  lemma ReceiveInTwoSteps(g: Graph, self: Addr, l: Lsu)
    requires GraphInv(g) && FindId(g, RouterKey(self)) == 0
    ensures GraphInv(Receive(g, self, l)) && FindId(Receive(g, self, l), RouterKey(self)) == 0
  {
    OwnVertexStays(g, self, l);
    ReceiveKeepsInv(g, self, l);
  }

  /** The router's own vertex keeps id 0. */
  lemma OwnVertexStays(g: Graph, self: Addr, l: Lsu)
    requires GraphInv(g) && FindId(g, RouterKey(self)) == 0
    ensures FindId(Receive(g, self, l), RouterKey(self)) == 0
  {
    hide Receive;
    var g' := Receive(g, self, l);
    ReceiveKeepsKeys(g, self, l);
    ReceiveKeepsInv(g, self, l);
    FindIdSpec(g, RouterKey(self));
    FindIdSpec(g', RouterKey(self));
    assert KeyOf(g'[0]) == RouterKey(self);
  }
}
