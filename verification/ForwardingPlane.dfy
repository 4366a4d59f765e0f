/** Routing one packet, and releasing the packets an ARP reply was awaited for. */
module ForwardingPlane {
  import opened Words
  import opened Checksum
  import opened RouteTables
  import opened LsuPackets
  import opened ArpCaches
  import opened ForwardingRules
  import opened ReleaseWalks
  import opened ReleaseExactly
  import opened PacketQueues
  import opened EchoReplies

  method CopyMac(packet: array<byte>, at: nat, mac: seq<byte>)
    requires |mac| == 6 && at + 6 <= packet.Length
    modifies packet
    ensures packet[..] == old(packet[..at]) + mac + old(packet[at + 6..])
  {
    ghost var q := packet[..];
    for j := 0 to 6
      invariant packet[..] == q[..at] + mac[..j] + q[at + j..]
    {
      packet[at + j] := mac[j];
    }
  }

  class Forwarder {
    const ifList: seq<Interface>
    const routingTable: RouteTable
    const cache: ArpCache
    const queue: PacketQueue
    var sent: seq<Output>          // frames handed to the network so far

    ghost predicate Valid()
      reads routingTable, routingTable.nodes, cache, cache.entries, queue, queue.nodes
    {
      MacsOk(ifList) && routingTable.Valid() && cache.Valid() && cache.HasRoom() && queue.Valid()
    }

    /** All that a routing decision depends on. */
    ghost function EnvAt(now: real): Env
      reads routingTable, cache, cache.entries
    {
      Env(routingTable.Routes(), ifList, cache.entries[..], now)
    }

    constructor (ifList: seq<Interface>, routingTable: RouteTable)
      requires MacsOk(ifList) && routingTable.Valid()
      ensures Valid() && queue.Items() == [] && sent == [] && cache.freePos == 0
      ensures this.ifList == ifList && this.routingTable == routingTable
      ensures fresh(queue) && fresh(cache) && fresh(cache.entries)
    {
      this.ifList, this.routingTable, sent := ifList, routingTable, [];
      cache := new ArpCache();
      queue := new PacketQueue();
    }

    // ----- one packet --------------------------------------------------------------------

    /** Puts the hardware address of the named interface into the source field. */
    method SetSource(packet: array<byte>, name: string)
      requires MacsOk(ifList) && packet.Length >= 12
      modifies packet
      ensures |SourceMac(ifList, name, old(packet[6..12]))| == 6
      ensures packet[..] == old(packet[..6]) + SourceMac(ifList, name, old(packet[6..12])) + old(packet[12..])
    {
      ghost var q := packet[..];
      assert q == q[..6] + q[6..12] + q[12..];
      var k := 0;
      while k < |ifList|
        invariant 0 <= k <= |ifList|
        invariant |SourceMac(ifList[..k], name, q[6..12])| == 6
        invariant packet[..] == q[..6] + SourceMac(ifList[..k], name, q[6..12]) + q[12..]
      {
        assert ifList[..k + 1][..k] == ifList[..k];
        if ifList[k].name == name {
          CopyMac(packet, 6, ifList[k].mac);
        }
        k := k + 1;
      }
      assert ifList[..k] == ifList;
    }

    /** Rewrites a packet in place and hands it to the network. */
    method SendOut(packet: array<byte>, mac: seq<byte>, name: string)
      requires MacsOk(ifList) && HasIpHeader(packet[..]) && |mac| == 6
      modifies this`sent, packet
      ensures |SourceMac(ifList, name, old(packet[6..12]))| == 6
      ensures packet[..] == Rewritten(old(packet[..]), mac, SourceMac(ifList, name, old(packet[6..12])))
      ensures sent == old(sent) + [Forwarded(name, packet[..])]
    {
      hide SourceMac, IpChecksummed;
      PrepareHeader(packet, mac);
      SetSource(packet, name);
      sent := sent + [Forwarded(name, packet[..])];
    }

    /** Destination address, time-to-live and checksum. */
    method PrepareHeader(packet: array<byte>, mac: seq<byte>)
      requires HasIpHeader(packet[..]) && |mac| == 6
      modifies packet
      ensures packet[..6] == mac && packet[6..12] == old(packet[6..12])
      ensures packet[12..] == IpChecksummed(Lowered(old(packet[..])), IP_AT)[12..]
    {
      ghost var p := packet[..];
      ghost var b := Lowered(p);
      Spliced(mac, b, IpChecksummed(b, IP_AT)[IP_AT..]);
      HeaderOf(mac + b[6..], b);
      hide IpChecksummed, HasIpHeader, Lowered;
      CopyMac(packet, 0, mac);
      LowerTtl(packet, p, mac);
      SetIpChecksum(packet, IP_AT);
    }

    method LowerTtl(packet: array<byte>, ghost p: seq<byte>, ghost mac: seq<byte>)
      requires |p| > IP_TTL_AT && |mac| == 6 && packet[..] == mac + p[6..]
      modifies packet
      ensures packet[..] == mac + Lowered(p)[6..]
    {
      assert packet[IP_TTL_AT] == packet[..][IP_TTL_AT] == p[IP_TTL_AT];
      packet[IP_TTL_AT] := (packet[IP_TTL_AT] as int - 1) % 256;
    }

    method SendArpRequests(target: Addr, name: string)
      modifies this`sent
      ensures sent == old(sent) + ArpRequests(ifList, name, target)
    {
      var k := 0;
      while k < |ifList|
        invariant 0 <= k <= |ifList|
        invariant sent == old(sent) + ArpRequests(ifList[..k], name, target)
      {
        assert ifList[..k + 1][..k] == ifList[..k];
        if ifList[k].name == name { sent := sent + [ArpRequest(name, target)]; }
        k := k + 1;
      }
      assert ifList[..k] == ifList;
    }

    /**
      Routes a packet by the route at position `k`, found by the caller; `v` is the decision made.
      The caller must see to it that no null route is followed.
    */
    method RoutePacket(packet: array<byte>, iface: string, fetched: RouteNode?, ghost k: nat, now: real)
      returns (v: Verdict)
      requires Valid() && packet !in queue.Packets() && HasIpHeader(packet[..])
      requires k <= |routingTable.nodes| && fetched == routingTable.At(k)
      requires !Decide(EnvAt(now), SrcOf(packet[..]), DstOf(packet[..]), iface, k).NullRoute?
      modifies this`sent, packet, queue, queue.nodes
      ensures Valid() && queue.KeepsOrAllocates() && packet !in queue.Packets() && HasIpHeader(old(packet[..]))
      ensures v == Decide(old(EnvAt(now)), SrcOf(old(packet[..])), DstOf(old(packet[..])), iface, k)
      ensures !v.NullRoute? && (v.Send? ==> |v.mac| == 6) && (v.Wait? ==> packet[..] == old(packet[..]))
      ensures old(queue.nodes) <= queue.nodes
      ensures queue.Items() == old(queue.Items()) + Routed(old(EnvAt(now)), old(packet[..]), v).0
      ensures sent == old(sent) + Routed(old(EnvAt(now)), old(packet[..]), v).1
    {
      hide HasIpHeader, Decide, MacsOk, RouteTable.Routes, RouteTable.Valid, ArpCache.Valid, PacketQueue.Valid;
      hide EnvAt, PacketQueue.Items, Routed;
      var src, dst := ReadAddresses(packet);
      v := Choose(src, dst, iface, fetched, k, now);
      hide SrcOf, DstOf;
      if v.Send? {
        Transmit(packet, v, now);
      } else {
        Hold(packet, v, now);
      }
    }

    method Transmit(packet: array<byte>, v: Verdict, ghost now: real)
      requires Valid() && packet !in queue.Packets() && HasIpHeader(packet[..]) && v.Send? && |v.mac| == 6
      modifies this`sent, packet
      ensures HasIpHeader(old(packet[..]))
      ensures queue.Items() == old(queue.Items()) + Routed(old(EnvAt(now)), old(packet[..]), v).0
      ensures sent == old(sent) + Routed(old(EnvAt(now)), old(packet[..]), v).1
    {
      hide HasIpHeader, Rewritten, RouteTable.Valid, RouteTable.Routes, ArpCache.Valid, PacketQueue.Valid;
      SendOut(packet, v.mac, v.iface);
    }

    /** Queues a copy and asks for the hop's hardware address. */
    method Hold(packet: array<byte>, v: Verdict, ghost now: real)
      requires Valid() && packet !in queue.Packets() && HasIpHeader(packet[..]) && v.Wait?
      modifies this`sent, queue, queue.nodes
      ensures Valid() && queue.KeepsOrAllocates() && packet !in queue.Packets() && old(queue.nodes) <= queue.nodes
      ensures queue.Items() == old(queue.Items()) + Routed(old(EnvAt(now)), packet[..], v).0
      ensures sent == old(sent) + Routed(old(EnvAt(now)), packet[..], v).1
    {
      hide HasIpHeader, MacsOk, RouteTable.Routes, RouteTable.Valid, ArpCache.Valid, PacketQueue.Valid;
      hide ArpRequests, IsIp, PacketQueue.Items;
      var forGateway := routingTable.IsGateway(v.hop);
      queue.AddPacket(packet, v.iface, forGateway);
      SendArpRequests(v.hop, v.arpIface);
    }

    /** The next hop is looked up first; a source on one of the networks falls back to the default gateway. */
    method Choose(src: Addr, dst: Addr, iface: string, fetched: RouteNode?, ghost k: nat, now: real)
      returns (v: Verdict)
      requires Valid() && k <= |routingTable.nodes| && fetched == routingTable.At(k)
      ensures v == Decide(EnvAt(now), src, dst, iface, k) && (v.Send? ==> |v.mac| == 6)
    {
      hide FirstMatch, FirstDefault, MacFor, Found, MacsOk, RouteTable.Valid, ArpCache.Valid, PacketQueue.Valid;
      var dstIp := if fetched != null && fetched.route.gw != 0 then fetched.route.gw else dst;
      var mac := cache.DoesMacAddressExist(dstIp, 0, now);
      if Found(mac) {
        return if fetched == null then NullRoute else Send(fetched.route.iface, mac);
      }
      var onNetwork := routingTable.Lookup(src);
      if onNetwork != null {
        var gateway := routingTable.DefaultGateway();
        if gateway == null { return NullRoute; }
        var macForGw := cache.DoesMacAddressExist(gateway.route.gw, 0, now);
        return if Found(macForGw) then Send(gateway.route.iface, macForGw)
               else Wait(gateway.route.iface, gateway.route.gw, gateway.route.iface);
      }
      return if fetched == null then NullRoute else Wait(iface, dstIp, fetched.route.iface);
    }

    /** A packet in transit: routed by the first route that matches its destination. */
    method Forward(packet: array<byte>, iface: string, now: real) returns (v: Verdict)
      requires Valid() && packet !in queue.Packets() && HasIpHeader(packet[..])
      requires !Judge(EnvAt(now), packet[..], iface).NullRoute?
      modifies this`sent, packet, queue, queue.nodes
      ensures Valid() && queue.KeepsOrAllocates() && packet !in queue.Packets() && HasIpHeader(old(packet[..]))
      ensures v == Judge(old(EnvAt(now)), old(packet[..]), iface)
      ensures !v.NullRoute? && (v.Send? ==> |v.mac| == 6) && (v.Wait? ==> packet[..] == old(packet[..]))
      ensures old(queue.nodes) <= queue.nodes
      ensures queue.Items() == old(queue.Items()) + Routed(old(EnvAt(now)), old(packet[..]), v).0
      ensures sent == old(sent) + Routed(old(EnvAt(now)), old(packet[..]), v).1
    {
      hide HasIpHeader, Decide, MacsOk, RouteTable.Valid, ArpCache.Valid, PacketQueue.Valid, PacketQueue.Items, Routed;
      var src, dst := ReadAddresses(packet);
      var fetched := routingTable.Lookup(dst);
      v := RoutePacket(packet, iface, fetched, FirstMatch(routingTable.Routes(), dst), now);
    }

    method ReadAddresses(packet: array<byte>) returns (src: Addr, dst: Addr)
      requires HasIpHeader(packet[..])
      ensures src == SrcOf(packet[..]) && dst == DstOf(packet[..])
    {
      src, dst := SrcOf(packet[..]), DstOf(packet[..]);
    }

    // ----- echo requests -----------------------------------------------------------------

    /** Exchanges the `n` octets at `at` with the `n` octets after them. */
    method Exchange(packet: array<byte>, at: nat, n: nat)
      requires at + 2 * n <= packet.Length
      modifies packet
      ensures packet[..] == Exchanged(old(packet[..]), at, n)
    {
      hide PartlyExchanged;
      ghost var q := packet[..];
      ExchangeStarts(q, at, n);
      for i := 0 to n
        invariant packet[..] == PartlyExchanged(q, at, n, i)
      {
        ExchangeNext(q, at, n, i);
        packet[at + i], packet[at + n + i] := packet[at + n + i], packet[at + i];
      }
    }

    method TurnAround(packet: array<byte>)
      requires packet.Length >= IP_AT + 20
      modifies packet
      ensures packet[..] == Turned(old(packet[..]))
    {
      ghost var q := packet[..];
      Exchange(packet, 0, 6);
      packet[12], packet[13] := 8, 0;
      Exchange(packet, IP_SRC_AT, 4);
      TurnedIs(q);
    }

    /** Makes the message at `at` a reply with a checksum of its own. */
    method Seal(packet: array<byte>, at: nat)
      requires at + 4 <= packet.Length
      modifies packet
      ensures packet[..] == old(packet[..at]) + Signed(Cleared(old(packet[at..])))
    {
      hide TwoFolds, Sum, StoreWord;
      ghost var q := packet[..];
      packet[at], packet[at + 2], packet[at + 3] := ECHO_REPLY, 0, 0;
      assert packet[..at] == q[..at] && packet[at..] == Cleared(q[at..]);
      hide Cleared;
      SetIcmpChecksum(packet, at, packet.Length - at);
    }

    /** Answers an echo request in place; any other packet is left alone. */
    method HandleEcho(packet: array<byte>, iface: string)
      requires HasIcmp(packet[..])
      modifies this`sent, packet
      ensures HasIcmp(old(packet[..]))
      ensures !IsEchoRequest(old(packet[..])) ==> packet[..] == old(packet[..]) && sent == old(sent)
      ensures IsEchoRequest(old(packet[..])) ==>
                packet[..] == EchoReplied(old(packet[..])) && sent == old(sent) + [Replied(iface, packet[..])]
    {
      hide Turned, Signed, Cleared;
      var at := IP_AT + 4 * (packet[IP_AT] % 16);
      if packet[at] == ECHO_REQUEST && packet[IP_TTL_AT] > 1 {
        ghost var p := packet[..];
        TurnAround(packet);
        Seal(packet, at);
        sent := sent + [Replied(iface, packet[..])];
      }
    }

    // ----- the release walk --------------------------------------------------------------

    /** `current` is the first packet ahead and `previous` the last one kept. */
    ghost predicate OnWalk(w: Walk, previous: PacketNode?, current: PacketNode?)
      reads this, queue, queue.Packets()
    {
      && queue.Items() == w.kept + w.ahead && sent == w.out
      && current == queue.At(|w.kept|)
      && (current != null ==> previous == if w.kept == [] then null else queue.At(|w.kept| - 1))
    }

    method TestMatch(current: PacketNode, ip: Addr, now: real) returns (matching: bool)
      requires Valid() && HasIpHeader(current.packet[..])
      ensures matching <==> Matching(EnvAt(now), ip, Item(current.packet[..], current.iface, current.forGateway))
    {
      hide HasIpHeader, RouteTable.Valid, RouteTable.Routes, Get32;
      var _, dst := ReadAddresses(current.packet);
      var isGateway := routingTable.IsGateway(ip);
      var ttl := ReadTtl(current.packet);
      matching := ttl > 1 && (ip == dst || (isGateway && current.forGateway));
    }

    method ReadTtl(packet: array<byte>) returns (ttl: byte)
      requires HasIpHeader(packet[..])
      ensures ttl == packet[..][IP_TTL_AT]
    {
      ttl := packet[IP_TTL_AT];
    }

    /** One turn: a matching packet is unlinked, then routed, and may be linked again at the tail. */
    method WalkOn(previous: PacketNode?, current: PacketNode, ip: Addr, now: real, ghost w: Walk)
      returns (before: PacketNode?, next: PacketNode?)
      requires Valid() && WalkOk(EnvAt(now), ip, w) && OnWalk(w, previous, current)
      modifies this`sent, queue, queue.nodes, queue.Packets()
      ensures Valid() && queue.KeepsOrAllocates() && queue.PacketsKept() && w.ahead != []
      ensures OnWalk(Turn(old(EnvAt(now)), ip, w), before, next)
    {
      hide RouteTable.Valid, ArpCache.Valid, PacketQueue.Valid, PacketQueue.Items, OnWalk;
      hide EnvAt, Turn, WalkOk, Matching, Routed, HasIpHeader, VerdictOn, Without, MacsOk;
      Standing(w, previous, current);
      TurnRoutes(EnvAt(now), ip, w);
      var matching := TestMatch(current, ip, now);
      if !matching {
        before, next := current, current.next;
        KeptOnWalk(w, previous, current);
      } else {
        next := TakeOut(previous, current, ip, now, w);
        before := previous;
      }
    }

    lemma Standing(w: Walk, previous: PacketNode?, current: PacketNode)
      requires OnWalk(w, previous, current)
      ensures w.ahead != [] && |queue.Items()| == |queue.nodes| == |w.kept| + |w.ahead|
      ensures queue.Items() == w.kept + w.ahead && queue.Items()[|w.kept|] == w.ahead[0] && sent == w.out
      ensures current == queue.nodes[|w.kept|] && current.packet in queue.Packets()
      ensures previous == if |w.kept| == 0 then null else queue.nodes[|w.kept| - 1]
    {
    }

    /** The turn of a matching packet. */
    method TakeOut(previous: PacketNode?, current: PacketNode, ip: Addr, now: real, ghost w: Walk)
      returns (next: PacketNode?)
      requires Valid() && WalkOk(EnvAt(now), ip, w) && OnWalk(w, previous, current)
      requires w.ahead != [] && HasIpHeader(w.ahead[0].bytes) && Matching(EnvAt(now), ip, w.ahead[0])
      requires HasIpHeader(current.packet[..]) && current.packet in queue.Packets()
      modifies this`sent, queue, queue.nodes, current.packet
      ensures Valid() && queue.KeepsOrAllocates()
      ensures OnWalk(Turn(old(EnvAt(now)), ip, w), previous, next)
    {
      hide RouteTable.Valid, ArpCache.Valid, PacketQueue.Valid, PacketQueue.Items, PacketQueue.Packets, OnWalk;
      hide Turn, WalkOk, Matching, Routed, HasIpHeader, VerdictOn, Without, MacsOk;
      Standing(w, previous, current);
      ghost var env, nodes, items, x := EnvAt(now), queue.nodes, queue.Items(), w.ahead[0];
      assert env.ifs == ifList;
      hide EnvAt;
      TurnRoutes(env, ip, w);
      next := Dispatch(previous, current, now, |w.kept|, items);
      MovedOnWalk(w, nodes, Routed(env, x.bytes, VerdictOn(env, x)), previous, next);
    }

    /** The pointers after the first packet ahead has been passed over. */
    lemma KeptOnWalk(w: Walk, previous: PacketNode?, current: PacketNode)
      requires queue.Valid() && OnWalk(w, previous, current)
      ensures w.ahead != [] && OnWalk(Walk(w.kept + [w.ahead[0]], w.ahead[1..], w.out), current, current.next)
    {
      hide PacketQueue.Items, PacketQueue.Packets;
      SomethingAhead(w, previous, current);
      queue.NextIs(|w.kept|);
      hide PacketQueue.Valid;
      Regroup(w.kept, w.ahead);
    }

    lemma SomethingAhead(w: Walk, previous: PacketNode?, current: PacketNode)
      requires OnWalk(w, previous, current)
      ensures w.ahead != [] && |w.kept| < |queue.nodes|
    {
      hide PacketQueue.Packets;
    }

    /** The pointers after the first packet ahead has been taken out and `r` added. */
    lemma MovedOnWalk(w: Walk, nodes: seq<PacketNode>, r: (seq<Item>, seq<Output>),
                      previous: PacketNode?, next: PacketNode?)
      requires w.ahead != [] && |nodes| == |w.kept| + |w.ahead| && Without(nodes, |w.kept|) <= queue.nodes
      requires next == if |w.kept| + 1 < |nodes| then nodes[|w.kept| + 1] else null
      requires previous == if w.kept == [] then null else nodes[|w.kept| - 1]
      requires queue.Items() == Without(w.kept + w.ahead, |w.kept|) + r.0 && sent == w.out + r.1
      ensures OnWalk(if w.ahead[1..] == [] then Walk(w.kept + r.0, [], w.out + r.1)
                     else Walk(w.kept, w.ahead[1..] + r.0, w.out + r.1),
                     previous, next)
    {
      var k, rest, left := |w.kept|, w.ahead[1..], Without(nodes, |w.kept|);
      assert Without(w.kept + w.ahead, k) == w.kept + rest;
      assert w.kept + rest + r.0 == w.kept + (rest + r.0);
      assert k < |left| ==> left[k] == nodes[k + 1] == queue.nodes[k];
      assert k > 0 ==> left[k - 1] == nodes[k - 1] == queue.nodes[k - 1];
    }

    /** Takes a packet out of the queue and routes it. */
    method Dispatch(previous: PacketNode?, current: PacketNode, now: real, ghost k: nat, ghost items: seq<Item>)
      returns (next: PacketNode?)
      requires Valid() && k < |queue.nodes| && current == queue.nodes[k]
      requires previous == if k == 0 then null else queue.nodes[k - 1]
      requires HasIpHeader(current.packet[..])
      requires queue.Items() == items && !VerdictOn(EnvAt(now), items[k]).NullRoute?
      modifies this`sent, queue, queue.nodes, current.packet
      ensures Valid() && queue.KeepsOrAllocates() && HasIpHeader(items[k].bytes)
      ensures var v := VerdictOn(old(EnvAt(now)), items[k]);
        && !v.NullRoute? && (v.Send? ==> |v.mac| == 6)
        && queue.Items() == Without(items, k) + Routed(old(EnvAt(now)), items[k].bytes, v).0
        && sent == old(sent) + Routed(old(EnvAt(now)), items[k].bytes, v).1
      ensures Without(old(queue.nodes), k) <= queue.nodes
      ensures next == if k + 1 < |old(queue.nodes)| then old(queue.nodes)[k + 1] else null
    {
      hide HasIpHeader, MacsOk, Routed, Without, Judge, EnvAt;
      hide RouteTable.Valid, RouteTable.Routes, ArpCache.Valid, PacketQueue.Valid, PacketQueue.Items;
      WithoutShape(queue.nodes, k);
      next := queue.Unlink(previous, current, k);
      var v := Forward(current.packet, current.iface, now);
    }

    /** The packets that waited for `ip`: the whole walk over the queue. */
    method Release(ip: Addr, now: real)
      requires Valid() && WalkOk(EnvAt(now), ip, Walk([], queue.Items(), sent))
      requires StuckCount(EnvAt(now), ip, queue.Items()) <= 1
      modifies this`sent, queue, queue.nodes, queue.Packets()
      ensures Valid() && queue.KeepsOrAllocates() && queue.PacketsKept()
      ensures var r := Finish(old(EnvAt(now)), ip, Walk([], old(queue.Items()), old(sent)));
        queue.Items() == r.kept && sent == r.out
      ensures AllRoutable(old(EnvAt(now)), ip, old(queue.Items()))
      ensures queue.Items() == Left(old(EnvAt(now)), ip, old(queue.Items()))
      ensures Frames(sent) == Frames(old(sent)) + Released(old(EnvAt(now)), ip, old(queue.Items()))
    {
      hide Finish, StuckCount, AllRoutable, Left, Released, Frames, PacketQueue.Items, PacketQueue.Packets, EnvAt;
      ghost var w := Walk([], queue.Items(), sent);
      assert OnWalk(w, null, queue.head);
      WalkExactly(EnvAt(now), ip, w);
      WalkAll(queue.head, ip, now, w);
    }

    method WalkAll(first: PacketNode?, ip: Addr, now: real, ghost start: Walk)
      requires Valid() && WalkOk(EnvAt(now), ip, start) && OnWalk(start, null, first)
      requires StuckCount(EnvAt(now), ip, start.ahead) <= 1
      modifies this`sent, queue, queue.nodes, queue.Packets()
      ensures Valid() && queue.KeepsOrAllocates() && queue.PacketsKept()
      ensures var r := Finish(old(EnvAt(now)), ip, start);
        queue.Items() == r.kept && sent == r.out
    {
      hide Turn, Finish, Measure, StuckCount, WalkOk, EnvAt, PacketQueue.Items, PacketQueue.Packets, Valid, OnWalk;
      ghost var env, w := EnvAt(now), start;
      ghost var end := Finish(env, ip, w);
      var previous: PacketNode?, current := null, first;
      while current != null
        invariant Valid() && queue.KeepsOrAllocates() && queue.PacketsKept() && EnvAt(now) == env
        invariant WalkOk(env, ip, w) && OnWalk(w, previous, current) && StuckCount(env, ip, w.ahead) <= 1
        invariant Finish(env, ip, w) == end
        decreases Measure(env, ip, w.ahead)
      {
        FinishTurn(env, ip, w);
        previous, current := WalkOn(previous, current, ip, now, w);
        w := Turn(env, ip, w);
      }
      WalkOver(w, previous);
      FinishTurn(env, ip, w);
    }

    /** An ARP reply: its sender is cached, then the packets that waited for it are released. */
    method HandleArpReply(ip: Addr, mac: seq<byte>, now: real)
      requires Valid() && |mac| == 6 && cache.freePos + 1 < CACHE_SIZE
      requires WalkOk(EnvLearned(ip, mac, now), ip, Walk([], queue.Items(), sent))
      requires StuckCount(EnvLearned(ip, mac, now), ip, queue.Items()) <= 1
      modifies this`sent, queue, queue.nodes, queue.Packets(), cache`freePos, cache.entries
      ensures Valid() && queue.KeepsOrAllocates() && queue.PacketsKept()
      ensures EnvAt(now) == old(EnvLearned(ip, mac, now))
      ensures var r := Finish(old(EnvLearned(ip, mac, now)), ip, Walk([], old(queue.Items()), old(sent)));
        queue.Items() == r.kept && sent == r.out
      ensures AllRoutable(old(EnvLearned(ip, mac, now)), ip, old(queue.Items()))
      ensures queue.Items() == Left(old(EnvLearned(ip, mac, now)), ip, old(queue.Items()))
      ensures Frames(sent) == Frames(old(sent)) + Released(old(EnvLearned(ip, mac, now)), ip, old(queue.Items()))
    {
      hide Finish, StuckCount, WalkOk, PacketQueue.Items, ArpCache.Valid, RouteTable.Valid, PacketQueue.Valid, Learn;
      hide AllRoutable, Left, Released, Frames;
      cache.CacheMacAddress(ip, mac, 1, now);
      Release(ip, now);
    }

    ghost function EnvLearned(ip: Addr, mac: seq<byte>, now: real): Env
      requires cache.freePos < cache.entries.Length
      reads routingTable, cache, cache.entries
    {
      EnvAt(now).(c := Learn(cache.entries[..], cache.freePos, ip, mac, now, true))
    }

    lemma WalkOver(w: Walk, previous: PacketNode?)
      requires OnWalk(w, previous, null)
      ensures w.ahead == [] && queue.Items() == w.kept && sent == w.out
    {
    }
  }

  lemma Regroup(kept: seq<Item>, ahead: seq<Item>)
    requires ahead != []
    ensures kept + [ahead[0]] + ahead[1..] == kept + ahead
  {
  }

  /** The checksum depends on the header alone. */
  lemma {:induction false} HeaderOf(a: seq<byte>, b: seq<byte>)
    requires |a| == |b| && IP_AT + 20 <= |b| && IP_AT + 4 * (b[IP_AT] % 16) <= |b|
    requires a[IP_AT] == b[IP_AT] && a[IP_AT..] == b[IP_AT..]
    ensures IpChecksummed(a, IP_AT) == a[..IP_AT] + IpChecksummed(b, IP_AT)[IP_AT..]
    ensures IpChecksummed(b, IP_AT) == b[..IP_AT] + IpChecksummed(b, IP_AT)[IP_AT..]
  {
    hide ChecksumStored;
    var s := ChecksumStored(b[IP_AT..], 2 * (b[IP_AT] % 16));
    assert (b[..IP_AT] + s)[IP_AT..] == s;
  }

  lemma Spliced(mac: seq<byte>, b: seq<byte>, s: seq<byte>)
    requires |mac| == 6 && |b| >= 20
    ensures var a := mac + b[6..];
      && |a| == |b| && a[14] == b[14] && a[14..] == b[14..]
      && (a[..14] + s)[..6] == mac && (a[..14] + s)[6..12] == b[6..12] && (a[..14] + s)[12..] == (b[..14] + s)[12..]
  {
  }
}
