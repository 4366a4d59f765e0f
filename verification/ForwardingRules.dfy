/** What the forwarding plane decides about one packet, and what it then sends or queues. */
module ForwardingRules {
  import opened Words
  import opened RouteTables
  import opened Checksum
  import opened LsuPackets
  import opened ArpCaches

  // ----- packet fields -------------------------------------------------------------------

  const IP_AT: nat := 14
  const IP_TTL_AT: nat := 22
  const IP_SUM_AT: nat := 24
  const IP_SRC_AT: nat := 26
  const IP_DST_AT: nat := 30

  /** Long enough for the header the router reads and rewrites. */
  predicate HasIpHeader(p: seq<byte>) {
    |p| >= IP_AT + 20 && IP_AT + 4 * (p[IP_AT] % 16) <= |p|
  }

  predicate IsIp(p: seq<byte>) { |p| >= 14 && p[12] == 8 && p[13] == 0 }

  function SrcOf(p: seq<byte>): Addr requires |p| >= IP_AT + 20 { Get32(p, IP_SRC_AT) }
  function DstOf(p: seq<byte>): Addr requires |p| >= IP_AT + 20 { Get32(p, IP_DST_AT) }

  // ----- the routing decision ------------------------------------------------------------

  /** What a handler call reads and does not change: table, interfaces, cache and time. */
  datatype Env = Env(t: seq<Route>, ifs: seq<Interface>, c: seq<CacheEntry>, now: real)

  /**
    `Send`: out on `iface` to `mac`. `Wait`: queued under interface name `iface`, ARP request for
    `hop` out on `arpIface`. `NullRoute`: the code follows a null route pointer.
  */
  datatype Verdict =
    | Send(iface: string, mac: seq<byte>)
    | Wait(iface: string, hop: Addr, arpIface: string)
    | NullRoute

  /** The decision for a packet that came with interface name `iface` and the route at position `k`. */
  function Decide(env: Env, src: Addr, dst: Addr, iface: string, k: nat): Verdict
    requires k <= |env.t|
  {
    var hop := if k < |env.t| && env.t[k].gw != 0 then env.t[k].gw else dst;
    var mac := MacFor(env.c, hop, env.now);
    if Found(mac) then
      if k < |env.t| then Send(env.t[k].iface, mac) else NullRoute
    else if FirstMatch(env.t, src) < |env.t| then
      var g := FirstDefault(env.t);
      if g == |env.t| then NullRoute
      else
        var gwMac := MacFor(env.c, env.t[g].gw, env.now);
        if Found(gwMac) then Send(env.t[g].iface, gwMac)
        else Wait(env.t[g].iface, env.t[g].gw, env.t[g].iface)
    else if k < |env.t| then Wait(iface, hop, env.t[k].iface)
    else NullRoute
  }

  function Judge(env: Env, p: seq<byte>, iface: string): Verdict
    requires HasIpHeader(p)
  {
    Decide(env, SrcOf(p), DstOf(p), iface, FirstMatch(env.t, DstOf(p)))
  }

  /** No null route is followed exactly when the decision finds the routes it needs. */
  lemma NullRouteExactly(env: Env, src: Addr, dst: Addr, iface: string, k: nat)
    requires k <= |env.t|
    ensures Decide(env, src, dst, iface, k) == NullRoute <==>
      var miss := !Found(MacFor(env.c, if k < |env.t| && env.t[k].gw != 0 then env.t[k].gw else dst, env.now));
      if miss && FirstMatch(env.t, src) < |env.t| then FirstDefault(env.t) == |env.t| else k == |env.t|
  {
  }

  // ----- what goes out -------------------------------------------------------------------

  datatype Output =
    | Forwarded(iface: string, bytes: seq<byte>)
    | ArpRequest(iface: string, target: Addr)
    | Replied(iface: string, bytes: seq<byte>)

  /** The hardware address of an interface name; the last interface of that name counts. */
  function SourceMac(ifs: seq<Interface>, name: string, default: seq<byte>): seq<byte> {
    if ifs == [] then default
    else if ifs[|ifs| - 1].name == name then ifs[|ifs| - 1].mac
    else SourceMac(ifs[..|ifs| - 1], name, default)
  }

  lemma {:induction false} SourceMacLength(ifs: seq<Interface>, name: string, default: seq<byte>)
    requires MacsOk(ifs) && |default| == 6
    ensures |SourceMac(ifs, name, default)| == 6
  {
    if ifs != [] { SourceMacLength(ifs[..|ifs| - 1], name, default); }
  }

  /** Time-to-live down by one, in eight bits. */
  function Lowered(p: seq<byte>): (r: seq<byte>)
    requires |p| > IP_TTL_AT
    ensures |r| == |p| && r[..IP_TTL_AT] == p[..IP_TTL_AT] && r[IP_TTL_AT + 1..] == p[IP_TTL_AT + 1..]
    ensures r[IP_AT] == p[IP_AT] && r[IP_TTL_AT] == if p[IP_TTL_AT] == 0 then 255 else p[IP_TTL_AT] - 1
  {
    p[IP_TTL_AT := (p[IP_TTL_AT] as int - 1) % 256]
  }

  /** Time-to-live down by one, IP checksum recomputed, both hardware addresses rewritten. */
  function Rewritten(p: seq<byte>, dmac: seq<byte>, smac: seq<byte>): seq<byte>
    requires HasIpHeader(p) && |dmac| == 6 && |smac| == 6
  {
    dmac + smac + IpChecksummed(Lowered(p), IP_AT)[12..]
  }

  /** Every octet that forwarding leaves alone: all but hardware addresses, time-to-live and checksum. */
  function Body(p: seq<byte>): seq<byte> {
    if |p| < IP_SRC_AT then [] else p[12..IP_TTL_AT] + p[IP_TTL_AT + 1..IP_SUM_AT] + p[IP_SRC_AT..]
  }

  /** What forwarding does to a packet: both hardware addresses, time-to-live and checksum are written, nothing else. */
  lemma {:induction false} RewrittenFields(p: seq<byte>, dmac: seq<byte>, smac: seq<byte>)
    requires HasIpHeader(p) && |dmac| == 6 && |smac| == 6
    ensures var r := Rewritten(p, dmac, smac);
      && |r| == |p| && r[..6] == dmac && r[6..12] == smac
      && r[IP_TTL_AT] == (if p[IP_TTL_AT] == 0 then 255 else p[IP_TTL_AT] - 1)
      && (forall i :: 12 <= i < |p| && i != IP_TTL_AT && i != IP_SUM_AT && i != IP_SUM_AT + 1 ==> r[i] == p[i])
  {
    var b := Lowered(p);
    ChecksumElsewhere(b, IP_AT);
    PutTogether(p, b[IP_TTL_AT], dmac, smac, IpChecksummed(b, IP_AT));
  }

  lemma PutTogether(p: seq<byte>, ttl: byte, dmac: seq<byte>, smac: seq<byte>, c: seq<byte>)
    requires |p| >= IP_AT + 20 && |dmac| == 6 && |smac| == 6 && |c| == |p|
    requires forall i :: 0 <= i < |p| && i != IP_SUM_AT && i != IP_SUM_AT + 1 ==> c[i] == p[IP_TTL_AT := ttl][i]
    ensures var r := dmac + smac + c[12..];
      && |r| == |p| && r[..6] == dmac && r[6..12] == smac && r[IP_TTL_AT] == ttl
      && (forall i :: 12 <= i < |p| && i != IP_TTL_AT && i != IP_SUM_AT && i != IP_SUM_AT + 1 ==> r[i] == p[i])
  {
  }

  lemma {:induction false} RewrittenKeepsBody(p: seq<byte>, dmac: seq<byte>, smac: seq<byte>)
    requires HasIpHeader(p) && |dmac| == 6 && |smac| == 6
    ensures Body(Rewritten(p, dmac, smac)) == Body(p)
  {
    RewrittenFields(p, dmac, smac);
    hide Rewritten, HasIpHeader;
    var r := Rewritten(p, dmac, smac);
    assert r[12..IP_TTL_AT] == p[12..IP_TTL_AT] && r[IP_TTL_AT + 1..IP_SUM_AT] == p[IP_TTL_AT + 1..IP_SUM_AT];
    assert r[IP_SRC_AT..] == p[IP_SRC_AT..];
  }

  /** The header of a forwarded packet carries a verifying checksum. */
  lemma {:induction false} RewrittenVerifies(p: seq<byte>, dmac: seq<byte>, smac: seq<byte>)
    requires HasIpHeader(p) && |dmac| == 6 && |smac| == 6 && p[IP_AT] % 16 >= 3
    ensures OnesSum(Rewritten(p, dmac, smac)[IP_AT..], 2 * (p[IP_AT] % 16)) == 0xFFFF
  {
    var b := Lowered(p);
    IpChecksummedVerifies(b, IP_AT);
    hide IpChecksummed, OnesSum;
    assert Rewritten(p, dmac, smac)[IP_AT..] == IpChecksummed(b, IP_AT)[IP_AT..];
  }

  /** One ARP request per interface with the given name. */
  function ArpRequests(ifs: seq<Interface>, name: string, target: Addr): seq<Output> {
    if ifs == [] then []
    else ArpRequests(ifs[..|ifs| - 1], name, target)
         + if ifs[|ifs| - 1].name == name then [ArpRequest(name, target)] else []
  }

  // ----- the queue -----------------------------------------------------------------------

  datatype Item = Item(bytes: seq<byte>, iface: string, forGateway: bool)

  /** The queued copy of a packet that has to wait. */
  function Queued(env: Env, p: seq<byte>, v: Verdict): Item
    requires v.Wait?
  {
    Item(p, v.iface, IsGatewayOf(env.t, v.hop))
  }

  /** The test of the release walk on an ARP reply from `ip`. */
  predicate Matching(env: Env, ip: Addr, x: Item)
    requires HasIpHeader(x.bytes)
  {
    x.bytes[IP_TTL_AT] > 1 && (ip == DstOf(x.bytes) || (IsGatewayOf(env.t, ip) && x.forGateway))
  }

  /** What sending a packet puts out. */
  function SentFrame(env: Env, p: seq<byte>, v: Verdict): Output
    requires HasIpHeader(p) && v.Send? && |v.mac| == 6 && MacsOk(env.ifs)
  {
    SourceMacLength(env.ifs, v.iface, p[6..12]);
    Forwarded(v.iface, Rewritten(p, v.mac, SourceMac(env.ifs, v.iface, p[6..12])))
  }

  /** What one routing call adds to the queue and to the output. */
  function Routed(env: Env, p: seq<byte>, v: Verdict): (r: (seq<Item>, seq<Output>))
    requires HasIpHeader(p) && MacsOk(env.ifs) && !v.NullRoute? && (v.Send? ==> |v.mac| == 6)
  {
    if v.Send? then ([], [SentFrame(env, p, v)])
    else (if IsIp(p) then [Queued(env, p, v)] else [], ArpRequests(env.ifs, v.arpIface, v.hop))
  }

  /** The decision the walk makes about a queued packet. */
  function VerdictOn(env: Env, x: Item): Verdict
    requires HasIpHeader(x.bytes)
  {
    Judge(env, x.bytes, x.iface)
  }
}
