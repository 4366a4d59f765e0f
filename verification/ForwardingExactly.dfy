/** What forwarding and releasing amount to, in octets, table entries and cached addresses. */
module ForwardingExactly {
  import opened Words
  import opened PacketFields
  import opened RouteTables
  import opened Checksum
  import opened LsuPackets
  import opened ArpCaches
  import opened ForwardingRules
  import opened ReleaseWalks

  // ----- the routes and addresses a decision is about ------------------------------------

  /** Route `k` is the first that matches `ip`. */
  ghost predicate FirstRoute(t: seq<Route>, ip: Addr, k: int) {
    0 <= k < |t| && Matches(t[k], ip) && forall j :: 0 <= j < k ==> !Matches(t[j], ip)
  }

  ghost predicate OnSomeNetwork(t: seq<Route>, ip: Addr) {
    exists k :: 0 <= k < |t| && Matches(t[k], ip)
  }

  /** Route `g` is the first with mask 0 and a gateway. */
  ghost predicate DefaultRoute(t: seq<Route>, g: int) {
    && 0 <= g < |t| && t[g].mask == 0 && t[g].gw != 0
    && forall j :: 0 <= j < g ==> !(t[j].mask == 0 && t[j].gw != 0)
  }

  function HopBy(r: Route, dst: Addr): Addr { if r.gw != 0 then r.gw else dst }

  /** `hop` is where a packet to `dst` goes next. */
  ghost predicate NextHop(t: seq<Route>, dst: Addr, hop: Addr) {
    if OnSomeNetwork(t, dst) then exists k :: FirstRoute(t, dst, k) && hop == HopBy(t[k], dst) else hop == dst
  }

  /** The cache answers for `ip`, and the first octet of the answer is not 0. */
  ghost predicate Known(env: Env, ip: Addr, mac: seq<byte>) {
    mac == MacFor(env.c, ip, env.now) && mac != [] && mac[0] != 0
  }

  ghost predicate Unknown(env: Env, ip: Addr) {
    !exists mac :: Known(env, ip, mac)
  }

  // ----- the four decisions --------------------------------------------------------------

  /** By the first route to the destination, to the address cached for its next hop. */
  ghost predicate SendsDirectly(env: Env, dst: Addr, iface: string, mac: seq<byte>) {
    exists k :: FirstRoute(env.t, dst, k) && iface == env.t[k].iface && Known(env, HopBy(env.t[k], dst), mac)
  }

  /** The next hop is unknown, the source is on a network: by the default route, to its gateway. */
  ghost predicate SendsToGateway(env: Env, src: Addr, dst: Addr, iface: string, mac: seq<byte>) {
    && (exists hop :: NextHop(env.t, dst, hop) && Unknown(env, hop)) && OnSomeNetwork(env.t, src)
    && exists g :: DefaultRoute(env.t, g) && iface == env.t[g].iface && Known(env, env.t[g].gw, mac)
  }

  /** The gateway is unknown too: the packet waits under the name of its interface, where it is asked for. */
  ghost predicate WaitsForGateway(env: Env, src: Addr, dst: Addr, name: string, hop: Addr, on: string) {
    && (exists h :: NextHop(env.t, dst, h) && Unknown(env, h)) && OnSomeNetwork(env.t, src)
    && exists g :: DefaultRoute(env.t, g) && name == on == env.t[g].iface && hop == env.t[g].gw && Unknown(env, hop)
  }

  /** The next hop is unknown, the source on no network: it waits under its own name, the route asks for the hop. */
  ghost predicate WaitsForHop(env: Env, src: Addr, dst: Addr, came: string, name: string, hop: Addr, on: string) {
    && !OnSomeNetwork(env.t, src) && name == came
    && exists k :: FirstRoute(env.t, dst, k) && hop == HopBy(env.t[k], dst) && on == env.t[k].iface && Unknown(env, hop)
  }

  lemma FirstMatchIs(t: seq<Route>, ip: Addr)
    ensures FirstMatch(t, ip) < |t| <==> OnSomeNetwork(t, ip)
    ensures forall k :: FirstRoute(t, ip, k) <==> k == FirstMatch(t, ip) < |t|
  {
    hide Matches;
    FirstMatchIsFirst(t, ip);
  }

  lemma FirstDefaultIs(t: seq<Route>)
    ensures forall g :: DefaultRoute(t, g) <==> g == FirstDefault(t) < |t|
  {
  }

  lemma KnownIs(env: Env, ip: Addr)
    ensures forall mac :: Known(env, ip, mac) <==> mac == MacFor(env.c, ip, env.now) && Found(mac)
    ensures Unknown(env, ip) <==> !Found(MacFor(env.c, ip, env.now))
  {
    hide MacFor;
    assert Found(MacFor(env.c, ip, env.now)) ==> Known(env, ip, MacFor(env.c, ip, env.now));
  }

  lemma NextHopIs(t: seq<Route>, dst: Addr)
    ensures var k := FirstMatch(t, dst);
      forall hop :: NextHop(t, dst, hop) <==> hop == if k < |t| && t[k].gw != 0 then t[k].gw else dst
  {
    hide Matches, FirstMatch, OnSomeNetwork, FirstRoute;
    FirstMatchIs(t, dst);
    var k := FirstMatch(t, dst);
    if k < |t| { assert FirstRoute(t, dst, k); }
  }

  /** The facts a decision turns on, each for the one route, hop or gateway it is about. */
  lemma DecisionFacts(env: Env, src: Addr, dst: Addr, k: nat, hop: Addr, g: nat)
    requires k == FirstMatch(env.t, dst) && g == FirstDefault(env.t)
    requires hop == if k < |env.t| && env.t[k].gw != 0 then env.t[k].gw else dst
    ensures OnSomeNetwork(env.t, src) <==> FirstMatch(env.t, src) < |env.t|
    ensures forall r :: FirstRoute(env.t, dst, r) <==> r == k < |env.t|
    ensures forall r :: DefaultRoute(env.t, r) <==> r == g < |env.t|
    ensures forall h :: NextHop(env.t, dst, h) <==> h == hop
    ensures forall mac :: Known(env, hop, mac) <==> mac == MacFor(env.c, hop, env.now) && Found(mac)
    ensures Unknown(env, hop) <==> !Found(MacFor(env.c, hop, env.now))
    ensures g < |env.t| ==>
              var gw := env.t[g].gw;
              && (forall mac :: Known(env, gw, mac) <==> mac == MacFor(env.c, gw, env.now) && Found(mac))
              && (Unknown(env, gw) <==> !Found(MacFor(env.c, gw, env.now)))
  {
    hide FirstRoute, OnSomeNetwork, DefaultRoute, NextHop, Known, Unknown, MacFor, Found, FirstMatch, FirstDefault;
    FirstMatchIs(env.t, dst);
    FirstMatchIs(env.t, src);
    FirstDefaultIs(env.t);
    NextHopIs(env.t, dst);
    KnownIs(env, hop);
    if g < |env.t| { KnownIs(env, env.t[g].gw); }
  }

  lemma SendsDirectlyIs(env: Env, src: Addr, dst: Addr, k: nat, hop: Addr, g: nat, iface: string, mac: seq<byte>)
    requires k == FirstMatch(env.t, dst) && g == FirstDefault(env.t)
    requires hop == if k < |env.t| && env.t[k].gw != 0 then env.t[k].gw else dst
    ensures SendsDirectly(env, dst, iface, mac)
       <==> k < |env.t| && iface == env.t[k].iface && mac == MacFor(env.c, hop, env.now) && Found(mac)
  {
    DecisionFacts(env, src, dst, k, hop, g);
    hide FirstRoute, OnSomeNetwork, DefaultRoute, NextHop, Known, Unknown, MacFor, Found, FirstMatch, FirstDefault;
  }

  lemma SendsToGatewayIs(env: Env, src: Addr, dst: Addr, k: nat, hop: Addr, g: nat, iface: string, mac: seq<byte>)
    requires k == FirstMatch(env.t, dst) && g == FirstDefault(env.t)
    requires hop == if k < |env.t| && env.t[k].gw != 0 then env.t[k].gw else dst
    ensures SendsToGateway(env, src, dst, iface, mac)
       <==> !Found(MacFor(env.c, hop, env.now)) && FirstMatch(env.t, src) < |env.t| && g < |env.t|
            && iface == env.t[g].iface && mac == MacFor(env.c, env.t[g].gw, env.now) && Found(mac)
  {
    DecisionFacts(env, src, dst, k, hop, g);
    hide FirstRoute, OnSomeNetwork, DefaultRoute, NextHop, Known, Unknown, MacFor, Found, FirstMatch, FirstDefault;
  }

  lemma WaitsForGatewayIs(env: Env, src: Addr, dst: Addr, k: nat, hop: Addr, g: nat, v: Verdict)
    requires k == FirstMatch(env.t, dst) && g == FirstDefault(env.t)
    requires hop == if k < |env.t| && env.t[k].gw != 0 then env.t[k].gw else dst
    requires v.Wait?
    ensures WaitsForGateway(env, src, dst, v.iface, v.hop, v.arpIface)
       <==> !Found(MacFor(env.c, hop, env.now)) && FirstMatch(env.t, src) < |env.t| && g < |env.t|
            && v == Wait(env.t[g].iface, env.t[g].gw, env.t[g].iface) && !Found(MacFor(env.c, v.hop, env.now))
  {
    DecisionFacts(env, src, dst, k, hop, g);
    hide FirstRoute, OnSomeNetwork, DefaultRoute, NextHop, Known, Unknown, MacFor, Found, FirstMatch, FirstDefault;
  }

  lemma WaitsForHopIs(env: Env, src: Addr, dst: Addr, came: string, k: nat, hop: Addr, g: nat, v: Verdict)
    requires k == FirstMatch(env.t, dst) && g == FirstDefault(env.t)
    requires hop == if k < |env.t| && env.t[k].gw != 0 then env.t[k].gw else dst
    requires v.Wait?
    ensures WaitsForHop(env, src, dst, came, v.iface, v.hop, v.arpIface)
       <==> !Found(MacFor(env.c, hop, env.now)) && FirstMatch(env.t, src) == |env.t| && k < |env.t|
            && v == Wait(came, hop, env.t[k].iface)
  {
    DecisionFacts(env, src, dst, k, hop, g);
    hide FirstRoute, OnSomeNetwork, DefaultRoute, NextHop, Known, Unknown, MacFor, Found, FirstMatch, FirstDefault;
  }

  lemma SendsExactly(env: Env, src: Addr, dst: Addr, came: string, k: nat, iface: string, mac: seq<byte>)
    requires k == FirstMatch(env.t, dst)
    ensures Decide(env, src, dst, came, k) == Send(iface, mac)
       <==> SendsDirectly(env, dst, iface, mac) || SendsToGateway(env, src, dst, iface, mac)
  {
    var hop := if k < |env.t| && env.t[k].gw != 0 then env.t[k].gw else dst;
    SendsDirectlyIs(env, src, dst, k, hop, FirstDefault(env.t), iface, mac);
    SendsToGatewayIs(env, src, dst, k, hop, FirstDefault(env.t), iface, mac);
    hide SendsDirectly, SendsToGateway, MacFor, Found, FirstMatch, FirstDefault;
  }

  lemma WaitsExactly(env: Env, src: Addr, dst: Addr, came: string, k: nat, v: Verdict)
    requires k == FirstMatch(env.t, dst) && v.Wait?
    ensures Decide(env, src, dst, came, k) == v
       <==> WaitsForGateway(env, src, dst, v.iface, v.hop, v.arpIface)
            || WaitsForHop(env, src, dst, came, v.iface, v.hop, v.arpIface)
  {
    var h := if k < |env.t| && env.t[k].gw != 0 then env.t[k].gw else dst;
    WaitsForGatewayIs(env, src, dst, k, h, FirstDefault(env.t), v);
    WaitsForHopIs(env, src, dst, came, k, h, FirstDefault(env.t), v);
    hide WaitsForGateway, WaitsForHop, MacFor, Found, FirstMatch, FirstDefault;
  }

  /**
    The routing decision, case by case: interface and hardware address always belong to one route,
    and so do the interface, the name and the hop of a packet that has to wait.
  */
  lemma DecisionExactly(env: Env, p: seq<byte>, came: string, src: Addr, dst: Addr)
    requires HasIpHeader(p) && AddressAt(p, 26, src) && AddressAt(p, 30, dst)
    ensures forall iface, mac ::
              Judge(env, p, came) == Send(iface, mac)
              <==> SendsDirectly(env, dst, iface, mac) || SendsToGateway(env, src, dst, iface, mac)
    ensures forall name, hop, on ::
              Judge(env, p, came) == Wait(name, hop, on)
              <==> WaitsForGateway(env, src, dst, name, hop, on) || WaitsForHop(env, src, dst, came, name, hop, on)
  {
    assert SrcOf(p) == src && DstOf(p) == dst;
    hide HasIpHeader, AddressAt, SrcOf, DstOf, Decide, SendsDirectly, SendsToGateway, WaitsForGateway, WaitsForHop;
    var k := FirstMatch(env.t, dst);
    forall iface, mac
      ensures Judge(env, p, came) == Send(iface, mac)
         <==> SendsDirectly(env, dst, iface, mac) || SendsToGateway(env, src, dst, iface, mac)
    {
      SendsExactly(env, src, dst, came, k, iface, mac);
    }
    forall name, hop, on
      ensures Judge(env, p, came) == Wait(name, hop, on)
         <==> WaitsForGateway(env, src, dst, name, hop, on) || WaitsForHop(env, src, dst, came, name, hop, on)
    {
      WaitsExactly(env, src, dst, came, k, Wait(name, hop, on));
    }
  }

  // ----- what is sent, queued and asked for ----------------------------------------------

  /** `m` is the hardware address of the last interface called `name`; `was` stays where there is none. */
  ghost predicate IsMacOf(ifs: seq<Interface>, name: string, was: seq<byte>, m: seq<byte>) {
    || (m == was && forall k :: 0 <= k < |ifs| ==> ifs[k].name != name)
    || (exists k :: 0 <= k < |ifs| && ifs[k].name == name && m == ifs[k].mac
                    && forall j :: k < j < |ifs| ==> ifs[j].name != name)
  }

  /**
    `o` is packet `p` on its way out: addressed to `mac` from the interface it leaves on, its
    time-to-live one less in eight bits, its checksum right, every other octet what it was.
  */
  ghost predicate IsFrameOf(ifs: seq<Interface>, p: seq<byte>, iface: string, mac: seq<byte>, o: Output) {
    && o.Forwarded? && o.iface == iface && 34 <= |p| == |o.bytes| && 14 + 4 * (p[14] % 16) <= |p|
    && o.bytes[..6] == mac && IsMacOf(ifs, iface, p[6..12], o.bytes[6..12])
    && o.bytes[22] == (if p[22] == 0 then 255 else p[22] - 1)
    && (forall i :: 12 <= i < |p| && i != 22 && i != 24 && i != 25 ==> o.bytes[i] == p[i])
    && (p[14] % 16 >= 3 ==> OnesSum(o.bytes[14..], 2 * (p[14] % 16)) == 0xFFFF)
  }

  /** Some route has this gateway. */
  ghost predicate SomeGateway(t: seq<Route>, ip: Addr) {
    exists i :: 0 <= i < |t| && t[i].gw == ip
  }

  /** What a packet that has to wait is queued as; only IP packets are. */
  ghost predicate IsCopyOf(t: seq<Route>, p: seq<byte>, name: string, hop: Addr, x: Item) {
    x.bytes == p && x.iface == name && (x.forGateway <==> SomeGateway(t, hop))
  }

  ghost predicate AllAskFor(out: seq<Output>, hop: Addr, on: string) {
    forall i :: 0 <= i < |out| ==> out[i] == ArpRequest(on, hop)
  }

  lemma {:induction false} SourceMacIs(ifs: seq<Interface>, name: string, was: seq<byte>)
    ensures IsMacOf(ifs, name, was, SourceMac(ifs, name, was))
  {
    if ifs != [] {
      SourceMacIs(ifs[..|ifs| - 1], name, was);
      MacNext(ifs, name, was);
    }
  }

  lemma MacNext(ifs: seq<Interface>, name: string, was: seq<byte>)
    requires ifs != []
    ensures var l := |ifs| - 1;
      if ifs[l].name == name then IsMacOf(ifs, name, was, ifs[l].mac)
      else forall m :: IsMacOf(ifs[..l], name, was, m) ==> IsMacOf(ifs, name, was, m)
  {
    var l := |ifs| - 1;
    if ifs[l].name != name {
      forall m | IsMacOf(ifs[..l], name, was, m) ensures IsMacOf(ifs, name, was, m) {
        assert forall j :: 0 <= j < l ==> ifs[j] == ifs[..l][j];
      }
    }
  }

  lemma OneCounted(s: set<int>, l: int, more: bool, s': set<int>)
    requires l !in s && forall k :: k in s' <==> k in s || (k == l && more)
    ensures |s'| == |s| + if more then 1 else 0
  {
    var t := s + if more then {l} else {};
    forall k ensures k in s' <==> k in t {}
    assert s' == t;
  }

  lemma AskedNext(ifs: seq<Interface>, on: string, hop: Addr)
    requires ifs != [] && AllAskFor(ArpRequests(ifs[..|ifs| - 1], on, hop), hop, on)
    ensures AllAskFor(ArpRequests(ifs, on, hop), hop, on)
  {
  }

  /** One request on each interface of that name. */
  lemma {:induction false} AskedOnEach(ifs: seq<Interface>, on: string, hop: Addr)
    ensures AllAskFor(ArpRequests(ifs, on, hop), hop, on)
    ensures |ArpRequests(ifs, on, hop)| == |set k | 0 <= k < |ifs| && ifs[k].name == on|
  {
    var s := set k | 0 <= k < |ifs| && ifs[k].name == on;
    if ifs == [] {
      assert s == {};
    } else {
      var l := |ifs| - 1;
      AskedOnEach(ifs[..l], on, hop);
      var s' := set k | 0 <= k < l && ifs[..l][k].name == on;
      hide AllAskFor;
      forall k ensures k in s <==> k in s' || (k == l && ifs[l].name == on) {}
      OneCounted(s', l, ifs[l].name == on, s);
      AskedNext(ifs, on, hop);
    }
  }

  /**
    One routing call, in octets. A packet is either sent as one frame, or it is queued as it came,
    when it is an IP packet, and its next hop is asked for once on each interface of the route.
  */
  lemma RoutedExactly(env: Env, p: seq<byte>, v: Verdict)
    requires HasIpHeader(p) && MacsOk(env.ifs) && !v.NullRoute? && (v.Send? ==> |v.mac| == 6)
    ensures var r := Routed(env, p, v);
      if v.Send? then r.0 == [] && |r.1| == 1 && IsFrameOf(env.ifs, p, v.iface, v.mac, r.1[0])
      else
        && (if p[12] == 8 && p[13] == 0 then |r.0| == 1 && IsCopyOf(env.t, p, v.iface, v.hop, r.0[0]) else r.0 == [])
        && AllAskFor(r.1, v.hop, v.arpIface)
        && |r.1| == |set k | 0 <= k < |env.ifs| && env.ifs[k].name == v.arpIface|
  {
    if v.Send? {
      var smac := SourceMac(env.ifs, v.iface, p[6..12]);
      SourceMacLength(env.ifs, v.iface, p[6..12]);
      SourceMacIs(env.ifs, v.iface, p[6..12]);
      RewrittenFields(p, v.mac, smac);
      if p[14] % 16 >= 3 { RewrittenVerifies(p, v.mac, smac); }
      hide Rewritten, SourceMac, IsMacOf, OnesSum, MacsOk;
    } else {
      AskedOnEach(env.ifs, v.arpIface, v.hop);
      hide ArpRequests, AllAskFor;
    }
  }
}
