/** No packet is lost, duplicated or changed between arrival, queue and departure. */
module PacketConservation {
  import opened Words
  import opened RouteTables
  import opened Checksum
  import opened LsuPackets
  import opened ArpCaches
  import opened ForwardingRules
  import opened ReleaseWalks

  /** The octets that forwarding leaves alone: all but 0 to 11, 22, 24 and 25. */
  lemma SameBodyExactly(p: seq<byte>, q: seq<byte>)
    requires |p| >= 26 && |q| >= 26
    ensures Body(p) == Body(q)
       <==> |p| == |q| && forall i :: 12 <= i < |p| && i != 22 && i != 24 && i != 25 ==> p[i] == q[i]
  {
    forall i | 12 <= i < |p| && i != 22 && i != 24 && i != 25
      ensures Body(p)[if i < 22 then i - 12 else if i < 24 then i - 13 else i - 15] == p[i] {}
    forall i | 12 <= i < |q| && i != 22 && i != 24 && i != 25
      ensures Body(q)[if i < 22 then i - 12 else if i < 24 then i - 13 else i - 15] == q[i] {}
    if |p| == |q| && forall i :: 12 <= i < |p| && i != 22 && i != 24 && i != 25 ==> p[i] == q[i] {
      assert p[12..22] == q[12..22] && p[23..24] == q[23..24] && p[26..] == q[26..];
    }
  }

  function Bodies(xs: seq<Item>): multiset<seq<byte>> {
    if xs == [] then multiset{} else Bodies(xs[..|xs| - 1]) + multiset{Body(xs[|xs| - 1].bytes)}
  }

  /** The bodies of the packets forwarded; ARP requests do not count. */
  function BodiesSent(out: seq<Output>): multiset<seq<byte>> {
    if out == [] then multiset{}
    else
      var o := out[|out| - 1];
      BodiesSent(out[..|out| - 1]) + if o.Forwarded? then multiset{Body(o.bytes)} else multiset{}
  }

  lemma {:induction false} BodiesSplit(a: seq<Item>, b: seq<Item>)
    ensures Bodies(a + b) == Bodies(a) + Bodies(b)
  {
    if b == [] {
      assert a + b == a;
    } else {
      assert (a + b)[..|a + b| - 1] == a + b[..|b| - 1];
      BodiesSplit(a, b[..|b| - 1]);
    }
  }

  lemma {:induction false} SentSplit(a: seq<Output>, b: seq<Output>)
    ensures BodiesSent(a + b) == BodiesSent(a) + BodiesSent(b)
  {
    if b == [] {
      assert a + b == a;
    } else {
      assert (a + b)[..|a + b| - 1] == a + b[..|b| - 1];
      SentSplit(a, b[..|b| - 1]);
    }
  }

  lemma OneBody(x: Item)
    ensures Bodies([x]) == multiset{Body(x.bytes)}
  {
    assert [x][..0] == [];
  }

  lemma OneSent(o: Output)
    ensures BodiesSent([o]) == if o.Forwarded? then multiset{Body(o.bytes)} else multiset{}
  {
    assert [o][..0] == [];
  }

  lemma {:induction false} RequestsForwardNothing(ifs: seq<Interface>, name: string, target: Addr)
    ensures BodiesSent(ArpRequests(ifs, name, target)) == multiset{}
  {
    if ifs != [] {
      var init := ArpRequests(ifs[..|ifs| - 1], name, target);
      RequestsForwardNothing(ifs[..|ifs| - 1], name, target);
      SentSplit(init, [ArpRequest(name, target)]);
      OneSent(ArpRequest(name, target));
      assert init + [] == init;
    }
  }

  /** Each call on an IP packet either forwards it once or queues one unchanged copy. */
  lemma RoutedOnce(env: Env, p: seq<byte>, v: Verdict)
    requires HasIpHeader(p) && IsIp(p) && MacsOk(env.ifs) && !v.NullRoute? && (v.Send? ==> |v.mac| == 6)
    ensures var r := Routed(env, p, v);
      && Bodies(r.0) + BodiesSent(r.1) == multiset{Body(p)}
      && (r.0 == [] || (|r.0| == 1 && r.0[0].bytes == p))
  {
    var r := Routed(env, p, v);
    if v.Send? {
      SourceMacLength(env.ifs, v.iface, p[6..12]);
      RewrittenKeepsBody(p, v.mac, SourceMac(env.ifs, v.iface, p[6..12]));
      hide Rewritten, SourceMac, Body;
      OneSent(r.1[0]);
    } else {
      OneBody(r.0[0]);
      RequestsForwardNothing(env.ifs, v.arpIface, v.hop);
    }
  }

  /** Every turn keeps the packets queued plus the packets forwarded. */
  lemma TurnConserves(env: Env, ip: Addr, w: Walk)
    requires WalkOk(env, ip, w) && w.ahead != []
    ensures InWalk(Turn(env, ip, w)) == InWalk(w)
  {
    hide Matching, VerdictOn, Queued, SentFrame, ArpRequests, Bodies, BodiesSent, Body, IsIp;
    var x, rest, w' := w.ahead[0], w.ahead[1..], Turn(env, ip, w);
    assert Routable(env, ip, x);
    assert w.ahead == [x] + rest;
    BodiesSplit([x], rest);
    OneBody(x);
    if !Matching(env, ip, x) {
      BodiesSplit(w.kept, [x]);
    } else {
      var r := Routed(env, x.bytes, VerdictOn(env, x));
      RoutedOnce(env, x.bytes, VerdictOn(env, x));
      SentSplit(w.out, r.1);
      BodiesSplit(w.kept, r.0);
      BodiesSplit(rest, r.0);
      assert (w'.kept == w.kept && w'.ahead == rest + r.0) || (w'.kept == w.kept + r.0 && w'.ahead == [] == rest);
    }
  }

  function InWalk(w: Walk): multiset<seq<byte>> { Bodies(w.kept) + Bodies(w.ahead) + BodiesSent(w.out) }

  /** So does a whole release walk. */
  lemma {:induction false} FinishConserves(env: Env, ip: Addr, w: Walk)
    requires WalkOk(env, ip, w) && StuckCount(env, ip, w.ahead) <= 1
    ensures InWalk(Finish(env, ip, w)) == InWalk(w)
    decreases Measure(env, ip, w.ahead)
  {
    hide Turn, Measure, StuckCount, InWalk;
    if w.ahead != [] {
      TurnCounts(env, ip, w);
      TurnProgresses(env, ip, w);
      TurnConserves(env, ip, w);
      NoneStuck(env, ip);
      FinishConserves(env, ip, Turn(env, ip, w));
    }
  }

  // ----- whole runs ----------------------------------------------------------------------

  datatype Plane = Plane(queue: seq<Item>, out: seq<Output>)

  /** A packet in transit, or an ARP reply; each handler call finds an environment of its own. */
  datatype PlaneEvent = Transit(env: Env, packet: seq<byte>, iface: string) | Reply(env: Env, ip: Addr)

  ghost predicate Possible(s: Plane, e: PlaneEvent) {
    match e
    case Transit(env, p, iface) =>
      && HasIpHeader(p) && IsIp(p) && MacsOk(env.ifs) && MacsSix(env.c) && !Judge(env, p, iface).NullRoute?
    case Reply(env, ip) =>
      WalkOk(env, ip, Walk([], s.queue, s.out)) && StuckCount(env, ip, s.queue) <= 1
  }

  lemma SendsSix(env: Env, p: seq<byte>, iface: string)
    requires HasIpHeader(p) && MacsSix(env.c)
    ensures var v := Judge(env, p, iface); v.Send? ==> |v.mac| == 6
  {
    hide MacFor, FirstMatch, FirstDefault, MacsSix;
    forall ip ensures |MacFor(env.c, ip, env.now)| == 6 { MacForLength(env.c, ip, env.now); }
  }

  ghost function AfterEvent(s: Plane, e: PlaneEvent): Plane
    requires Possible(s, e)
  {
    match e
    case Transit(env, p, iface) =>
      SendsSix(env, p, iface);
      var r := Routed(env, p, Judge(env, p, iface));
      Plane(s.queue + r.0, s.out + r.1)
    case Reply(env, ip) =>
      var w := Finish(env, ip, Walk([], s.queue, s.out));
      Plane(w.kept, w.out)
  }

  /** One handler call takes the plane from `s` to `s'`. */
  ghost predicate StepsTo(s: Plane, e: PlaneEvent, s': Plane) {
    Possible(s, e) && s' == AfterEvent(s, e)
  }

  /** The planes before, between and after the events of a run. */
  ghost predicate IsRun(ss: seq<Plane>, es: seq<PlaneEvent>) {
    |ss| == |es| + 1 && forall i :: 0 <= i < |es| ==> StepsTo(ss[i], es[i], ss[i + 1])
  }

  /** The bodies of the first `n` packets and replies accepted for forwarding; replies have none. */
  function AcceptedBodies(es: seq<PlaneEvent>, n: nat): multiset<seq<byte>>
    requires n <= |es|
  {
    if n == 0 then multiset{}
    else AcceptedBodies(es, n - 1) + BodyOf(es[n - 1])
  }

  function BodyOf(e: PlaneEvent): multiset<seq<byte>> {
    if e.Transit? then multiset{Body(e.packet)} else multiset{}
  }

  function InPlane(s: Plane): multiset<seq<byte>> { Bodies(s.queue) + BodiesSent(s.out) }

  lemma EventConserves(s: Plane, e: PlaneEvent)
    requires Possible(s, e)
    ensures InPlane(AfterEvent(s, e)) == InPlane(s) + BodyOf(e)
  {
    hide Routed, Finish, WalkOk, StuckCount, Bodies, BodiesSent, Body, HasIpHeader, IsIp, Decide, MacsOk, MacsSix;
    match e
    case Transit(env, p, iface) =>
      SendsSix(env, p, iface);
      var r := Routed(env, p, Judge(env, p, iface));
      RoutedOnce(env, p, Judge(env, p, iface));
      BodiesSplit(s.queue, r.0);
      SentSplit(s.out, r.1);
    case Reply(env, ip) =>
      ReplyConserves(env, ip, s);
  }

  lemma ReplyConserves(env: Env, ip: Addr, s: Plane)
    requires Possible(s, Reply(env, ip))
    ensures InPlane(AfterEvent(s, Reply(env, ip))) == InPlane(s)
  {
    hide WalkOk, StuckCount, InPlane, InWalk;
    var before := Walk([], s.queue, s.out);
    var w := Finish(env, ip, before);
    assert w.ahead == [];
    hide Finish;
    FinishConserves(env, ip, before);
    InPlaneAtRest(before);
    InPlaneAtRest(w);
  }

  lemma InPlaneAtRest(w: Walk)
    ensures w.ahead == [] ==> InWalk(w) == InPlane(Plane(w.kept, w.out))
    ensures w.kept == [] ==> InWalk(w) == InPlane(Plane(w.ahead, w.out))
  {
    hide BodiesSent;
  }

  /**
    Packet conservation. At every moment of a run the packets accepted for forwarding so far are
    exactly those forwarded plus those queued: none is lost or duplicated, and of each every octet
    that forwarding has no business with is what it was.
  */
  lemma {:induction false} RunConserves(ss: seq<Plane>, es: seq<PlaneEvent>, n: nat)
    requires IsRun(ss, es) && n <= |es|
    ensures InPlane(ss[n]) == InPlane(ss[0]) + AcceptedBodies(es, n)
  {
    hide Possible, AfterEvent, InPlane, BodyOf;
    if n > 0 {
      assert StepsTo(ss[n - 1], es[n - 1], ss[n - 1 + 1]);
      RunConserves(ss, es, n - 1);
      EventConserves(ss[n - 1], es[n - 1]);
    }
  }

  // ----- what a walk needs, and that runs provide it -------------------------------------

  ghost predicate IpItem(x: Item) { HasIpHeader(x.bytes) && IsIp(x.bytes) }

  ghost predicate AllIp(xs: seq<Item>) {
    forall i :: 0 <= i < |xs| ==> IpItem(xs[i])
  }

  /** Given a default gateway and a route for every waiting packet, no null route is followed. */
  lemma WalkReady(env: Env, ip: Addr, w: Walk)
    requires MacsOk(env.ifs) && MacsSix(env.c) && AllIp(w.ahead) && FirstDefault(env.t) < |env.t|
    requires forall i :: 0 <= i < |w.ahead| ==>
               IpItem(w.ahead[i]) && FirstMatch(env.t, DstOf(w.ahead[i].bytes)) < |env.t|
    ensures WalkOk(env, ip, w)
  {
    hide FirstDefault, FirstMatch, MacFor, HasIpHeader, IsIp, DstOf, SrcOf, MacsOk, MacsSix, Matching, Found;
    forall i | 0 <= i < |w.ahead| ensures Routable(env, ip, w.ahead[i]) {
      var x := w.ahead[i];
      assert IpItem(x);
      SendsSix(env, x.bytes, x.iface);
    }
  }

  lemma TurnKeepsIp(env: Env, ip: Addr, w: Walk)
    requires WalkOk(env, ip, w) && w.ahead != [] && AllIp(w.kept) && AllIp(w.ahead)
    ensures AllIp(Turn(env, ip, w).kept) && AllIp(Turn(env, ip, w).ahead)
  {
    hide IpItem, Matching, VerdictOn, SentFrame, ArpRequests;
    assert IpItem(w.ahead[0]);
    if Matching(env, ip, w.ahead[0]) && VerdictOn(env, w.ahead[0]).Wait? {
      QueuedIsIp(env, w.ahead[0], VerdictOn(env, w.ahead[0]));
    }
  }

  lemma QueuedIsIp(env: Env, x: Item, v: Verdict)
    requires IpItem(x) && v.Wait?
    ensures IpItem(Queued(env, x.bytes, v))
  {
  }

  lemma {:induction false} FinishKeepsIp(env: Env, ip: Addr, w: Walk)
    requires WalkOk(env, ip, w) && StuckCount(env, ip, w.ahead) <= 1 && AllIp(w.kept) && AllIp(w.ahead)
    ensures AllIp(Finish(env, ip, w).kept)
    decreases Measure(env, ip, w.ahead)
  {
    hide Turn, Measure, StuckCount, WalkOk, AllIp;
    FinishTurn(env, ip, w);
    if w.ahead != [] {
      TurnKeepsIp(env, ip, w);
      FinishKeepsIp(env, ip, Turn(env, ip, w));
    }
  }

  /** Over any run everything queued is an IP packet with a full header. */
  lemma {:induction false} QueueStaysIp(ss: seq<Plane>, es: seq<PlaneEvent>, n: nat)
    requires IsRun(ss, es) && AllIp(ss[0].queue) && n <= |es|
    ensures AllIp(ss[n].queue)
  {
    hide Possible, AfterEvent, AllIp;
    if n > 0 {
      assert StepsTo(ss[n - 1], es[n - 1], ss[n - 1 + 1]);
      QueueStaysIp(ss, es, n - 1);
      EventKeepsIp(ss[n - 1], es[n - 1]);
    }
  }

  lemma EventKeepsIp(s: Plane, e: PlaneEvent)
    requires Possible(s, e) && AllIp(s.queue)
    ensures AllIp(AfterEvent(s, e).queue)
  {
    hide Finish, WalkOk, StuckCount, HasIpHeader, IsIp, Decide, MacsOk, MacsSix, SentFrame, ArpRequests;
    match e
    case Transit(env, p, iface) => SendsSix(env, p, iface);
    case Reply(env, ip) => FinishKeepsIp(env, ip, Walk([], s.queue, s.out));
  }
}
