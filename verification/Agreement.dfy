/** Once a network is at rest, its routers agree on all that its origins have not taken back. */
module Agreement {
  import opened Words
  import opened Topology
  import opened ShortestPaths
  import opened Convergence
  import opened Distances
  import opened Flooding
  import opened FloodOutcome
  import opened Senders
  import opened EdgeHistory

  ghost predicate Joined(net: Net, i: nat, j: nat)
    requires |net.links| == |net.rids|
  {
    exists p :: Path(net, p) && p[0] == i && p[|p| - 1] == j
  }

  ghost predicate Connected(net: Net)
    requires |net.links| == |net.rids|
  {
    forall i, j {:trigger Joined(net, i, j)} :: 0 <= i < |net.rids| && 0 <= j < |net.rids| ==> Joined(net, i, j)
  }

  /** A connected network after a lossless run, nothing in flight. */
  ghost predicate AtRest(net: Net, evs: seq<Event>) {
    && ValidRun(net, evs) && Lossless(evs) && NoWrap(After(net, evs))
    && After(net, evs).inflight == multiset{}
    && |net.links| == |net.rids| && Connected(net)
  }

  /** The last update of router `o`, empty when there is none. */
  ghost function LastOf(st: State, o: nat): seq<Advert>
    requires o < |st.history|
  {
    if st.history[o] == [] then [] else st.history[o][|st.history[o]| - 1]
  }

  /** The last update of router `o` speaks of edge `e`. */
  ghost predicate Says(net: Net, st: State, o: nat, e: (Key, Key))
    requires o < |st.history| == |net.rids|
  {
    SomeSpeaks(net.rids[o], LastOf(st, o), e)
  }

  /** Whatever any update of a router said of edge `e`, its last update says too. */
  ghost predicate Lasting(net: Net, st: State, e: (Key, Key))
    requires |st.history| == |net.rids|
  {
    forall o, k :: 0 <= o < |net.rids| && 0 <= k < |st.history[o]| && SomeSpeaks(net.rids[o], st.history[o][k], e) ==>
      Says(net, st, o, e)
  }

  ghost predicate SaidByOther(net: Net, st: State, i: nat, e: (Key, Key))
    requires |st.history| == |net.rids|
  {
    exists o :: 0 <= o < |net.rids| && o != i && Says(net, st, o, e)
  }

  // ----- what each router holds ----------------------------------------------------------

  lemma SaidIsKnown(t: Topo, o: Addr, advs: seq<Advert>, e: (Key, Key))
    requires AllKnown(t, o, advs) && SomeSpeaks(o, advs, e)
    ensures e in t.edges
  {
    var k :| 0 <= k < |advs| && AsksFor(o, advs[k], false, e);
    assert Known(t, o, advs[k]);
  }

  lemma HeldIsSaid(net: Net, st: State, i: nat, e: (Key, Key))
    requires Shape(net, st) && Lasting(net, st, e) && i < |net.rids| && Justified(net, st, i, e)
    ensures IsOwn(net, i, e) || SaidByOther(net, st, i, e)
  {
    hide SomeSpeaks, IsOwn, Says;
    if !IsOwn(net, i, e) {
      var o, k :| 0 <= o < |net.rids| && o != i && 0 <= k < |st.history[o]|
               && SomeSpeaks(net.rids[o], st.history[o][k], e);
      assert Says(net, st, o, e);
    }
  }

  lemma SaidIsHeld(net: Net, evs: seq<Event>, i: nat, o: nat, e: (Key, Key))
    requires AtRest(net, evs) && i < |net.rids| && o < |net.rids| && o != i
    ensures Shape(net, After(net, evs))
    ensures Says(net, After(net, evs), o, e) ==> e in Abs(After(net, evs).graphs[i]).edges
  {
    hide Abs, AllKnown, ValidRun, Lossless, NoWrap, Justified;
    var st := After(net, evs);
    hide After;
    assert Joined(net, o, i);
    var p :| Path(net, p) && p[0] == o && p[|p| - 1] == i;
    QuiescentTopologies(net, evs, p);
    if Says(net, st, o, e) { SaidIsKnown(Abs(st.graphs[i]), net.rids[o], LastOf(st, o), e); }
  }

  /**
    Exact convergence, edge by edge. At rest a router holds precisely its own interface edges and
    what the last updates of the others speak of, provided no router has taken back the edge in
    question. What has been taken back stays with whoever took it in: `EdgesExactly`, `NothingIsWithdrawn`.
  */
  lemma EdgesAtRest(net: Net, evs: seq<Event>, i: nat, e: (Key, Key))
    requires AtRest(net, evs) && i < |net.rids|
    ensures Shape(net, After(net, evs))
    ensures IsOwn(net, i, e) || SaidByOther(net, After(net, evs), i, e) ==>
              e in Abs(After(net, evs).graphs[i]).edges
    ensures Lasting(net, After(net, evs), e) && e in Abs(After(net, evs).graphs[i]).edges ==>
              IsOwn(net, i, e) || SaidByOther(net, After(net, evs), i, e)
  {
    hide Abs, AllKnown, ValidRun, Lossless, NoWrap, Justified, RecordsOk, Lasting, Connected, Says;
    hide OwnEdge, HoldsRecorded;
    TopologiesOverRuns(net, evs);
    var st := After(net, evs);
    hide After;
    assert HoldsOwn(net, st, i);
    if e in Abs(st.graphs[i]).edges && Lasting(net, st, e) {
      assert Justified(net, st, i, e);
      HeldIsSaid(net, st, i, e);
    }
    if SaidByOther(net, st, i, e) {
      var o :| 0 <= o < |net.rids| && o != i && Says(net, st, o, e);
      SaidIsHeld(net, evs, i, o, e);
    }
  }

  // ----- agreement -----------------------------------------------------------------------

  /** Router `o` names router `b` as its neighbour. */
  ghost predicate Names(net: Net, st: State, o: nat, rid: Addr)
    requires o < |st.history| == |net.rids|
  {
    Mentions(LastOf(st, o), rid)
  }

  /** Whoever is named is another router of the network, which names the first in turn. */
  ghost predicate NamedBack(net: Net, st: State, o: nat, rid: Addr)
    requires o < |st.history| == |net.rids|
  {
    exists b :: 0 <= b < |net.rids| && b != o && net.rids[b] == rid && Names(net, st, b, net.rids[o])
  }

  ghost predicate Mutual(net: Net, st: State)
    requires |st.history| == |net.rids|
  {
    forall o, rid {:trigger NamedBack(net, st, o, rid)} ::
      0 <= o < |net.rids| && rid != 0 && Names(net, st, o, rid) ==> NamedBack(net, st, o, rid)
  }

  /** A subnet of router `rid`. */
  predicate SubnetOfRouter(k: Key, rid: Addr) { k.LeafKey? && k.rid == rid }

  lemma NamedSpeaks(net: Net, st: State, b: nat, rid: Addr, e: (Key, Key))
    requires b < |st.history| == |net.rids| && Names(net, st, b, rid) && rid != 0
    requires e == (RouterKey(net.rids[b]), RouterKey(rid)) || e == (RouterKey(rid), RouterKey(net.rids[b]))
    ensures Says(net, st, b, e)
  {
    var k :| 0 <= k < |LastOf(st, b)| && LastOf(st, b)[k].rid == rid;
    assert AsksFor(net.rids[b], LastOf(st, b)[k], false, e);
  }

  /** What router `i` says of a link, another router says as well. */
  lemma SaidByBothEnds(net: Net, st: State, i: nat, e: (Key, Key))
    requires NetOk(net) && |st.history| == |net.rids| && Mutual(net, st) && i < |net.rids|
    requires Says(net, st, i, e) && !SubnetOfRouter(e.1, net.rids[i])
    ensures SaidByOther(net, st, i, e)
  {
    hide Says, Names, NetOk;
    SaysWhat(net, st, i, e);
    var rid :| LinkNamed(net, st, i, rid, e);
    assert NamedBack(net, st, i, rid);
    var b :| 0 <= b < |net.rids| && b != i && net.rids[b] == rid && Names(net, st, b, net.rids[i]);
    assert net.rids[i] != 0 by { IdsAreNotZero(net, i); }
    NamedSpeaks(net, st, b, net.rids[i], e);
  }

  lemma IdsAreNotZero(net: Net, i: nat)
    requires NetOk(net) && i < |net.rids|
    ensures net.rids[i] != 0
  {
  }

  /** `e` is a direction of the link to router `rid`, which router `i` names. */
  ghost predicate LinkNamed(net: Net, st: State, i: nat, rid: Addr, e: (Key, Key))
    requires i < |st.history| == |net.rids|
  {
    && rid != 0 && Names(net, st, i, rid)
    && (e == (RouterKey(net.rids[i]), RouterKey(rid)) || e == (RouterKey(rid), RouterKey(net.rids[i])))
  }

  lemma SaysWhat(net: Net, st: State, i: nat, e: (Key, Key))
    requires i < |st.history| == |net.rids| && Says(net, st, i, e) && !SubnetOfRouter(e.1, net.rids[i])
    ensures exists rid :: LinkNamed(net, st, i, rid, e)
  {
    var k :| 0 <= k < |LastOf(st, i)| && AsksFor(net.rids[i], LastOf(st, i)[k], false, e);
    assert LinkNamed(net, st, i, LastOf(st, i)[k].rid, e);
  }

  /** One direction of the next theorem. */
  lemma HeldElsewhere(net: Net, evs: seq<Event>, i: nat, j: nat, e: (Key, Key))
    requires AtRest(net, evs) && i < |net.rids| && j < |net.rids|
    requires |After(net, evs).history| == |net.rids| && Mutual(net, After(net, evs)) && Lasting(net, After(net, evs), e)
    requires !SubnetOfRouter(e.1, net.rids[i]) && !SubnetOfRouter(e.1, net.rids[j])
    ensures Shape(net, After(net, evs))
    ensures e in Abs(After(net, evs).graphs[i]).edges ==> e in Abs(After(net, evs).graphs[j]).edges
  {
    var st := After(net, evs);
    hide Abs, AtRest, Says, Mutual, NetOk, Lasting;
    EdgesAtRest(net, evs, i, e);
    EdgesAtRest(net, evs, j, e);
    hide After;
    if e in Abs(st.graphs[i]).edges && !SaidByOther(net, st, j, e) {
      var o :| 0 <= o < |net.rids| && o != i && Says(net, st, o, e);
      assert o == j;
      SaidByBothEnds(net, st, j, e);
    }
  }

  /**
    Agreement. When links are named from both ends, any two routers at rest agree on every edge that
    nobody has taken back, apart from the subnets of those two routers themselves.
  */
  lemma RoutersAgree(net: Net, evs: seq<Event>, i: nat, j: nat, e: (Key, Key))
    requires AtRest(net, evs) && i < |net.rids| && j < |net.rids|
    requires |After(net, evs).history| == |net.rids| && Mutual(net, After(net, evs)) && Lasting(net, After(net, evs), e)
    requires !SubnetOfRouter(e.1, net.rids[i]) && !SubnetOfRouter(e.1, net.rids[j])
    ensures Shape(net, After(net, evs))
    ensures e in Abs(After(net, evs).graphs[i]).edges <==> e in Abs(After(net, evs).graphs[j]).edges
  {
    hide Abs, AtRest, Mutual, Lasting;
    HeldElsewhere(net, evs, i, j, e);
    HeldElsewhere(net, evs, j, i, e);
  }

  // ----- distances -----------------------------------------------------------------------

  /** Edges lead out of routers only. */
  lemma EdgesLeaveRouters(net: Net, evs: seq<Event>, i: nat, e: (Key, Key))
    requires ValidRun(net, evs) && NoWrap(After(net, evs)) && i < |net.rids|
    ensures Shape(net, After(net, evs))
    ensures e in Abs(After(net, evs).graphs[i]).edges ==>
              e.0.RouterKey? && (e.1.LeafKey? ==> e.0 == RouterKey(e.1.rid))
  {
    hide Abs, ValidRun, NoWrap, RecordsOk, HoldsRecorded, HoldsOwn;
    TopologiesOverRuns(net, evs);
    var st := After(net, evs);
    hide After;
    if e in Abs(st.graphs[i]).edges { assert Justified(net, st, i, e); }
  }

  /** The edges on the way to `t`: all links between routers, and the edge to `t` itself. */
  predicate OnWayTo(e: (Key, Key), t: Key) { e.1.RouterKey? || (e.1 == t && e.0 == RouterKey(t.rid)) }

  /** The edges of `e1` that lie on the way to `t` are in `e2`, and none leads out of a subnet. */
  ghost predicate CarriesOver(e1: set<(Key, Key)>, e2: set<(Key, Key)>, t: Key) {
    && (forall e :: e in e1 ==> e.0.RouterKey? && (e.1.LeafKey? ==> e.0 == RouterKey(e.1.rid)))
    && (forall e :: e in e1 && OnWayTo(e, t) ==> e in e2)
  }

  lemma {:induction false} ReachedElsewhere(e1: set<(Key, Key)>, e2: set<(Key, Key)>, s: Key, t: Key, n: nat)
    requires CarriesOver(e1, e2, t) && Reaches(e1, s, t, n)
    ensures Reaches(e2, s, t, n)
    decreases n
  {
    if n > 0 {
      var m :| (m, t) in e1 && Reaches(e1, s, m, n - 1);
      assert (m, t).0.RouterKey? && OnWayTo((m, t), t);
      assert CarriesOver(e1, e2, m);
      ReachedElsewhere(e1, e2, s, m, n - 1);
      assert (m, t) in e2;
    }
  }

  /** No router has taken back an edge on the way to `t`. */
  ghost predicate WayLasts(net: Net, st: State, t: Key)
    requires |st.history| == |net.rids|
  {
    forall e: (Key, Key) :: e.0.RouterKey? && OnWayTo(e, t) ==> Lasting(net, st, e)
  }

  lemma WayCarriesOver(net: Net, evs: seq<Event>, i: nat, j: nat, t: Key)
    requires AtRest(net, evs) && i < |net.rids| && j < |net.rids|
    requires |After(net, evs).history| == |net.rids| && Mutual(net, After(net, evs))
    requires WayLasts(net, After(net, evs), t) && !SubnetOfRouter(t, net.rids[i]) && !SubnetOfRouter(t, net.rids[j])
    ensures Shape(net, After(net, evs))
    ensures CarriesOver(Abs(After(net, evs).graphs[i]).edges, Abs(After(net, evs).graphs[j]).edges, t)
  {
    var st := After(net, evs);
    hide Abs, Mutual, Lasting, ValidRun, NoWrap, Lossless, Connected, After;
    EdgesLeaveRouters(net, evs, i, (RouterKey(0), RouterKey(0)));
    forall e | e in Abs(st.graphs[i]).edges
      ensures e.0.RouterKey? && (e.1.LeafKey? ==> e.0 == RouterKey(e.1.rid))
      ensures OnWayTo(e, t) ==> e in Abs(st.graphs[j]).edges
    {
      EdgesLeaveRouters(net, evs, i, e);
      if OnWayTo(e, t) { HeldElsewhere(net, evs, i, j, e); }
    }
  }

  /** `d` is the capped distance between the vertices of keys `s` and `t` in graph `g`. */
  ghost predicate DistanceBetween(g: Graph, s: Key, t: Key, d: int) {
    exists u, v :: 0 <= u < |g| && 0 <= v < |g| && KeyOf(g[u]) == s && KeyOf(g[v]) == t && IsCappedDistance(g, u, v, d)
  }

  lemma NotFartherElsewhere(g: Graph, h: Graph, s: Key, t: Key, d: int, d': int)
    requires Basic(g) && Basic(h) && CarriesOver(Abs(g).edges, Abs(h).edges, t)
    requires DistanceBetween(g, s, t, d) && DistanceBetween(h, s, t, d')
    ensures d' <= d
  {
    hide Abs, Basic, Represents, Reaches, Walk, Weight, CarriesOver;
    var u, v :| 0 <= u < |g| && 0 <= v < |g| && KeyOf(g[u]) == s && KeyOf(g[v]) == t && IsCappedDistance(g, u, v, d);
    var x, y :| 0 <= x < |h| && 0 <= y < |h| && KeyOf(h[x]) == s && KeyOf(h[y]) == t && IsCappedDistance(h, x, y, d');
    if d < INFINITE {
      var p :| Walk(g, u, v, p) && Weight(p) == d;
      AbsRepresents(g);
      AbsRepresents(h);
      WalkReaches(g, Abs(g), u, v, p);
      ReachedElsewhere(Abs(g).edges, Abs(h).edges, s, t, |p|);
      var q := ReachedByWalk(h, Abs(h), x, y, |p|);
    }
  }

  /**
    At rest, all routers see the same distance between any two routers, if no link between routers
    has been taken back; and from a router to a subnet of a third party, if that subnet has not been
    taken back either.
  */
  lemma DistancesAgree(net: Net, evs: seq<Event>, i: nat, j: nat, s: Key, t: Key, d: int, d': int)
    requires AtRest(net, evs) && i < |net.rids| && j < |net.rids|
    requires Shape(net, After(net, evs)) && Mutual(net, After(net, evs)) && WayLasts(net, After(net, evs), t)
    requires !SubnetOfRouter(t, net.rids[i]) && !SubnetOfRouter(t, net.rids[j])
    requires DistanceBetween(After(net, evs).graphs[i], s, t, d)
    requires DistanceBetween(After(net, evs).graphs[j], s, t, d')
    ensures d == d'
  {
    var g, h := After(net, evs).graphs[i], After(net, evs).graphs[j];
    hide Abs, AtRest, Mutual, After, DistanceBetween, CarriesOver, Basic, WayLasts;
    WayCarriesOver(net, evs, i, j, t);
    WayCarriesOver(net, evs, j, i, t);
    NotFartherElsewhere(g, h, s, t, d, d');
    NotFartherElsewhere(h, g, s, t, d', d);
  }

  // ----- networks of this sender ---------------------------------------------------------

  /** Every router's updates are those of the periodic sender, as its hellos came in. */
  ghost predicate AllSenders(net: Net, st: State, ss: seq<Sender>) {
    |ss| == |st.history| == |net.rids|
    && forall o :: 0 <= o < |ss| ==> SenderOk(ss[o]) && SentBy(st.history[o], ss[o])
  }

  /** The sender never takes back anything but subnet 0, which it advertises until it hears somebody on eth0. */
  lemma SendersLast(net: Net, st: State, ss: seq<Sender>, e: (Key, Key))
    requires AllSenders(net, st, ss) && !ZeroSubnet(e.1)
    ensures Lasting(net, st, e)
  {
    hide SenderOk, SentBy, SomeAsksFor;
    forall o, k | 0 <= o < |net.rids| && 0 <= k < |st.history[o]| && SomeSpeaks(net.rids[o], st.history[o][k], e)
      ensures Says(net, st, o, e)
    {
      UpdatesLast(st.history[o], ss[o], net.rids[o], k, e);
    }
  }

  /** So any two routers of such a network agree on every edge but those to subnet 0 and to their own subnets. */
  lemma SenderNetworksAgree(net: Net, evs: seq<Event>, ss: seq<Sender>, i: nat, j: nat, e: (Key, Key))
    requires AtRest(net, evs) && i < |net.rids| && j < |net.rids|
    requires AllSenders(net, After(net, evs), ss) && Mutual(net, After(net, evs))
    requires !ZeroSubnet(e.1) && !SubnetOfRouter(e.1, net.rids[i]) && !SubnetOfRouter(e.1, net.rids[j])
    ensures Shape(net, After(net, evs))
    ensures e in Abs(After(net, evs).graphs[i]).edges <==> e in Abs(After(net, evs).graphs[j]).edges
  {
    hide Abs, Mutual, Lasting, SenderOk, SentBy, ValidRun, NoWrap, Lossless, Connected;
    SendersLast(net, After(net, evs), ss, e);
    RoutersAgree(net, evs, i, j, e);
  }

  /** And on every distance between routers, and from a router to a third party's subnet other than 0. */
  lemma SenderDistancesAgree(net: Net, evs: seq<Event>, ss: seq<Sender>, i: nat, j: nat,
                             s: Key, t: Key, d: int, d': int)
    requires AtRest(net, evs) && i < |net.rids| && j < |net.rids| && Shape(net, After(net, evs))
    requires AllSenders(net, After(net, evs), ss) && Mutual(net, After(net, evs))
    requires !ZeroSubnet(t) && !SubnetOfRouter(t, net.rids[i]) && !SubnetOfRouter(t, net.rids[j])
    requires DistanceBetween(After(net, evs).graphs[i], s, t, d)
    requires DistanceBetween(After(net, evs).graphs[j], s, t, d')
    ensures d == d'
  {
    hide Mutual, Lasting, SenderOk, SentBy, ValidRun, NoWrap, Lossless, Connected, DistanceBetween, RecordsOk;
    forall e: (Key, Key) | e.0.RouterKey? && OnWayTo(e, t) ensures Lasting(net, After(net, evs), e) {
      SendersLast(net, After(net, evs), ss, e);
    }
    assert WayLasts(net, After(net, evs), t);
    DistancesAgree(net, evs, i, j, s, t, d, d');
  }

  /** Update number `k + 1` of this sender went out before it had heard anybody on eth0. */
  ghost predicate BeforeEth0(s: Sender, k: nat)
    requires SenderOk(s) && k < |s.rounds|
  {
    RoundRecords(s, k)[0].routerId == 0
  }

  /**
    What becomes of subnet 0. Another router holds it for `o` exactly when it has taken in one of the
    updates that `o` sent before hearing anybody on eth0; and it never lets go of it.
  */
  lemma ZeroSubnetHeldExactly(net: Net, evs: seq<Event>, ss: seq<Sender>, i: nat, o: nat)
    requires ValidRun(net, evs) && NoWrap(After(net, evs)) && i < |net.rids| && o < |net.rids| && i != o
    requires AllSenders(net, After(net, evs), ss)
    ensures Shape(net, After(net, evs))
    ensures (RouterKey(net.rids[o]), LeafKey(net.rids[o], 0)) in Abs(After(net, evs).graphs[i]).edges
       <==> exists k :: 0 <= k < |ss[o].rounds| && Took(net, evs, i, o, k) && BeforeEth0(ss[o], k)
  {
    hide Abs, NoWrap, Shape, RecordsOk, Took, SomeSpeaks, RoundRecords, OwnEdge, ValidRun, Heard;
    var st, s, e := After(net, evs), ss[o], (RouterKey(net.rids[o]), LeafKey(net.rids[o], 0));
    EdgesExactly(net, evs, i, e);
    SubnetHeardExactly(net, evs, i, o, 0);
    OthersSubnetIsNotOwn(net, st, i, o, 0);
    hide After, IsOwn;
    forall k: nat | k < |s.rounds|
      ensures SomeSpeaks(net.rids[o], st.history[o][k], e) <==> BeforeEth0(s, k)
    {
      ZeroSubnetInRound(st.history[o], s, net.rids[o], k);
    }
    if k: nat :| TookSaying(net, evs, i, o, k, e) { assert BeforeEth0(s, k); }
    if k :| 0 <= k < |s.rounds| && Took(net, evs, i, o, k) && BeforeEth0(s, k) {
      assert TookSaying(net, evs, i, o, k, e);
    }
  }

  lemma OthersSubnetIsNotOwn(net: Net, st: State, i: nat, o: nat, subnet: Addr)
    requires Shape(net, st) && i < |net.rids| && o < |net.rids| && i != o
    ensures !IsOwn(net, i, (RouterKey(net.rids[o]), LeafKey(net.rids[o], subnet)))
  {
  }

  lemma ZeroSubnetInRound(history: seq<seq<Advert>>, s: Sender, o: Addr, k: nat)
    requires SenderOk(s) && SentBy(history, s) && k < |s.rounds|
    ensures SomeSpeaks(o, history[k], (RouterKey(o), LeafKey(o, 0))) <==> BeforeEth0(s, k)
  {
    RoundsKeep(s, k, k);
    var x := Eth0Exists(s.ifs);
    hide RoundRecords, RecordsFit, Wired, OnLink;
    ZeroSubnetExactly(RoundRecords(s, k), s.ifs, o, x);
  }
}
