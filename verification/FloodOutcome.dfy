/**
  Consequences of the flooding rule: floods die out although the time-to-live is never looked at,
  and once they have, every router's topology holds what every other router last advertised.
*/
module FloodOutcome {
  import opened Words
  import opened Topology
  import opened Convergence
  import opened Flooding

  // ----- sums ----------------------------------------------------------------------------

  function Total(a: seq<int>): int {
    if a == [] then 0 else Total(a[..|a| - 1]) + a[|a| - 1]
  }

  /** Entries that rise by at most `c` raise the sum by at most `c` per entry. */
  lemma {:induction false} TotalRises(a: seq<int>, b: seq<int>, c: nat)
    requires |a| == |b| && forall i :: 0 <= i < |a| ==> a[i] <= b[i] + c
    ensures Total(a) <= Total(b) + c * |a|
  {
    if a != [] {
      TotalRises(a[..|a| - 1], b[..|a| - 1], c);
      assert c * |a| == c * (|a| - 1) + c;
    }
  }

  /** No entry rises and entry `k` drops by one: so does the sum. */
  lemma {:induction false} TotalDrops(a: seq<int>, b: seq<int>, k: nat)
    requires |a| == |b| && (forall i :: 0 <= i < |a| ==> a[i] <= b[i]) && k < |a| && a[k] <= b[k] - 1
    ensures Total(a) <= Total(b) - 1
  {
    if k == |a| - 1 {
      TotalRises(a[..k], b[..k], 0);
    } else {
      TotalDrops(a[..|a| - 1], b[..|a| - 1], k);
    }
  }

  lemma {:induction false} TotalNotNegative(a: seq<int>)
    requires forall i :: 0 <= i < |a| ==> a[i] >= 0
    ensures Total(a) >= 0
  {
    if a != [] { TotalNotNegative(a[..|a| - 1]); }
  }

  // ----- how much sequence-number headroom is left ---------------------------------------

  /** How many updates of each origin router `r` has yet to pass. */
  ghost function Row(net: Net, st: State, r: nat): (a: seq<int>)
    requires Shape(net, st) && r < |net.rids|
    ensures |a| == |net.rids|
  {
    seq(|net.rids|, o requires 0 <= o < |net.rids| => |st.history[o]| - Newest(net, st, r, o))
  }

  ghost function Rows(net: Net, st: State): (a: seq<int>)
    requires Shape(net, st)
    ensures |a| == |net.rids|
  {
    seq(|net.rids|, r requires 0 <= r < |net.rids| => Total(Row(net, st, r)))
  }

  /** `copies` bounds what one accepted update can put in flight. */
  ghost predicate CopiesBound(net: Net, copies: nat)
    requires |net.ifs| == |net.links|
  {
    forall i, o :: 0 <= i < |net.links| && 0 <= o < |net.ifs| ==> |net.ifs[o]| * |net.links[i]| <= copies
  }

  /** Lexicographic in spirit: any drop in headroom outweighs the messages it sends. */
  ghost function Potential(net: Net, st: State, copies: nat): int
    requires Shape(net, st)
  {
    copies * Total(Rows(net, st)) + |st.inflight|
  }

  lemma PotentialNotNegative(net: Net, st: State, copies: nat)
    requires Sane(net, st)
    ensures Potential(net, st, copies) >= 0
  {
    hide Basic, Seen;
    forall r | 0 <= r < |net.rids| ensures Rows(net, st)[r] >= 0 {
      assert forall o :: 0 <= o < |net.rids| ==> Newest(net, st, r, o) <= |st.history[o]|;
      TotalNotNegative(Row(net, st, r));
    }
    TotalNotNegative(Rows(net, st));
  }

  lemma OriginateRaises(net: Net, st: State, o: nat, adverts: seq<Advert>, copies: nat)
    requires Sane(net, st) && Enabled(net, st, Originate(o, adverts)) && |st.history[o]| + 1 < 0x10000
    requires CopiesBound(net, copies) && Shape(net, Step(net, st, Originate(o, adverts)))
    ensures Potential(net, Step(net, st, Originate(o, adverts)), copies)
         <= Potential(net, st, copies) + copies * (|net.rids| + 1)
  {
    hide Basic, Seen, Sends;
    var st' := Step(net, st, Originate(o, adverts));
    var n := |net.rids|;
    forall r | 0 <= r < n ensures Rows(net, st')[r] <= Rows(net, st)[r] + 1 {
      OriginateRaisesRow(net, st, o, adverts, r);
    }
    var x, x' := Total(Rows(net, st)), Total(Rows(net, st'));
    TotalRises(Rows(net, st'), Rows(net, st), 1);
    SendsCount(Msg(o, 0, 0, o, (|st.history[o]| + 1) % 0x10000, adverts), net.links[o], -1, 1);
    assert |st'.inflight| <= |st.inflight| + |net.links[o]|;
    LinksAreInterfaces(|net.ifs[o]|, |net.links[o]|);
    assert |net.ifs[o]| * |net.links[o]| <= copies;
    Raised(copies, x, x', n, |st.inflight|, |st'.inflight|, |net.links[o]|);
  }

  lemma Raised(c: nat, x: int, x': int, n: nat, f: nat, f': nat, links: nat)
    requires x' <= x + n && f' <= f + links && links <= c
    ensures c * x' + f' <= c * x + f + c * (n + 1)
  {
    Scale(c, x', x + n);
    assert c * (x + n) == c * x + c * n;
    assert c * (n + 1) == c * n + c;
  }

  lemma LinksAreInterfaces(ifs: nat, links: nat)
    requires links <= ifs
    ensures links <= ifs * links
  {
  }

  lemma Scale(c: nat, x: int, y: int)
    requires x <= y
    ensures c * x <= c * y
  {
  }

  /** One more update to pass, for every router but its origin. */
  lemma OriginateRaisesRow(net: Net, st: State, o: nat, adverts: seq<Advert>, r: nat)
    requires Sane(net, st) && Enabled(net, st, Originate(o, adverts)) && r < |net.rids|
    requires Shape(net, Step(net, st, Originate(o, adverts)))
    ensures Total(Row(net, Step(net, st, Originate(o, adverts)), r)) <= Total(Row(net, st, r)) + 1
  {
    hide Basic, Seen, Sends;
    var a, b := Row(net, Step(net, st, Originate(o, adverts)), r), Row(net, st, r);
    assert forall p :: 0 <= p < |net.rids| ==> a[p] == b[p] + if p == o && r != o then 1 else 0;
    OneRises(a, b, o);
  }

  lemma {:induction false} OneRises(a: seq<int>, b: seq<int>, k: nat)
    requires |a| == |b| && k < |a| && a[k] <= b[k] + 1
    requires forall i :: 0 <= i < |a| && i != k ==> a[i] <= b[i]
    ensures Total(a) <= Total(b) + 1
  {
    if k == |a| - 1 {
      TotalRises(a[..k], b[..k], 0);
    } else {
      OneRises(a[..|a| - 1], b[..|a| - 1], k);
    }
  }

  lemma DeliverLowers(net: Net, st: State, m: Msg, copies: nat)
    requires Sane(net, st) && m in st.inflight && CopiesBound(net, copies)
    requires Shape(net, Step(net, st, Deliver(m)))
    ensures Potential(net, Step(net, st, Deliver(m)), copies) <= Potential(net, st, copies) - 1
  {
    hide Basic, Seen, Sends, Accepts, Receive;
    var st' := Step(net, st, Deliver(m));
    AcceptedExactly(net, st, m);
    DeliverRaisesOneRecord(net, st, m);
    assert MsgOk(net, st, m);
    forall r | 0 <= r < |net.rids| ensures Rows(net, st')[r] <= Rows(net, st)[r] {
      DeliverLowersRow(net, st, m, r);
    }
    if Accepted(net, st, m) {
      DeliverLowersRow(net, st, m, m.to);
      TotalDrops(Rows(net, st'), Rows(net, st), m.to);
      SendsCount(m.(from := m.to), net.links[m.to], m.via, |m.adverts|);
      CopiesFit(|m.adverts|, Targets(|net.links[m.to]|, m.via), |net.links[m.to]|);
      assert |m.adverts| * |net.links[m.to]| <= copies;
      assert copies * (Total(Rows(net, st)) - 1) == copies * Total(Rows(net, st)) - copies;
      Scale(copies, Total(Rows(net, st')), Total(Rows(net, st)) - 1);
    } else {
      TotalRises(Rows(net, st'), Rows(net, st), 0);
      Scale(copies, Total(Rows(net, st')), Total(Rows(net, st)));
    }
  }

  lemma CopiesFit(k: nat, targets: nat, links: nat)
    requires targets <= links
    ensures k * targets <= k * links
  {
  }

  lemma DeliverLowersRow(net: Net, st: State, m: Msg, r: nat)
    requires Sane(net, st) && m in st.inflight && r < |net.rids|
    requires Shape(net, Step(net, st, Deliver(m)))
    ensures Total(Row(net, Step(net, st, Deliver(m)), r))
         <= Total(Row(net, st, r)) - if Accepted(net, st, m) && r == m.to then 1 else 0
  {
    hide Basic, Seen, Sends, Accepts, Receive, Step;
    AcceptedExactly(net, st, m);
    DeliverRaisesOneRecord(net, st, m);
    var a, b := Row(net, Step(net, st, Deliver(m)), r), Row(net, st, r);
    assert MsgOk(net, st, m);
    assert forall p :: 0 <= p < |net.rids| ==> a[p] <= b[p];
    if Accepted(net, st, m) && r == m.to {
      TotalDrops(a, b, m.origin);
    } else {
      TotalRises(a, b, 0);
    }
  }

  // ----- floods die out ------------------------------------------------------------------

  /** Messages taken off a link, by delivery or by loss. */
  function Taken(evs: seq<Event>): nat {
    if evs == [] then 0 else Taken(evs[..|evs| - 1]) + if evs[|evs| - 1].Originate? then 0 else 1
  }

  function Originated(evs: seq<Event>): nat {
    if evs == [] then 0 else Originated(evs[..|evs| - 1]) + if evs[|evs| - 1].Originate? then 1 else 0
  }

  lemma {:induction false} PotentialPays(net: Net, evs: seq<Event>, copies: nat)
    requires ValidRun(net, evs) && NoWrap(After(net, evs)) && CopiesBound(net, copies)
    ensures Sane(net, After(net, evs))
    ensures Taken(evs) + Potential(net, After(net, evs), copies) <= copies * (|net.rids| + 1) * Originated(evs)
  {
    hide Seen, Sends, Basic, Accepts, Receive, Step, Shape, RecordsOk, Coverage, NoWrap, Potential;
    RunsAreSane(net, evs);
    var unit := copies * (|net.rids| + 1);
    if evs == [] {
      PotentialStartsAtZero(net, copies);
    } else {
      var init, ev := evs[..|evs| - 1], evs[|evs| - 1];
      var st := After(net, init);
      StepGrowsHistory(net, st, ev);
      PotentialPays(net, init, copies);
      match ev {
        case Originate(o, adverts) =>
          OriginateRaises(net, st, o, adverts, copies);
          assert unit * (Originated(init) + 1) == unit * Originated(init) + unit;
        case Deliver(m) => DeliverLowers(net, st, m, copies);
        case Lose(m) => LoseLowers(net, st, m, copies);
      }
    }
  }

  lemma LoseLowers(net: Net, st: State, m: Msg, copies: nat)
    requires Sane(net, st) && m in st.inflight && Shape(net, Step(net, st, Lose(m)))
    ensures Potential(net, Step(net, st, Lose(m)), copies) == Potential(net, st, copies) - 1
  {
    hide Basic, Seen;
    var st' := Step(net, st, Lose(m));
    forall r | 0 <= r < |net.rids| ensures Rows(net, st')[r] == Rows(net, st)[r] {
      assert Row(net, st', r) == Row(net, st, r);
    }
    assert Rows(net, st') == Rows(net, st);
  }

  lemma PotentialStartsAtZero(net: Net, copies: nat)
    requires NetOk(net)
    ensures Shape(net, Init(net)) && Potential(net, Init(net), copies) == 0
  {
    InitOk(net);
    var st := Init(net);
    forall r | 0 <= r < |net.rids| ensures Rows(net, st)[r] == 0 {
      forall o | 0 <= o < |net.rids| ensures Row(net, st, r)[o] == 0 {
        assert 0 <= Newest(net, st, r, o) <= |st.history[o]|;
      }
      TotalOfZeros(Row(net, st, r));
    }
    TotalOfZeros(Rows(net, st));
  }

  lemma {:induction false} TotalOfZeros(a: seq<int>)
    requires forall i :: 0 <= i < |a| ==> a[i] == 0
    ensures Total(a) == 0
  {
    if a != [] { TotalOfZeros(a[..|a| - 1]); }
  }

  /**
    Flood termination. Whatever the order of delivery and whether or not messages are lost, a run
    with `p` originations in a network of `n` routers takes at most `copies * (n + 1) * p` messages
    off links, although no time-to-live is ever looked at.
  */
  lemma FloodsDieOut(net: Net, evs: seq<Event>, copies: nat)
    requires ValidRun(net, evs) && NoWrap(After(net, evs)) && CopiesBound(net, copies)
    ensures Taken(evs) <= copies * (|net.rids| + 1) * Originated(evs)
  {
    PotentialPays(net, evs, copies);
    PotentialNotNegative(net, After(net, evs), copies);
  }

  /** One more delivery. */
  lemma DeliverNext(net: Net, evs: seq<Event>, m: Msg, copies: nat)
    requires ValidRun(net, evs) && NoWrap(After(net, evs)) && CopiesBound(net, copies)
    requires m in After(net, evs).inflight
    ensures Sane(net, After(net, evs)) && ValidRun(net, evs + [Deliver(m)])
    ensures var st' := After(net, evs + [Deliver(m)]);
      && NoWrap(st') && Shape(net, st') && st'.history == After(net, evs).history
      && Potential(net, st', copies) <= Potential(net, After(net, evs), copies) - 1
  {
    hide Seen, Sends, Basic, Accepts, Receive, Potential, RecordsOk, CopiesBound;
    RunsAreSane(net, evs);
    assert (evs + [Deliver(m)])[..|evs|] == evs;
    DeliverRaisesOneRecord(net, After(net, evs), m);
    DeliverLowers(net, After(net, evs), m, copies);
  }

  lemma {:induction false} SettleWithin(net: Net, evs: seq<Event>, copies: nat, budget: nat) returns (more: seq<Event>)
    requires ValidRun(net, evs) && NoWrap(After(net, evs)) && CopiesBound(net, copies)
    requires Shape(net, After(net, evs)) && Potential(net, After(net, evs), copies) <= budget
    ensures ValidRun(net, evs + more) && After(net, evs + more).inflight == multiset{}
    ensures After(net, evs + more).history == After(net, evs).history
    ensures |more| <= budget && forall i :: 0 <= i < |more| ==> more[i].Deliver?
    decreases budget
  {
    hide Potential, ValidRun, After, NoWrap, CopiesBound, Shape, Sane;
    if After(net, evs).inflight == multiset{} {
      more := [];
      assert evs + more == evs;
    } else {
      var m :| m in After(net, evs).inflight;
      DeliverNext(net, evs, m, copies);
      PotentialNotNegative(net, After(net, evs), copies);
      RunsAreSane(net, evs + [Deliver(m)]);
      PotentialNotNegative(net, After(net, evs + [Deliver(m)]), copies);
      var rest := SettleWithin(net, evs + [Deliver(m)], copies, budget - 1);
      more := [Deliver(m)] + rest;
      assert evs + more == evs + [Deliver(m)] + rest;
    }
  }

  /**
    Every run can be brought to rest, by deliveries alone and within the same bound: the quiescent
    states that the convergence results speak of are reached from everywhere.
  */
  lemma RunsSettle(net: Net, evs: seq<Event>, copies: nat) returns (more: seq<Event>)
    requires ValidRun(net, evs) && NoWrap(After(net, evs)) && CopiesBound(net, copies)
    ensures ValidRun(net, evs + more) && After(net, evs + more).inflight == multiset{}
    ensures After(net, evs + more).history == After(net, evs).history
    ensures Taken(evs) + |more| <= copies * (|net.rids| + 1) * Originated(evs)
    ensures Lossless(evs) ==> Lossless(evs + more)
  {
    hide Potential, ValidRun, After, NoWrap, CopiesBound, Shape, RecordsOk, NetOk;
    PotentialPays(net, evs, copies);
    PotentialNotNegative(net, After(net, evs), copies);
    more := SettleWithin(net, evs, copies, Potential(net, After(net, evs), copies));
  }

  // ----- what the topologies hold --------------------------------------------------------

  /** The topology holds what router `o` said in advertisement `a`. */
  ghost predicate Known(t: Topo, o: Addr, a: Advert) {
    && LeafKey(o, a.subnet) in t.verts && (RouterKey(o), LeafKey(o, a.subnet)) in t.edges
    && (a.rid != 0 ==> (RouterKey(o), RouterKey(a.rid)) in t.edges && (RouterKey(a.rid), RouterKey(o)) in t.edges)
  }

  ghost predicate AllKnown(t: Topo, o: Addr, advs: seq<Advert>) {
    forall k :: 0 <= k < |advs| ==> Known(t, o, advs[k])
  }

  /** `e` is one of the edges that the advertisements of router `o` ask for; router 0 is none. */
  ghost predicate SomeSpeaks(o: Addr, advs: seq<Advert>, e: (Key, Key)) {
    SomeAsksFor(o, advs, false, e)
  }

  ghost predicate Grows(t: Topo, t': Topo) {
    t.verts.Keys <= t'.verts.Keys && t.edges <= t'.edges
  }

  /** Applying advertisements loses nothing, takes in all of them, and adds nothing else. */
  lemma AdvertsTakenIn(t: Topo, o: Addr, advs: seq<Advert>)
    requires RouterKey(0) !in t.verts
    ensures RouterKey(0) !in TAdverts(t, o, advs).verts
    ensures Grows(t, TAdverts(t, o, advs)) && AllKnown(TAdverts(t, o, advs), o, advs)
    ensures forall e :: e in TAdverts(t, o, advs).edges <==> e in t.edges || SomeSpeaks(o, advs, e)
  {
    AdvertsVerts(t, o, advs);
    AdvertsForm(t, o, advs);
    hide TAdverts, Mentions;
    var r := TAdverts(t, o, advs);
    forall k | 0 <= k < |advs| ensures Known(r, o, advs[k]) {
      var a := advs[k];
      assert AsksFor(o, a, false, (RouterKey(o), LeafKey(o, a.subnet)));
      if a.rid != 0 {
        assert AsksFor(o, a, false, (RouterKey(o), RouterKey(a.rid)));
        assert AsksFor(o, a, false, (RouterKey(a.rid), RouterKey(o)));
      }
    }
  }

  lemma UpdateTakenIn(g: Graph, self: Addr, l: Lsu)
    requires Basic(g) && l.origin != 0 && RouterKey(0) !in Abs(g).verts
    ensures RouterKey(0) !in Abs(Receive(g, self, l)).verts
    ensures Grows(Abs(g), Abs(Receive(g, self, l)))
    ensures Accepts(g, self, l) ==> AllKnown(Abs(Receive(g, self, l)), l.origin, l.adverts)
    ensures forall e :: e in Abs(Receive(g, self, l)).edges
                   <==> e in Abs(g).edges || (Accepts(g, self, l) && SomeSpeaks(l.origin, l.adverts, e))
  {
    var t := Abs(g);
    AbsRepresents(g);
    ReceiveRefines(g, t, self, l);
    AbsRepresents(Receive(g, self, l));
    RepresentsUnique(Receive(g, self, l), Abs(Receive(g, self, l)), TReceive(t, self, l));
    AdvertsTakenIn(TRecord(t, l.origin, l.seqNbr), l.origin, l.adverts);
  }

  // ----- over runs -----------------------------------------------------------------------

  /** Router `i` holds the update of `o` that it has on record. */
  ghost predicate HoldsRecorded(net: Net, st: State, i: nat, o: nat)
    requires Shape(net, st) && i < |net.rids| && o < |net.rids|
  {
    i != o && 1 <= Newest(net, st, i, o) <= |st.history[o]|
    ==> AllKnown(Abs(st.graphs[i]), net.rids[o], st.history[o][Newest(net, st, i, o) - 1])
  }

  /** The edge from router `i` to its interface number `k`. */
  ghost function OwnEdge(net: Net, i: nat, k: nat): (Key, Key)
    requires i < |net.rids| == |net.ifs| && k < |net.ifs[i]|
  {
    (RouterKey(net.rids[i]), LeafKey(net.rids[i], net.ifs[i][k].net))
  }

  ghost predicate IsOwn(net: Net, i: nat, e: (Key, Key))
    requires i < |net.rids| == |net.ifs|
  {
    exists k :: 0 <= k < |net.ifs[i]| && e == OwnEdge(net, i, k)
  }

  /** An edge that router `i` holds is its own interface or was advertised by another router that is an end of it. */
  ghost predicate Justified(net: Net, st: State, i: nat, e: (Key, Key))
    requires Shape(net, st) && i < |net.rids|
  {
    || IsOwn(net, i, e)
    || (exists o, k :: 0 <= o < |net.rids| && o != i && 0 <= k < |st.history[o]|
                    && SomeSpeaks(net.rids[o], st.history[o][k], e))
  }

  /** Router `i` holds its own interfaces, and no router 0. */
  ghost predicate HoldsOwn(net: Net, st: State, i: nat)
    requires Shape(net, st) && i < |net.rids|
  {
    && RouterKey(0) !in Abs(st.graphs[i]).verts
    && forall k :: 0 <= k < |net.ifs[i]| ==> OwnEdge(net, i, k) in Abs(st.graphs[i]).edges
  }

  ghost predicate TopologiesOk(net: Net, st: State)
    requires Shape(net, st)
  {
    && (forall i, o {:trigger HoldsRecorded(net, st, i, o)} ::
          0 <= i < |net.rids| && 0 <= o < |net.rids| ==> HoldsRecorded(net, st, i, o))
    && (forall i, e {:trigger Justified(net, st, i, e)} ::
          0 <= i < |net.rids| && e in Abs(st.graphs[i]).edges ==> Justified(net, st, i, e))
    && (forall i {:trigger HoldsOwn(net, st, i)} :: 0 <= i < |net.rids| ==> HoldsOwn(net, st, i))
  }

  lemma InitAbs(self: Addr, ifs: seq<Subnet>)
    requires DistinctSubnets(ifs) && ifs != []
    ensures var s := ifs[|ifs| - 1];
      Abs(InitGraph(self, ifs)) == TLeaf(Abs(InitGraph(self, ifs[..|ifs| - 1])), self, Advert(s.net, s.mask, 0))
  {
    hide Abs, Represents, Basic, TLeaf, AddInterface, FindId;
    var init, s := ifs[..|ifs| - 1], ifs[|ifs| - 1];
    var g, g1 := InitGraph(self, ifs), InitGraph(self, init);
    InitEstablishes(self, ifs);
    InitEstablishes(self, init);
    InitShape(self, init);
    AbsRepresents(g);
    AbsRepresents(g1);
    forall i | 0 <= i < |g1| ensures KeyOf(g1[i]) != LeafKey(self, s.net) {
      if i > 0 { assert KeyOf(g1[(i - 1) + 1]) == LeafKey(self, ifs[i - 1].net); }
    }
    AddInterfaceRefines(g1, Abs(g1), self, s);
    RepresentsUnique(g, Abs(g), TLeaf(Abs(g1), self, Advert(s.net, s.mask, 0)));
  }

  lemma InitAbsEmpty(self: Addr)
    ensures Abs(InitGraph(self, [])).edges == {}
    ensures self != 0 ==> RouterKey(0) !in Abs(InitGraph(self, [])).verts
  {
    var g := InitGraph(self, []);
    assert g == [NewVertex(0, RouterKey(self), 0)];
    assert !Linked(g, 0, 0);
  }

  lemma {:induction false} InitHoldsOwn(self: Addr, ifs: seq<Subnet>, k: nat)
    requires DistinctSubnets(ifs) && self != 0
    ensures RouterKey(0) !in Abs(InitGraph(self, ifs)).verts
    ensures k < |ifs| ==> (RouterKey(self), LeafKey(self, ifs[k].net)) in Abs(InitGraph(self, ifs)).edges
  {
    hide Abs, InitGraph;
    if ifs == [] {
      InitAbsEmpty(self);
    } else {
      InitAbs(self, ifs);
      InitHoldsOwn(self, ifs[..|ifs| - 1], k);
    }
  }

  lemma {:induction false} InitEdges(self: Addr, ifs: seq<Subnet>, e: (Key, Key))
    requires DistinctSubnets(ifs) && e in Abs(InitGraph(self, ifs)).edges
    ensures exists k :: 0 <= k < |ifs| && e == (RouterKey(self), LeafKey(self, ifs[k].net))
  {
    hide Abs, InitGraph;
    if ifs == [] {
      InitAbsEmpty(self);
    } else {
      var init := ifs[..|ifs| - 1];
      InitAbs(self, ifs);
      if e in Abs(InitGraph(self, init)).edges {
        InitEdges(self, init, e);
        var k :| 0 <= k < |init| && e == (RouterKey(self), LeafKey(self, init[k].net));
        assert ifs[k] == init[k];
      } else {
        assert e == (RouterKey(self), LeafKey(self, ifs[|ifs| - 1].net));
      }
    }
  }

  lemma InitTopologiesOk(net: Net)
    requires NetOk(net)
    ensures Shape(net, Init(net)) && TopologiesOk(net, Init(net))
  {
    hide Abs, InitGraph, AllKnown, Seen, Basic;
    InitOk(net);
    var st := Init(net);
    forall i, o | 0 <= i < |net.rids| && 0 <= o < |net.rids| ensures HoldsRecorded(net, st, i, o) {
      assert Newest(net, st, i, o) <= |st.history[o]| == 0;
    }
    forall i, e | 0 <= i < |net.rids| && e in Abs(st.graphs[i]).edges ensures Justified(net, st, i, e) {
      InitEdges(net.rids[i], net.ifs[i], e);
      var k :| 0 <= k < |net.ifs[i]| && e == (RouterKey(net.rids[i]), LeafKey(net.rids[i], net.ifs[i][k].net));
      assert e == OwnEdge(net, i, k);
    }
    forall i | 0 <= i < |net.rids| ensures HoldsOwn(net, st, i) {
      InitHoldsOwn(net.rids[i], net.ifs[i], 0);
      forall k | 0 <= k < |net.ifs[i]| ensures OwnEdge(net, i, k) in Abs(st.graphs[i]).edges {
        InitHoldsOwn(net.rids[i], net.ifs[i], k);
      }
    }
  }

  lemma JustifiedStays(net: Net, st: State, st': State, i: nat, e: (Key, Key))
    requires Shape(net, st) && Shape(net, st') && i < |net.rids| && Justified(net, st, i, e)
    requires forall o :: 0 <= o < |net.rids| ==> st.history[o] <= st'.history[o]
    ensures Justified(net, st', i, e)
  {
    hide SomeSpeaks;
    hide IsOwn;
    if o, k :| (0 <= o < |net.rids| && o != i && 0 <= k < |st.history[o]|
                && SomeSpeaks(net.rids[o], st.history[o][k], e)) {
      assert st'.history[o][k] == st.history[o][k];
    }
  }

  lemma OriginateTopologies(net: Net, st: State, o: nat, adverts: seq<Advert>)
    requires Sane(net, st) && TopologiesOk(net, st)
    requires Enabled(net, st, Originate(o, adverts)) && |st.history[o]| + 1 < 0x10000
    ensures Shape(net, Step(net, st, Originate(o, adverts)))
    ensures TopologiesOk(net, Step(net, st, Originate(o, adverts)))
  {
    hide Abs, AllKnown, Seen, Basic, Justified, Sends, OwnEdge;
    OriginateSane(net, st, o, adverts);
    var st' := Step(net, st, Originate(o, adverts));
    forall i | 0 <= i < |net.rids| ensures HoldsOwn(net, st', i) { assert HoldsOwn(net, st, i); }
    forall i, p | 0 <= i < |net.rids| && 0 <= p < |net.rids| ensures HoldsRecorded(net, st', i, p) {
      assert HoldsRecorded(net, st, i, p);
      assert 0 <= Newest(net, st, i, p) <= |st.history[p]|;
    }
    forall i, e | 0 <= i < |net.rids| && e in Abs(st'.graphs[i]).edges ensures Justified(net, st', i, e) {
      JustifiedStays(net, st, st', i, e);
    }
  }

  lemma DeliverTopologies(net: Net, st: State, m: Msg)
    requires Sane(net, st) && TopologiesOk(net, st) && m in st.inflight
    ensures Shape(net, Step(net, st, Deliver(m)))
    ensures TopologiesOk(net, Step(net, st, Deliver(m)))
  {
    hide Abs, AllKnown, Seen, Basic, Justified, Sends, Accepts, Receive, SomeSpeaks, OwnEdge;
    DeliverSane(net, st, m);
    DeliverRaisesOneRecord(net, st, m);
    AcceptedExactly(net, st, m);
    assert MsgOk(net, st, m);
    var st', l := Step(net, st, Deliver(m)), LsuOf(net, m);
    assert HoldsOwn(net, st, m.to);
    UpdateTakenIn(st.graphs[m.to], net.rids[m.to], l);
    forall i | 0 <= i < |net.rids| ensures HoldsOwn(net, st', i) { assert HoldsOwn(net, st, i); }
    forall i, p | 0 <= i < |net.rids| && 0 <= p < |net.rids| ensures HoldsRecorded(net, st', i, p) {
      assert HoldsRecorded(net, st, i, p);
      KnownStays(Abs(st.graphs[i]), Abs(st'.graphs[i]));
    }
    forall i, e | 0 <= i < |net.rids| && e in Abs(st'.graphs[i]).edges ensures Justified(net, st', i, e) {
      if e in Abs(st.graphs[i]).edges {
        JustifiedStays(net, st, st', i, e);
      } else {
        assert SomeSpeaks(net.rids[m.origin], st'.history[m.origin][m.seqNbr - 1], e);
        JustifiedBy(net, st', i, m.origin, m.seqNbr - 1, e);
      }
    }
  }

  lemma JustifiedBy(net: Net, st: State, i: nat, o: nat, k: nat, e: (Key, Key))
    requires Shape(net, st) && i < |net.rids| && o < |net.rids| && o != i && k < |st.history[o]|
    requires SomeSpeaks(net.rids[o], st.history[o][k], e)
    ensures Justified(net, st, i, e)
  {
  }

  lemma KnownStays(t: Topo, t': Topo)
    ensures Grows(t, t') ==> forall o, advs :: AllKnown(t, o, advs) ==> AllKnown(t', o, advs)
  {
  }

  lemma {:induction false} TopologiesOverRuns(net: Net, evs: seq<Event>)
    requires ValidRun(net, evs) && NoWrap(After(net, evs))
    ensures Sane(net, After(net, evs)) && TopologiesOk(net, After(net, evs))
  {
    hide Seen, Sends, Basic, Accepts, Receive, Step, Shape, RecordsOk, NoWrap, TopologiesOk;
    RunsAreSane(net, evs);
    InitTopologiesOk(net);
    if evs != [] {
      var init, ev := evs[..|evs| - 1], evs[|evs| - 1];
      var st := After(net, init);
      StepGrowsHistory(net, st, ev);
      TopologiesOverRuns(net, init);
      match ev {
        case Originate(o, adverts) => OriginateTopologies(net, st, o, adverts);
        case Deliver(m) => DeliverTopologies(net, st, m);
        case Lose(m) => LoseTopologies(net, st, m);
      }
    }
  }

  lemma LoseTopologies(net: Net, st: State, m: Msg)
    requires Sane(net, st) && TopologiesOk(net, st) && m in st.inflight
    ensures Shape(net, Step(net, st, Lose(m))) && TopologiesOk(net, Step(net, st, Lose(m)))
  {
    hide Abs, AllKnown, Seen, Basic, Justified, OwnEdge;
    LoseSane(net, st, m);
    var st' := Step(net, st, Lose(m));
    forall i | 0 <= i < |net.rids| ensures HoldsOwn(net, st', i) { assert HoldsOwn(net, st, i); }
    forall i, p | 0 <= i < |net.rids| && 0 <= p < |net.rids| ensures HoldsRecorded(net, st', i, p) {
      assert HoldsRecorded(net, st, i, p);
      assert Newest(net, st', i, p) == Newest(net, st, i, p);
    }
    forall i, e | 0 <= i < |net.rids| && e in Abs(st'.graphs[i]).edges ensures Justified(net, st', i, e) {
      JustifiedStays(net, st, st', i, e);
    }
  }

  /**
    Convergence. After any lossless run with nothing in flight, the topology of every router that a
    path joins to `o` holds all that `o` last advertised; and nothing any router holds was made up.
  */
  lemma QuiescentTopologies(net: Net, evs: seq<Event>, p: seq<nat>)
    requires ValidRun(net, evs) && Lossless(evs) && NoWrap(After(net, evs))
    requires After(net, evs).inflight == multiset{}
    requires Path(net, p) && p[|p| - 1] != p[0]
    ensures var st := After(net, evs); var o, r := p[0], p[|p| - 1];
      && Shape(net, st)
      && (st.history[o] != [] ==> AllKnown(Abs(st.graphs[r]), net.rids[o], st.history[o][|st.history[o]| - 1]))
      && (forall e :: e in Abs(st.graphs[r]).edges ==> Justified(net, st, r, e))
  {
    var st, o, r := After(net, evs), p[0], p[|p| - 1];
    hide Abs, AllKnown, Seen, Basic, Justified, NoWrap, ValidRun, Lossless, RecordsOk, After;
    assert r < |net.rids| && o < |net.rids|;
    hide Path;
    QuiescentMeansCovered(net, evs, p);
    TopologiesOverRuns(net, evs);
    assert HoldsRecorded(net, st, r, o);
  }
}
