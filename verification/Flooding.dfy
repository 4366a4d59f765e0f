/**
  A network of routers flooding link-state updates over point-to-point links.

  Every router runs the update handler of Topology. A message in flight is one frame on one
  link; the handler forwards inside its per-advertisement loop, so an accepted update with k
  advertisements leaves k copies on every other link. The time-to-live is never looked at and
  plays no part. Handlers are atomic steps; delivery order is arbitrary.
*/
module Flooding {
  import opened Words
  import opened Topology
  import opened Convergence

  /** The far end of a link: a router, and which of that router's own links it is. */
  datatype End = End(to: nat, via: nat)

  /** Router ids, the links of each router, and the interfaces (links and host networks) of each. */
  datatype Net = Net(rids: seq<Addr>, links: seq<seq<End>>, ifs: seq<seq<Subnet>>)

  /** A frame that arrives at router `to` on its link number `via`. */
  datatype Msg = Msg(from: nat, to: nat, via: nat, origin: nat, seqNbr: int, adverts: seq<Advert>)

  /** `history[o][s - 1]` is what router `o` advertised in its update number `s`. */
  datatype State = State(graphs: seq<Graph>, history: seq<seq<seq<Advert>>>, inflight: multiset<Msg>)

  datatype Event =
    | Originate(o: nat, adverts: seq<Advert>)   // the periodic sender, one round
    | Deliver(m: Msg)                           // the update handler of m.to
    | Lose(m: Msg)

  ghost predicate NetOk(net: Net) {
    var n := |net.rids|;
    && |net.links| == n && |net.ifs| == n
    && (forall i :: 0 <= i < n ==> net.rids[i] != 0)
    && (forall i, j :: 0 <= i < j < n ==> net.rids[i] != net.rids[j])
    && (forall i, a {:trigger IsLink(net, i, a)} :: 0 <= i < n && 0 <= a < |net.links[i]| ==> IsLink(net, i, a))
    && (forall i :: 0 <= i < n ==> |net.links[i]| <= |net.ifs[i]| && DistinctSubnets(net.ifs[i]))
  }

  /** Link `a` of router `i` leads back from its far end. Two routers may share any number of links. */
  ghost predicate IsLink(net: Net, i: nat, a: nat)
    requires i < |net.links| && a < |net.links[i]|
  {
    var e := net.links[i][a];
    e.to < |net.links| && e.via < |net.links[e.to]| && net.links[e.to][e.via] == End(i, a)
  }

  ghost predicate Adjacent(net: Net, i: nat, j: nat)
    requires i < |net.links|
  {
    exists a :: 0 <= a < |net.links[i]| && net.links[i][a].to == j
  }

  // ----- steps ---------------------------------------------------------------------------

  function LsuOf(net: Net, m: Msg): Lsu
    requires m.origin < |net.rids|
  {
    Lsu(net.rids[m.origin], m.seqNbr, m.adverts)
  }

  /** `copies` of message `m` on every link but number `skip`. */
  function Sends(m: Msg, ends: seq<End>, skip: int, copies: nat): multiset<Msg> {
    if ends == [] then multiset{}
    else
      var a := |ends| - 1;
      Sends(m, ends[..a], skip, copies)
      + if a == skip then multiset{} else multiset{}[Across(m, ends[a]) := copies]
  }

  function Across(m: Msg, e: End): Msg { m.(to := e.to, via := e.via) }

  function Init(net: Net): State
    requires |net.ifs| == |net.rids|
  {
    State(seq(|net.rids|, i requires 0 <= i < |net.rids| => InitGraph(net.rids[i], net.ifs[i])),
          seq(|net.rids|, _ => []), multiset{})
  }

  ghost predicate Shape(net: Net, st: State) {
    && NetOk(net) && |st.graphs| == |st.history| == |net.rids|
    && (forall i :: 0 <= i < |st.graphs| ==> Basic(st.graphs[i]))
    && (forall m :: m in st.inflight ==>
          m.origin < |net.rids| && m.to < |net.rids| && ArrivesOn(net, m))
  }

  ghost predicate ArrivesOn(net: Net, m: Msg)
    requires m.to < |net.links|
  {
    m.via < |net.links[m.to]| && net.links[m.to][m.via].to == m.from && m.from < |net.links|
  }

  /** The sender advertises one entry per interface. */
  ghost predicate Enabled(net: Net, st: State, ev: Event)
    requires Shape(net, st)
  {
    match ev
    case Originate(o, adverts) => o < |net.rids| && |adverts| == |net.ifs[o]|
    case Deliver(m) => m in st.inflight
    case Lose(m) => m in st.inflight
  }

  function Step(net: Net, st: State, ev: Event): State
    requires Shape(net, st) && Enabled(net, st, ev)
  {
    match ev
    case Originate(o, adverts) =>
      var seqNbr := (|st.history[o]| + 1) % 0x10000;   // 16 bits on the wire
      st.(history := st.history[o := st.history[o] + [adverts]],
          inflight := st.inflight + Sends(Msg(o, 0, 0, o, seqNbr, adverts), net.links[o], -1, 1))
    case Deliver(m) =>
      var rest := st.inflight - multiset{m};
      var l := LsuOf(net, m);
      if Accepts(st.graphs[m.to], net.rids[m.to], l) then
        st.(graphs := st.graphs[m.to := Receive(st.graphs[m.to], net.rids[m.to], l)],
            inflight := rest + Sends(m.(from := m.to), net.links[m.to], m.via, |m.adverts|))
      else st.(inflight := rest)
    case Lose(m) => st.(inflight := st.inflight - multiset{m})
  }

  // ----- what is sent --------------------------------------------------------------------

  /** `x` is message `m` on link `a`. */
  ghost predicate GoesOn(m: Msg, ends: seq<End>, skip: int, x: Msg, a: int) {
    0 <= a < |ends| && a != skip && x == Across(m, ends[a])
  }

  ghost predicate Gone(m: Msg, ends: seq<End>, skip: int, x: Msg) {
    exists a :: GoesOn(m, ends, skip, x, a)
  }

  lemma {:induction false} SendsWhat(m: Msg, ends: seq<End>, skip: int, copies: nat, x: Msg)
    ensures x in Sends(m, ends, skip, copies) <==> copies > 0 && Gone(m, ends, skip, x)
  {
    if ends != [] {
      var init, n := ends[..|ends| - 1], |ends| - 1;
      SendsWhat(m, init, skip, copies, x);
      if a :| GoesOn(m, init, skip, x, a) { assert GoesOn(m, ends, skip, x, a); }
      if a :| GoesOn(m, ends, skip, x, a) { assert a == n || GoesOn(m, init, skip, x, a); }
      assert n != skip && x == Across(m, ends[n]) ==> GoesOn(m, ends, skip, x, n);
    }
  }

  /** How many links a message goes out on. */
  function Targets(links: nat, skip: int): nat { if 0 <= skip < links then links - 1 else links }

  lemma {:induction false} SendsCount(m: Msg, ends: seq<End>, skip: int, copies: nat)
    ensures |Sends(m, ends, skip, copies)| == copies * Targets(|ends|, skip)
  {
    if ends != [] {
      var n := |ends| - 1;
      SendsCount(m, ends[..n], skip, copies);
      var last := multiset{}[Across(m, ends[n]) := copies];
      assert |last| == copies;
      MulSucc(copies, n);
      if n > 0 { MulSucc(copies, n - 1); }
    }
  }

  lemma MulSucc(a: nat, b: nat)
    ensures a * (b + 1) == a * b + a
  {
  }

  // ----- recorded sequence numbers -------------------------------------------------------

  /** The sequence number a graph has on record for a router; 0 when the router is unknown. */
  function Seen(g: Graph, rid: Addr): int {
    var i := FindId(g, RouterKey(rid));
    if i >= 0 then g[i].seqNbrSeen else 0
  }

  lemma SeenIsRecorded(g: Graph, t: Topo, rid: Addr)
    requires Represents(g, t)
    ensures Seen(g, rid) == Recorded(t, rid)
  {
    RepresentsFind(g, t, RouterKey(rid));
  }

  /** The gate, and the only record an accepted update changes. */
  lemma ReceiveRecords(g: Graph, self: Addr, l: Lsu, p: Addr)
    requires Basic(g) && l.seqNbr >= 1
    ensures Basic(Receive(g, self, l))
    ensures Accepts(g, self, l) <==> l.origin != self && Seen(g, l.origin) < l.seqNbr
    ensures Seen(Receive(g, self, l), p)
         == if Accepts(g, self, l) && l.origin == p then l.seqNbr else Seen(g, p)
  {
    var t := Abs(g);
    AbsRepresents(g);
    ReceiveRefines(g, t, self, l);
    ReceiveKeepsOtherRecords(t, self, l, p);
    SeenIsRecorded(g, t, p);
    SeenIsRecorded(Receive(g, self, l), TReceive(t, self, l), p);
  }

  /** Update number 65536 carries sequence number 0: whoever knows the origin drops it. */
  lemma WrappedUpdateIsDropped(g: Graph, self: Addr, o: Addr, advs: seq<Advert>)
    requires Seen(g, o) >= 0
    ensures Accepts(g, self, Lsu(o, 0x10000 % 0x10000, advs)) <==> o != self && FindId(g, RouterKey(o)) < 0
  {
  }

  // ----- the coverage invariant ----------------------------------------------------------

  /** The newest update of `o` that router `i` has passed on. */
  ghost function Newest(net: Net, st: State, i: nat, o: nat): int
    requires Shape(net, st) && i < |net.rids| && o < |net.rids|
  {
    if i == o then |st.history[o]| else Seen(st.graphs[i], net.rids[o])
  }

  ghost predicate InFlight(st: State, j: nat, o: nat, s: int) {
    exists m :: m in st.inflight && m.to == j && m.origin == o && m.seqNbr >= s
  }

  /** Neighbour `j` of `i` has seen what `i` has passed on of `o`, or is `o`, or it is on its way to `j`. */
  ghost predicate Covered(net: Net, st: State, i: nat, j: nat, o: nat)
    requires Shape(net, st) && i < |net.rids| && j < |net.rids| && o < |net.rids|
  {
    || j == o
    || Seen(st.graphs[j], net.rids[o]) >= Newest(net, st, i, o)
    || InFlight(st, j, o, Newest(net, st, i, o))
  }

  /** A message carries a real update of its origin, which its sender has seen. */
  ghost predicate MsgOk(net: Net, st: State, m: Msg)
    requires Shape(net, st) && m.from < |net.rids| && m.origin < |net.rids|
  {
    && 1 <= m.seqNbr <= |st.history[m.origin]|
    && m.adverts == st.history[m.origin][m.seqNbr - 1] && m.adverts != []
    && Newest(net, st, m.from, m.origin) >= m.seqNbr
  }

  /** No router has sent 65536 updates. */
  ghost predicate NoWrap(st: State) {
    forall o :: 0 <= o < |st.history| ==> |st.history[o]| < 0x10000
  }

  ghost predicate RecordsOk(net: Net, st: State)
    requires Shape(net, st)
  {
    && (forall m {:trigger MsgOk(net, st, m)} :: m in st.inflight ==> MsgOk(net, st, m))
    && (forall o, k :: 0 <= o < |net.rids| && 0 <= k < |st.history[o]| ==> |st.history[o][k]| == |net.ifs[o]|)
    && (forall i, o {:trigger Newest(net, st, i, o)} :: 0 <= i < |net.rids| && 0 <= o < |net.rids| ==>
          0 <= Newest(net, st, i, o) <= |st.history[o]|)
  }

  ghost predicate Coverage(net: Net, st: State)
    requires Shape(net, st)
  {
    forall i, j, o {:trigger Covered(net, st, i, j, o)} ::
      0 <= i < |net.rids| && 0 <= o < |net.rids| && 0 <= j < |net.rids| && Adjacent(net, i, j) ==>
        Covered(net, st, i, j, o)
  }

  /** What holds even when messages are lost. */
  ghost predicate Sane(net: Net, st: State) {
    Shape(net, st) && RecordsOk(net, st)
  }

  ghost predicate Inv(net: Net, st: State) {
    Sane(net, st) && Coverage(net, st)
  }

  lemma InitOk(net: Net)
    requires NetOk(net)
    ensures Inv(net, Init(net))
  {
    var st := Init(net);
    forall i | 0 <= i < |net.rids| ensures Basic(st.graphs[i]) {
      InitEstablishes(net.rids[i], net.ifs[i]);
    }
    forall i, o | 0 <= i < |net.rids| && 0 <= o < |net.rids| ensures Newest(net, st, i, o) == 0 {
      InitSeesNothing(net.rids[i], net.ifs[i], net.rids[o]);
    }
    forall i, j, o | 0 <= i < |net.rids| && 0 <= o < |net.rids| && 0 <= j < |net.rids| && Adjacent(net, i, j)
      ensures Covered(net, st, i, j, o)
    {
      assert Newest(net, st, i, o) == 0 && Newest(net, st, j, o) == 0;
    }
  }

  lemma InitSeesNothing(self: Addr, ifs: seq<Subnet>, rid: Addr)
    ensures Seen(InitGraph(self, ifs), rid) == 0
  {
    InitNoSeq(self, ifs);
  }

  lemma {:induction false} InitNoSeq(self: Addr, ifs: seq<Subnet>)
    ensures forall i :: 0 <= i < |InitGraph(self, ifs)| ==> InitGraph(self, ifs)[i].seqNbrSeen == 0
  {
    if ifs != [] { InitNoSeq(self, ifs[..|ifs| - 1]); }
  }

  /** The frames of one round of the periodic sender. */
  ghost function SenderRound(net: Net, st: State, o: nat, adverts: seq<Advert>): multiset<Msg>
    requires Shape(net, st) && o < |net.rids|
  {
    Sends(Msg(o, 0, 0, o, (|st.history[o]| + 1) % 0x10000, adverts), net.links[o], -1, 1)
  }

  lemma SenderRoundWhat(net: Net, st: State, o: nat, adverts: seq<Advert>, x: Msg)
    requires Shape(net, st) && o < |net.rids| && |st.history[o]| + 1 < 0x10000
    ensures x in SenderRound(net, st, o, adverts)
       <==> Gone(Msg(o, 0, 0, o, |st.history[o]| + 1, adverts), net.links[o], -1, x)
  {
    SendsWhat(Msg(o, 0, 0, o, |st.history[o]| + 1, adverts), net.links[o], -1, 1, x);
  }

  /** What goes out on a link of router `i` arrives on a link from `i`. */
  lemma GoneArrives(net: Net, m: Msg, i: nat, skip: int, x: Msg)
    requires NetOk(net) && i < |net.rids| && m.from == i
    ensures Gone(m, net.links[i], skip, x) ==>
              x.to < |net.rids| && ArrivesOn(net, x) && x == m.(to := x.to, via := x.via)
  {
    if a :| GoesOn(m, net.links[i], skip, x, a) { assert IsLink(net, i, a); }
  }

  lemma OriginateSane(net: Net, st: State, o: nat, adverts: seq<Advert>)
    requires Sane(net, st) && Enabled(net, st, Originate(o, adverts)) && |st.history[o]| + 1 < 0x10000
    ensures Sane(net, Step(net, st, Originate(o, adverts)))
  {
    hide Seen, Sends, Basic;
    var st' := Step(net, st, Originate(o, adverts));
    var sent := SenderRound(net, st, o, adverts);
    assert st'.inflight == st.inflight + sent;
    forall m | m in st'.inflight ensures m.origin < |net.rids| && m.to < |net.rids| && ArrivesOn(net, m) {
      SenderRoundWhat(net, st, o, adverts, m);
      GoneArrives(net, Msg(o, 0, 0, o, |st.history[o]| + 1, adverts), o, -1, m);
    }
    forall i, p | 0 <= i < |net.rids| && 0 <= p < |net.rids|
      ensures Newest(net, st', i, p) == Newest(net, st, i, p) + if i == p == o then 1 else 0
    {
    }
    forall m | m in st'.inflight ensures MsgOk(net, st', m) {
      SenderRoundWhat(net, st, o, adverts, m);
      assert m in st.inflight ==> MsgOk(net, st, m);
    }
  }

  lemma OriginateKeeps(net: Net, st: State, o: nat, adverts: seq<Advert>)
    requires Inv(net, st) && Enabled(net, st, Originate(o, adverts)) && |st.history[o]| + 1 < 0x10000
    ensures Inv(net, Step(net, st, Originate(o, adverts)))
  {
    hide Seen, Sends, Basic, Step;
    OriginateSane(net, st, o, adverts);
    var st' := Step(net, st, Originate(o, adverts));
    forall i, j, p | 0 <= i < |net.rids| && 0 <= p < |net.rids| && 0 <= j < |net.rids| && Adjacent(net, i, j)
      ensures Covered(net, st', i, j, p)
    {
      OriginateCovers(net, st, o, adverts, i, j, p);
    }
  }

  lemma OriginateCovers(net: Net, st: State, o: nat, adverts: seq<Advert>, i: nat, j: nat, p: nat)
    requires Inv(net, st) && Enabled(net, st, Originate(o, adverts)) && |st.history[o]| + 1 < 0x10000
    requires Shape(net, Step(net, st, Originate(o, adverts)))
    requires i < |net.rids| && p < |net.rids| && 0 <= j < |net.rids| && Adjacent(net, i, j)
    ensures Covered(net, Step(net, st, Originate(o, adverts)), i, j, p)
  {
    hide Seen, Sends, Basic;
    var st' := Step(net, st, Originate(o, adverts));
    assert st'.inflight == st.inflight + SenderRound(net, st, o, adverts);
    if i == p == o {
      var a :| 0 <= a < |net.links[i]| && net.links[i][a].to == j;
      var m := Msg(o, j, net.links[i][a].via, o, |st.history[o]| + 1, adverts);
      assert GoesOn(Msg(o, 0, 0, o, |st.history[o]| + 1, adverts), net.links[o], -1, m, a);
      SenderRoundWhat(net, st, o, adverts, m);
      assert m in st'.inflight;
    } else {
      assert Covered(net, st, i, j, p);
      StillInFlight(st, st', j, p, Newest(net, st, i, p));
    }
  }

  lemma StillInFlight(st: State, st': State, j: nat, o: nat, s: int)
    requires forall m :: m in st.inflight ==> m in st'.inflight
    ensures InFlight(st, j, o, s) ==> InFlight(st', j, o, s)
  {
  }

  /** An update is accepted exactly when it is not the router's own and newer than the record. */
  lemma AcceptedExactly(net: Net, st: State, m: Msg)
    requires Sane(net, st) && m in st.inflight
    ensures m.to < |net.rids|
    ensures Accepts(st.graphs[m.to], net.rids[m.to], LsuOf(net, m))
       <==> m.to != m.origin && Seen(st.graphs[m.to], net.rids[m.origin]) < m.seqNbr
  {
    assert MsgOk(net, st, m);
    ReceiveRecords(st.graphs[m.to], net.rids[m.to], LsuOf(net, m), net.rids[m.origin]);
  }

  ghost predicate Accepted(net: Net, st: State, m: Msg)
    requires Shape(net, st) && m in st.inflight
  {
    m.to != m.origin && m.to < |net.rids| && Seen(st.graphs[m.to], net.rids[m.origin]) < m.seqNbr
  }

  /** A delivery changes one record at most, and raises it: own updates are never applied. */
  lemma DeliverRaisesOneRecord(net: Net, st: State, m: Msg)
    requires Sane(net, st) && m in st.inflight
    ensures Shape(net, Step(net, st, Deliver(m)))
    ensures Step(net, st, Deliver(m)).history == st.history
    ensures forall i, p :: 0 <= i < |net.rids| && 0 <= p < |net.rids| ==>
              Newest(net, Step(net, st, Deliver(m)), i, p)
              == if Accepted(net, st, m) && i == m.to && p == m.origin then m.seqNbr else Newest(net, st, i, p)
  {
    hide Seen, Sends, Basic, Accepts, Receive;
    var st' := Step(net, st, Deliver(m));
    AcceptedExactly(net, st, m);
    assert MsgOk(net, st, m);
    forall x | x in st'.inflight ensures x.origin < |net.rids| && x.to < |net.rids| && ArrivesOn(net, x) {
      DeliverWhat(net, st, m, x);
      GoneArrives(net, m.(from := m.to), m.to, m.via, x);
    }
    forall p | 0 <= p < |net.rids|
      ensures Basic(st'.graphs[m.to])
      ensures Seen(st'.graphs[m.to], net.rids[p])
           == if Accepted(net, st, m) && p == m.origin then m.seqNbr else Seen(st.graphs[m.to], net.rids[p])
    {
      ReceiveRecords(st.graphs[m.to], net.rids[m.to], LsuOf(net, m), net.rids[p]);
    }
  }

  /** Message `x` is a copy of `m` passed on to another neighbour. */
  ghost predicate Forwarded(net: Net, st: State, m: Msg, x: Msg)
    requires Shape(net, st) && m in st.inflight && m.to < |net.rids|
  {
    && Accepted(net, st, m)
    && Gone(m.(from := m.to), net.links[m.to], m.via, x)
  }

  /** What is in flight after a delivery. */
  lemma DeliverWhat(net: Net, st: State, m: Msg, x: Msg)
    requires Sane(net, st) && m in st.inflight && m.to < |net.rids|
    ensures x in Step(net, st, Deliver(m)).inflight ==> x in st.inflight || Forwarded(net, st, m, x)
    ensures x in st.inflight && x != m ==> x in Step(net, st, Deliver(m)).inflight
    ensures Forwarded(net, st, m, x) ==> x in Step(net, st, Deliver(m)).inflight
  {
    hide Seen, Sends, Basic, Accepts, Receive;
    AcceptedExactly(net, st, m);
    assert MsgOk(net, st, m);
    SendsWhat(m.(from := m.to), net.links[m.to], m.via, |m.adverts|, x);
  }

  lemma DeliverSane(net: Net, st: State, m: Msg)
    requires Sane(net, st) && m in st.inflight
    ensures Sane(net, Step(net, st, Deliver(m)))
  {
    hide Seen, Sends, Basic, Accepts, Receive, Step;
    var st' := Step(net, st, Deliver(m));
    AcceptedExactly(net, st, m);
    DeliverRaisesOneRecord(net, st, m);
    assert MsgOk(net, st, m);
    forall x | x in st'.inflight ensures MsgOk(net, st', x) {
      DeliverWhat(net, st, m, x);
      assert x in st.inflight ==> MsgOk(net, st, x);
    }
  }

  lemma LoseSane(net: Net, st: State, m: Msg)
    requires Sane(net, st) && m in st.inflight
    ensures Sane(net, Step(net, st, Lose(m)))
  {
    hide Seen, Sends, Basic, Accepts, Receive;
    var st' := Step(net, st, Lose(m));
    forall x | x in st'.inflight ensures MsgOk(net, st', x) { assert MsgOk(net, st, x); }
    assert forall i, o :: 0 <= i < |net.rids| && 0 <= o < |net.rids| ==>
                            Newest(net, st', i, o) == Newest(net, st, i, o);
  }

  lemma DeliverKeeps(net: Net, st: State, m: Msg)
    requires Inv(net, st) && m in st.inflight
    ensures Inv(net, Step(net, st, Deliver(m)))
  {
    hide Seen, Sends, Basic, Accepts, Receive, Step;
    DeliverSane(net, st, m);
    var st' := Step(net, st, Deliver(m));
    forall i, j, p | 0 <= i < |net.rids| && 0 <= p < |net.rids| && 0 <= j < |net.rids| && Adjacent(net, i, j)
      ensures Covered(net, st', i, j, p)
    {
      DeliverCovers(net, st, m, i, j, p);
    }
  }

  lemma DeliverCovers(net: Net, st: State, m: Msg, i: nat, j: nat, p: nat)
    requires Inv(net, st) && m in st.inflight && Shape(net, Step(net, st, Deliver(m)))
    requires i < |net.rids| && p < |net.rids| && 0 <= j < |net.rids| && Adjacent(net, i, j)
    ensures Covered(net, Step(net, st, Deliver(m)), i, j, p)
  {
    hide Seen, Sends, Basic, Accepts, Receive, Step;
    var st' := Step(net, st, Deliver(m));
    AcceptedExactly(net, st, m);
    DeliverRaisesOneRecord(net, st, m);
    assert MsgOk(net, st, m) && Covered(net, st, i, j, p);
    var s := Newest(net, st', i, p);
    assert j != p ==> Newest(net, st', j, p) == Seen(st'.graphs[j], net.rids[p]);
    if Accepted(net, st, m) && i == m.to && p == m.origin {
      var a :| 0 <= a < |net.links[i]| && net.links[i][a].to == j;
      if a != m.via {
        var x := Msg(m.to, j, net.links[i][a].via, m.origin, m.seqNbr, m.adverts);
        assert GoesOn(m.(from := m.to), net.links[m.to], m.via, x, a);
        DeliverWhat(net, st, m, x);
        assert x in st'.inflight;
      }
    } else if j != p && Seen(st.graphs[j], net.rids[p]) < s {
      var x :| x in st.inflight && x.to == j && x.origin == p && x.seqNbr >= s;
      if x != m {
        DeliverWhat(net, st, m, x);
        assert x in st'.inflight;
      }
    }
  }

  // ----- runs ----------------------------------------------------------------------------

  ghost predicate ValidRun(net: Net, evs: seq<Event>)
    decreases |evs|, 0
  {
    NetOk(net) && if evs == [] then true
    else
      var init := evs[..|evs| - 1];
      ValidRun(net, init) && Shape(net, After(net, init)) && Enabled(net, After(net, init), evs[|evs| - 1])
  }

  ghost function After(net: Net, evs: seq<Event>): State
    requires ValidRun(net, evs)
    decreases |evs|, 1
  {
    if evs == [] then Init(net) else Step(net, After(net, evs[..|evs| - 1]), evs[|evs| - 1])
  }

  ghost predicate Lossless(evs: seq<Event>) {
    forall i :: 0 <= i < |evs| ==> !evs[i].Lose?
  }

  lemma StepGrowsHistory(net: Net, st: State, ev: Event)
    requires Shape(net, st) && Enabled(net, st, ev) && NoWrap(Step(net, st, ev))
    ensures NoWrap(st)
    ensures ev.Originate? ==> |st.history[ev.o]| + 1 < 0x10000
  {
    var st' := Step(net, st, ev);
    forall o | 0 <= o < |st.history| ensures |st.history[o]| <= |st'.history[o]| {}
  }

  lemma {:induction false} RunsAreSane(net: Net, evs: seq<Event>)
    requires ValidRun(net, evs) && NoWrap(After(net, evs))
    ensures Sane(net, After(net, evs))
    ensures Lossless(evs) ==> Inv(net, After(net, evs))
  {
    hide Seen, Sends, Basic, Accepts, Receive, Step, Shape, RecordsOk, Coverage, NoWrap;
    InitOk(net);
    if evs != [] {
      var init, ev := evs[..|evs| - 1], evs[|evs| - 1];
      var st := After(net, init);
      StepGrowsHistory(net, st, ev);
      RunsAreSane(net, init);
      match ev {
        case Originate(o, adverts) =>
          OriginateSane(net, st, o, adverts);
          if Lossless(evs) { OriginateKeeps(net, st, o, adverts); }
        case Deliver(m) =>
          DeliverSane(net, st, m);
          if Lossless(evs) { DeliverKeeps(net, st, m); }
        case Lose(m) => LoseSane(net, st, m);
      }
    }
  }

  // ----- the last number -----------------------------------------------------------------

  /** Sequence numbers on the wire have 16 bits, however often they have wrapped. */
  ghost predicate SeqsFit(st: State) {
    forall m :: m in st.inflight ==> m.seqNbr < 0x10000
  }

  lemma StepSeqsFit(net: Net, st: State, ev: Event)
    requires Shape(net, st) && Enabled(net, st, ev) && SeqsFit(st)
    ensures SeqsFit(Step(net, st, ev))
  {
    hide Accepts, Receive, Basic, Sends;
    forall x | x in Step(net, st, ev).inflight ensures x.seqNbr < 0x10000 {
      match ev
      case Originate(o, adverts) =>
        SendsWhat(Msg(o, 0, 0, o, (|st.history[o]| + 1) % 0x10000, adverts), net.links[o], -1, 1, x);
      case Deliver(m) => SendsWhat(m.(from := m.to), net.links[m.to], m.via, |m.adverts|, x);
      case Lose(m) =>
    }
  }

  lemma {:induction false} RunSeqsFit(net: Net, evs: seq<Event>)
    requires ValidRun(net, evs)
    ensures SeqsFit(After(net, evs))
  {
    hide Shape, Enabled, Step, SeqsFit;
    if evs == [] {
      InitSeqsFit(net);
    } else {
      RunSeqsFit(net, evs[..|evs| - 1]);
      StepSeqsFit(net, After(net, evs[..|evs| - 1]), evs[|evs| - 1]);
    }
  }

  lemma InitSeqsFit(net: Net)
    requires NetOk(net)
    ensures SeqsFit(Init(net))
  {
  }

  /** No number of 16 bits is newer than 65535. */
  lemma TopRecordStays(g: Graph, self: Addr, l: Lsu, p: Addr)
    requires Basic(g) && Seen(g, p) == 0xFFFF && l.seqNbr < 0x10000
    ensures Seen(Receive(g, self, l), p) == 0xFFFF && (l.origin == p ==> !Accepts(g, self, l))
  {
    var t := Abs(g);
    hide Basic, Represents, Abs, Receive, Seen, TReceive;
    AbsRepresents(g);
    ReceiveRefines(g, t, self, l);
    ReceiveKeepsOtherRecords(t, self, l, p);
    SeenIsRecorded(g, t, p);
    SeenIsRecorded(Receive(g, self, l), TReceive(t, self, l), p);
  }

  lemma StepKeepsTop(net: Net, st: State, ev: Event, i: nat, o: nat)
    requires Shape(net, st) && Enabled(net, st, ev) && SeqsFit(st) && i < |net.rids| && o < |net.rids|
    requires Seen(st.graphs[i], net.rids[o]) == 0xFFFF
    ensures |Step(net, st, ev).graphs| == |st.graphs|
    ensures Seen(Step(net, st, ev).graphs[i], net.rids[o]) == 0xFFFF
  {
    hide Accepts, Receive, Basic, Sends, Seen;
    if ev.Deliver? && ev.m.to == i {
      TopRecordStays(st.graphs[i], net.rids[i], LsuOf(net, ev.m), net.rids[o]);
    }
  }

  /**
    The end of the road. Over any run, lossy or not and however long, a router that has recorded
    update 65535 of an origin keeps that record for ever: it never takes in another update of it.
  */
  lemma {:induction false} RecordAtTopStays(net: Net, evs: seq<Event>, more: seq<Event>, i: nat, o: nat)
    requires ValidRun(net, evs) && ValidRun(net, evs + more) && i < |net.rids| && o < |net.rids|
    requires i < |After(net, evs).graphs| && Seen(After(net, evs).graphs[i], net.rids[o]) == 0xFFFF
    ensures i < |After(net, evs + more).graphs| && Seen(After(net, evs + more).graphs[i], net.rids[o]) == 0xFFFF
    decreases |more|
  {
    hide Shape, Enabled, Step, Seen, SeqsFit;
    if more == [] {
      assert evs + more == evs;
    } else {
      var init := more[..|more| - 1];
      assert (evs + more)[..|evs + more| - 1] == evs + init;
      RecordAtTopStays(net, evs, init, i, o);
      RunSeqsFit(net, evs + init);
      StepKeepsTop(net, After(net, evs + init), more[|more| - 1], i, o);
    }
  }

  // ----- flood coverage ------------------------------------------------------------------

  ghost predicate Path(net: Net, p: seq<nat>)
    requires |net.links| == |net.rids|
  {
    && p != [] && (forall k :: 0 <= k < |p| ==> p[k] < |net.rids|)
    && (forall k :: 0 <= k < |p| - 1 ==> Adjacent(net, p[k], p[k + 1]))
  }

  lemma {:induction false} PathIsCovered(net: Net, st: State, p: seq<nat>, k: nat)
    requires Inv(net, st) && st.inflight == multiset{} && Path(net, p) && k < |p|
    ensures Newest(net, st, p[k], p[0]) == |st.history[p[0]]|
  {
    hide Seen, Basic;
    if k > 0 {
      PathIsCovered(net, st, p, k - 1);
      assert Covered(net, st, p[k - 1], p[k], p[0]);
    }
  }

  /**
    Flood coverage. After any lossless run with nothing in flight, every router joined to `o`
    by a path has on record the last update that `o` sent.
  */
  lemma QuiescentMeansCovered(net: Net, evs: seq<Event>, p: seq<nat>)
    requires ValidRun(net, evs) && Lossless(evs) && NoWrap(After(net, evs))
    requires After(net, evs).inflight == multiset{}
    requires Path(net, p) && p[|p| - 1] != p[0]
    ensures Shape(net, After(net, evs))
    ensures Seen(After(net, evs).graphs[p[|p| - 1]], net.rids[p[0]]) == |After(net, evs).history[p[0]]|
  {
    RunsAreSane(net, evs);
    PathIsCovered(net, After(net, evs), p, |p| - 1);
  }
}
