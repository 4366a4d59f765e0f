/**
  What holds of the topology graph over every run of initialisation and received updates,
  and why the order of updates from different routers does not matter.
*/
module Convergence {
  import opened Words
  import opened Topology

  // ----- initialisation ------------------------------------------------------------------

  datatype Subnet = Subnet(net: Addr, mask: Addr)

  /** One interface at start-up: a new subnet vertex and an unchecked edge from router `r` to it. */
  function AddInterface(g: Graph, self: Addr, r: int, s: Subnet): (g': Graph)
    requires 0 <= r < |g|
    ensures |g'| == |g| + 1
  {
    AddEdge(AddVertex(g, LeafKey(self, s.net), s.mask), r, |g|)
  }

  /** The graph after start-up: the router itself, then one subnet vertex per interface. */
  function InitGraph(self: Addr, ifs: seq<Subnet>): (g: Graph)
    ensures |g| == 1 + |ifs|
  {
    if ifs == [] then AddVertex([], RouterKey(self), 0)
    else AddInterface(InitGraph(self, ifs[..|ifs| - 1]), self, 0, ifs[|ifs| - 1])
  }

  function ReceiveAll(g: Graph, self: Addr, ls: seq<Lsu>): Graph {
    if ls == [] then g else Receive(ReceiveAll(g, self, ls[..|ls| - 1]), self, ls[|ls| - 1])
  }

  // ----- the invariant -------------------------------------------------------------------

  ghost predicate IsRouterOf(g: Graph, i: int, rid: Addr)
    requires 0 <= i < |g|
  {
    g[i].kind == ROUTER && g[i].rid == rid
  }

  /** The in-edges of subnet vertex `j`: exactly one, from the router with its own rid. */
  ghost predicate LeafOk(g: Graph, j: int)
    requires 0 <= j < |g|
  {
    && g[j].head == []
    && (exists i :: 0 <= i < |g| && IsRouterOf(g, i, g[j].rid))
    && (forall i {:trigger Linked(g, i, j)} :: 0 <= i < |g| ==> (Linked(g, i, j) <==> IsRouterOf(g, i, g[j].rid)))
  }

  ghost predicate Symmetric(g: Graph, i: int, j: int)
    requires 0 <= i < |g| && 0 <= j < |g|
  {
    Linked(g, i, j) <==> Linked(g, j, i)
  }

  ghost predicate GraphInv(g: Graph) {
    && Basic(g)
    && (forall j {:trigger LeafOk(g, j)} :: 0 <= j < |g| && g[j].kind == SUBNET ==> LeafOk(g, j))
    && (forall i, j {:trigger Symmetric(g, i, j)} ::
          0 <= i < |g| && 0 <= j < |g| && g[i].kind == ROUTER && g[j].kind == ROUTER ==> Symmetric(g, i, j))
  }

  /** The same invariant on the abstract topology. */
  ghost predicate TopoInv(t: Topo) {
    && (forall k1, k2 :: (k1, k2) in t.edges ==>
          && k1.RouterKey?
          && (k2.LeafKey? ==> k2.rid == k1.rid)
          && (k2.RouterKey? ==> (k2, k1) in t.edges))
    && (forall k :: k in t.verts && k.LeafKey? ==> (RouterKey(k.rid), k) in t.edges)
  }

  lemma InvGoesUp(g: Graph, t: Topo)
    requires GraphInv(g) && Represents(g, t)
    ensures TopoInv(t)
  {
    forall k1, k2 | (k1, k2) in t.edges
      ensures k1.RouterKey? && (k2.LeafKey? ==> k2.rid == k1.rid) && (k2.RouterKey? ==> (k2, k1) in t.edges)
    {
      var i :| 0 <= i < |g| && KeyOf(g[i]) == k1;
      var j :| 0 <= j < |g| && KeyOf(g[j]) == k2;
      assert EdgeIn(g, t, i, j) && EdgeIn(g, t, j, i);
      assert g[i].kind == SUBNET ==> LeafOk(g, i);
      if g[j].kind == SUBNET { assert LeafOk(g, j); } else { assert Symmetric(g, i, j); }
    }
    forall k | k in t.verts && k.LeafKey? ensures (RouterKey(k.rid), k) in t.edges {
      var j :| 0 <= j < |g| && KeyOf(g[j]) == k;
      assert LeafOk(g, j);
      var i :| 0 <= i < |g| && IsRouterOf(g, i, g[j].rid);
      assert EdgeIn(g, t, i, j);
      assert Linked(g, i, j);
    }
  }

  lemma InvGoesDown(g: Graph, t: Topo)
    requires Basic(g) && Represents(g, t) && TopoInv(t)
    ensures GraphInv(g)
  {
    forall j | 0 <= j < |g| && g[j].kind == SUBNET ensures LeafOk(g, j) {
      LeafGoesDown(g, t, j);
    }
    forall i, j | 0 <= i < |g| && 0 <= j < |g| && g[i].kind == ROUTER && g[j].kind == ROUTER
      ensures Symmetric(g, i, j)
    {
      assert EdgeIn(g, t, i, j) && EdgeIn(g, t, j, i);
    }
  }

  lemma NoEdgeFromLeaf(g: Graph, t: Topo, i: int, j: int)
    requires Represents(g, t) && TopoInv(t)
    requires 0 <= i < |g| && 0 <= j < |g| && g[i].kind == SUBNET
    ensures !Linked(g, i, j)
  {
    assert EdgeIn(g, t, i, j);
  }

  lemma LeafGoesDown(g: Graph, t: Topo, j: int)
    requires Basic(g) && Represents(g, t) && TopoInv(t)
    requires 0 <= j < |g| && g[j].kind == SUBNET
    ensures LeafOk(g, j)
  {
    var k, o := KeyOf(g[j]), RouterKey(g[j].rid);
    assert VertIn(t, g[j]);
    assert (o, k) in t.edges;
    var r :| 0 <= r < |g| && KeyOf(g[r]) == o;
    assert IsRouterOf(g, r, g[j].rid);
    forall i | 0 <= i < |g| ensures Linked(g, i, j) <==> IsRouterOf(g, i, g[j].rid) {
      assert EdgeIn(g, t, i, j);
      assert IsRouterOf(g, i, g[j].rid) <==> KeyOf(g[i]) == o;
    }
    forall x | 0 <= x < |g| ensures !Linked(g, j, x) {
      NoEdgeFromLeaf(g, t, j, x);
    }
    assert VertexOk(g[j], j, |g|);
    assert g[j].head != [] ==> Linked(g, j, g[j].head[0].dst);
  }

  // ----- every received update keeps it --------------------------------------------------

  lemma {:induction false} AdvertsKeepInv(t: Topo, o: Addr, advs: seq<Advert>)
    requires TopoInv(t) && RouterKey(o) in t.verts
    ensures TopoInv(TAdverts(t, o, advs)) && RouterKey(o) in TAdverts(t, o, advs).verts
  {
    if advs != [] {
      AdvertsKeepInv(t, o, advs[..|advs| - 1]);
      var t1 := TAdverts(t, o, advs[..|advs| - 1]);
      var a := advs[|advs| - 1];
      assert TopoInv(TLeaf(t1, o, a));
      assert TopoInv(TLink(TLeaf(t1, o, a), o, a.rid));
    }
  }

  lemma ReceiveKeepsInv(g: Graph, self: Addr, l: Lsu)
    requires GraphInv(g)
    ensures GraphInv(Receive(g, self, l))
  {
    var t := Abs(g);
    AbsRepresents(g);
    InvGoesUp(g, t);
    ReceiveRefines(g, t, self, l);
    if TAccepts(t, self, l) {
      var t1 := TRecord(t, l.origin, l.seqNbr);
      assert TopoInv(t1);
      AdvertsKeepInv(t1, l.origin, l.adverts);
    }
    InvGoesDown(Receive(g, self, l), TReceive(t, self, l));
  }

  // ----- initialisation establishes it exactly when subnets are distinct -----------------

  ghost predicate DistinctSubnets(ifs: seq<Subnet>) {
    forall i, j :: 0 <= i < j < |ifs| ==> ifs[i].net != ifs[j].net
  }

  lemma {:induction false} InitShape(self: Addr, ifs: seq<Subnet>)
    ensures var g := InitGraph(self, ifs);
      && KeyOf(g[0]) == RouterKey(self)
      && (forall i :: 0 <= i < |ifs| ==> KeyOf(g[i + 1]) == LeafKey(self, ifs[i].net) && g[i + 1].head == [])
  {
    if ifs != [] {
      InitShape(self, ifs[..|ifs| - 1]);
    }
  }

  lemma {:induction false} InitEstablishes(self: Addr, ifs: seq<Subnet>)
    requires DistinctSubnets(ifs)
    ensures GraphInv(InitGraph(self, ifs))
  {
    if ifs == [] {
      var g := InitGraph(self, ifs);
      assert VertexOk(g[0], 0, |g|);
    } else {
      var s := ifs[|ifs| - 1];
      var g := InitGraph(self, ifs[..|ifs| - 1]);
      InitEstablishes(self, ifs[..|ifs| - 1]);
      InitShape(self, ifs[..|ifs| - 1]);
      forall i | 0 <= i < |g| ensures KeyOf(g[i]) != LeafKey(self, s.net) {
        if i > 0 { assert KeyOf(g[(i - 1) + 1]) == LeafKey(self, ifs[i - 1].net); }
      }
      AddInterfaceKeeps(g, self, s);
    }
  }

  lemma AddInterfaceKeeps(g: Graph, self: Addr, s: Subnet)
    requires GraphInv(g) && |g| > 0 && KeyOf(g[0]) == RouterKey(self)
    requires forall i :: 0 <= i < |g| ==> KeyOf(g[i]) != LeafKey(self, s.net)
    ensures GraphInv(AddInterface(g, self, 0, s))
  {
    hide Abs, Represents, TopoInv, AddInterface, FindId;
    var t := Abs(g);
    AbsRepresents(g);
    InvGoesUp(g, t);
    LeafKeepsTopoInv(g, t, self, s);
    AddInterfaceRefines(g, t, self, s);
    InvGoesDown(AddInterface(g, self, 0, s), TLeaf(t, self, Advert(s.net, s.mask, 0)));
  }

  lemma LeafKeepsTopoInv(g: Graph, t: Topo, self: Addr, s: Subnet)
    requires |g| > 0 && KeyOf(g[0]) == RouterKey(self) && Represents(g, t) && TopoInv(t)
    ensures TopoInv(TLeaf(t, self, Advert(s.net, s.mask, 0)))
  {
    assert VertIn(t, g[0]);
  }

  lemma AddInterfaceRefines(g: Graph, t: Topo, self: Addr, s: Subnet)
    requires Basic(g) && Represents(g, t) && |g| > 0 && KeyOf(g[0]) == RouterKey(self)
    requires forall i :: 0 <= i < |g| ==> KeyOf(g[i]) != LeafKey(self, s.net)
    ensures Basic(AddInterface(g, self, 0, s))
    ensures Represents(AddInterface(g, self, 0, s), TLeaf(t, self, Advert(s.net, s.mask, 0)))
  {
    var k := LeafKey(self, s.net);
    FindIdSpec(g, k);
    RepresentsFind(g, t, k);
    AddVertexBasic(g, k, s.mask);
    AddVertexRefines(g, t, k, s.mask);
    AddVertexLinks(g, k, s.mask, 0, |g|);
    AddEdgeBasic(AddVertex(g, k, s.mask), 0, |g|);
    AddEdgeRefines(AddVertex(g, k, s.mask), TVertex(t, k, s.mask), 0, |g|);
  }

  lemma InitInvExactly(self: Addr, ifs: seq<Subnet>)
    ensures GraphInv(InitGraph(self, ifs)) <==> DistinctSubnets(ifs)
  {
    var g := InitGraph(self, ifs);
    InitShape(self, ifs);
    if GraphInv(g) {
      forall i, j | 0 <= i < j < |ifs| ensures ifs[i].net != ifs[j].net {
        assert KeyOf(g[i + 1]) != KeyOf(g[j + 1]);
      }
    }
    if DistinctSubnets(ifs) { InitEstablishes(self, ifs); }
  }

  /** The invariant holds after start-up on distinct subnets and any sequence of updates. */
  lemma {:induction false} InvOverRuns(self: Addr, ifs: seq<Subnet>, ls: seq<Lsu>)
    requires DistinctSubnets(ifs)
    ensures GraphInv(ReceiveAll(InitGraph(self, ifs), self, ls))
  {
    if ls == [] {
      InitEstablishes(self, ifs);
    } else {
      InvOverRuns(self, ifs, ls[..|ls| - 1]);
      ReceiveKeepsInv(ReceiveAll(InitGraph(self, ifs), self, ls[..|ls| - 1]), self, ls[|ls| - 1]);
    }
  }

  // ----- updates from different origins commute ------------------------------------------

  /** The edges one advertisement asks for; a link to "router 0" only where such a vertex exists. */
  ghost function AdvertEdges(t: Topo, o: Addr, a: Advert): set<(Key, Key)> {
    {(RouterKey(o), LeafKey(o, a.subnet))}
    + if a.rid != 0 || RouterKey(0) in t.verts
      then {(RouterKey(o), RouterKey(a.rid)), (RouterKey(a.rid), RouterKey(o))} else {}
  }

  ghost function AdvertAttr(t: Topo, a: Advert, k: Key): Attr {
    if k in t.verts then t.verts[k] else if k.LeafKey? then Attr(a.mask, 0) else Attr(0, 0)
  }

  lemma AdvertForm(t: Topo, o: Addr, a: Advert)
    ensures TAdvert(t, o, a).edges == t.edges + AdvertEdges(t, o, a)
    ensures forall k :: k in TAdvert(t, o, a).verts <==>
              k in t.verts || k == LeafKey(o, a.subnet) || (a.rid != 0 && k == RouterKey(a.rid))
    ensures forall k :: k in TAdvert(t, o, a).verts ==> TAdvert(t, o, a).verts[k] == AdvertAttr(t, a, k)
  {
  }

  lemma AdvertVertsCommute(t: Topo, o1: Addr, a: Advert, o2: Addr, b: Advert)
    requires o1 != o2
    ensures TAdvert(TAdvert(t, o1, a), o2, b).verts == TAdvert(TAdvert(t, o2, b), o1, a).verts
  {
    var t1, t2 := TAdvert(t, o1, a), TAdvert(t, o2, b);
    AdvertForm(t, o1, a);
    AdvertForm(t, o2, b);
    AdvertForm(t1, o2, b);
    AdvertForm(t2, o1, a);
    assert TAdvert(t1, o2, b).verts.Keys == TAdvert(t2, o1, a).verts.Keys;
    forall k | k in TAdvert(t1, o2, b).verts
      ensures TAdvert(t1, o2, b).verts[k] == TAdvert(t2, o1, a).verts[k]
    {
      AdvertAttrsCommute(t, o1, a, o2, b, k);
    }
  }

  lemma AdvertAttrsCommute(t: Topo, o1: Addr, a: Advert, o2: Addr, b: Advert, k: Key)
    requires o1 != o2
    requires k in TAdvert(TAdvert(t, o1, a), o2, b).verts
    ensures AdvertAttr(TAdvert(t, o1, a), b, k) == AdvertAttr(TAdvert(t, o2, b), a, k)
  {
    AdvertForm(t, o1, a);
    AdvertForm(t, o2, b);
    AdvertForm(TAdvert(t, o1, a), o2, b);
  }

  lemma AdvertEdgesCommute(t: Topo, o1: Addr, a: Advert, o2: Addr, b: Advert)
    ensures TAdvert(TAdvert(t, o1, a), o2, b).edges == TAdvert(TAdvert(t, o2, b), o1, a).edges
  {
    var t1, t2 := TAdvert(t, o1, a), TAdvert(t, o2, b);
    AdvertForm(t, o1, a);
    AdvertForm(t, o2, b);
    AdvertForm(t1, o2, b);
    AdvertForm(t2, o1, a);
    assert AdvertEdges(t1, o2, b) == AdvertEdges(t, o2, b);
    assert AdvertEdges(t2, o1, a) == AdvertEdges(t, o1, a);
  }

  lemma AdvertsOfTwoOriginsCommute(t: Topo, o1: Addr, a: Advert, o2: Addr, b: Advert)
    requires o1 != o2
    ensures TAdvert(TAdvert(t, o1, a), o2, b) == TAdvert(TAdvert(t, o2, b), o1, a)
  {
    AdvertVertsCommute(t, o1, a, o2, b);
    AdvertEdgesCommute(t, o1, a, o2, b);
  }

  lemma {:induction false} AdvertAndAdvertsCommute(t: Topo, o1: Addr, a: Advert, o2: Addr, bs: seq<Advert>)
    requires o1 != o2
    ensures TAdverts(TAdvert(t, o1, a), o2, bs) == TAdvert(TAdverts(t, o2, bs), o1, a)
  {
    if bs != [] {
      AdvertAndAdvertsCommute(t, o1, a, o2, bs[..|bs| - 1]);
      AdvertsOfTwoOriginsCommute(TAdverts(t, o2, bs[..|bs| - 1]), o1, a, o2, bs[|bs| - 1]);
    }
  }

  lemma {:induction false} AdvertListsCommute(t: Topo, o1: Addr, as1: seq<Advert>, o2: Addr, bs: seq<Advert>)
    requires o1 != o2
    ensures TAdverts(TAdverts(t, o1, as1), o2, bs) == TAdverts(TAdverts(t, o2, bs), o1, as1)
  {
    if as1 != [] {
      var init, a := as1[..|as1| - 1], as1[|as1| - 1];
      AdvertListsCommute(t, o1, init, o2, bs);
      AdvertAndAdvertsCommute(TAdverts(t, o1, init), o1, a, o2, bs);
    }
  }

  /** The sequence number on record for `o`; a router not yet known counts as 0. */
  ghost function Recorded(t: Topo, o: Addr): int {
    if RouterKey(o) in t.verts then t.verts[RouterKey(o)].seqNbr else 0
  }

  lemma {:induction false} AdvertsKeepRecorded(t: Topo, o: Addr, advs: seq<Advert>, p: Addr)
    ensures Recorded(TAdverts(t, o, advs), p) == Recorded(t, p)
  {
    if advs != [] {
      AdvertsKeepRecorded(t, o, advs[..|advs| - 1], p);
      AdvertForm(TAdverts(t, o, advs[..|advs| - 1]), o, advs[|advs| - 1]);
    }
  }

  /** An update can only change the verdict on updates of its own origin. */
  lemma ReceiveKeepsOtherRecords(t: Topo, self: Addr, l: Lsu, p: Addr)
    ensures Recorded(TReceive(t, self, l), p)
         == if TAccepts(t, self, l) && l.origin == p then l.seqNbr else Recorded(t, p)
  {
    AdvertsKeepRecorded(TRecord(t, l.origin, l.seqNbr), l.origin, l.adverts, p);
  }

  // ----- closed forms --------------------------------------------------------------------

  predicate Mentions(advs: seq<Advert>, rid: Addr) {
    exists k :: 0 <= k < |advs| && advs[k].rid == rid
  }

  /** Advertisement `a` of router `o` asks for edge `e`; `zero` says whether there is a router 0. */
  predicate AsksFor(o: Addr, a: Advert, zero: bool, e: (Key, Key)) {
    || e == (RouterKey(o), LeafKey(o, a.subnet))
    || ((a.rid != 0 || zero) && (e == (RouterKey(o), RouterKey(a.rid)) || e == (RouterKey(a.rid), RouterKey(o))))
  }

  predicate SomeAsksFor(o: Addr, advs: seq<Advert>, zero: bool, e: (Key, Key)) {
    exists k :: 0 <= k < |advs| && AsksFor(o, advs[k], zero, e)
  }

  lemma AdvertsVerts(t: Topo, o: Addr, advs: seq<Advert>)
    ensures var r := TAdverts(t, o, advs);
      && (forall p :: RouterKey(p) in r.verts <==> RouterKey(p) in t.verts || (p != 0 && Mentions(advs, p)))
      && (forall k :: k in t.verts ==> k in r.verts && r.verts[k] == t.verts[k])
      && (forall p :: RouterKey(p) in r.verts && RouterKey(p) !in t.verts ==> r.verts[RouterKey(p)] == Attr(0, 0))
      && (forall k :: 0 <= k < |advs| ==> LeafKey(o, advs[k].subnet) in r.verts)
  {
    forall k ensures VertAfter(t, o, advs, TAdverts(t, o, advs), k) { AdvertsVert(t, o, advs, k); }
    forall k | 0 <= k < |advs| ensures LeafKey(o, advs[k].subnet) in TAdverts(t, o, advs).verts {
      assert VertAfter(t, o, advs, TAdverts(t, o, advs), LeafKey(o, advs[k].subnet));
    }
    assert forall p :: VertAfter(t, o, advs, TAdverts(t, o, advs), RouterKey(p));
    hide TAdverts, Mentions;
  }

  /** Whether and how key `k` is known in `r`, the topology after the advertisements. */
  ghost predicate VertAfter(t: Topo, o: Addr, advs: seq<Advert>, r: Topo, k: Key) {
    && (k in t.verts ==> k in r.verts && r.verts[k] == t.verts[k])
    && (k.RouterKey? ==> (k in r.verts <==> k in t.verts || (k.rid != 0 && Mentions(advs, k.rid))))
    && (k.RouterKey? && k in r.verts && k !in t.verts ==> r.verts[k] == Attr(0, 0))
    && ((exists i :: 0 <= i < |advs| && k == LeafKey(o, advs[i].subnet)) ==> k in r.verts)
  }

  lemma {:induction false} AdvertsVert(t: Topo, o: Addr, advs: seq<Advert>, k: Key)
    ensures VertAfter(t, o, advs, TAdverts(t, o, advs), k)
  {
    if advs != [] {
      var init, a := advs[..|advs| - 1], advs[|advs| - 1];
      var u := TAdverts(t, o, init);
      AdvertsVert(t, o, init, k);
      AdvertVert(u, o, a, k);
      if k.RouterKey? { MentionsNext(init, a, advs, k.rid); }
      hide Mentions, TAdvert;
      assert TAdverts(t, o, advs) == TAdvert(u, o, a);
      if i :| 0 <= i < |advs| && k == LeafKey(o, advs[i].subnet) { assert i < |init| ==> init[i] == advs[i]; }
    }
  }

  lemma AdvertVert(t: Topo, o: Addr, a: Advert, k: Key)
    ensures k in TAdvert(t, o, a).verts <==>
              k in t.verts || k == LeafKey(o, a.subnet) || (a.rid != 0 && k == RouterKey(a.rid))
    ensures k in TAdvert(t, o, a).verts ==> TAdvert(t, o, a).verts[k] == AdvertAttr(t, a, k)
  {
    AdvertForm(t, o, a);
  }

  lemma {:induction false} AdvertsEdges(t: Topo, o: Addr, advs: seq<Advert>, e: (Key, Key))
    ensures e in TAdverts(t, o, advs).edges <==> e in t.edges || SomeAsksFor(o, advs, RouterKey(0) in t.verts, e)
  {
    if advs != [] {
      var init, a, zero := advs[..|advs| - 1], advs[|advs| - 1], RouterKey(0) in t.verts;
      AdvertsEdges(t, o, init, e);
      AdvertsVert(t, o, init, RouterKey(0));
      AdvertForm(TAdverts(t, o, init), o, a);
      AsksNext(o, init, a, advs, zero, e);
      hide Mentions, SomeAsksFor, TAdvert;
      assert TAdverts(t, o, advs) == TAdvert(TAdverts(t, o, init), o, a);
    }
  }

  lemma AdvertsForm(t: Topo, o: Addr, advs: seq<Advert>)
    ensures var r := TAdverts(t, o, advs);
      && (forall p :: RouterKey(p) in r.verts <==> RouterKey(p) in t.verts || (p != 0 && Mentions(advs, p)))
      && (forall k :: k in t.verts ==> k in r.verts && r.verts[k] == t.verts[k])
      && (forall p :: RouterKey(p) in r.verts && RouterKey(p) !in t.verts ==> r.verts[RouterKey(p)] == Attr(0, 0))
      && (forall e :: e in r.edges <==> e in t.edges || SomeAsksFor(o, advs, RouterKey(0) in t.verts, e))
  {
    AdvertsVerts(t, o, advs);
    hide Mentions, SomeAsksFor, TAdverts;
    forall e ensures e in TAdverts(t, o, advs).edges
                  <==> e in t.edges || SomeAsksFor(o, advs, RouterKey(0) in t.verts, e) {
      AdvertsEdges(t, o, advs, e);
    }
  }

  lemma MentionsNext(init: seq<Advert>, a: Advert, advs: seq<Advert>, p: Addr)
    requires advs == init + [a]
    ensures Mentions(advs, p) <==> Mentions(init, p) || a.rid == p
  {
    assert advs[|init|] == a;
    if k :| 0 <= k < |init| && init[k].rid == p { assert advs[k].rid == p; }
  }

  lemma AsksNext(o: Addr, init: seq<Advert>, a: Advert, advs: seq<Advert>, zero: bool, e: (Key, Key))
    requires advs == init + [a]
    ensures SomeAsksFor(o, advs, zero, e) <==> SomeAsksFor(o, init, zero, e) || AsksFor(o, a, zero, e)
  {
    assert advs[|init|] == a;
    if k :| 0 <= k < |init| && AsksFor(o, init[k], zero, e) { assert AsksFor(o, advs[k], zero, e); }
  }

  /** The vertices after an update do not depend on the edges before it. */
  lemma {:induction false} VertsFromVerts(t: Topo, u: Topo, o: Addr, advs: seq<Advert>)
    requires t.verts == u.verts
    ensures TAdverts(t, o, advs).verts == TAdverts(u, o, advs).verts
  {
    if advs != [] { VertsFromVerts(t, u, o, advs[..|advs| - 1]); }
  }

  lemma RecordAndAdvertVerts(t: Topo, o1: Addr, s: int, o2: Addr, b: Advert)
    requires o1 != o2
    ensures TAdvert(TRecord(t, o1, s), o2, b).verts == TRecord(TAdvert(t, o2, b), o1, s).verts
  {
    AdvertForm(t, o2, b);
    AdvertForm(TRecord(t, o1, s), o2, b);
    hide TAdvert;
    var x, y := TAdvert(TRecord(t, o1, s), o2, b).verts, TRecord(TAdvert(t, o2, b), o1, s).verts;
    assert forall k :: k in x <==> k in y;
    assert forall k :: k in x ==> x[k] == y[k];
  }

  lemma {:induction false} RecordAndAdvertsVerts(t: Topo, o1: Addr, s: int, o2: Addr, bs: seq<Advert>)
    requires o1 != o2
    ensures TAdverts(TRecord(t, o1, s), o2, bs).verts == TRecord(TAdverts(t, o2, bs), o1, s).verts
  {
    if bs != [] {
      var init, b := bs[..|bs| - 1], bs[|bs| - 1];
      RecordAndAdvertsVerts(t, o1, s, o2, init);
      RecordAndAdvertVerts(TAdverts(t, o2, init), o1, s, o2, b);
    }
  }

  // ----- the exact condition -------------------------------------------------------------

  /** The effect of an update once accepted. */
  function Applied(t: Topo, l: Lsu): Topo {
    TAdverts(TRecord(t, l.origin, l.seqNbr), l.origin, l.adverts)
  }

  /** Edges join known vertices. */
  ghost predicate EdgesInside(t: Topo) {
    forall k1, k2 :: (k1, k2) in t.edges ==> k1 in t.verts && k2 in t.verts
  }

  /** Update `l` makes the unknown origin of `m` known, and `m` carries sequence number 0: `m` comes too late. */
  ghost predicate Blocks(t: Topo, l: Lsu, m: Lsu) {
    m.origin != 0 && RouterKey(m.origin) !in t.verts && m.seqNbr <= 0 && Mentions(l.adverts, m.origin)
  }

  /** `l` brings in a router 0, to which the "no router" entries of `m` are then taken to lead. */
  ghost predicate ZeroLink(t: Topo, l: Lsu, m: Lsu) {
    l.origin == 0 && RouterKey(0) !in t.verts && Mentions(m.adverts, 0) && !Mentions(l.adverts, m.origin)
  }

  ghost predicate Conflict(t: Topo, self: Addr, l: Lsu, m: Lsu) {
    && TAccepts(t, self, l) && TAccepts(t, self, m)
    && ((Blocks(t, l, m) && m.adverts != []) || (Blocks(t, m, l) && l.adverts != [])
        || ZeroLink(t, l, m) || ZeroLink(t, m, l))
  }

  lemma AppliedVertsCommute(t: Topo, l: Lsu, m: Lsu)
    requires l.origin != m.origin
    ensures Applied(Applied(t, l), m).verts == Applied(Applied(t, m), l).verts
  {
    var tl, tm := TRecord(t, l.origin, l.seqNbr), TRecord(t, m.origin, m.seqNbr);
    var both, both' := TRecord(tl, m.origin, m.seqNbr), TRecord(tm, l.origin, l.seqNbr);
    assert both.verts == both'.verts;
    assert both == both';
    RecordAndAdvertsVerts(tl, m.origin, m.seqNbr, l.origin, l.adverts);
    RecordAndAdvertsVerts(tm, l.origin, l.seqNbr, m.origin, m.adverts);
    hide TRecord;
    var ul, um := TAdverts(both, l.origin, l.adverts), TAdverts(both, m.origin, m.adverts);
    VertsFromVerts(ul, TRecord(Applied(t, l), m.origin, m.seqNbr), m.origin, m.adverts);
    VertsFromVerts(um, TRecord(Applied(t, m), l.origin, l.seqNbr), l.origin, l.adverts);
    AdvertListsCommute(both, l.origin, l.adverts, m.origin, m.adverts);
  }

  /** The edges after both updates, `l` first. */
  lemma AppliedEdges(t: Topo, l: Lsu, m: Lsu, e: (Key, Key))
    ensures var zero := RouterKey(0) in t.verts || l.origin == 0;
      e in Applied(Applied(t, l), m).edges <==>
      (|| e in t.edges || SomeAsksFor(l.origin, l.adverts, zero, e)
       || SomeAsksFor(m.origin, m.adverts, zero || m.origin == 0, e))
  {
    AdvertsForm(TRecord(t, l.origin, l.seqNbr), l.origin, l.adverts);
    AdvertsForm(TRecord(Applied(t, l), m.origin, m.seqNbr), m.origin, m.adverts);
    hide SomeAsksFor, Mentions, TAdverts;
  }

  /** An edge that only a router 0 explains leads to or from it. */
  lemma OnlyWithZero(o: Addr, advs: seq<Advert>, e: (Key, Key))
    ensures SomeAsksFor(o, advs, false, e) ==> SomeAsksFor(o, advs, true, e)
    ensures SomeAsksFor(o, advs, true, e) && !SomeAsksFor(o, advs, false, e) ==>
              Mentions(advs, 0) && (e == (RouterKey(o), RouterKey(0)) || e == (RouterKey(0), RouterKey(o)))
  {
    if SomeAsksFor(o, advs, false, e) {
      var k :| 0 <= k < |advs| && AsksFor(o, advs[k], false, e);
      assert AsksFor(o, advs[k], true, e);
    } else if SomeAsksFor(o, advs, true, e) {
      var k :| 0 <= k < |advs| && AsksFor(o, advs[k], true, e);
      assert !AsksFor(o, advs[k], false, e);
    }
  }

  /** Router 0 itself asks for the link to router `o` exactly when it mentions `o`. */
  lemma ZeroAsksFor(advs: seq<Advert>, o: Addr, e: (Key, Key))
    requires o != 0 && (e == (RouterKey(o), RouterKey(0)) || e == (RouterKey(0), RouterKey(o)))
    ensures SomeAsksFor(0, advs, true, e) <==> Mentions(advs, o)
  {
    if k :| 0 <= k < |advs| && advs[k].rid == o { assert AsksFor(0, advs[k], true, e); }
    if k :| 0 <= k < |advs| && AsksFor(0, advs[k], true, e) { assert advs[k].rid == o; }
  }

  /** Two updates applied in either order give the same edges unless one of them brings in router 0. */
  lemma AppliedEdgesCommute(t: Topo, l: Lsu, m: Lsu, e: (Key, Key))
    requires l.origin != m.origin && !ZeroLink(t, l, m) && !ZeroLink(t, m, l)
    ensures e in Applied(Applied(t, l), m).edges ==> e in Applied(Applied(t, m), l).edges
  {
    AppliedEdges(t, l, m, e);
    AppliedEdges(t, m, l, e);
    OnlyWithZero(l.origin, l.adverts, e);
    OnlyWithZero(m.origin, m.adverts, e);
    hide SomeAsksFor, Mentions, Applied;
    if l.origin == 0 && (e == (RouterKey(m.origin), RouterKey(0)) || e == (RouterKey(0), RouterKey(m.origin))) {
      ZeroAsksFor(l.adverts, m.origin, e);
    }
    if m.origin == 0 && (e == (RouterKey(l.origin), RouterKey(0)) || e == (RouterKey(0), RouterKey(l.origin))) {
      ZeroAsksFor(m.adverts, l.origin, e);
    }
  }

  lemma ZeroLinkShows(t: Topo, l: Lsu, m: Lsu)
    requires EdgesInside(t) && l.origin != m.origin && ZeroLink(t, l, m)
    ensures Applied(Applied(t, l), m) != Applied(Applied(t, m), l)
  {
    var e := (RouterKey(m.origin), RouterKey(0));
    AppliedEdges(t, l, m, e);
    AppliedEdges(t, m, l, e);
    ZeroAsksFor(l.adverts, m.origin, e);
    var k :| 0 <= k < |m.adverts| && m.adverts[k].rid == 0;
    assert AsksFor(m.origin, m.adverts[k], true, e);
    assert !SomeAsksFor(m.origin, m.adverts, false, e);
    hide Applied;
  }

  /** What the gate says of `m` once `l` has been applied. */
  lemma GateAfter(t: Topo, self: Addr, l: Lsu, m: Lsu)
    requires l.origin != m.origin && m.seqNbr >= 0
    ensures TAccepts(Applied(t, l), self, m) <==> TAccepts(t, self, m) && !Blocks(t, l, m)
  {
    AdvertsForm(TRecord(t, l.origin, l.seqNbr), l.origin, l.adverts);
    hide Mentions, SomeAsksFor, TAdverts;
  }

  /** A blocked update that has something to say is missed. */
  lemma BlockedIsMissed(t: Topo, l: Lsu, m: Lsu)
    requires EdgesInside(t) && l.origin != m.origin && Blocks(t, l, m) && m.adverts != []
    ensures Applied(t, l) != Applied(Applied(t, m), l) && Applied(t, l) != Applied(t, m)
  {
    var e := (RouterKey(m.origin), LeafKey(m.origin, m.adverts[0].subnet));
    hide Applied;
    assert AsksFor(m.origin, m.adverts[0], RouterKey(0) in t.verts || m.origin == 0, e);
    AppliedEdges(t, m, l, e);
    OnceAppliedEdges(t, l, e);
    OnceAppliedEdges(t, m, e);
    assert !SomeAsksFor(l.origin, l.adverts, RouterKey(0) in t.verts || l.origin == 0, e);
    hide Mentions;
  }

  lemma OnceAppliedEdges(t: Topo, l: Lsu, e: (Key, Key))
    ensures e in Applied(t, l).edges
       <==> e in t.edges || SomeAsksFor(l.origin, l.adverts, RouterKey(0) in t.verts || l.origin == 0, e)
  {
    AdvertsEdges(TRecord(t, l.origin, l.seqNbr), l.origin, l.adverts, e);
    hide SomeAsksFor;
  }

  /** A blocked update that says nothing is not. */
  lemma BlockedSaysNothing(t: Topo, l: Lsu, m: Lsu)
    requires l.origin != m.origin && Blocks(t, l, m) && m.adverts == [] && m.seqNbr >= 0
    ensures Applied(t, l) == Applied(Applied(t, m), l)
  {
    var tl := TRecord(t, l.origin, l.seqNbr);
    AppliedVertsCommute(t, l, m);
    AdvertsForm(tl, l.origin, l.adverts);
    assert Applied(Applied(t, l), m).verts == Applied(t, l).verts;
    forall e ensures e in Applied(t, l).edges <==> e in Applied(Applied(t, m), l).edges {
      AppliedEdges(t, m, l, e);
    }
    assert Applied(t, l).edges == Applied(Applied(t, m), l).edges;
  }

  /** Updates of two origins commute if and only if they are in no conflict. */
  lemma TReceiveCommutesExactly(t: Topo, self: Addr, l: Lsu, m: Lsu)
    requires EdgesInside(t) && l.origin != m.origin && l.seqNbr >= 0 && m.seqNbr >= 0
    ensures TReceive(TReceive(t, self, l), self, m) == TReceive(TReceive(t, self, m), self, l)
       <==> !Conflict(t, self, l, m)
  {
    GateAfter(t, self, l, m);
    GateAfter(t, self, m, l);
    hide Applied, ZeroLink, Blocks, EdgesInside;
    ReceiveIsApplied(t, self, l);
    ReceiveIsApplied(t, self, m);
    ReceiveIsApplied(Applied(t, l), self, m);
    ReceiveIsApplied(Applied(t, m), self, l);
    hide TReceive, TAccepts;
    if TAccepts(t, self, l) && TAccepts(t, self, m) {
      BothAccepted(t, l, m);
    }
  }

  lemma ReceiveIsApplied(t: Topo, self: Addr, l: Lsu)
    ensures TReceive(t, self, l) == if TAccepts(t, self, l) then Applied(t, l) else t
  {
  }

  /** The four cases of two accepted updates. */
  lemma BothAccepted(t: Topo, l: Lsu, m: Lsu)
    requires EdgesInside(t) && l.origin != m.origin && l.seqNbr >= 0 && m.seqNbr >= 0
    ensures var lm := if Blocks(t, l, m) then Applied(t, l) else Applied(Applied(t, l), m);
      var ml := if Blocks(t, m, l) then Applied(t, m) else Applied(Applied(t, m), l);
      lm == ml <==> !((Blocks(t, l, m) && m.adverts != []) || (Blocks(t, m, l) && l.adverts != [])
                      || ZeroLink(t, l, m) || ZeroLink(t, m, l))
  {
    BlocksNeedsAdverts(t, l, m);
    BlocksNeedsAdverts(t, m, l);
    hide Applied, Blocks, ZeroLink, EdgesInside;
    if Blocks(t, l, m) {
      if m.adverts != [] { BlockedIsMissed(t, l, m); } else { BlockedSaysNothing(t, l, m); }
    } else if Blocks(t, m, l) {
      if l.adverts != [] { BlockedIsMissed(t, m, l); } else { BlockedSaysNothing(t, m, l); }
    } else if ZeroLink(t, l, m) {
      ZeroLinkShows(t, l, m);
    } else if ZeroLink(t, m, l) {
      ZeroLinkShows(t, m, l);
    } else {
      AppliedVertsCommute(t, l, m);
      forall e ensures e in Applied(Applied(t, l), m).edges <==> e in Applied(Applied(t, m), l).edges {
        AppliedEdgesCommute(t, l, m, e);
        AppliedEdgesCommute(t, m, l, e);
      }
      assert Applied(Applied(t, l), m).edges == Applied(Applied(t, m), l).edges;
    }
  }

  lemma BlocksNeedsAdverts(t: Topo, l: Lsu, m: Lsu)
    ensures Blocks(t, l, m) ==> l.adverts != [] && (m.adverts == [] ==> !Blocks(t, m, l))
    ensures Blocks(t, l, m) && m.adverts == [] ==> !ZeroLink(t, l, m) && !ZeroLink(t, m, l)
  {
  }

  lemma RepresentedEdgesInside(g: Graph, t: Topo)
    requires Represents(g, t)
    ensures EdgesInside(t)
  {
  }

  /**
    Two updates from different routers give the same topology in either order if and only if they
    are in no conflict. Conflicts need sequence number 0 or router id 0, which no router sends
    before its numbers wrap.
  */
  lemma ReceiveCommutesExactly(g: Graph, self: Addr, l: Lsu, m: Lsu)
    requires Basic(g) && l.origin != m.origin && l.seqNbr >= 0 && m.seqNbr >= 0
    ensures Abs(Receive(Receive(g, self, l), self, m)) == Abs(Receive(Receive(g, self, m), self, l))
       <==> !Conflict(Abs(g), self, l, m)
  {
    hide Abs, Represents, Basic, Receive, Conflict, EdgesInside, TReceive, TAccepts, Accepts;
    var t := Abs(g);
    AbsRepresents(g);
    ReceivedTwice(g, t, self, l, m);
    ReceivedTwice(g, t, self, m, l);
    RepresentedEdgesInside(g, t);
    TReceiveCommutesExactly(t, self, l, m);
  }

  lemma ReceivedTwice(g: Graph, t: Topo, self: Addr, l: Lsu, m: Lsu)
    requires Basic(g) && Represents(g, t)
    ensures Basic(Receive(Receive(g, self, l), self, m))
    ensures Abs(Receive(Receive(g, self, l), self, m)) == TReceive(TReceive(t, self, l), self, m)
  {
    hide Abs, Represents, Basic, Receive, TReceive, TAccepts, Accepts;
    ReceiveRefines(g, t, self, l);
    ReceiveRefines(Receive(g, self, l), TReceive(t, self, l), self, m);
    var lm := Receive(Receive(g, self, l), self, m);
    AbsRepresents(lm);
    RepresentsUnique(lm, Abs(lm), TReceive(TReceive(t, self, l), self, m));
  }
}
