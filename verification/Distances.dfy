/**
  Distances depend on the topology alone, not on ids or list order; and in every graph the
  router builds, a reached subnet hangs off the router that advertised it.
*/
module Distances {
  import opened Words
  import opened Topology
  import opened ShortestPaths
  import opened Convergence

  /** `t` is reached from `s` in `n` steps along edges between keys. */
  ghost predicate Reaches(edges: set<(Key, Key)>, s: Key, t: Key, n: nat)
    decreases n
  {
    if n == 0 then s == t else exists m :: (m, t) in edges && Reaches(edges, s, m, n - 1)
  }

  lemma BasicIsSound(g: Graph)
    requires Basic(g)
    ensures Sound(g) && UnitWeights(g)
  {
    forall u, a | 0 <= u < |g| && 0 <= a < |g[u].head|
      ensures EdgeSound(g, u, g[u].head[a]) && g[u].head[a].weight == 1
    {
      assert VertexOk(g[u], u, |g|);
    }
  }

  lemma EdgeIsLink(g: Graph, e: Edge)
    requires Basic(g) && EdgeOf(g, e)
    ensures 0 <= e.dst < |g| && e.weight == 1 && Linked(g, e.src, e.dst)
  {
    assert VertexOk(g[e.src], e.src, |g|);
    var a :| 0 <= a < |g[e.src].head| && g[e.src].head[a] == e;
  }

  lemma {:induction false} WalkReaches(g: Graph, t: Topo, s: int, v: int, p: seq<Edge>)
    requires Basic(g) && Represents(g, t) && Walk(g, s, v, p) && 0 <= s < |g|
    ensures 0 <= v < |g| && Weight(p) == |p| && Reaches(t.edges, KeyOf(g[s]), KeyOf(g[v]), |p|)
    decreases p
  {
    if p != [] {
      var e := p[|p| - 1];
      EdgeIsLink(g, e);
      WalkReaches(g, t, s, e.src, p[..|p| - 1]);
      assert EdgeIn(g, t, e.src, e.dst);
    }
  }

  lemma {:induction false} ReachedByWalk(g: Graph, t: Topo, s: int, v: int, n: nat) returns (p: seq<Edge>)
    requires Basic(g) && Represents(g, t) && 0 <= s < |g| && 0 <= v < |g|
    requires Reaches(t.edges, KeyOf(g[s]), KeyOf(g[v]), n)
    ensures Walk(g, s, v, p) && Weight(p) == n
    decreases n
  {
    if n == 0 {
      p := [];
      assert s == v;
    } else {
      var k :| (k, KeyOf(g[v])) in t.edges && Reaches(t.edges, KeyOf(g[s]), k, n - 1);
      var u :| 0 <= u < |g| && KeyOf(g[u]) == k;
      assert EdgeIn(g, t, u, v);
      var q := ReachedByWalk(g, t, s, u, n - 1);
      p := q + [Edge(u, v, 1)];
      RelaxedPath(g, s, q, Edge(u, v, 1));
    }
  }

  lemma NotFarther(t: Topo, g1: Graph, s1: int, v1: int, d1: int, g2: Graph, s2: int, v2: int, d2: int)
    requires Basic(g1) && Represents(g1, t) && Basic(g2) && Represents(g2, t)
    requires 0 <= s1 < |g1| && 0 <= v1 < |g1| && 0 <= s2 < |g2| && 0 <= v2 < |g2|
    requires KeyOf(g1[s1]) == KeyOf(g2[s2]) && KeyOf(g1[v1]) == KeyOf(g2[v2])
    requires IsCappedDistance(g1, s1, v1, d1) && IsCappedDistance(g2, s2, v2, d2)
    ensures d2 <= d1
  {
    if d1 < INFINITE {
      var p :| Walk(g1, s1, v1, p) && Weight(p) == d1;
      WalkReaches(g1, t, s1, v1, p);
      var q := ReachedByWalk(g2, t, s2, v2, |p|);
    }
  }

  /** Exact labels of corresponding vertices in graphs of the same topology are equal. */
  lemma SameTopologySameDistance(g1: Graph, s1: int, l1: seq<Label>, v1: int,
                                 g2: Graph, s2: int, l2: seq<Label>, v2: int)
    requires Basic(g1) && Basic(g2) && Abs(g1) == Abs(g2)
    requires Exact(g1, s1, l1) && Exact(g2, s2, l2)
    requires 0 <= s1 < |g1| && 0 <= v1 < |g1| && 0 <= s2 < |g2| && 0 <= v2 < |g2|
    requires KeyOf(g1[s1]) == KeyOf(g2[s2]) && KeyOf(g1[v1]) == KeyOf(g2[v2])
    ensures l1[v1].d == l2[v2].d
  {
    AbsRepresents(g1);
    AbsRepresents(g2);
    NotFarther(Abs(g1), g1, s1, v1, l1[v1].d, g2, s2, v2, l2[v2].d);
    NotFarther(Abs(g1), g2, s2, v2, l2[v2].d, g1, s1, v1, l1[v1].d);
  }

  /** Two updates from different routers, in no conflict, give the same distances in either order. */
  lemma UpdateOrderKeepsDistances(g: Graph, self: Addr, l: Lsu, m: Lsu,
                                  llm: seq<Label>, lml: seq<Label>, v: int, w: int)
    requires Basic(g) && FindId(g, RouterKey(self)) >= 0
    requires l.origin != m.origin && l.seqNbr >= 0 && m.seqNbr >= 0 && !Conflict(Abs(g), self, l, m)
    requires Exact(Receive(Receive(g, self, l), self, m), FindId(g, RouterKey(self)), llm)
    requires Exact(Receive(Receive(g, self, m), self, l), FindId(g, RouterKey(self)), lml)
    requires 0 <= v < |llm| && 0 <= w < |lml|
    requires KeyOf(Receive(Receive(g, self, l), self, m)[v]) == KeyOf(Receive(Receive(g, self, m), self, l)[w])
    ensures llm[v].d == lml[w].d
  {
    var s := FindId(g, RouterKey(self));
    var t := Abs(g);
    AbsRepresents(g);
    FindIdSpec(g, RouterKey(self));
    ReceiveRefines(g, t, self, l);
    ReceiveRefines(g, t, self, m);
    ReceiveRefines(Receive(g, self, l), TReceive(t, self, l), self, m);
    ReceiveRefines(Receive(g, self, m), TReceive(t, self, m), self, l);
    ReceiveCommutesExactly(g, self, l, m);
    ReceiveKeepsKeys(g, self, l);
    ReceiveKeepsKeys(g, self, m);
    ReceiveKeepsKeys(Receive(g, self, l), self, m);
    ReceiveKeepsKeys(Receive(g, self, m), self, l);
    SameTopologySameDistance(Receive(Receive(g, self, l), self, m), s, llm, v,
                             Receive(Receive(g, self, m), self, l), s, lml, w);
  }

  // ----- ids are stable ------------------------------------------------------------------

  ghost predicate KeepsKeys(g: Graph, g': Graph) {
    |g| <= |g'| && forall i :: 0 <= i < |g| ==> KeyOf(g'[i]) == KeyOf(g[i])
  }

  lemma EnsureVertexKeepsKeys(g: Graph, k: Key, mask: Addr)
    ensures KeepsKeys(g, EnsureVertex(g, k, mask))
  {
  }

  lemma EnsureEdgeKeepsKeys(g: Graph, i: int, j: int)
    requires 0 <= i < |g|
    ensures KeepsKeys(g, EnsureEdge(g, i, j))
  {
  }

  lemma LeafKeepsKeys(g: Graph, o: Addr, a: Advert)
    requires FindId(g, RouterKey(o)) >= 0
    ensures KeepsKeys(g, ApplyLeaf(g, o, a))
  {
    var g1 := EnsureVertex(g, LeafKey(o, a.subnet), a.mask);
    EnsureVertexKeepsKeys(g, LeafKey(o, a.subnet), a.mask);
    EnsureEdgeKeepsKeys(g1, FindId(g1, RouterKey(o)), FindId(g1, LeafKey(o, a.subnet)));
  }

  lemma LinkKeepsKeys(g: Graph, o: Addr, rid: Addr)
    requires FindId(g, RouterKey(o)) >= 0
    ensures KeepsKeys(g, ApplyLink(g, o, rid))
  {
    var g1 := if rid != 0 then EnsureVertex(g, RouterKey(rid), 0) else g;
    EnsureVertexKeepsKeys(g, RouterKey(rid), 0);
    var i, j := FindId(g1, RouterKey(o)), FindId(g1, RouterKey(rid));
    if j >= 0 {
      EnsureEdgeKeepsKeys(g1, i, j);
      EnsureEdgeKeepsKeys(EnsureEdge(g1, i, j), j, i);
    }
  }

  lemma {:induction false} AdvertsKeepKeys(g: Graph, o: Addr, advs: seq<Advert>)
    requires FindId(g, RouterKey(o)) >= 0
    ensures KeepsKeys(g, ApplyAdverts(g, o, advs))
  {
    if advs != [] {
      var init, a := advs[..|advs| - 1], advs[|advs| - 1];
      var g1 := ApplyAdverts(g, o, init);
      AdvertsKeepKeys(g, o, init);
      LeafKeepsKeys(g1, o, a);
      LinkKeepsKeys(ApplyLeaf(g1, o, a), o, a.rid);
    }
  }

  /** A vertex keeps its id and key for ever. */
  lemma ReceiveKeepsKeys(g: Graph, self: Addr, l: Lsu)
    ensures KeepsKeys(g, Receive(g, self, l))
  {
    if Accepts(g, self, l) {
      AdvertsKeepKeys(Record(g, l.origin, l.seqNbr), l.origin, l.adverts);
    }
  }

  // ----- the parent of a reached subnet --------------------------------------------------

  /** A reached subnet's parent is the router vertex with the subnet's own router id. */
  lemma LeafParentIsItsRouter(g: Graph, s: int, l: seq<Label>, v: int)
    requires GraphInv(g) && Exact(g, s, l) && 0 <= v < |g| && g[v].kind == SUBNET
    requires l[v].parent != -1
    ensures 0 <= l[v].parent < |g| && KeyOf(g[l[v].parent]) == RouterKey(g[v].rid)
  {
    var e :| ParentExplains(g, l, v, e);
    EdgeIsLink(g, e);
    assert LeafOk(g, v);
  }

  /** A subnet vertex is reached exactly when its router is reached at distance below 6. */
  lemma LeafReachedExactly(g: Graph, s: int, l: seq<Label>, v: int, r: int)
    requires GraphInv(g) && Exact(g, s, l) && 0 <= s < |g| && g[s].kind == ROUTER
    requires 0 <= v < |g| && g[v].kind == SUBNET && 0 <= r < |g| && KeyOf(g[r]) == RouterKey(g[v].rid)
    ensures l[v].parent != -1 <==> l[r].d < INFINITE - 1
    ensures l[v].parent != -1 ==> l[v].d == l[r].d + 1 && l[v].parent == r
  {
    assert LeafOk(g, v);
    assert Linked(g, r, v);
    var e := Edge(r, v, 1);
    if l[r].d < INFINITE {
      var p :| Walk(g, s, r, p) && Weight(p) == l[r].d;
      RelaxedPath(g, s, p, e);
    }
    if l[v].parent != -1 {
      LeafParentIsItsRouter(g, s, l, v);
      var f :| ParentExplains(g, l, v, f);
      EdgeIsLink(g, f);
    }
  }
}
