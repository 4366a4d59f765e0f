/**
  The topology graph as a value, and what one received link-state update does to it.

  The vertex list is kept newest first and ids are handed out from a counter, so the vertex
  with id `k` stands `k` places before the end of the list. A graph value is that list read
  from its end: `g[k]` is the vertex with id `k`, and list order is descending id.
*/
module Topology {
  import opened Words

  datatype Kind = ROUTER | SUBNET

  datatype Edge = Edge(src: int, dst: int, weight: int)

  datatype Vertex = Vertex(id: int, rid: Addr, subnet: Addr, mask: Addr, kind: Kind,
                           seqNbrSeen: int, head: seq<Edge>)

  type Graph = seq<Vertex>

  /** What the list searches of the handler compare. */
  datatype Key = RouterKey(rid: Addr) | LeafKey(rid: Addr, subnet: Addr)

  /** One advertisement of a link-state update; router id 0 means "no router on this link". */
  datatype Advert = Advert(subnet: Addr, mask: Addr, rid: Addr)

  datatype Lsu = Lsu(origin: Addr, seqNbr: int, adverts: seq<Advert>)

  // ----- list operations -----------------------------------------------------------------

  function KeyOf(v: Vertex): Key {
    if v.kind == ROUTER then RouterKey(v.rid) else LeafKey(v.rid, v.subnet)
  }

  /** The id of the first vertex in list order with key `k`, or -1. */
  function FindId(g: Graph, k: Key): (id: int)
    ensures -1 <= id < |g|
  {
    if g == [] then -1
    else if KeyOf(g[|g| - 1]) == k then |g| - 1
    else FindId(g[..|g| - 1], k)
  }

  lemma {:induction false} FindIdSpec(g: Graph, k: Key)
    ensures FindId(g, k) >= 0 ==> KeyOf(g[FindId(g, k)]) == k
    ensures forall j :: FindId(g, k) < j < |g| ==> KeyOf(g[j]) != k
  {
    if g != [] && KeyOf(g[|g| - 1]) != k {
      FindIdSpec(g[..|g| - 1], k);
    }
  }

  /** The edge test of the handler, which scans every adjacency list. */
  predicate HasEdge(g: Graph, src: int, dst: int) {
    exists id, a :: 0 <= id < |g| && 0 <= a < |g[id].head|
      && g[id].head[a].src == src && g[id].head[a].dst == dst
  }

  function NewVertex(id: int, k: Key, mask: Addr): Vertex {
    match k
    case RouterKey(rid) => Vertex(id, rid, 0, mask, ROUTER, 0, [])
    case LeafKey(rid, subnet) => Vertex(id, rid, subnet, mask, SUBNET, 0, [])
  }

  function AddVertex(g: Graph, k: Key, mask: Addr): Graph {
    g + [NewVertex(|g|, k, mask)]
  }

  function AddEdge(g: Graph, i: int, j: int): Graph
    requires 0 <= i < |g|
  {
    g[i := g[i].(head := [Edge(i, j, 1)] + g[i].head)]
  }

  function SetSeq(g: Graph, i: int, s: int): Graph
    requires 0 <= i < |g|
  {
    g[i := g[i].(seqNbrSeen := s)]
  }

  function EnsureVertex(g: Graph, k: Key, mask: Addr): (r: Graph)
    ensures FindId(g, k) >= 0 ==> r == g
    ensures forall k' :: FindId(r, k') == if FindId(g, k) < 0 && k' == k then |g| else FindId(g, k')
  {
    if FindId(g, k) >= 0 then g
    else
      assert AddVertex(g, k, mask)[..|g|] == g;
      AddVertex(g, k, mask)
  }

  function EnsureEdge(g: Graph, i: int, j: int): (r: Graph)
    requires 0 <= i < |g|
    ensures |r| == |g|
    ensures forall k :: FindId(r, k) == FindId(g, k)
  {
    if HasEdge(g, i, j) then g
    else
      SameKeysSameIds(g, AddEdge(g, i, j));
      AddEdge(g, i, j)
  }

  lemma {:induction false} SameKeysSameId(g: Graph, g': Graph, k: Key)
    requires |g| == |g'|
    requires forall id :: 0 <= id < |g| ==> KeyOf(g[id]) == KeyOf(g'[id])
    ensures FindId(g, k) == FindId(g', k)
  {
    if g != [] {
      SameKeysSameId(g[..|g| - 1], g'[..|g| - 1], k);
    }
  }

  lemma SameKeysSameIds(g: Graph, g': Graph)
    requires |g| == |g'|
    requires forall id :: 0 <= id < |g| ==> KeyOf(g[id]) == KeyOf(g'[id])
    ensures forall k :: FindId(g, k) == FindId(g', k)
  {
    forall k ensures FindId(g, k) == FindId(g', k) {
      SameKeysSameId(g, g', k);
    }
  }

  // ----- the link-state update -----------------------------------------------------------

  /** First half of the per-advertisement body: the subnet vertex and the edge to it. */
  function ApplyLeaf(g: Graph, o: Addr, a: Advert): (r: Graph)
    requires FindId(g, RouterKey(o)) >= 0
    ensures FindId(r, RouterKey(o)) == FindId(g, RouterKey(o))
    ensures |r| >= |g|
  {
    var g1 := EnsureVertex(g, LeafKey(o, a.subnet), a.mask);
    EnsureEdge(g1, FindId(g1, RouterKey(o)), FindId(g1, LeafKey(o, a.subnet)))
  }

  /** Second half: the attached router's vertex and the edges between the two routers. */
  function ApplyLink(g: Graph, o: Addr, rid: Addr): (r: Graph)
    requires FindId(g, RouterKey(o)) >= 0
    ensures FindId(r, RouterKey(o)) == FindId(g, RouterKey(o))
    ensures |r| >= |g|
  {
    var g1 := if rid != 0 then EnsureVertex(g, RouterKey(rid), 0) else g;
    var i, j := FindId(g1, RouterKey(o)), FindId(g1, RouterKey(rid));
    if j >= 0 then EnsureEdge(EnsureEdge(g1, i, j), j, i) else g1
  }

  /** The body of the per-advertisement loop, forwarding aside. */
  function ApplyAdvert(g: Graph, o: Addr, a: Advert): (r: Graph)
    requires FindId(g, RouterKey(o)) >= 0
    ensures FindId(r, RouterKey(o)) == FindId(g, RouterKey(o))
    ensures |r| >= |g|
  {
    ApplyLink(ApplyLeaf(g, o, a), o, a.rid)
  }

  function ApplyAdverts(g: Graph, o: Addr, advs: seq<Advert>): (r: Graph)
    requires FindId(g, RouterKey(o)) >= 0
    ensures FindId(r, RouterKey(o)) == FindId(g, RouterKey(o))
    ensures |r| >= |g|
  {
    if advs == [] then g
    else ApplyAdvert(ApplyAdverts(g, o, advs[..|advs| - 1]), o, advs[|advs| - 1])
  }

  /** The sequence-number gate: own updates and stale updates are dropped. */
  predicate Accepts(g: Graph, self: Addr, l: Lsu) {
    var i := FindId(g, RouterKey(l.origin));
    l.origin != self && (i >= 0 ==> g[i].seqNbrSeen < l.seqNbr)
  }

  /** Recording the sequence number, after creating the origin's vertex if need be. */
  function Record(g: Graph, o: Addr, s: int): (r: Graph)
    ensures FindId(r, RouterKey(o)) >= 0
    ensures |r| >= |g|
  {
    var g1 := EnsureVertex(g, RouterKey(o), 0);
    var i := FindId(g1, RouterKey(o));
    SameKeysSameIds(g1, SetSeq(g1, i, s));
    SetSeq(g1, i, s)
  }

  function Receive(g: Graph, self: Addr, l: Lsu): (r: Graph)
    ensures |r| >= |g|
  {
    if Accepts(g, self, l) then ApplyAdverts(Record(g, l.origin, l.seqNbr), l.origin, l.adverts) else g
  }

  // ----- the graph invariant -------------------------------------------------------------

  /** What every list operation keeps of one vertex in a graph of `n` vertices. */
  ghost predicate VertexOk(v: Vertex, id: int, n: int) {
    && v.id == id
    && (forall a :: 0 <= a < |v.head| ==> v.head[a] == Edge(id, v.head[a].dst, 1) && 0 <= v.head[a].dst < n)
    && (forall a, b :: 0 <= a < b < |v.head| ==> v.head[a].dst != v.head[b].dst)
    && (v.kind == ROUTER ==> v.subnet == v.mask == 0)
  }

  ghost predicate Shaped(g: Graph) {
    forall id {:trigger VertexOk(g[id], id, |g|)} :: 0 <= id < |g| ==> VertexOk(g[id], id, |g|)
  }

  ghost predicate DistinctKeys(g: Graph) {
    forall i, j :: 0 <= i < j < |g| ==> KeyOf(g[i]) != KeyOf(g[j])
  }

  ghost predicate Basic(g: Graph) {
    Shaped(g) && DistinctKeys(g)
  }

  ghost predicate Linked(g: Graph, i: int, j: int)
    requires 0 <= i < |g|
  {
    Edge(i, j, 1) in g[i].head
  }

  lemma HasEdgeIsLinked(g: Graph, i: int, j: int)
    requires Basic(g) && 0 <= i < |g|
    ensures HasEdge(g, i, j) <==> Linked(g, i, j)
  {
    if HasEdge(g, i, j) {
      var id, a :| 0 <= id < |g| && 0 <= a < |g[id].head|
        && g[id].head[a].src == i && g[id].head[a].dst == j;
      assert VertexOk(g[id], id, |g|);
    }
    if Linked(g, i, j) {
      var a :| 0 <= a < |g[i].head| && g[i].head[a] == Edge(i, j, 1);
    }
  }

  // ----- the abstract topology -----------------------------------------------------------

  /** What a vertex carries besides its key: mask and last sequence number. */
  datatype Attr = Attr(mask: Addr, seqNbr: int)

  /** A topology without ids and list order: attributes by key, and directed edges between keys. */
  datatype Topo = Topo(verts: map<Key, Attr>, edges: set<(Key, Key)>)

  function AttrOf(v: Vertex): Attr { Attr(v.mask, v.seqNbrSeen) }

  ghost predicate VertIn(t: Topo, v: Vertex) {
    KeyOf(v) in t.verts && t.verts[KeyOf(v)] == AttrOf(v)
  }

  ghost predicate EdgeIn(g: Graph, t: Topo, i: int, j: int)
    requires 0 <= i < |g| && 0 <= j < |g|
  {
    (KeyOf(g[i]), KeyOf(g[j])) in t.edges <==> Linked(g, i, j)
  }

  /** `t` is the topology of `g`. */
  ghost predicate Represents(g: Graph, t: Topo) {
    && (forall id {:trigger VertIn(t, g[id])} :: 0 <= id < |g| ==> VertIn(t, g[id]))
    && (forall k :: k in t.verts ==> exists id :: 0 <= id < |g| && KeyOf(g[id]) == k)
    && (forall i, j {:trigger EdgeIn(g, t, i, j)} :: 0 <= i < |g| && 0 <= j < |g| ==> EdgeIn(g, t, i, j))
    && (forall k1, k2 :: (k1, k2) in t.edges ==> k1 in t.verts && k2 in t.verts)
  }

  lemma RepresentsFind(g: Graph, t: Topo, k: Key)
    requires Represents(g, t)
    ensures k in t.verts <==> FindId(g, k) >= 0
    ensures FindId(g, k) >= 0 ==> t.verts[k] == AttrOf(g[FindId(g, k)])
  {
    FindIdSpec(g, k);
    if FindId(g, k) >= 0 { assert VertIn(t, g[FindId(g, k)]); }
  }

  /** The topology of a graph. */
  ghost function Abs(g: Graph): Topo {
    Topo(map id | 0 <= id < |g| && FindId(g, KeyOf(g[id])) == id :: KeyOf(g[id]) := AttrOf(g[id]),
         set i, j | 0 <= i < |g| && 0 <= j < |g| && Linked(g, i, j) :: (KeyOf(g[i]), KeyOf(g[j])))
  }

  lemma AbsRepresents(g: Graph)
    requires Basic(g)
    ensures Represents(g, Abs(g))
  {
    forall id | 0 <= id < |g| ensures FindId(g, KeyOf(g[id])) == id {
      FindIdSpec(g, KeyOf(g[id]));
    }
  }

  lemma RepresentsUnique(g: Graph, t: Topo, t': Topo)
    requires Represents(g, t) && Represents(g, t')
    ensures t == t'
  {
    VertsIncluded(g, t, t');
    VertsIncluded(g, t', t);
    EdgesIncluded(g, t, t');
    EdgesIncluded(g, t', t);
    assert t.verts == t'.verts;
  }

  lemma VertsIncluded(g: Graph, t: Topo, t': Topo)
    requires Represents(g, t) && Represents(g, t')
    ensures forall k :: k in t.verts ==> k in t'.verts && t'.verts[k] == t.verts[k]
  {
    forall k | k in t.verts ensures k in t'.verts && t'.verts[k] == t.verts[k] {
      var id :| 0 <= id < |g| && KeyOf(g[id]) == k;
      assert VertIn(t, g[id]) && VertIn(t', g[id]);
    }
  }

  lemma EdgesIncluded(g: Graph, t: Topo, t': Topo)
    requires Represents(g, t) && Represents(g, t')
    ensures t.edges <= t'.edges
  {
    forall e | e in t.edges ensures e in t'.edges {
      assert (e.0, e.1) in t.edges;
      var i :| 0 <= i < |g| && KeyOf(g[i]) == e.0;
      var j :| 0 <= j < |g| && KeyOf(g[j]) == e.1;
      assert EdgeIn(g, t, i, j) && EdgeIn(g, t', i, j);
    }
  }

  // ----- renumbering ---------------------------------------------------------------------

  /** `f` and its inverse `f'` match the vertices of `g` and `h`, with all they carry and all edges. */
  ghost predicate Renumbers(g: Graph, h: Graph, f: seq<int>, f': seq<int>) {
    && |f| == |g| && |f'| == |h|
    && (forall i :: 0 <= i < |g| ==> 0 <= f[i] < |h| && f'[f[i]] == i)
    && (forall j :: 0 <= j < |h| ==> 0 <= f'[j] < |g| && f[f'[j]] == j)
    && (forall i :: 0 <= i < |g| ==> KeyOf(h[f[i]]) == KeyOf(g[i]) && AttrOf(h[f[i]]) == AttrOf(g[i]))
    && (forall i, j :: 0 <= i < |g| && 0 <= j < |g| ==> (Linked(h, f[i], f[j]) <==> Linked(g, i, j)))
  }

  /** Two graphs have the same topology if and only if one is a renumbering of the other. */
  lemma SameTopologyExactly(g: Graph, h: Graph)
    requires Basic(g) && Basic(h)
    ensures Abs(g) == Abs(h) <==> exists f, f' :: Renumbers(g, h, f, f')
  {
    hide Abs, Basic, Represents, Renumbers;
    AbsRepresents(g);
    AbsRepresents(h);
    if Abs(g) == Abs(h) {
      var f, f' := Matched(g, h), Matched(h, g);
      MatchedRenumbers(g, h, Abs(g));
    }
    if f, f' :| Renumbers(g, h, f, f') {
      RenumberedRepresents(g, h, f, f', Abs(g));
      RepresentsUnique(h, Abs(g), Abs(h));
    }
  }

  /** The id in `h` of each vertex of `g`. */
  ghost function Matched(g: Graph, h: Graph): (f: seq<int>)
    ensures |f| == |g| && forall i :: 0 <= i < |g| ==> f[i] == FindId(h, KeyOf(g[i]))
  {
    seq(|g|, i requires 0 <= i < |g| => FindId(h, KeyOf(g[i])))
  }

  lemma MatchedRenumbers(g: Graph, h: Graph, t: Topo)
    requires Basic(g) && Basic(h) && Represents(g, t) && Represents(h, t)
    ensures Renumbers(g, h, Matched(g, h), Matched(h, g))
  {
    MatchedIs(g, h, t);
    MatchedIs(h, g, t);
    hide FindId, Basic;
    var f := Matched(g, h);
    forall i, j | 0 <= i < |g| && 0 <= j < |g| ensures Linked(h, f[i], f[j]) <==> Linked(g, i, j) {
      assert EdgeIn(g, t, i, j) && EdgeIn(h, t, f[i], f[j]);
    }
  }

  lemma MatchedIs(g: Graph, h: Graph, t: Topo)
    requires Basic(g) && Basic(h) && Represents(g, t) && Represents(h, t)
    ensures forall i :: 0 <= i < |g| ==>
              var j := FindId(h, KeyOf(g[i])); 0 <= j && KeyOf(h[j]) == KeyOf(g[i]) && AttrOf(h[j]) == AttrOf(g[i])
                                               && FindId(g, KeyOf(h[j])) == i
  {
    forall i | 0 <= i < |g|
      ensures var j := FindId(h, KeyOf(g[i])); 0 <= j && KeyOf(h[j]) == KeyOf(g[i]) && AttrOf(h[j]) == AttrOf(g[i])
                                               && FindId(g, KeyOf(h[j])) == i
    {
      var k := KeyOf(g[i]);
      assert VertIn(t, g[i]);
      RepresentsFind(h, t, k);
      FindIdSpec(h, k);
      FindIdSpec(g, k);
    }
  }

  lemma RenumberedRepresents(g: Graph, h: Graph, f: seq<int>, f': seq<int>, t: Topo)
    requires Represents(g, t) && Renumbers(g, h, f, f')
    ensures Represents(h, t)
  {
    forall j | 0 <= j < |h| ensures VertIn(t, h[j]) {
      assert f[f'[j]] == j;
      assert VertIn(t, g[f'[j]]);
    }
    forall k | k in t.verts ensures exists j :: 0 <= j < |h| && KeyOf(h[j]) == k {
      var i :| 0 <= i < |g| && KeyOf(g[i]) == k;
      assert KeyOf(h[f[i]]) == k;
    }
    forall x, y | 0 <= x < |h| && 0 <= y < |h| ensures EdgeIn(h, t, x, y) {
      assert f[f'[x]] == x && f[f'[y]] == y;
      assert EdgeIn(g, t, f'[x], f'[y]);
    }
  }

  function TVertex(t: Topo, k: Key, mask: Addr): Topo {
    if k in t.verts then t else t.(verts := t.verts[k := Attr(mask, 0)])
  }

  function TEdge(t: Topo, k1: Key, k2: Key): Topo {
    t.(edges := t.edges + {(k1, k2)})
  }

  function TLeaf(t: Topo, o: Addr, a: Advert): Topo {
    TEdge(TVertex(t, LeafKey(o, a.subnet), a.mask), RouterKey(o), LeafKey(o, a.subnet))
  }

  function TLink(t: Topo, o: Addr, rid: Addr): Topo {
    var t1 := if rid != 0 then TVertex(t, RouterKey(rid), 0) else t;
    if RouterKey(rid) in t1.verts
    then TEdge(TEdge(t1, RouterKey(o), RouterKey(rid)), RouterKey(rid), RouterKey(o)) else t1
  }

  function TAdvert(t: Topo, o: Addr, a: Advert): Topo {
    TLink(TLeaf(t, o, a), o, a.rid)
  }

  function TAdverts(t: Topo, o: Addr, advs: seq<Advert>): Topo {
    if advs == [] then t else TAdvert(TAdverts(t, o, advs[..|advs| - 1]), o, advs[|advs| - 1])
  }

  function TRecord(t: Topo, o: Addr, s: int): Topo {
    t.(verts := t.verts[RouterKey(o) := Attr(0, s)])
  }

  predicate TAccepts(t: Topo, self: Addr, l: Lsu) {
    l.origin != self && (RouterKey(l.origin) in t.verts ==> t.verts[RouterKey(l.origin)].seqNbr < l.seqNbr)
  }

  function TReceive(t: Topo, self: Addr, l: Lsu): Topo {
    if TAccepts(t, self, l) then TAdverts(TRecord(t, l.origin, l.seqNbr), l.origin, l.adverts) else t
  }

  // ----- the list operations refine the abstract ones ------------------------------------

  lemma AddVertexBasic(g: Graph, k: Key, mask: Addr)
    requires Basic(g) && FindId(g, k) < 0
    requires k.RouterKey? ==> mask == 0
    ensures Basic(AddVertex(g, k, mask))
  {
    var r := AddVertex(g, k, mask);
    FindIdSpec(g, k);
    assert r[|g|] == NewVertex(|g|, k, mask);
    assert forall id :: 0 <= id < |g| ==> r[id] == g[id];
    assert forall id :: 0 <= id < |g| ==> VertexOk(g[id], id, |g|);
  }

  lemma AddVertexLinks(g: Graph, k: Key, mask: Addr, x: int, y: int)
    requires Basic(g) && 0 <= x <= |g| && 0 <= y <= |g|
    ensures Linked(AddVertex(g, k, mask), x, y) <==> x < |g| && y < |g| && Linked(g, x, y)
  {
    var r := AddVertex(g, k, mask);
    if x < |g| {
      assert r[x] == g[x];
      assert VertexOk(g[x], x, |g|);
    } else {
      assert r[x] == NewVertex(|g|, k, mask);
    }
  }

  lemma AddVertexRefines(g: Graph, t: Topo, k: Key, mask: Addr)
    requires Basic(g) && Represents(g, t) && k !in t.verts
    ensures Represents(AddVertex(g, k, mask), TVertex(t, k, mask))
  {
    var r := AddVertex(g, k, mask);
    var t' := TVertex(t, k, mask);
    forall id | 0 <= id < |r| ensures VertIn(t', r[id]) {
      if id < |g| { assert VertIn(t, g[id]); }
    }
    forall k' | k' in t'.verts ensures exists id :: 0 <= id < |r| && KeyOf(r[id]) == k' {
      if k' == k {
        assert KeyOf(r[|g|]) == k;
      } else {
        var id :| 0 <= id < |g| && KeyOf(g[id]) == k';
        assert KeyOf(r[id]) == k';
      }
    }
    forall i, j | 0 <= i < |r| && 0 <= j < |r| ensures EdgeIn(r, t', i, j) {
      AddVertexLinks(g, k, mask, i, j);
      if i < |g| && j < |g| { assert EdgeIn(g, t, i, j); }
    }
  }

  lemma EnsureVertexRefines(g: Graph, t: Topo, k: Key, mask: Addr)
    requires Basic(g) && Represents(g, t)
    requires k.RouterKey? ==> mask == 0
    ensures Basic(EnsureVertex(g, k, mask))
    ensures Represents(EnsureVertex(g, k, mask), TVertex(t, k, mask))
  {
    RepresentsFind(g, t, k);
    if FindId(g, k) < 0 {
      AddVertexBasic(g, k, mask);
      AddVertexRefines(g, t, k, mask);
    }
  }

  lemma AddEdgeBasic(g: Graph, i: int, j: int)
    requires Basic(g) && 0 <= i < |g| && 0 <= j < |g| && !Linked(g, i, j)
    ensures Basic(AddEdge(g, i, j))
  {
    var r := AddEdge(g, i, j);
    assert forall id :: 0 <= id < |g| && id != i ==> r[id] == g[id];
    assert VertexOk(r[i], i, |g|) by {
      assert VertexOk(g[i], i, |g|);
      assert r[i].head[1..] == g[i].head;
      forall a | 0 <= a < |g[i].head| ensures g[i].head[a].dst != j {
        assert g[i].head[a] in g[i].head;
      }
    }
    forall id | 0 <= id < |r| ensures VertexOk(r[id], id, |r|) {
      assert VertexOk(g[id], id, |g|);
    }
    forall a, b | 0 <= a < b < |r| ensures KeyOf(r[a]) != KeyOf(r[b]) {
      assert KeyOf(r[a]) == KeyOf(g[a]) && KeyOf(r[b]) == KeyOf(g[b]);
    }
  }

  lemma AddEdgeLinks(g: Graph, i: int, j: int, x: int, y: int)
    requires 0 <= i < |g| && 0 <= x < |g|
    ensures Linked(AddEdge(g, i, j), x, y) <==> Linked(g, x, y) || (x, y) == (i, j)
  {
    var r := AddEdge(g, i, j);
    if x == i {
      assert r[x].head == [Edge(i, j, 1)] + g[x].head;
    } else {
      assert r[x] == g[x];
    }
  }

  lemma AddEdgeRefines(g: Graph, t: Topo, i: int, j: int)
    requires DistinctKeys(g) && Represents(g, t) && 0 <= i < |g| && 0 <= j < |g|
    ensures Represents(AddEdge(g, i, j), TEdge(t, KeyOf(g[i]), KeyOf(g[j])))
  {
    var r, t' := AddEdge(g, i, j), TEdge(t, KeyOf(g[i]), KeyOf(g[j]));
    forall id | 0 <= id < |r| ensures VertIn(t', r[id]) { assert VertIn(t, g[id]); }
    forall k | k in t'.verts ensures exists id :: 0 <= id < |r| && KeyOf(r[id]) == k {
      var id :| 0 <= id < |g| && KeyOf(g[id]) == k;
      assert KeyOf(r[id]) == k;
    }
    forall x, y | 0 <= x < |r| && 0 <= y < |r| ensures EdgeIn(r, t', x, y) {
      AddEdgeLinks(g, i, j, x, y);
      assert EdgeIn(g, t, x, y);
    }
    assert VertIn(t, g[i]) && VertIn(t, g[j]);
  }

  lemma EnsureEdgeRefines(g: Graph, t: Topo, k1: Key, k2: Key)
    requires Basic(g) && Represents(g, t) && FindId(g, k1) >= 0 && FindId(g, k2) >= 0
    ensures Basic(EnsureEdge(g, FindId(g, k1), FindId(g, k2)))
    ensures Represents(EnsureEdge(g, FindId(g, k1), FindId(g, k2)), TEdge(t, k1, k2))
  {
    var i, j := FindId(g, k1), FindId(g, k2);
    FindIdSpec(g, k1);
    FindIdSpec(g, k2);
    HasEdgeIsLinked(g, i, j);
    if HasEdge(g, i, j) {
      assert EdgeIn(g, t, i, j);
      assert TEdge(t, k1, k2).edges == t.edges;
    } else {
      AddEdgeBasic(g, i, j);
      AddEdgeRefines(g, t, i, j);
    }
  }

  lemma SetSeqBasic(g: Graph, i: int, s: int)
    requires Basic(g) && 0 <= i < |g|
    ensures Basic(SetSeq(g, i, s))
  {
    var r := SetSeq(g, i, s);
    assert forall id :: 0 <= id < |g| && id != i ==> r[id] == g[id];
    assert r[i] == g[i].(seqNbrSeen := s);
    forall id | 0 <= id < |r| ensures VertexOk(r[id], id, |r|) {
      assert VertexOk(g[id], id, |g|);
    }
    forall a, b | 0 <= a < b < |r| ensures KeyOf(r[a]) != KeyOf(r[b]) {
      assert KeyOf(r[a]) == KeyOf(g[a]) && KeyOf(r[b]) == KeyOf(g[b]);
    }
  }

  lemma SetSeqRefines(g: Graph, t: Topo, i: int, s: int)
    requires DistinctKeys(g) && Represents(g, t)
    requires 0 <= i < |g| && g[i].kind == ROUTER && g[i].mask == 0
    ensures Represents(SetSeq(g, i, s), TRecord(t, g[i].rid, s))
  {
    var r, t' := SetSeq(g, i, s), TRecord(t, g[i].rid, s);
    assert VertIn(t, g[i]);
    forall id | 0 <= id < |r| ensures VertIn(t', r[id]) { assert VertIn(t, g[id]); }
    forall k | k in t'.verts ensures exists id :: 0 <= id < |r| && KeyOf(r[id]) == k {
      var id :| 0 <= id < |g| && KeyOf(g[id]) == k;
      assert KeyOf(r[id]) == k;
    }
    forall x, y | 0 <= x < |r| && 0 <= y < |r| ensures EdgeIn(r, t', x, y) {
      assert EdgeIn(g, t, x, y);
    }
  }

  lemma RecordKnownRefines(g: Graph, t: Topo, o: Addr, s: int)
    requires Basic(g) && Represents(g, t) && FindId(g, RouterKey(o)) >= 0
    ensures Basic(SetSeq(g, FindId(g, RouterKey(o)), s))
    ensures Represents(SetSeq(g, FindId(g, RouterKey(o)), s), TRecord(t, o, s))
  {
    var i := FindId(g, RouterKey(o));
    FindIdSpec(g, RouterKey(o));
    assert VertexOk(g[i], i, |g|);
    SetSeqBasic(g, i, s);
    SetSeqRefines(g, t, i, s);
  }

  lemma RecordRefines(g: Graph, t: Topo, o: Addr, s: int)
    requires Basic(g) && Represents(g, t)
    ensures Basic(Record(g, o, s)) && Represents(Record(g, o, s), TRecord(t, o, s))
  {
    hide FindId, Represents, Basic;
    EnsureVertexRefines(g, t, RouterKey(o), 0);
    RecordKnownRefines(EnsureVertex(g, RouterKey(o), 0), TVertex(t, RouterKey(o), 0), o, s);
    assert TRecord(TVertex(t, RouterKey(o), 0), o, s).verts == TRecord(t, o, s).verts;
  }

  lemma ApplyLeafRefines(g: Graph, t: Topo, o: Addr, a: Advert)
    requires Basic(g) && Represents(g, t) && FindId(g, RouterKey(o)) >= 0
    ensures Basic(ApplyLeaf(g, o, a)) && Represents(ApplyLeaf(g, o, a), TLeaf(t, o, a))
  {
    var k := LeafKey(o, a.subnet);
    EnsureVertexRefines(g, t, k, a.mask);
    EnsureEdgeRefines(EnsureVertex(g, k, a.mask), TVertex(t, k, a.mask), RouterKey(o), k);
  }

  lemma ApplyLinkRefines(g: Graph, t: Topo, o: Addr, rid: Addr)
    requires Basic(g) && Represents(g, t) && FindId(g, RouterKey(o)) >= 0
    ensures Basic(ApplyLink(g, o, rid)) && Represents(ApplyLink(g, o, rid), TLink(t, o, rid))
  {
    hide FindId, HasEdge, AddEdge, Represents, Basic;
    var ok, rk := RouterKey(o), RouterKey(rid);
    var g1 := if rid != 0 then EnsureVertex(g, rk, 0) else g;
    var t1 := if rid != 0 then TVertex(t, rk, 0) else t;
    EnsureVertexRefines(g, t, rk, 0);
    RepresentsFind(g1, t1, rk);
    if FindId(g1, rk) >= 0 {
      EnsureEdgeRefines(g1, t1, ok, rk);
      EnsureEdgeRefines(EnsureEdge(g1, FindId(g1, ok), FindId(g1, rk)), TEdge(t1, ok, rk), rk, ok);
    }
  }

  lemma ApplyAdvertRefines(g: Graph, t: Topo, o: Addr, a: Advert)
    requires Basic(g) && Represents(g, t) && FindId(g, RouterKey(o)) >= 0
    ensures Basic(ApplyAdvert(g, o, a)) && Represents(ApplyAdvert(g, o, a), TAdvert(t, o, a))
  {
    ApplyLeafRefines(g, t, o, a);
    ApplyLinkRefines(ApplyLeaf(g, o, a), TLeaf(t, o, a), o, a.rid);
  }

  lemma {:induction false} ApplyAdvertsRefines(g: Graph, t: Topo, o: Addr, advs: seq<Advert>)
    requires Basic(g) && Represents(g, t) && FindId(g, RouterKey(o)) >= 0
    ensures Basic(ApplyAdverts(g, o, advs)) && Represents(ApplyAdverts(g, o, advs), TAdverts(t, o, advs))
  {
    if advs != [] {
      var init := advs[..|advs| - 1];
      ApplyAdvertsRefines(g, t, o, init);
      ApplyAdvertRefines(ApplyAdverts(g, o, init), TAdverts(t, o, init), o, advs[|advs| - 1]);
    }
  }

  /** The handler on lists is the handler on topologies, whatever the ids and the list order. */
  lemma ReceiveRefines(g: Graph, t: Topo, self: Addr, l: Lsu)
    requires Basic(g) && Represents(g, t)
    ensures Accepts(g, self, l) <==> TAccepts(t, self, l)
    ensures Basic(Receive(g, self, l)) && Represents(Receive(g, self, l), TReceive(t, self, l))
  {
    RepresentsFind(g, t, RouterKey(l.origin));
    if Accepts(g, self, l) {
      RecordRefines(g, t, l.origin, l.seqNbr);
      ApplyAdvertsRefines(Record(g, l.origin, l.seqNbr), TRecord(t, l.origin, l.seqNbr), l.origin, l.adverts);
    }
  }
}
