/**
  The topology graph as the router keeps it: a list of vertex records that are updated in place.
*/
module SubnetGraphs {
  import opened Words
  import opened Topology
  import opened ShortestPaths

  class VertexNode {
    const id: int
    const rid: Addr
    const subnet: Addr
    const networkMask: Addr
    const kind: Kind
    var seqNbrSeen: int
    var head: seq<Edge>    // adjacency list, newest edge first
    var visited: bool
    var d: int             // not set before the first search
    var parent: int        // not set before the first search

    constructor (id: int, rid: Addr, subnet: Addr, networkMask: Addr, kind: Kind)
      ensures this.id == id && View() == Vertex(id, rid, subnet, networkMask, kind, 0, [])
    {
      this.id, this.rid, this.subnet, this.networkMask, this.kind := id, rid, subnet, networkMask, kind;
      seqNbrSeen, head, visited := 0, [], false;
    }

    ghost function View(): Vertex
      reads this
    {
      Vertex(id, rid, subnet, networkMask, kind, seqNbrSeen, head)
    }

    ghost function LabelView(): Label
      reads this
    {
      Label(d, parent, visited)
    }
  }

  class SubnetGraph {
    var vrtxList: seq<VertexNode>   // newest vertex first
    var vertexId: int               // next id
    ghost var graph: Graph          // the list read from its end
    ghost var labels: seq<Label>    // the search labels by id

    ghost predicate Valid()
      reads this, vrtxList
    {
      && vertexId == |vrtxList| == |graph| == |labels|
      && forall p :: 0 <= p < |vrtxList| ==> Holds(p)
    }

    ghost predicate Holds(p: int)
      requires 0 <= p < |vrtxList| == |graph| == |labels|
      reads this, vrtxList
    {
      var id := |vrtxList| - 1 - p;
      vrtxList[p].id == id && vrtxList[p].View() == graph[id] && vrtxList[p].LabelView() == labels[id]
    }

    constructor ()
      ensures Valid() && graph == [] && vrtxList == []
    {
      vrtxList, vertexId, graph, labels := [], 0, [], [];
    }

    lemma PositionOf(v: VertexNode) returns (p: int)
      requires Valid() && v in vrtxList
      ensures 0 <= p < |vrtxList| && vrtxList[p] == v && v.id == |vrtxList| - 1 - p && Holds(p)
      ensures forall q :: 0 <= q < |vrtxList| && q != p ==> vrtxList[q] != v
    {
      p :| 0 <= p < |vrtxList| && vrtxList[p] == v;
      assert Holds(p);
      forall q | 0 <= q < |vrtxList| && q != p ensures vrtxList[q] != v { assert Holds(q); }
    }

    lemma Sizes()
      requires Valid()
      ensures |vrtxList| == |graph| == |labels|
      ensures forall p :: 0 <= p < |vrtxList| ==> vrtxList[p].id == |vrtxList| - 1 - p
    {
      forall p | 0 <= p < |vrtxList| ensures vrtxList[p].id == |vrtxList| - 1 - p { assert Holds(p); }
    }

    // ----- growing the graph -------------------------------------------------------------

    method AddVertex(rtrId: Addr, subnet: Addr, networkMask: Addr, kind: Kind)
      requires Valid()
      requires kind == ROUTER ==> subnet == 0
      modifies this
      ensures Valid()
      ensures graph == Topology.AddVertex(old(graph),
                                          if kind == ROUTER then RouterKey(rtrId) else LeafKey(rtrId, subnet),
                                          networkMask)
      ensures |vrtxList| == |old(vrtxList)| + 1 && fresh(vrtxList[0]) && vrtxList[1..] == old(vrtxList)
    {
      var vertex := new VertexNode(vertexId, rtrId, subnet, networkMask, kind);
      vertexId := vertexId + 1;
      vrtxList := [vertex] + vrtxList;
      graph := graph + [vertex.View()];
      labels := labels + [vertex.LabelView()];
      forall p | 0 <= p < |vrtxList| ensures Holds(p) {
        if p > 0 { assert old(Holds(p - 1)); }
      }
    }

    method AddEdge(v1: VertexNode, v2: VertexNode, weight: int)
      requires Valid() && v1 in vrtxList
      modifies this`graph, v1`head
      ensures Valid() && v1.head == [Edge(v1.id, v2.id, weight)] + old(v1.head)
      ensures 0 <= v1.id < |vrtxList|
      ensures weight == 1 ==> graph == Topology.AddEdge(old(graph), v1.id, v2.id)
    {
      ghost var p := PositionOf(v1);
      v1.head := [Edge(v1.id, v2.id, weight)] + v1.head;
      graph := graph[v1.id := v1.View()];
      forall q | 0 <= q < |vrtxList| ensures Holds(q) { assert old(Holds(q)); }
    }

    // ----- list searches -----------------------------------------------------------------

    method GetRouterById(rtrId: Addr) returns (v: VertexNode?)
      requires Valid()
      ensures v == null <==> FindId(graph, RouterKey(rtrId)) < 0
      ensures v != null ==> v in vrtxList && v.id == FindId(graph, RouterKey(rtrId))
    {
      var p := 0;
      while p < |vrtxList|
        invariant 0 <= p <= |vrtxList|
        invariant forall q :: 0 <= q < p ==> KeyOf(vrtxList[q].View()) != RouterKey(rtrId)
      {
        if vrtxList[p].kind == ROUTER && vrtxList[p].rid == rtrId {
          FoundFirst(RouterKey(rtrId), p);
          return vrtxList[p];
        }
        p := p + 1;
      }
      FoundNone(RouterKey(rtrId));
      return null;
    }

    method GetNodeForSubnet(subnet: Addr, rtrId: Addr) returns (v: VertexNode?)
      requires Valid()
      ensures v == null <==> FindId(graph, LeafKey(rtrId, subnet)) < 0
      ensures v != null ==> v in vrtxList && v.id == FindId(graph, LeafKey(rtrId, subnet))
    {
      var p := 0;
      while p < |vrtxList|
        invariant 0 <= p <= |vrtxList|
        invariant forall q :: 0 <= q < p ==> KeyOf(vrtxList[q].View()) != LeafKey(rtrId, subnet)
      {
        if vrtxList[p].kind == SUBNET && vrtxList[p].subnet == subnet && vrtxList[p].rid == rtrId {
          FoundFirst(LeafKey(rtrId, subnet), p);
          return vrtxList[p];
        }
        p := p + 1;
      }
      FoundNone(LeafKey(rtrId, subnet));
      return null;
    }

    method GetVertexFromEdge(val: int) returns (v: VertexNode?)
      requires Valid()
      ensures v == null <==> !(0 <= val < |vrtxList|)
      ensures v != null ==> v == vrtxList[|vrtxList| - 1 - val] && v.id == val
    {
      var p := 0;
      while p < |vrtxList|
        invariant 0 <= p <= |vrtxList|
        invariant val < 0 || val < |vrtxList| - p || val >= |vrtxList|
      {
        assert Holds(p);
        if vrtxList[p].id == val { return vrtxList[p]; }
        p := p + 1;
      }
      return null;
    }

    method CheckIfEdgeExists(src: int, dst: int) returns (found: bool)
      requires Valid()
      ensures found <==> HasEdge(graph, src, dst)
    {
      ghost var g := graph;
      var p := 0;
      while p < |vrtxList|
        invariant 0 <= p <= |vrtxList|
        invariant forall id, a :: |vrtxList| - p <= id < |vrtxList| && 0 <= a < |g[id].head|
                    ==> !(g[id].head[a].src == src && g[id].head[a].dst == dst)
      {
        assert Holds(p);
        var val := vrtxList[p].head;
        var a := 0;
        while a < |val|
          invariant 0 <= a <= |val|
          invariant forall b :: 0 <= b < a ==> !(val[b].src == src && val[b].dst == dst)
        {
          if val[a].src == src && val[a].dst == dst {
            assert g[|vrtxList| - 1 - p].head[a] == val[a];
            return true;
          }
          a := a + 1;
        }
        p := p + 1;
      }
      return false;
    }

    // ----- one received update -----------------------------------------------------------

    /** Vertices are only ever added. */
    twostate predicate OnlyGrows()
      reads this
    {
      forall p :: 0 <= p < |vrtxList| ==> vrtxList[p] in old(vrtxList) || fresh(vrtxList[p])
    }

    method EnsureEdge(src: VertexNode, dst: VertexNode)
      requires Valid() && src in vrtxList && dst in vrtxList
      modifies this`graph, vrtxList
      ensures Valid() && 0 <= src.id < |graph| && graph == Topology.EnsureEdge(old(graph), src.id, dst.id)
    {
      ghost var p := PositionOf(src);
      var found := CheckIfEdgeExists(src.id, dst.id);
      if !found { AddEdge(src, dst, 1); }
    }

    /** The sequence-number gate, with the record updated when the update is accepted. */
    method Gate(self: Addr, origin: Addr, seqNbr: int) returns (accepted: bool)
      requires Valid()
      modifies this, vrtxList
      ensures Valid() && OnlyGrows()
      ensures accepted <==> Accepts(old(graph), self, Lsu(origin, seqNbr, []))
      ensures graph == if accepted then Record(old(graph), origin, seqNbr) else old(graph)
      ensures !accepted ==> labels == old(labels)
    {
      if origin == self { return false; }
      var initialVertex := GetRouterById(origin);
      if initialVertex != null {
        ghost var p := PositionOf(initialVertex);
        if initialVertex.seqNbrSeen >= seqNbr { return false; }
      } else {
        AddVertex(origin, 0, 0, ROUTER);
        assert vrtxList == [vrtxList[0]] + old(vrtxList);
        initialVertex := GetRouterById(origin);
      }
      SetSeqNbrSeen(initialVertex, seqNbr);
      return true;
    }

    method SetSeqNbrSeen(v: VertexNode, seqNbr: int)
      requires Valid() && v in vrtxList
      modifies this`graph, v`seqNbrSeen
      ensures Valid() && 0 <= v.id < |old(graph)| && graph == SetSeq(old(graph), v.id, seqNbr)
    {
      ghost var p := PositionOf(v);
      v.seqNbrSeen := seqNbr;
      graph := graph[v.id := v.View()];
      forall q | 0 <= q < |vrtxList| ensures Holds(q) { assert old(Holds(q)); }
    }

    method ApplyLeaf(o: Addr, a: Advert)
      requires Valid() && FindId(graph, RouterKey(o)) >= 0
      modifies this, vrtxList
      ensures Valid() && OnlyGrows() && graph == Topology.ApplyLeaf(old(graph), o, a)
    {
      hide FindId, HasEdge, Topology.AddEdge;
      var dst := GetNodeForSubnet(a.subnet, o);
      if dst == null {
        AddVertex(o, a.subnet, a.mask, SUBNET);
        assert vrtxList == [vrtxList[0]] + old(vrtxList);
      }
      ghost var g1 := EnsureVertex(old(graph), LeafKey(o, a.subnet), a.mask);
      assert graph == g1;
      var src := GetRouterById(o);
      dst := GetNodeForSubnet(a.subnet, o);
      EnsureEdge(src, dst);
    }

    method ApplyLink(o: Addr, rid: Addr)
      requires Valid() && FindId(graph, RouterKey(o)) >= 0
      modifies this, vrtxList
      ensures Valid() && OnlyGrows() && graph == Topology.ApplyLink(old(graph), o, rid)
    {
      hide FindId, HasEdge, Topology.AddEdge;
      if rid != 0 {
        var known := GetRouterById(rid);
        if known == null {
          AddVertex(rid, 0, 0, ROUTER);
          assert vrtxList == [vrtxList[0]] + old(vrtxList);
        }
      }
      ghost var g1 := if rid != 0 then EnsureVertex(old(graph), RouterKey(rid), 0) else old(graph);
      assert graph == g1;
      var src := GetRouterById(o);
      var dst := GetRouterById(rid);
      if src != null && dst != null {
        EnsureEdge(src, dst);
        EnsureEdge(dst, src);
      }
    }

    lemma FoundFirst(k: Key, p: int)
      requires Valid() && 0 <= p < |vrtxList| && KeyOf(vrtxList[p].View()) == k
      requires forall q :: 0 <= q < p ==> KeyOf(vrtxList[q].View()) != k
      ensures FindId(graph, k) == vrtxList[p].id == |vrtxList| - 1 - p
    {
      FindIdSpec(graph, k);
      assert Holds(p);
      forall id | vrtxList[p].id < id < |graph| ensures KeyOf(graph[id]) != k {
        assert Holds(|graph| - 1 - id);
      }
    }

    lemma FoundNone(k: Key)
      requires Valid() && forall q :: 0 <= q < |vrtxList| ==> KeyOf(vrtxList[q].View()) != k
      ensures FindId(graph, k) < 0
    {
      FindIdSpec(graph, k);
      forall id | 0 <= id < |graph| ensures KeyOf(graph[id]) != k {
        assert Holds(|graph| - 1 - id);
      }
    }

    // ----- the shortest-path search ------------------------------------------------------

    method InitializeDijkstras(source: VertexNode)
      requires Valid() && source in vrtxList
      modifies this`labels, vrtxList
      ensures Valid() && labels == InitLabels(|vrtxList|, source.id)
    {
      ghost var n := |vrtxList|;
      var p := 0;
      while p < |vrtxList|
        invariant 0 <= p <= |vrtxList|
        invariant Valid()
        invariant forall v :: n - p <= v < n ==> labels[v] == Label(INFINITE, -1, false)
      {
        label Before:
        ghost var here := PositionOf(vrtxList[p]);
        vrtxList[p].parent := -1;
        vrtxList[p].d := 7;
        vrtxList[p].visited := false;
        labels := labels[n - 1 - p := Label(INFINITE, -1, false)];
        forall q | 0 <= q < n ensures Holds(q) { assert old@Before(Holds(q)); }
        p := p + 1;
      }
      label Done:
      ghost var at := PositionOf(source);
      source.d := 0;
      labels := labels[source.id := source.LabelView()];
      forall q | 0 <= q < n ensures Holds(q) { assert old@Done(Holds(q)); }
      assert labels == InitLabels(n, source.id);
    }

    /** Requires what makes the result defined: some unvisited vertex below the start value 8. */
    method GetMinVertex() returns (tmp: VertexNode)
      requires Valid()
      requires exists v :: 0 <= v < |labels| && !labels[v].visited && labels[v].d < 7 + 1
      ensures tmp in vrtxList && IsMin(labels, tmp.id)
    {
      var min := 7 + 1;
      var best: VertexNode? := null;
      ghost var n := |vrtxList|;
      var p := 0;
      while p < |vrtxList|
        invariant 0 <= p <= |vrtxList|
        invariant best == null ==> min == 8
        invariant best != null ==> best in vrtxList && n - p <= best.id < n
        invariant best != null ==> !labels[best.id].visited && labels[best.id].d == min
        invariant forall v :: n - p <= v < n && !labels[v].visited ==> min <= labels[v].d
        invariant best != null ==> forall v :: best.id < v < n && !labels[v].visited ==> min < labels[v].d
      {
        assert Holds(p);
        if !vrtxList[p].visited {
          if vrtxList[p].d < min {
            min := vrtxList[p].d;
            best := vrtxList[p];
          }
        }
        p := p + 1;
      }
      tmp := best;
    }

    method ComputeValues(v1: VertexNode, v2: VertexNode, weight: int)
      requires Valid() && v1 in vrtxList && v2 in vrtxList
      modifies this`labels, v2`d, v2`parent
      ensures Valid() && 0 <= v1.id < |vrtxList| && 0 <= v2.id < |vrtxList|
      ensures labels == Relax(old(labels), v1.id, v2.id, weight)
    {
      ghost var p := PositionOf(v1);
      ghost var q := PositionOf(v2);
      if v2.d > v1.d + weight {
        v2.d := v1.d + weight;
        v2.parent := v1.id;
        labels := labels[v2.id := v2.LabelView()];
      }
      forall r | 0 <= r < |vrtxList| ensures Holds(r) { assert old(Holds(r)); }
    }

    method Visit(v: VertexNode)
      requires Valid() && v in vrtxList
      modifies this`labels, v`visited
      ensures Valid() && 0 <= v.id < |vrtxList| && labels == ShortestPaths.Visit(old(labels), v.id)
      ensures v.head == graph[v.id].head
    {
      ghost var p := PositionOf(v);
      v.visited := true;
      labels := labels[v.id := v.LabelView()];
      forall r | 0 <= r < |vrtxList| ensures Holds(r) { assert old(Holds(r)); }
    }

    /** The search; `order` lists the vertices in the order it visited them. */
    method Dijkstra(source: VertexNode) returns (ghost order: seq<int>)
      requires Valid() && source in vrtxList && Sound(graph)
      modifies this`labels, vrtxList
      ensures Valid()
      ensures Exact(graph, source.id, labels)
      ensures Ordered(labels, order) && |order| == |vrtxList|
    {
      ghost var g, n, s := graph, |vrtxList|, source.id;
      ghost var at := PositionOf(source);
      InitializeDijkstras(source);
      ghost var paths: map<int, seq<Edge>> := map[s := []];
      order := [];
      InitKeeps(g, s);
      var vrtx1 := 0;
      while vrtx1 < |vrtxList|
        invariant 0 <= vrtx1 <= |vrtxList| && |order| == vrtx1 && Valid()
        invariant Labelled(g, s, labels, paths) && Ordered(labels, order)
        invariant Frontier(labels) && RelaxedUpTo(g, labels, -1, 0)
      {
        SelectionIsDefined(g, s, labels, paths, order);
        var vrtx3 := GetMinVertex();
        VisitKeeps(g, s, labels, paths, order, vrtx3.id);
        Visit(vrtx3);
        order := order + [vrtx3.id];
        paths := RelaxNeighbours(vrtx3, s, paths, order);
        vrtx1 := vrtx1 + 1;
      }
      AllVisited(labels, order);
      AllVisitedIsExact(g, s, labels, paths);
    }

    /** The inner loop of the search, over the adjacency list of the vertex just visited. */
    method RelaxNeighbours(vrtx3: VertexNode, ghost s: int, ghost paths: map<int, seq<Edge>>, ghost order: seq<int>)
      returns (ghost paths': map<int, seq<Edge>>)
      requires Valid() && vrtx3 in vrtxList && Sound(graph)
      requires order != [] && order[|order| - 1] == vrtx3.id
      requires Labelled(graph, s, labels, paths) && Ordered(labels, order)
      requires Frontier(labels) && RelaxedUpTo(graph, labels, vrtx3.id, 0)
      modifies this`labels, vrtxList
      ensures Valid() && Labelled(graph, s, labels, paths') && Ordered(labels, order)
      ensures Frontier(labels) && RelaxedUpTo(graph, labels, -1, 0)
    {
      ghost var at := PositionOf(vrtx3);
      ghost var u := vrtx3.id;
      paths' := paths;
      var adjList := vrtx3.head;
      var k := 0;
      while k < |adjList|
        invariant 0 <= k <= |adjList| && adjList == graph[u].head && Valid()
        invariant Labelled(graph, s, labels, paths') && Ordered(labels, order)
        invariant Frontier(labels) && RelaxedUpTo(graph, labels, u, k)
      {
        assert EdgeSound(graph, u, adjList[k]);
        var vrtx2 := GetVertexFromEdge(adjList[k].dst);
        paths' := RelaxKeeps(graph, s, labels, paths', order, u, k);
        ComputeValues(vrtx3, vrtx2, adjList[k].weight);
        k := k + 1;
      }
    }
  }

  /** While fewer than all vertices are visited, an unvisited one has a label below 8. */
  lemma SelectionIsDefined(g: Graph, s: int, l: seq<Label>, paths: map<int, seq<Edge>>, order: seq<int>)
    requires Labelled(g, s, l, paths) && Ordered(l, order) && |order| < |l|
    ensures exists v :: 0 <= v < |l| && !l[v].visited && l[v].d < INFINITE + 1
  {
    AllVisited(l, order);
    var v :| 0 <= v < |l| && !l[v].visited;
    assert LabelOk(g, s, l, paths, v);
  }
}
