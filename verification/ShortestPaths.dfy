/**
  Shortest distances with "infinity" fixed at 7, and the steps of the list-scanning search on
  label sequences (`l[v]` holds the labels of the vertex with id `v`).
*/
module ShortestPaths {
  import opened Words
  import opened Topology

  /** The label that stands for "not reached". */
  const INFINITE: int := 7

  datatype Label = Label(d: int, parent: int, visited: bool)

  // ----- the reference definition --------------------------------------------------------

  /** A graph the search can run on: edges stay inside the graph and weights are not negative. */
  ghost predicate Sound(g: Graph) {
    forall u, a :: 0 <= u < |g| && 0 <= a < |g[u].head| ==> EdgeSound(g, u, g[u].head[a])
  }

  ghost predicate EdgeSound(g: Graph, u: int, e: Edge) {
    e.src == u && 0 <= e.dst < |g| && e.weight >= 0
  }

  ghost predicate EdgeOf(g: Graph, e: Edge) {
    0 <= e.src < |g| && e in g[e.src].head
  }

  /** `p` is a walk from `s` to `t`. */
  ghost predicate Walk(g: Graph, s: int, t: int, p: seq<Edge>)
    decreases p
  {
    if p == [] then s == t
    else
      var e := p[|p| - 1];
      EdgeOf(g, e) && e.dst == t && Walk(g, s, e.src, p[..|p| - 1])
  }

  function Weight(p: seq<Edge>): int {
    if p == [] then 0 else Weight(p[..|p| - 1]) + p[|p| - 1].weight
  }

  /** `d` is the smaller of 7 and the weight of a lightest walk from `s` to `t`. */
  ghost predicate IsCappedDistance(g: Graph, s: int, t: int, d: int) {
    && d <= INFINITE
    && (forall p :: Walk(g, s, t, p) ==> d <= Weight(p))
    && (d < INFINITE ==> exists p :: Walk(g, s, t, p) && Weight(p) == d)
  }

  /** The parent label names a vertex with a real edge that accounts for the whole distance. */
  ghost predicate ParentExplains(g: Graph, l: seq<Label>, v: int, e: Edge) {
    && EdgeOf(g, e) && e.dst == v && 0 <= v < |l| && e.src == l[v].parent
    && e.src < |l| && l[v].d == l[e.src].d + e.weight
  }

  /** What the search promises: exact capped distances, and a parent exactly for reached vertices. */
  ghost predicate Exact(g: Graph, s: int, l: seq<Label>) {
    && |l| == |g|
    && (forall v :: 0 <= v < |g| ==> IsCappedDistance(g, s, v, l[v].d))
    && (forall v :: 0 <= v < |g| ==> (l[v].parent == -1 <==> v == s || l[v].d == INFINITE))
    && (forall v :: 0 <= v < |g| && l[v].parent != -1 ==> exists e :: ParentExplains(g, l, v, e))
  }

  // ----- the steps -----------------------------------------------------------------------

  function InitLabels(n: nat, s: int): seq<Label> {
    seq(n, v => Label(if v == s then 0 else INFINITE, -1, false))
  }

  /** Selection: an unvisited vertex with least label, the first such in list order. */
  ghost predicate IsMin(l: seq<Label>, u: int) {
    && 0 <= u < |l| && !l[u].visited
    && (forall v :: 0 <= v < |l| && !l[v].visited ==> l[u].d <= l[v].d)
    && (forall v :: u < v < |l| && !l[v].visited ==> l[u].d < l[v].d)
  }

  function Visit(l: seq<Label>, u: int): seq<Label>
    requires 0 <= u < |l|
  {
    l[u := l[u].(visited := true)]
  }

  function Relax(l: seq<Label>, u: int, v: int, w: int): seq<Label>
    requires 0 <= u < |l| && 0 <= v < |l|
  {
    if l[v].d > l[u].d + w then l[v := l[v].(d := l[u].d + w, parent := u)] else l
  }

  // ----- the invariant -------------------------------------------------------------------

  ghost predicate Parented(g: Graph, l: seq<Label>, v: int)
    requires 0 <= v < |l| == |g|
  {
    exists e :: ParentExplains(g, l, v, e) && l[e.src].visited
  }

  ghost predicate LabelOk(g: Graph, s: int, l: seq<Label>, paths: map<int, seq<Edge>>, v: int)
    requires 0 <= v < |l| == |g|
  {
    && 0 <= l[v].d <= INFINITE
    && (v == s ==> l[v].d == 0 && l[v].parent == -1)
    && (v != s ==> (l[v].parent == -1 <==> l[v].d == INFINITE))
    && (l[v].d < INFINITE ==> v in paths && Walk(g, s, v, paths[v]) && Weight(paths[v]) == l[v].d)
    && (l[v].parent != -1 ==> Parented(g, l, v))
  }

  ghost predicate Labelled(g: Graph, s: int, l: seq<Label>, paths: map<int, seq<Edge>>) {
    && |l| == |g| && 0 <= s < |g|
    && (forall v {:trigger LabelOk(g, s, l, paths, v)} :: 0 <= v < |g| ==> LabelOk(g, s, l, paths, v))
  }

  /** The visit order so far: the visited vertices, each once, by increasing final label. */
  ghost predicate Ordered(l: seq<Label>, order: seq<int>) {
    && (forall i :: 0 <= i < |order| ==> 0 <= order[i] < |l| && l[order[i]].visited)
    && (forall v :: 0 <= v < |l| && l[v].visited ==> v in order)
    && (forall i, j :: 0 <= i < j < |order| ==> order[i] != order[j])
    && (forall i, j :: 0 <= i < j < |order| ==> l[order[i]].d <= l[order[j]].d)
  }

  /** No unvisited label is below a visited one. */
  ghost predicate Frontier(l: seq<Label>) {
    forall u, v :: 0 <= u < |l| && 0 <= v < |l| && l[u].visited && !l[v].visited ==> l[u].d <= l[v].d
  }

  ghost predicate EdgeRelaxed(l: seq<Label>, e: Edge) {
    0 <= e.src < |l| && 0 <= e.dst < |l| && l[e.dst].d <= l[e.src].d + e.weight
  }

  /** Every edge out of a visited vertex is relaxed; of vertex `cur` only the first `k` edges. */
  ghost predicate RelaxedUpTo(g: Graph, l: seq<Label>, cur: int, k: int)
    requires |l| == |g|
  {
    forall u, a :: 0 <= u < |g| && 0 <= a < |g[u].head| && l[u].visited && (u != cur || a < k)
      ==> EdgeRelaxed(l, g[u].head[a])
  }

  // ----- each step keeps it --------------------------------------------------------------

  lemma InitKeeps(g: Graph, s: int)
    requires 0 <= s < |g|
    ensures var l := InitLabels(|g|, s);
      Labelled(g, s, l, map[s := []]) && Ordered(l, []) && Frontier(l) && RelaxedUpTo(g, l, -1, 0)
  {
    var l := InitLabels(|g|, s);
    forall v | 0 <= v < |g| ensures LabelOk(g, s, l, map[s := []], v) {}
  }

  lemma VisitKeeps(g: Graph, s: int, l: seq<Label>, paths: map<int, seq<Edge>>, order: seq<int>, u: int)
    requires Labelled(g, s, l, paths) && Ordered(l, order) && Frontier(l) && RelaxedUpTo(g, l, -1, 0)
    requires IsMin(l, u)
    ensures var l' := Visit(l, u);
      && Labelled(g, s, l', paths) && Ordered(l', order + [u]) && Frontier(l') && RelaxedUpTo(g, l', u, 0)
  {
    var l' := Visit(l, u);
    assert forall v :: 0 <= v < |l| ==> l'[v].d == l[v].d && l'[v].parent == l[v].parent;
    forall v | 0 <= v < |g| ensures LabelOk(g, s, l', paths, v) {
      assert LabelOk(g, s, l, paths, v);
      if l[v].parent != -1 {
        var e :| ParentExplains(g, l, v, e) && l[e.src].visited;
        assert ParentExplains(g, l', v, e);
      }
    }
    forall w, a | 0 <= w < |g| && 0 <= a < |g[w].head| && l'[w].visited && w != u
      ensures EdgeRelaxed(l', g[w].head[a])
    {
      assert EdgeRelaxed(l, g[w].head[a]);
    }
    VisitKeepsOrder(l, order, u);
  }

  lemma VisitKeepsOrder(l: seq<Label>, order: seq<int>, u: int)
    requires Ordered(l, order) && Frontier(l) && IsMin(l, u)
    ensures Ordered(Visit(l, u), order + [u]) && Frontier(Visit(l, u))
  {
  }

  /** Visited labels are final: relaxing never reaches below the current minimum. */
  lemma RelaxKeeps(g: Graph, s: int, l: seq<Label>, paths: map<int, seq<Edge>>, order: seq<int>, u: int, k: nat)
    returns (paths': map<int, seq<Edge>>)
    requires Sound(g) && Labelled(g, s, l, paths) && Ordered(l, order) && Frontier(l)
    requires 0 <= u < |g| && 0 <= k < |g[u].head| && RelaxedUpTo(g, l, u, k)
    requires order != [] && order[|order| - 1] == u
    requires 0 <= g[u].head[k].dst < |g|
    ensures var e := g[u].head[k]; var l' := Relax(l, u, e.dst, e.weight);
      && Labelled(g, s, l', paths') && Ordered(l', order) && Frontier(l') && RelaxedUpTo(g, l', u, k + 1)
  {
    var e := g[u].head[k];
    assert EdgeSound(g, u, e);
    LastVisitedIsLargest(l, order);
    assert l[e.dst].d > l[u].d + e.weight ==> !l[e.dst].visited;
    RelaxKeepsEdges(g, l, u, k);
    RelaxKeepsOrder(l, order, u, e.dst, e.weight);
    if l[e.dst].d > l[u].d + e.weight {
      paths' := RelaxKeepsLabels(g, s, l, paths, e);
    } else {
      paths' := paths;
    }
  }

  lemma RelaxKeepsLabels(g: Graph, s: int, l: seq<Label>, paths: map<int, seq<Edge>>, e: Edge)
    returns (paths': map<int, seq<Edge>>)
    requires Labelled(g, s, l, paths) && EdgeOf(g, e) && 0 <= e.dst < |g| && e.weight >= 0
    requires l[e.src].visited && !l[e.dst].visited && l[e.dst].d > l[e.src].d + e.weight
    ensures Labelled(g, s, Relax(l, e.src, e.dst, e.weight), paths')
  {
    var l' := Relax(l, e.src, e.dst, e.weight);
    assert LabelOk(g, s, l, paths, e.src) && LabelOk(g, s, l, paths, e.dst);
    paths' := paths[e.dst := paths[e.src] + [e]];
    RelaxedPath(g, s, paths[e.src], e);
    forall x | 0 <= x < |g| ensures LabelOk(g, s, l', paths', x) {
      assert LabelOk(g, s, l, paths, x);
      RelaxKeepsParent(g, l, e.src, e, x);
    }
  }

  lemma RelaxKeepsOrder(l: seq<Label>, order: seq<int>, u: int, v: int, w: int)
    requires Ordered(l, order) && Frontier(l) && order != [] && order[|order| - 1] == u
    requires 0 <= v < |l| && 0 <= u < |l| && w >= 0
    requires l[v].d > l[u].d + w ==> !l[v].visited
    ensures Ordered(Relax(l, u, v, w), order) && Frontier(Relax(l, u, v, w))
  {
    LastVisitedIsLargest(l, order);
    var l' := Relax(l, u, v, w);
    assert forall x :: 0 <= x < |l| ==> l'[x].visited == l[x].visited;
    assert forall x :: 0 <= x < |l| && l[x].visited ==> l'[x].d == l[x].d;
  }

  lemma LastVisitedIsLargest(l: seq<Label>, order: seq<int>)
    requires Ordered(l, order) && order != []
    ensures forall v :: 0 <= v < |l| && l[v].visited ==> l[v].d <= l[order[|order| - 1]].d
  {
    forall v | 0 <= v < |l| && l[v].visited ensures l[v].d <= l[order[|order| - 1]].d {
      var i :| 0 <= i < |order| && order[i] == v;
    }
  }

  lemma RelaxedPath(g: Graph, s: int, p: seq<Edge>, e: Edge)
    requires Walk(g, s, e.src, p) && EdgeOf(g, e)
    ensures Walk(g, s, e.dst, p + [e]) && Weight(p + [e]) == Weight(p) + e.weight
  {
    assert (p + [e])[..|p|] == p;
  }

  lemma RelaxKeepsParent(g: Graph, l: seq<Label>, u: int, e: Edge, x: int)
    requires |l| == |g| && EdgeOf(g, e) && e.src == u && 0 <= e.dst < |g| && e.weight >= 0
    requires l[u].visited && !l[e.dst].visited && l[e.dst].d > l[u].d + e.weight
    requires 0 <= x < |g| && (l[x].parent != -1 ==> Parented(g, l, x))
    ensures var l' := Relax(l, u, e.dst, e.weight); l'[x].parent != -1 ==> Parented(g, l', x)
  {
    var l' := Relax(l, u, e.dst, e.weight);
    if x == e.dst {
      assert ParentExplains(g, l', x, e);
    } else if l[x].parent != -1 {
      var f :| ParentExplains(g, l, x, f) && l[f.src].visited;
      assert ParentExplains(g, l', x, f);
    }
  }

  lemma RelaxKeepsEdges(g: Graph, l: seq<Label>, u: int, k: nat)
    requires Sound(g) && |l| == |g| && 0 <= u < |g| && 0 <= k < |g[u].head| && l[u].visited
    requires RelaxedUpTo(g, l, u, k)
    requires var e := g[u].head[k]; 0 <= e.dst < |g| && (l[e.dst].d > l[u].d + e.weight ==> !l[e.dst].visited)
    ensures var e := g[u].head[k]; RelaxedUpTo(g, Relax(l, u, e.dst, e.weight), u, k + 1)
  {
    var e := g[u].head[k];
    assert EdgeSound(g, u, e);
    var l' := Relax(l, u, e.dst, e.weight);
    forall w, a | 0 <= w < |g| && 0 <= a < |g[w].head| && l'[w].visited && (w != u || a < k + 1)
      ensures EdgeRelaxed(l', g[w].head[a])
    {
      assert EdgeSound(g, w, g[w].head[a]);
      if w != u || a < k { assert EdgeRelaxed(l, g[w].head[a]); }
    }
  }

  // ----- when everything is visited, the labels are exact --------------------------------

  lemma {:induction false} NoWalkIsLighter(g: Graph, s: int, l: seq<Label>, t: int, p: seq<Edge>)
    requires |l| == |g| && 0 <= s < |g| && l[s].d == 0
    requires forall e :: EdgeOf(g, e) ==> EdgeRelaxed(l, e)
    requires Walk(g, s, t, p)
    ensures 0 <= t < |g| && l[t].d <= Weight(p)
    decreases p
  {
    if p != [] {
      var e := p[|p| - 1];
      NoWalkIsLighter(g, s, l, e.src, p[..|p| - 1]);
      assert EdgeRelaxed(l, e);
    }
  }

  lemma AllVisitedIsExact(g: Graph, s: int, l: seq<Label>, paths: map<int, seq<Edge>>)
    requires Sound(g) && Labelled(g, s, l, paths) && RelaxedUpTo(g, l, -1, 0)
    requires forall v :: 0 <= v < |l| ==> l[v].visited
    ensures Exact(g, s, l)
  {
    assert LabelOk(g, s, l, paths, s);
    forall e | EdgeOf(g, e) ensures EdgeRelaxed(l, e) {
      var a :| 0 <= a < |g[e.src].head| && g[e.src].head[a] == e;
    }
    forall v | 0 <= v < |g|
      ensures IsCappedDistance(g, s, v, l[v].d)
      ensures l[v].parent == -1 <==> v == s || l[v].d == INFINITE
      ensures l[v].parent != -1 ==> exists e :: ParentExplains(g, l, v, e)
    {
      assert LabelOk(g, s, l, paths, v);
      forall p | Walk(g, s, v, p) ensures l[v].d <= Weight(p) {
        NoWalkIsLighter(g, s, l, v, p);
      }
    }
  }

  /** A list of `n` distinct ids below `n` lists them all. */
  lemma AllVisited(l: seq<Label>, order: seq<int>)
    requires Ordered(l, order)
    ensures |order| <= |l|
    ensures |order| == |l| <==> forall v :: 0 <= v < |l| ==> l[v].visited
  {
    var ids := Below(|l|);
    var seen := set i | 0 <= i < |order| :: order[i];
    CountDistinct(order);
    assert seen <= ids;
    assert |ids - seen| == |l| - |order|;
    if |order| == |l| {
      assert ids - seen == {};
      forall v | 0 <= v < |l| ensures l[v].visited { assert v in ids; }
    }
    if forall v :: 0 <= v < |l| ==> l[v].visited {
      forall v | v in ids ensures v in seen { assert l[v].visited; }
      assert ids == seen;
    }
  }

  ghost function Below(n: nat): (r: set<int>)
    ensures forall v :: v in r <==> 0 <= v < n
    ensures |r| == n
  {
    if n == 0 then {} else Below(n - 1) + {n - 1}
  }

  lemma {:induction false} CountDistinct(s: seq<int>)
    requires forall i, j :: 0 <= i < j < |s| ==> s[i] != s[j]
    ensures |set i | 0 <= i < |s| :: s[i]| == |s|
  {
    if s != [] {
      var r := s[..|s| - 1];
      CountDistinct(r);
      assert (set i | 0 <= i < |s| :: s[i]) == (set i | 0 <= i < |r| :: r[i]) + {s[|s| - 1]};
    }
  }

  lemma CountIn(a: set<int>, b: set<int>)
    requires a <= b
    ensures |a| <= |b|
  {
    assert b == a + (b - a);
  }

  // ----- following parents ---------------------------------------------------------------

  /** The vertex reached from `v` by following `k` parent labels. */
  function Ancestor(l: seq<Label>, v: int, k: nat): int
    decreases k
  {
    if k == 0 then v
    else if 0 <= v < |l| then Ancestor(l, l[v].parent, k - 1)
    else -1
  }

  ghost predicate UnitWeights(g: Graph) {
    forall u, a :: 0 <= u < |g| && 0 <= a < |g[u].head| ==> g[u].head[a].weight == 1
  }

  /** The `k`-th step up from `v` crosses a real edge, towards the source by exactly one. */
  ghost predicate Hop(g: Graph, l: seq<Label>, v: int, k: nat) {
    var x, y := Ancestor(l, v, k), Ancestor(l, v, k + 1);
    && 0 <= x < |l| && 0 <= y < |l|
    && EdgeOf(g, Edge(y, x, 1)) && l[y].d == l[x].d - 1
  }

  /** From a reached vertex the parents lead to the source in exactly as many steps as its label says. */
  lemma {:induction false} ParentsLeadToSource(g: Graph, s: int, l: seq<Label>, v: int)
    requires Sound(g) && UnitWeights(g) && Exact(g, s, l) && 0 <= s < |g|
    requires 0 <= v < |g| && l[v].d < INFINITE
    ensures 0 <= l[v].d && Ancestor(l, v, l[v].d) == s
    ensures forall k :: 0 <= k < l[v].d ==> Ancestor(l, v, k) != s && Hop(g, l, v, k)
    decreases l[v].d
  {
    DistanceNotNegative(g, s, v, l[v].d);
    SourceAtZero(g, s, l[s].d);
    if v != s {
      var e :| ParentExplains(g, l, v, e);
      var a :| 0 <= a < |g[e.src].head| && g[e.src].head[a] == e;
      var u := e.src;
      assert e == Edge(u, v, 1);
      DistanceNotNegative(g, s, u, l[u].d);
      ParentsLeadToSource(g, s, l, u);
      forall k | 0 <= k < l[v].d ensures Ancestor(l, v, k) != s && Hop(g, l, v, k) {
        if k == 0 {
          assert Ancestor(l, v, 1) == Ancestor(l, u, 0) == u;
        } else {
          assert Ancestor(l, v, k) == Ancestor(l, u, k - 1) && Ancestor(l, v, k + 1) == Ancestor(l, u, k);
          assert Hop(g, l, u, k - 1);
        }
      }
    }
  }

  lemma {:induction false} WalkNotNegative(g: Graph, s: int, t: int, p: seq<Edge>)
    requires Sound(g) && Walk(g, s, t, p)
    ensures Weight(p) >= 0
    decreases p
  {
    if p != [] {
      var e := p[|p| - 1];
      var a :| 0 <= a < |g[e.src].head| && g[e.src].head[a] == e;
      assert EdgeSound(g, e.src, g[e.src].head[a]);
      WalkNotNegative(g, s, e.src, p[..|p| - 1]);
    }
  }

  lemma DistanceNotNegative(g: Graph, s: int, t: int, d: int)
    requires Sound(g) && IsCappedDistance(g, s, t, d)
    ensures d >= 0
  {
    if d < INFINITE {
      var p :| Walk(g, s, t, p) && Weight(p) == d;
      WalkNotNegative(g, s, t, p);
    }
  }

  lemma SourceAtZero(g: Graph, s: int, d: int)
    requires Sound(g) && IsCappedDistance(g, s, s, d)
    ensures d == 0
  {
    DistanceNotNegative(g, s, s, d);
    assert Walk(g, s, s, []) && Weight([]) == 0;
  }

  // ----- the distance is well defined ----------------------------------------------------

  lemma {:induction false} LeastWeight(g: Graph, s: int, t: int, n: int) returns (d: int)
    requires 0 <= n <= INFINITE && forall p :: Walk(g, s, t, p) ==> n <= Weight(p)
    ensures IsCappedDistance(g, s, t, d)
    decreases INFINITE - n
  {
    if n == INFINITE || exists p :: Walk(g, s, t, p) && Weight(p) == n {
      d := n;
    } else {
      forall p | Walk(g, s, t, p) ensures n + 1 <= Weight(p) {}
      d := LeastWeight(g, s, t, n + 1);
    }
  }

  /** Every pair of vertices of a sound graph has exactly one capped distance. */
  lemma CappedDistanceIsDefined(g: Graph, s: int, t: int) returns (d: int)
    requires Sound(g) && 0 <= s < |g|
    ensures 0 <= d <= INFINITE && forall x :: IsCappedDistance(g, s, t, x) <==> x == d
  {
    forall p | Walk(g, s, t, p) ensures 0 <= Weight(p) { WalkNotNegative(g, s, t, p); }
    d := LeastWeight(g, s, t, 0);
    DistanceNotNegative(g, s, t, d);
  }

  /** Some walk from `s` to `t` is lighter than 7. */
  ghost predicate WithinReach(g: Graph, s: int, t: int) {
    exists p :: Walk(g, s, t, p) && Weight(p) < 7
  }

  /**
    What exact labels say of one vertex: the weight of a lightest walk where that is below 7, and 7
    otherwise; no parent exactly for the source and for vertices that no walk lighter than 7 leads to.
  */
  lemma LabelsExactly(g: Graph, s: int, l: seq<Label>, v: int)
    requires Exact(g, s, l) && 0 <= v < |g|
    ensures forall p :: Walk(g, s, v, p) ==> l[v].d <= Weight(p)
    ensures if WithinReach(g, s, v) then exists p :: Walk(g, s, v, p) && Weight(p) == l[v].d else l[v].d == 7
    ensures l[v].parent == -1 <==> v == s || !WithinReach(g, s, v)
  {
    hide Walk, Weight;
    assert IsCappedDistance(g, s, v, l[v].d);
  }
}
