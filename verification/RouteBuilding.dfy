/** Turning the labels of the search into routes, and what the routing table is after any number of builds. */
module RouteBuilding {
  import opened Words
  import opened Topology
  import opened ShortestPaths
  import opened Convergence
  import opened Distances
  import opened RouteTables
  import opened LsuPackets

  /** A subnet vertex whose parent label names a vertex. */
  predicate Reached(g: Graph, l: seq<Label>, id: int)
    requires 0 <= id < |g| == |l|
  {
    g[id].kind == SUBNET && 0 <= l[id].parent < |g|
  }

  /** The route to a reached subnet: through the neighbour that has the parent's router id. */
  function RouteTo(g: Graph, l: seq<Label>, nb: seq<Neighbour>, id: int): Route
    requires 0 <= id < |g| == |l| && nb != [] && Reached(g, l, id)
  {
    NeighbourFromInRange(nb, g[l[id].parent].rid, 0);
    var idx := NeighbourIndex(nb, g[l[id].parent].rid);
    Route(g[id].subnet, nb[idx].ip, g[id].mask, nb[idx].interFace)
  }

  /** One vertex of the walk: append unless the destination already has an entry. */
  function BuildOne(g: Graph, l: seq<Label>, nb: seq<Neighbour>, t: seq<Route>, id: int): seq<Route>
    requires 0 <= id < |g| == |l| && nb != []
  {
    if Reached(g, l, id) && !HasDest(t, g[id].subnet) then t + [RouteTo(g, l, nb, id)] else t
  }

  /** The table after the first `p` vertices in list order. */
  function Build(g: Graph, l: seq<Label>, nb: seq<Neighbour>, t: seq<Route>, p: nat): seq<Route>
    requires p <= |g| == |l| && nb != []
  {
    if p == 0 then t else BuildOne(g, l, nb, Build(g, l, nb, t, p - 1), |g| - p)
  }

  function BuildAll(g: Graph, l: seq<Label>, nb: seq<Neighbour>, t: seq<Route>): seq<Route>
    requires |g| == |l| && nb != []
  {
    Build(g, l, nb, t, |g|)
  }

  // ----- properties of one build ---------------------------------------------------------

  lemma HasDestGrows(t: seq<Route>, u: seq<Route>, dest: Addr)
    requires t <= u && HasDest(t, dest)
    ensures HasDest(u, dest)
  {
    var i :| 0 <= i < |t| && t[i].dest == dest;
    assert u[i].dest == dest;
  }

  /** The old table stays as a prefix. */
  lemma {:induction false} BuildKeepsPrefix(g: Graph, l: seq<Label>, nb: seq<Neighbour>, t: seq<Route>, p: nat)
    requires p <= |g| == |l| && nb != []
    ensures t <= Build(g, l, nb, t, p)
  {
    if p > 0 { BuildKeepsPrefix(g, l, nb, t, p - 1); }
  }

  /** Every reached subnet has an entry afterwards. */
  lemma {:induction false} BuildCovers(g: Graph, l: seq<Label>, nb: seq<Neighbour>, t: seq<Route>, p: nat, id: int)
    requires p <= |g| == |l| && nb != [] && |g| - p <= id < |g| && Reached(g, l, id)
    ensures HasDest(Build(g, l, nb, t, p), g[id].subnet)
  {
    var u := Build(g, l, nb, t, p - 1);
    if id == |g| - p {
      var v := BuildOne(g, l, nb, u, id);
      if !HasDest(u, g[id].subnet) { assert v[|u|].dest == g[id].subnet; }
    } else {
      BuildCovers(g, l, nb, t, p - 1, id);
      HasDestGrows(u, Build(g, l, nb, t, p), g[id].subnet);
    }
  }

  /** From position `n` on, no entry repeats the destination of an earlier one. */
  ghost predicate FreshFrom(t: seq<Route>, n: nat) {
    forall i, j :: 0 <= i < j < |t| && n <= j ==> t[i].dest != t[j].dest
  }

  /** Entries `n` and later are routes to reached subnets. */
  ghost predicate RoutesFrom(g: Graph, l: seq<Label>, nb: seq<Neighbour>, t: seq<Route>, n: nat)
    requires |g| == |l| && nb != []
  {
    forall i :: n <= i < |t| ==> exists id :: 0 <= id < |g| && Reached(g, l, id) && t[i] == RouteTo(g, l, nb, id)
  }

  lemma {:induction false} BuildAddsFresh(g: Graph, l: seq<Label>, nb: seq<Neighbour>, t: seq<Route>, p: nat, n: nat)
    requires p <= |g| == |l| && nb != [] && FreshFrom(t, n)
    ensures FreshFrom(Build(g, l, nb, t, p), n)
    ensures RoutesFrom(g, l, nb, Build(g, l, nb, t, p), |t|)
  {
    if p > 0 {
      BuildAddsFresh(g, l, nb, t, p - 1, n);
      BuildKeepsPrefix(g, l, nb, t, p - 1);
      var u := Build(g, l, nb, t, p - 1);
      if Reached(g, l, |g| - p) && !HasDest(u, g[|g| - p].subnet) {
        assert forall i :: 0 <= i < |u| ==> u[i].dest != g[|g| - p].subnet;
      }
    }
  }

  lemma {:induction false} NothingToBuild(g: Graph, l: seq<Label>, nb: seq<Neighbour>, t: seq<Route>, p: nat)
    requires p <= |g| == |l| && nb != []
    requires forall id :: 0 <= id < |g| && Reached(g, l, id) ==> HasDest(t, g[id].subnet)
    ensures Build(g, l, nb, t, p) == t
  {
    if p > 0 { NothingToBuild(g, l, nb, t, p - 1); }
  }

  /** A second build on the same graph adds nothing, whatever the neighbours have become. */
  lemma BuildTwice(g: Graph, l: seq<Label>, nb: seq<Neighbour>, nb': seq<Neighbour>, t: seq<Route>)
    requires |g| == |l| && nb != [] && nb' != []
    ensures BuildAll(g, l, nb', BuildAll(g, l, nb, t)) == BuildAll(g, l, nb, t)
  {
    var u := BuildAll(g, l, nb, t);
    forall id | 0 <= id < |g| && Reached(g, l, id) ensures HasDest(u, g[id].subnet) {
      BuildCovers(g, l, nb, t, |g|, id);
    }
    NothingToBuild(g, l, nb', u, |g|);
  }

  /** What one build does to a table whose entries are fresh from position `n` on. */
  lemma BuildContract(g: Graph, l: seq<Label>, nb: seq<Neighbour>, t: seq<Route>, n: nat)
    requires |g| == |l| && nb != [] && FreshFrom(t, n)
    ensures var u := BuildAll(g, l, nb, t);
      && t <= u && FreshFrom(u, n) && RoutesFrom(g, l, nb, u, |t|)
      && (forall id :: 0 <= id < |g| && Reached(g, l, id) ==> HasDest(u, g[id].subnet))
  {
    BuildKeepsPrefix(g, l, nb, t, |g|);
    BuildAddsFresh(g, l, nb, t, |g|, n);
    forall id | 0 <= id < |g| && Reached(g, l, id) ensures HasDest(BuildAll(g, l, nb, t), g[id].subnet) {
      BuildCovers(g, l, nb, t, |g|, id);
    }
  }

  // ----- over any number of builds -------------------------------------------------------

  /** One build of the history: the graph and labels at that moment, and the neighbours then known. */
  datatype Moment = Moment(g: Graph, l: seq<Label>, nb: seq<Neighbour>)

  ghost predicate MomentOk(m: Moment) { |m.g| == |m.l| && m.nb != [] }

  ghost function BuildMany(ms: seq<Moment>, t: seq<Route>): seq<Route>
    requires forall i :: 0 <= i < |ms| ==> MomentOk(ms[i])
  {
    if ms == [] then t
    else
      var m := ms[|ms| - 1];
      assert MomentOk(m);
      BuildAll(m.g, m.l, m.nb, BuildMany(ms[..|ms| - 1], t))
  }

  /** Over any sequence of builds no destination is ever added twice, and no entry is ever changed. */
  lemma {:induction false} NeverAddedTwice(ms: seq<Moment>, t: seq<Route>)
    requires forall i :: 0 <= i < |ms| ==> MomentOk(ms[i])
    ensures t <= BuildMany(ms, t) && FreshFrom(BuildMany(ms, t), |t|)
  {
    if ms != [] {
      var m := ms[|ms| - 1];
      assert MomentOk(m);
      NeverAddedTwice(ms[..|ms| - 1], t);
      BuildContract(m.g, m.l, m.nb, BuildMany(ms[..|ms| - 1], t), |t|);
    }
  }

  // ----- gateways ------------------------------------------------------------------------

  /** The gateway of `r` is the record of router `rid`, or record 0 when that router is no live neighbour. */
  ghost predicate GatewayOf(nb: seq<Neighbour>, rid: Addr, r: Route) {
    var k := NeighbourIndex(nb, rid);
    && k < |nb| && r.gw == nb[k].ip && r.iface == nb[k].interFace
    && (nb[k].routerId == rid && nb[k].alive <==> exists j :: 0 <= j < |nb| && nb[j].routerId == rid && nb[j].alive)
    && ((forall j :: 0 <= j < |nb| ==> !(nb[j].routerId == rid && nb[j].alive)) ==> k == 0)
  }

  /**
    The whole pipeline for one vertex. The route of a reached subnet carries the address and interface
    of its own router's record exactly when that router is a live neighbour, else those of record 0.
  */
  lemma RouteGoesToOwner(g: Graph, s: int, l: seq<Label>, nb: seq<Neighbour>, id: int)
    requires GraphInv(g) && Exact(g, s, l) && nb != []
    requires 0 <= id < |g| && Reached(g, l, id)
    ensures var r := RouteTo(g, l, nb, id);
      r.dest == g[id].subnet && r.mask == g[id].mask && GatewayOf(nb, g[id].rid, r)
  {
    hide GraphInv, Exact, NeighbourFrom;
    LeafParentIsItsRouter(g, s, l, id);
    NeighbourFromExactly(nb, g[id].rid, 0);
  }

  /** `id` is the first reached vertex of its subnet in list order, newest vertex first. */
  ghost predicate FirstOfSubnet(g: Graph, l: seq<Label>, id: int)
    requires |g| == |l|
  {
    && 0 <= id < |g| && Reached(g, l, id)
    && forall j :: id < j < |g| && Reached(g, l, j) ==> g[j].subnet != g[id].subnet
  }

  /** After `p` vertices the entries from `n` on are the routes of the first vertices of the missing subnets. */
  lemma {:induction false} BuildTakesFirst(g: Graph, l: seq<Label>, nb: seq<Neighbour>, t: seq<Route>, p: nat)
    requires p <= |g| == |l| && nb != []
    ensures var u := Build(g, l, nb, t, p);
      && |t| <= |u|
      && (forall i :: |t| <= i < |u| ==> EntryOfFirst(g, l, nb, t, u[i]))
      && (forall i :: |t| <= i < |u| ==> SubnetSeen(g, l, p, u[i].dest))
  {
    hide EntryOfFirst, SubnetSeen, RouteTo;
    if p > 0 {
      BuildTakesFirst(g, l, nb, t, p - 1);
      BuildKeepsPrefix(g, l, nb, t, p - 1);
      var u, v, id := Build(g, l, nb, t, p - 1), Build(g, l, nb, t, p), |g| - p;
      SeenNext(g, l, p);
      if Reached(g, l, id) && !HasDest(u, g[id].subnet) {
        NewEntryIsFirst(g, l, nb, t, p, u);
        assert v == u + [RouteTo(g, l, nb, id)];
        RouteDest(g, l, nb, id);
      } else {
        assert v == u;
      }
    }
  }

  /** Among the first `p` vertices in list order one of subnet `dest` is reached. */
  ghost predicate SubnetSeen(g: Graph, l: seq<Label>, p: nat, dest: Addr)
    requires p <= |g| == |l|
  {
    exists id :: |g| - p <= id < |g| && Reached(g, l, id) && g[id].subnet == dest
  }

  lemma SeenNext(g: Graph, l: seq<Label>, p: nat)
    requires 0 < p <= |g| == |l|
    ensures forall dest :: SubnetSeen(g, l, p - 1, dest) ==> SubnetSeen(g, l, p, dest)
    ensures Reached(g, l, |g| - p) ==> SubnetSeen(g, l, p, g[|g| - p].subnet)
  {
  }

  lemma RouteDest(g: Graph, l: seq<Label>, nb: seq<Neighbour>, id: int)
    requires 0 <= id < |g| == |l| && nb != [] && Reached(g, l, id)
    ensures RouteTo(g, l, nb, id).dest == g[id].subnet
  {
  }

  /** The entry is the route of a first vertex whose subnet the old table did not have. */
  ghost predicate EntryOfFirst(g: Graph, l: seq<Label>, nb: seq<Neighbour>, t: seq<Route>, r: Route)
    requires |g| == |l| && nb != []
  {
    exists id :: FirstOfSubnet(g, l, id) && !HasDest(t, g[id].subnet) && r == RouteTo(g, l, nb, id)
  }

  lemma NewEntryIsFirst(g: Graph, l: seq<Label>, nb: seq<Neighbour>, t: seq<Route>, p: nat, u: seq<Route>)
    requires 0 < p <= |g| == |l| && nb != [] && u == Build(g, l, nb, t, p - 1) && t <= u
    requires Reached(g, l, |g| - p) && !HasDest(u, g[|g| - p].subnet)
    ensures EntryOfFirst(g, l, nb, t, RouteTo(g, l, nb, |g| - p))
  {
    var id := |g| - p;
    forall j | id < j < |g| && Reached(g, l, j) ensures g[j].subnet != g[id].subnet {
      BuildCovers(g, l, nb, t, p - 1, j);
    }
    if HasDest(t, g[id].subnet) { HasDestGrows(t, u, g[id].subnet); }
    assert FirstOfSubnet(g, l, id);
  }

  /**
    The table after an accepted update. Each new entry belongs to the first reached vertex, in list
    order, of a subnet the table did not have. Its gateway is the record of that vertex's own router
    exactly when that router is a live neighbour, and record 0 otherwise. And every such vertex has
    its entry. A subnet with several owners goes to the owner learned last.
  */
  lemma TableGoesToFirstOwners(g: Graph, s: int, l: seq<Label>, nb: seq<Neighbour>, t: seq<Route>)
    requires GraphInv(g) && Exact(g, s, l) && nb != []
    ensures |g| == |l|
    ensures var u := BuildAll(g, l, nb, t);
      && t <= u
      && (forall i :: |t| <= i < |u| ==> OwnedEntry(g, l, nb, t, u[i]))
      && (forall id :: FirstOfSubnet(g, l, id) && !HasDest(t, g[id].subnet) ==> RouteTo(g, l, nb, id) in u)
  {
    assert |g| == |l|;
    hide GraphInv, Exact, FirstOfSubnet, OwnedEntry;
    var u := BuildAll(g, l, nb, t);
    BuildKeepsPrefix(g, l, nb, t, |g|);
    BuildTakesFirst(g, l, nb, t, |g|);
    forall i | |t| <= i < |u| ensures OwnedEntry(g, l, nb, t, u[i]) {
      assert EntryOfFirst(g, l, nb, t, u[i]);
      FirstIsOwner(g, s, l, nb, t, u[i]);
    }
    forall id | FirstOfSubnet(g, l, id) && !HasDest(t, g[id].subnet) ensures RouteTo(g, l, nb, id) in u {
      FirstHasEntry(g, l, nb, t, id);
    }
  }

  ghost predicate OwnedEntry(g: Graph, l: seq<Label>, nb: seq<Neighbour>, t: seq<Route>, r: Route)
    requires |g| == |l|
  {
    exists id :: FirstOfSubnet(g, l, id) && !HasDest(t, g[id].subnet)
              && r.dest == g[id].subnet && r.mask == g[id].mask && GatewayOf(nb, g[id].rid, r)
  }

  lemma FirstIsOwner(g: Graph, s: int, l: seq<Label>, nb: seq<Neighbour>, t: seq<Route>, r: Route)
    requires GraphInv(g) && Exact(g, s, l) && nb != [] && |g| == |l| && EntryOfFirst(g, l, nb, t, r)
    ensures OwnedEntry(g, l, nb, t, r)
  {
    hide GraphInv, Exact, GatewayOf, HasDest, RouteTo;
    var id :| FirstOfSubnet(g, l, id) && !HasDest(t, g[id].subnet) && r == RouteTo(g, l, nb, id);
    RouteGoesToOwner(g, s, l, nb, id);
  }

  lemma FirstHasEntry(g: Graph, l: seq<Label>, nb: seq<Neighbour>, t: seq<Route>, id: int)
    requires |g| == |l| && nb != [] && FirstOfSubnet(g, l, id) && !HasDest(t, g[id].subnet)
    ensures RouteTo(g, l, nb, id) in BuildAll(g, l, nb, t)
  {
    var p, u := |g| - id, BuildAll(g, l, nb, t);
    var before, after := Build(g, l, nb, t, p - 1), Build(g, l, nb, t, p);
    BuildKeepsPrefix(g, l, nb, t, p - 1);
    BuildTakesFirst(g, l, nb, t, p - 1);
    forall i | 0 <= i < |before| ensures before[i].dest != g[id].subnet {
      assert i < |t| ==> before[i] == t[i];
    }
    assert after == before + [RouteTo(g, l, nb, id)];
    BuildGrows(g, l, nb, t, p, |g|);
    assert u[|before|] == after[|before|] == RouteTo(g, l, nb, id);
  }

  lemma {:induction false} BuildGrows(g: Graph, l: seq<Label>, nb: seq<Neighbour>, t: seq<Route>, p: nat, q: nat)
    requires p <= q <= |g| == |l| && nb != []
    ensures Build(g, l, nb, t, p) <= Build(g, l, nb, t, q)
    decreases q - p
  {
    if p < q { BuildGrows(g, l, nb, t, p, q - 1); }
  }

  // ----- the whole table, in terms of labels and records ---------------------------------

  /** A subnet vertex that the search has reached: its parent label is set. */
  ghost predicate SubnetReached(g: Graph, l: seq<Label>, id: int) {
    0 <= id < |g| && id < |l| && g[id].kind == SUBNET && l[id].parent != -1
  }

  /** Record `k` is the first live one of router `rid`, or record 0 when there is none. */
  ghost predicate IsHopFor(nb: seq<Neighbour>, rid: Addr, k: int) {
    && 0 <= k < |nb|
    && ((exists j :: 0 <= j < |nb| && nb[j].routerId == rid && nb[j].alive) ==>
          nb[k].routerId == rid && nb[k].alive && forall j :: 0 <= j < k ==> !(nb[j].routerId == rid && nb[j].alive))
    && ((forall j :: 0 <= j < |nb| ==> !(nb[j].routerId == rid && nb[j].alive)) ==> k == 0)
  }

  /** Entry `r` is the route to subnet vertex `id` by way of the owner's record. */
  ghost predicate LeadsTo(g: Graph, nb: seq<Neighbour>, id: int, r: Route)
    requires 0 <= id < |g|
  {
    && r.dest == g[id].subnet && r.mask == g[id].mask
    && exists k :: IsHopFor(nb, g[id].rid, k) && r.gw == nb[k].ip && r.iface == nb[k].interFace
  }

  /** Entry `r` leads to the newest reached vertex of a subnet that table `t` did not have. */
  ghost predicate IsNewRoute(g: Graph, l: seq<Label>, nb: seq<Neighbour>, t: seq<Route>, r: Route) {
    exists id :: SubnetReached(g, l, id) && LeadsTo(g, nb, id, r)
              && (forall j :: id < j < |g| && SubnetReached(g, l, j) ==> g[j].subnet != r.dest)
              && (forall i :: 0 <= i < |t| ==> t[i].dest != r.dest)
  }

  /**
    The table after an update: the old one, then one route for each reached subnet it did not have,
    to the newest vertex of that subnet through the record of the vertex's own router.
  */
  ghost predicate TableServes(g: Graph, l: seq<Label>, nb: seq<Neighbour>, t: seq<Route>, u: seq<Route>) {
    && t <= u
    && (forall id :: SubnetReached(g, l, id) ==> exists i :: 0 <= i < |u| && u[i].dest == g[id].subnet)
    && (forall i :: |t| <= i < |u| ==> IsNewRoute(g, l, nb, t, u[i]))
    && (forall i, j :: 0 <= i < j < |u| && |t| <= j ==> u[i].dest != u[j].dest)
  }

  /** A reached subnet is one whose parent label names a vertex, and its owner's router is less than 6 away. */
  lemma ReachedIsSubnetReached(g: Graph, s: int, l: seq<Label>, id: int)
    requires GraphInv(g) && Exact(g, s, l) && 0 <= id < |g|
    ensures |g| == |l| && (Reached(g, l, id) <==> SubnetReached(g, l, id))
  {
    hide GraphInv;
    if SubnetReached(g, l, id) { LeafParentIsItsRouter(g, s, l, id); }
  }

  lemma BuildServes(g: Graph, s: int, l: seq<Label>, nb: seq<Neighbour>, t: seq<Route>)
    requires GraphInv(g) && Exact(g, s, l) && nb != []
    ensures |g| == |l| && TableServes(g, l, nb, t, BuildAll(g, l, nb, t))
  {
    assert |g| == |l|;
    hide GraphInv, Exact, FirstOfSubnet, OwnedEntry, SubnetReached, IsNewRoute;
    var u := BuildAll(g, l, nb, t);
    BuildKeepsPrefix(g, l, nb, t, |g|);
    BuildKeepsOlderFresh(g, l, nb, t);
    TableGoesToFirstOwners(g, s, l, nb, t);
    forall id | SubnetReached(g, l, id) ensures exists i :: 0 <= i < |u| && u[i].dest == g[id].subnet {
      SubnetHasEntry(g, s, l, nb, t, id);
    }
    forall i | |t| <= i < |u| ensures IsNewRoute(g, l, nb, t, u[i]) {
      assert OwnedEntry(g, l, nb, t, u[i]);
      OwnedIsNewRoute(g, s, l, nb, t, u[i]);
    }
  }

  lemma BuildKeepsOlderFresh(g: Graph, l: seq<Label>, nb: seq<Neighbour>, t: seq<Route>)
    requires |g| == |l| && nb != []
    ensures FreshFrom(BuildAll(g, l, nb, t), |t|)
  {
    BuildAddsFresh(g, l, nb, t, |g|, |t|);
  }

  lemma SubnetHasEntry(g: Graph, s: int, l: seq<Label>, nb: seq<Neighbour>, t: seq<Route>, id: int)
    requires GraphInv(g) && Exact(g, s, l) && nb != [] && |g| == |l| && SubnetReached(g, l, id)
    ensures var u := BuildAll(g, l, nb, t); exists i :: 0 <= i < |u| && u[i].dest == g[id].subnet
  {
    ReachedIsSubnetReached(g, s, l, id);
    BuildCovers(g, l, nb, t, |g|, id);
    var u := BuildAll(g, l, nb, t);
    assert HasDest(u, g[id].subnet);
  }

  lemma OwnedIsNewRoute(g: Graph, s: int, l: seq<Label>, nb: seq<Neighbour>, t: seq<Route>, r: Route)
    requires GraphInv(g) && Exact(g, s, l) && nb != [] && |g| == |l| && OwnedEntry(g, l, nb, t, r)
    ensures IsNewRoute(g, l, nb, t, r)
  {
    hide GraphInv, Exact, GatewayOf, IsHopFor, HasDest, Reached, SubnetReached;
    var id :| FirstOfSubnet(g, l, id) && !HasDest(t, g[id].subnet)
           && r.dest == g[id].subnet && r.mask == g[id].mask && GatewayOf(nb, g[id].rid, r);
    ReachedIsSubnetReached(g, s, l, id);
    GatewayIsHop(nb, g[id].rid, r);
    NoDest(t, r.dest);
    forall j | id < j < |g| && SubnetReached(g, l, j) ensures g[j].subnet != r.dest {
      ReachedIsSubnetReached(g, s, l, j);
    }
  }

  lemma NoDest(t: seq<Route>, dest: Addr)
    requires !HasDest(t, dest)
    ensures forall i :: 0 <= i < |t| ==> t[i].dest != dest
  {
  }

  lemma GatewayIsHop(nb: seq<Neighbour>, rid: Addr, r: Route)
    requires nb != [] && GatewayOf(nb, rid, r)
    ensures exists k :: IsHopFor(nb, rid, k) && r.gw == nb[k].ip && r.iface == nb[k].interFace
  {
    var k := NeighbourIndex(nb, rid);
    NeighbourFromExactly(nb, rid, 0);
    assert IsHopFor(nb, rid, k);
  }
}
