/** The routing table: a linked list that only ever grows at its tail, searched front to back. */
module RouteTables {
  import opened Words

  datatype Route = Route(dest: Addr, gw: Addr, mask: Addr, iface: string)

  function Bits(a: Addr): bv32 { a as bv32 }

  /** Bitwise and of two addresses. */
  function And(a: Addr, b: Addr): Addr { ((a as bv32) & (b as bv32)) as Addr }

  /** `x` and `d` agree on the bits of mask `m`, as the lookup tests it. */
  predicate Agree(m: bv32, x: bv32, d: bv32) { m & x == d & m }

  // ----- lookups as functions ------------------------------------------------------------

  predicate Matches(r: Route, ip: Addr) {
    r.mask > 0 && Agree(Bits(r.mask), Bits(ip), Bits(r.dest))
  }

  predicate IsDefault(r: Route) {
    r.gw != 0 && r.mask == 0
  }

  /** The first position that matches `ip`, or the length of the table. */
  function FirstMatch(t: seq<Route>, ip: Addr): (k: nat)
    ensures k <= |t|
  {
    if t == [] || Matches(t[0], ip) then 0 else 1 + FirstMatch(t[1..], ip)
  }

  lemma {:induction false} FirstMatchIsFirst(t: seq<Route>, ip: Addr)
    ensures FirstMatch(t, ip) < |t| ==> Matches(t[FirstMatch(t, ip)], ip)
    ensures forall j :: 0 <= j < FirstMatch(t, ip) ==> !Matches(t[j], ip)
  {
    hide Matches;
    if t != [] && !Matches(t[0], ip) { FirstMatchIsFirst(t[1..], ip); }
  }

  predicate HasDest(t: seq<Route>, dest: Addr) {
    exists i :: 0 <= i < |t| && t[i].dest == dest
  }

  predicate IsGatewayOf(t: seq<Route>, ip: Addr) {
    exists i :: 0 <= i < |t| && t[i].gw == ip
  }

  /** The first default route, or the length of the table. */
  function FirstDefault(t: seq<Route>): (k: nat)
    ensures k <= |t| && (k < |t| ==> IsDefault(t[k]))
    ensures forall j :: 0 <= j < k ==> !IsDefault(t[j])
  {
    if t == [] || IsDefault(t[0]) then 0 else 1 + FirstDefault(t[1..])
  }

  // ----- the list ------------------------------------------------------------------------

  class RouteNode {
    const route: Route
    var next: RouteNode?

    constructor (route: Route)
      ensures this.route == route && next == null
    {
      this.route := route;
      next := null;
    }
  }

  class RouteTable {
    var head: RouteNode?
    ghost var nodes: seq<RouteNode>

    ghost predicate Valid()
      reads this, nodes
    {
      && head == At(0)
      && (forall i :: 0 <= i < |nodes| ==> nodes[i].next == At(i + 1))
      && (forall i, j :: 0 <= i < j < |nodes| ==> nodes[i] != nodes[j])
    }

    /** The `i`-th node, or null at the end of the list. */
    ghost function At(i: nat): RouteNode?
      reads this
    {
      if i < |nodes| then nodes[i] else null
    }

    ghost function Routes(): (t: seq<Route>)
      reads this
      ensures |t| == |nodes| && forall i :: 0 <= i < |nodes| ==> t[i] == nodes[i].route
    {
      seq(|nodes|, i requires 0 <= i < |nodes| reads this => nodes[i].route)
    }

    /** Nodes are only ever added. */
    twostate predicate OnlyGrows()
      reads this
    {
      forall p :: 0 <= p < |nodes| ==> nodes[p] in old(nodes) || fresh(nodes[p])
    }

    constructor ()
      ensures Valid() && Routes() == [] && nodes == []
    {
      head, nodes := null, [];
    }

    /** Walks to the tail and links a new node there. */
    method AddEntry(dest: Addr, gw: Addr, mask: Addr, iface: string)
      requires Valid()
      modifies this, nodes
      ensures Valid() && Routes() == old(Routes()) + [Route(dest, gw, mask, iface)]
      ensures OnlyGrows()
    {
      var node := new RouteNode(Route(dest, gw, mask, iface));
      if head == null {
        head := node;
      } else {
        var walker := head;
        ghost var k := 0;
        while walker.next != null
          invariant 0 <= k < |nodes| && walker == nodes[k] && Valid()
          decreases |nodes| - k
        {
          walker := walker.next;
          k := k + 1;
        }
        walker.next := node;
      }
      nodes := nodes + [node];
    }

    method Lookup(ip: Addr) returns (node: RouteNode?)
      requires Valid()
      ensures node == At(FirstMatch(Routes(), ip))
    {
      hide Matches;
      node := head;
      ghost var k := 0;
      while node != null
        invariant 0 <= k <= |nodes| && node == At(k)
        invariant forall j :: 0 <= j < k ==> !Matches(Routes()[j], ip)
        decreases |nodes| - k
      {
        if Matches(node.route, ip) { break; }
        node := node.next;
        k := k + 1;
      }
      FirstMatchIsFirst(Routes(), ip);
      assert k == FirstMatch(Routes(), ip);
    }

    method DefaultGateway() returns (node: RouteNode?)
      requires Valid()
      ensures node == At(FirstDefault(Routes()))
    {
      hide IsDefault;
      node := head;
      ghost var k := 0;
      while node != null
        invariant 0 <= k <= |nodes| && node == At(k)
        invariant forall j :: 0 <= j < k ==> !IsDefault(Routes()[j])
        decreases |nodes| - k
      {
        if IsDefault(node.route) { break; }
        node := node.next;
        k := k + 1;
      }
      assert k == FirstDefault(Routes());
    }

    method IsGateway(ip: Addr) returns (found: bool)
      requires Valid()
      ensures found <==> IsGatewayOf(Routes(), ip)
    {
      var node := head;
      ghost var k := 0;
      while node != null
        invariant 0 <= k <= |nodes| && node == At(k)
        invariant forall j :: 0 <= j < k ==> Routes()[j].gw != ip
        decreases |nodes| - k
      {
        if node.route.gw == ip {
          assert Routes()[k].gw == ip;
          return true;
        }
        node := node.next;
        k := k + 1;
      }
      return false;
    }

    method FindDest(dest: Addr) returns (found: bool)
      requires Valid()
      ensures found <==> HasDest(Routes(), dest)
    {
      hide HasDest;
      var node := head;
      found := false;
      HasDestEmpty(dest);
      ghost var t, k := Routes(), 0;
      while node != null
        invariant 0 <= k <= |nodes| && node == At(k)
        invariant found <==> HasDest(t[..k], dest)
        decreases |nodes| - k
      {
        HasDestNext(t, k, dest);
        if node.route.dest == dest { found := true; }
        node := node.next;
        k := k + 1;
      }
      assert t[..k] == t;
    }
  }

  lemma HasDestEmpty(dest: Addr)
    ensures !HasDest([], dest)
  {
  }

  lemma HasDestNext(t: seq<Route>, k: nat, dest: Addr)
    requires k < |t|
    ensures HasDest(t[..k + 1], dest) <==> HasDest(t[..k], dest) || t[k].dest == dest
  {
    var u, v := t[..k], t[..k + 1];
    assert v == u + [t[k]];
    if HasDest(u, dest) {
      var i :| 0 <= i < |u| && u[i].dest == dest;
      assert v[i].dest == dest;
    }
    if t[k].dest == dest { assert v[k].dest == dest; }
  }

  // ----- bit by bit ----------------------------------------------------------------------

  predicate Bit(x: bv32, k: bv5) { (x >> k) & 1 == 1 }

  /** Bit `k` of an address, counted from the right. */
  predicate BitAt(a: Addr, k: bv5) { Bit(a as bv32, k) }

  /** The rightmost bit of a word that is not 0. */
  lemma LowestBit(v: bv32) returns (k: bv5)
    requires v != 0
    ensures Bit(v, k) && v & ((1 << k) - 1) == 0
  {
    k := if v & 0xFFFF == 0 then 16 else 0;
    k := if (v >> k) & 0xFF == 0 then k + 8 else k;
    k := if (v >> k) & 0xF == 0 then k + 4 else k;
    k := if (v >> k) & 3 == 0 then k + 2 else k;
    k := if (v >> k) & 1 == 0 then k + 1 else k;
  }

  lemma AndBit(x: bv32, y: bv32, k: bv5)
    ensures Bit(x & y, k) <==> Bit(x, k) && Bit(y, k)
  {
  }

  lemma DifferBit(m: bv32, x: bv32, d: bv32, k: bv5)
    requires Bit((m & x) ^ (d & m), k)
    ensures Bit(m, k) && Bit(x, k) != Bit(d, k)
  {
  }

  lemma SameBit(m: bv32, x: bv32, d: bv32, k: bv5)
    requires m & x == d & m && Bit(m, k)
    ensures Bit(x, k) == Bit(d, k)
  {
  }

  lemma NothingDiffers(x: bv32, y: bv32)
    ensures x ^ y == 0 <==> x == y
  {
  }

  lemma NoBits(k: bv5)
    ensures !Bit(0, k)
  {
  }

  lemma BitsAre(a: Addr)
    ensures Bits(a) == a as bv32
    ensures forall k :: BitAt(a, k) <==> Bit(Bits(a), k)
  {
    hide Bit;
  }

  lemma AndIsBitwise(a: Addr, b: Addr)
    ensures Bits(And(a, b)) == Bits(a) & Bits(b)
  {
  }

  /** Bitwise and, bit by bit. */
  lemma AndExactly(a: Addr, b: Addr, k: bv5)
    ensures BitAt(And(a, b), k) <==> BitAt(a, k) && BitAt(b, k)
  {
    hide Bit, And, Bits, BitAt;
    AndIsBitwise(a, b);
    AndBit(Bits(a), Bits(b), k);
    BitsAre(a);
    BitsAre(b);
    BitsAre(And(a, b));
  }

  /** A route matches the addresses that agree with its destination on every bit of its mask, if that is not 0. */
  lemma MatchesExactly(r: Route, ip: Addr)
    ensures Matches(r, ip)
       <==> r.mask != 0 && forall k: bv5 :: BitAt(r.mask, k) ==> (BitAt(ip, k) <==> BitAt(r.dest, k))
  {
    hide Bit, Agree, Bits, BitAt;
    AgreeExactly(Bits(r.mask), Bits(ip), Bits(r.dest));
    BitsAre(r.mask);
    BitsAre(ip);
    BitsAre(r.dest);
  }

  lemma AgreeExactly(m: bv32, x: bv32, d: bv32)
    ensures Agree(m, x, d) <==> forall k :: Bit(m, k) ==> (Bit(x, k) <==> Bit(d, k))
  {
    var v := (m & x) ^ (d & m);
    NothingDiffers(m & x, d & m);
    hide Bit;
    if v != 0 {
      var k := LowestBit(v);
      DifferBit(m, x, d, k);
    } else {
      forall k | Bit(m, k) ensures Bit(x, k) <==> Bit(d, k) { SameBit(m, x, d, k); }
    }
  }

  // ----- first match and longest match ---------------------------------------------------

  /** Ones followed by zeros. */
  predicate ContiguousBits(m: bv32) { !m & (!m + 1) == 0 }

  predicate Contiguous(mask: Addr) { ContiguousBits(Bits(mask)) }

  /** Every bit of `m` is also in `n`; between contiguous masks, `n` is at least as long. */
  predicate NoLonger(m: Addr, n: Addr) { Within(Bits(m), Bits(n)) }

  predicate Within(m: bv32, n: bv32) { m & n == m }

  /** The prefix of `r` strictly contains that of `s`. */
  predicate StrictlyContains(r: Route, s: Route) {
    NoLonger(r.mask, s.mask) && !NoLonger(s.mask, r.mask)
    && Agree(Bits(r.mask), Bits(s.dest), Bits(r.dest))
  }

  /** Position `k` is the longest match of RFC 1812, section 5.2.4.3: it matches, and no match is longer. */
  ghost predicate IsLongestMatch(t: seq<Route>, ip: Addr, k: nat) {
    k < |t| && Matches(t[k], ip) && forall j :: 0 <= j < |t| && Matches(t[j], ip) ==> NoLonger(t[j].mask, t[k].mask)
  }

  ghost predicate AllContiguous(t: seq<Route>) {
    forall i :: 0 <= i < |t| ==> Contiguous(t[i].mask)
  }

  /** First match and longest match agree on every address. */
  ghost predicate FirstIsLongest(t: seq<Route>) {
    forall ip :: FirstMatch(t, ip) < |t| ==> IsLongestMatch(t, ip, FirstMatch(t, ip))
  }

  /** No prefix of the table strictly contains another; routes with mask 0 are never matched. */
  ghost predicate NoNesting(t: seq<Route>) {
    forall i, j :: 0 <= i < |t| && 0 <= j < |t| && t[i].mask > 0 && t[j].mask > 0 ==> !StrictlyContains(t[i], t[j])
  }

  /** In a contiguous mask, every bit to the left of a set bit is set. */
  lemma ContiguousExactly(mask: Addr)
    ensures Contiguous(mask) <==> forall j: bv5, k: bv5 :: j < k && BitAt(mask, j) ==> BitAt(mask, k)
  {
    hide Bit, ContiguousBits, Bits, BitAt;
    BitsAre(mask);
    var m := Bits(mask);
    if ContiguousBits(m) {
      forall j: bv5, k: bv5 | j < k && Bit(m, j) ensures Bit(m, k) { BitsAbove(m, j, k); }
    } else {
      NotContiguous(m);
      var j := LowestBit(m);
      var k := LowestBit(!m & (!m + 1));
      BitsMissing(m, j, k);
    }
  }

  lemma BitsAbove(m: bv32, j: bv5, k: bv5)
    requires ContiguousBits(m) && j < k && Bit(m, j)
    ensures Bit(m, k)
  {
  }

  lemma NotContiguous(m: bv32)
    requires !ContiguousBits(m)
    ensures m != 0 && !m & (!m + 1) != 0
  {
  }

  lemma BitsMissing(m: bv32, j: bv5, k: bv5)
    requires Bit(m, j) && m & ((1 << j) - 1) == 0 && Bit(!m & (!m + 1), k)
    ensures j < k && !Bit(m, k)
  {
  }

  /** One mask is no longer than another when the other has all its bits. */
  lemma NoLongerExactly(m: Addr, n: Addr)
    ensures NoLonger(m, n) <==> forall k: bv5 :: BitAt(m, k) ==> BitAt(n, k)
  {
    hide Bit, Within, Bits, BitAt;
    BitsAre(m);
    BitsAre(n);
    WithinExactly(Bits(m), Bits(n));
  }

  lemma WithinExactly(m: bv32, n: bv32)
    ensures Within(m, n) <==> forall k :: Bit(m, k) ==> Bit(n, k)
  {
    var v := m & !n;
    hide Bit, Within;
    WithinIs(m, n);
    if v != 0 {
      var k := LowestBit(v);
      OnlyHere(m, n, k);
    } else {
      forall k | Bit(m, k) ensures Bit(n, k) {
        OnlyHere(m, n, k);
        NoBits(k);
      }
    }
  }

  lemma WithinIs(m: bv32, n: bv32)
    ensures Within(m, n) <==> m & !n == 0
  {
  }

  lemma OnlyHere(m: bv32, n: bv32, k: bv5)
    ensures Bit(m & !n, k) <==> Bit(m, k) && !Bit(n, k)
  {
  }

  /** Of two contiguous masks one is a part of the other. */
  lemma MasksNest(m: bv32, n: bv32)
    requires ContiguousBits(m) && ContiguousBits(n)
    ensures m & n == m || m & n == n
  {
  }

  /** Of two contiguous prefixes that match one address, one contains the other. */
  lemma PrefixesNest(m: bv32, d: bv32, n: bv32, e: bv32, ip: bv32)
    requires ContiguousBits(m) && ContiguousBits(n)
    requires Agree(m, ip, d) && Agree(n, ip, e)
    ensures Within(n, m) || (Within(m, n) && Agree(m, e, d))
    ensures Within(m, n) ==> Agree(m, e, d)
  {
    MasksNest(m, n);
  }

  lemma MatchesNest(r: Route, s: Route, ip: Addr)
    requires Contiguous(r.mask) && Contiguous(s.mask) && Matches(r, ip) && Matches(s, ip)
    ensures NoLonger(s.mask, r.mask) || StrictlyContains(r, s)
  {
    hide Bits, ContiguousBits, Agree, Within;
    PrefixesNest(Bits(r.mask), Bits(r.dest), Bits(s.mask), Bits(s.dest), Bits(ip));
  }

  lemma ContainsMatches(r: Route, s: Route)
    requires r.mask > 0 && s.mask > 0 && StrictlyContains(r, s)
    ensures Matches(r, s.dest) && Matches(s, s.dest)
  {
    hide Bits, Agree, Within;
    AgreeWithSelf(Bits(s.mask), Bits(s.dest));
  }

  lemma AgreeWithSelf(m: bv32, x: bv32)
    ensures Agree(m, x, x)
  {
  }

  lemma NoNestingIsLongest(t: seq<Route>, ip: Addr)
    requires AllContiguous(t) && NoNesting(t) && FirstMatch(t, ip) < |t|
    ensures IsLongestMatch(t, ip, FirstMatch(t, ip))
  {
    hide Matches, NoLonger, StrictlyContains, Contiguous;
    var k := FirstMatch(t, ip);
    FirstMatchIsFirst(t, ip);
    forall j | 0 <= j < |t| && Matches(t[j], ip) ensures NoLonger(t[j].mask, t[k].mask) {
      MatchesNest(t[k], t[j], ip);
      MatchIsPositive(t[j], ip);
      MatchIsPositive(t[k], ip);
    }
  }

  lemma MatchIsPositive(r: Route, ip: Addr)
    requires Matches(r, ip)
    ensures r.mask > 0
  {
  }

  lemma NoNestingPermutes(t: seq<Route>, u: seq<Route>)
    requires multiset(t) == multiset(u)
    ensures NoNesting(t) ==> NoNesting(u)
    ensures AllContiguous(t) ==> AllContiguous(u)
  {
    hide StrictlyContains, Contiguous;
    forall i | 0 <= i < |u| ensures exists j :: 0 <= j < |t| && t[j] == u[i] {
      assert u[i] in multiset(u);
      assert u[i] in multiset(t);
    }
  }

  lemma NestingFails(t: seq<Route>, i: nat, j: nat)
    requires i < |t| && j < |t| && t[i].mask > 0 && t[j].mask > 0 && StrictlyContains(t[i], t[j])
    ensures var u := [t[i]] + t[..i] + t[i + 1..];
      multiset(u) == multiset(t) && FirstMatch(u, t[j].dest) == 0 && !IsLongestMatch(u, t[j].dest, 0)
  {
    hide Matches, NoLonger, StrictlyContains;
    var u := [t[i]] + t[..i] + t[i + 1..];
    assert t == t[..i] + [t[i]] + t[i + 1..];
    ContainsMatches(t[i], t[j]);
    ContainerIsShorter(t[i], t[j]);
    var k := if j < i then j + 1 else j;
    assert u[k] == t[j];
    assert FirstMatch(u, t[j].dest) == 0;
  }

  lemma ContainerIsShorter(r: Route, s: Route)
    requires StrictlyContains(r, s)
    ensures r != s && !NoLonger(s.mask, r.mask)
  {
    hide NoLonger;
  }

  /**
    First match is longest match for every ordering of a table with contiguous masks exactly when
    no prefix of the table strictly contains another.
  */
  lemma FirstMatchIsLongestExactly(t: seq<Route>)
    requires AllContiguous(t)
    ensures (forall u :: multiset(u) == multiset(t) ==> FirstIsLongest(u)) <==> NoNesting(t)
  {
    hide Matches, NoLonger, StrictlyContains, Contiguous, IsLongestMatch, FirstIsLongest, AllContiguous, FirstMatch;
    if NoNesting(t) {
      forall u | multiset(u) == multiset(t) ensures FirstIsLongest(u) {
        NoNestingPermutes(t, u);
        NoNestingIsAlwaysLongest(u);
      }
    } else {
      var i, j :| 0 <= i < |t| && 0 <= j < |t| && t[i].mask > 0 && t[j].mask > 0 && StrictlyContains(t[i], t[j]);
      NestingFails(t, i, j);
      var u := [t[i]] + t[..i] + t[i + 1..];
      NotAlwaysLongest(u, t[j].dest);
    }
  }

  lemma NoNestingIsAlwaysLongest(t: seq<Route>)
    requires AllContiguous(t) && NoNesting(t)
    ensures FirstIsLongest(t)
  {
    hide Matches, IsLongestMatch, AllContiguous, NoNesting;
    forall ip: Addr | FirstMatch(t, ip) < |t| ensures IsLongestMatch(t, ip, FirstMatch(t, ip)) {
      NoNestingIsLongest(t, ip);
    }
  }

  lemma NotAlwaysLongest(t: seq<Route>, ip: Addr)
    requires FirstMatch(t, ip) < |t| && !IsLongestMatch(t, ip, FirstMatch(t, ip))
    ensures !FirstIsLongest(t)
  {
    hide Matches, IsLongestMatch;
  }

  /** Neither prefix contains the other, and they are not the same prefix. */
  ghost predicate Disjoint(t: seq<Route>) {
    forall i, j :: 0 <= i < |t| && 0 <= j < |t| && i != j && t[i].mask > 0 && t[j].mask > 0 ==>
      !StrictlyContains(t[i], t[j]) && !SamePrefix(t[i], t[j])
  }

  predicate SamePrefix(r: Route, s: Route) {
    NoLonger(r.mask, s.mask) && NoLonger(s.mask, r.mask) && Agree(Bits(r.mask), Bits(s.dest), Bits(r.dest))
  }

  lemma MatchesNestOrSame(r: Route, s: Route, ip: Addr)
    requires Contiguous(r.mask) && Contiguous(s.mask) && Matches(r, ip) && Matches(s, ip)
    ensures StrictlyContains(r, s) || StrictlyContains(s, r) || SamePrefix(r, s)
  {
    hide Bits, ContiguousBits, Agree, Within;
    PrefixesNest(Bits(r.mask), Bits(r.dest), Bits(s.mask), Bits(s.dest), Bits(ip));
    PrefixesNest(Bits(s.mask), Bits(s.dest), Bits(r.mask), Bits(r.dest), Bits(ip));
  }

  /** On pairwise disjoint prefixes at most one route matches. */
  lemma UniqueMatch(t: seq<Route>, ip: Addr, i: nat, j: nat)
    requires AllContiguous(t) && Disjoint(t)
    requires i < |t| && j < |t| && Matches(t[i], ip) && Matches(t[j], ip)
    ensures i == j
  {
    hide Matches, NoLonger, StrictlyContains, Contiguous, SamePrefix;
    MatchIsPositive(t[i], ip);
    MatchIsPositive(t[j], ip);
    MatchesNestOrSame(t[i], t[j], ip);
  }

  /** The route found does not depend on the order of such a table. */
  lemma OrderDoesNotMatter(t: seq<Route>, u: seq<Route>, ip: Addr)
    requires AllContiguous(t) && Disjoint(t) && multiset(t) == multiset(u)
    ensures FirstMatch(t, ip) < |t| <==> FirstMatch(u, ip) < |u|
    ensures FirstMatch(t, ip) < |t| && FirstMatch(u, ip) < |u| ==> t[FirstMatch(t, ip)] == u[FirstMatch(u, ip)]
  {
    hide Matches, Contiguous, Disjoint;
    var k, l := FirstMatch(t, ip), FirstMatch(u, ip);
    FirstMatchIsFirst(t, ip);
    FirstMatchIsFirst(u, ip);
    if k < |t| {
      assert t[k] in multiset(t);
      assert t[k] in multiset(u);
      var x :| 0 <= x < |u| && u[x] == t[k];
    }
    if l < |u| {
      assert u[l] in multiset(u);
      assert u[l] in multiset(t);
      var y :| 0 <= y < |t| && t[y] == u[l];
      if k < |t| { UniqueMatch(t, ip, k, y); }
    }
  }
}
