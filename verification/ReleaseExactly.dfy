/** What the walk an ARP reply starts sends and leaves, in octets and table entries. */
module ReleaseExactly {
  import opened Words
  import opened PacketFields
  import opened RouteTables
  import opened LsuPackets
  import opened ArpCaches
  import opened ForwardingRules
  import opened ReleaseWalks
  import opened ForwardingExactly

  // ----- who is released -----------------------------------------------------------------

  /** `x` waits for a reply from `ip`, its destination or, if it was queued for a gateway, any gateway. */
  ghost predicate Awaits(t: seq<Route>, ip: Addr, x: Item) {
    |x.bytes| >= 34 && x.bytes[22] > 1 && (AddressAt(x.bytes, 30, ip) || (SomeGateway(t, ip) && x.forGateway))
  }

  lemma MatchingExactly(env: Env, ip: Addr, x: Item)
    requires HasIpHeader(x.bytes)
    ensures Matching(env, ip, x) <==> Awaits(env.t, ip, x)
  {
  }

  /** The packets of a list that do not wait for `ip`, in order. */
  ghost function Staying(t: seq<Route>, ip: Addr, xs: seq<Item>): seq<Item> {
    if xs == [] then [] else (if Awaits(t, ip, xs[0]) then [] else [xs[0]]) + Staying(t, ip, xs[1..])
  }

  ghost function Awaiting(t: seq<Route>, ip: Addr, xs: seq<Item>): seq<Item> {
    if xs == [] then [] else (if Awaits(t, ip, xs[0]) then [xs[0]] else []) + Awaiting(t, ip, xs[1..])
  }

  /** The copies of those that wait for `ip` and, by the decision made about them, have to wait on. */
  ghost function Requeued(env: Env, ip: Addr, xs: seq<Item>): seq<Item>
    requires AllRoutable(env, ip, xs)
  {
    if xs == [] then []
    else
      assert Routable(env, ip, xs[0]);
      var v := Judge(env, xs[0].bytes, xs[0].iface);
      (if Awaits(env.t, ip, xs[0]) && v.Wait? then [Item(xs[0].bytes, v.iface, SomeGateway(env.t, v.hop))] else [])
      + Requeued(env, ip, xs[1..])
  }

  /** The frames of those that wait for `ip` and, by the decision made about them, are sent; in order. */
  ghost function Released(env: Env, ip: Addr, xs: seq<Item>): seq<Output>
    requires MacsOk(env.ifs) && AllRoutable(env, ip, xs)
  {
    if xs == [] then []
    else
      assert Routable(env, ip, xs[0]);
      MatchingExactly(env, ip, xs[0]);
      var v := Judge(env, xs[0].bytes, xs[0].iface);
      (if Awaits(env.t, ip, xs[0]) && v.Send? then [SentFrame(env, xs[0].bytes, v)] else [])
      + Released(env, ip, xs[1..])
  }

  /** What is queued in the end: what did not wait, copies that do not wait any more, the one that still does. */
  ghost function Left(env: Env, ip: Addr, xs: seq<Item>): seq<Item>
    requires AllRoutable(env, ip, xs)
  {
    var copies := Requeued(env, ip, xs);
    Staying(env.t, ip, xs) + Staying(env.t, ip, copies) + Awaiting(env.t, ip, copies)
  }

  /** The packets among all that went out; ARP requests are left out. */
  ghost function Frames(out: seq<Output>): seq<Output> {
    if out == [] then []
    else Frames(out[..|out| - 1]) + if out[|out| - 1].Forwarded? then [out[|out| - 1]] else []
  }

  // ----- lists put together --------------------------------------------------------------

  lemma {:induction false} StayingSplit(t: seq<Route>, ip: Addr, a: seq<Item>, b: seq<Item>)
    ensures Staying(t, ip, a + b) == Staying(t, ip, a) + Staying(t, ip, b)
  {
    hide Awaits;
    if a == [] {
      assert a + b == b;
    } else {
      assert (a + b)[1..] == a[1..] + b && (a + b)[0] == a[0];
      StayingSplit(t, ip, a[1..], b);
      var first := if Awaits(t, ip, a[0]) then [] else [a[0]];
      assert first + Staying(t, ip, a[1..]) + Staying(t, ip, b) == first + (Staying(t, ip, a[1..]) + Staying(t, ip, b));
    }
  }

  lemma {:induction false} AwaitingSplit(t: seq<Route>, ip: Addr, a: seq<Item>, b: seq<Item>)
    ensures Awaiting(t, ip, a + b) == Awaiting(t, ip, a) + Awaiting(t, ip, b)
  {
    hide Awaits;
    if a == [] {
      assert a + b == b;
    } else {
      assert (a + b)[1..] == a[1..] + b && (a + b)[0] == a[0];
      AwaitingSplit(t, ip, a[1..], b);
      var first := if Awaits(t, ip, a[0]) then [a[0]] else [];
      assert first + Awaiting(t, ip, a[1..]) + Awaiting(t, ip, b)
          == first + (Awaiting(t, ip, a[1..]) + Awaiting(t, ip, b));
    }
  }

  lemma {:induction false} RequeuedSplit(env: Env, ip: Addr, a: seq<Item>, b: seq<Item>)
    requires AllRoutable(env, ip, a) && AllRoutable(env, ip, b)
    ensures AllRoutable(env, ip, a + b) && Requeued(env, ip, a + b) == Requeued(env, ip, a) + Requeued(env, ip, b)
  {
    hide Awaits, Routable, Judge, SomeGateway;
    if a == [] {
      assert a + b == b;
    } else {
      assert (a + b)[1..] == a[1..] + b;
      RequeuedSplit(env, ip, a[1..], b);
    }
  }

  lemma ReleasedFirst(env: Env, ip: Addr, x: Item, rest: seq<Item>)
    requires MacsOk(env.ifs) && AllRoutable(env, ip, [x]) && AllRoutable(env, ip, rest)
    ensures AllRoutable(env, ip, [x] + rest)
    ensures Released(env, ip, [x] + rest) == Released(env, ip, [x]) + Released(env, ip, rest)
  {
    hide Awaits, Routable, Judge, SentFrame, MacsOk;
    assert ([x] + rest)[1..] == rest && [x][1..] == [];
  }

  lemma {:induction false} ReleasedLast(env: Env, ip: Addr, rest: seq<Item>, y: Item)
    requires MacsOk(env.ifs) && AllRoutable(env, ip, rest) && AllRoutable(env, ip, [y]) && Released(env, ip, [y]) == []
    ensures AllRoutable(env, ip, rest + [y]) && Released(env, ip, rest + [y]) == Released(env, ip, rest)
  {
    hide Awaits, Routable, Judge, SentFrame, MacsOk;
    if rest == [] {
      assert rest + [y] == [y];
    } else {
      assert (rest + [y])[1..] == rest[1..] + [y];
      ReleasedLast(env, ip, rest[1..], y);
    }
  }

  lemma {:induction false} FramesSplit(a: seq<Output>, b: seq<Output>)
    ensures Frames(a + b) == Frames(a) + Frames(b)
  {
    if b == [] {
      assert a + b == a;
    } else {
      assert (a + b)[..|a + b| - 1] == a + b[..|b| - 1];
      FramesSplit(a, b[..|b| - 1]);
    }
  }

  lemma {:induction false} NoFrames(ifs: seq<Interface>, name: string, target: Addr)
    ensures Frames(ArpRequests(ifs, name, target)) == []
  {
    if ifs != [] {
      NoFrames(ifs[..|ifs| - 1], name, target);
      assert ArpRequests(ifs[..|ifs| - 1], name, target) + [] == ArpRequests(ifs[..|ifs| - 1], name, target);
    }
  }

  // ----- one packet ----------------------------------------------------------------------

  /** What each of the lists holds of one packet. */
  lemma Alone(env: Env, ip: Addr, x: Item)
    requires MacsOk(env.ifs) && Routable(env, ip, x)
    ensures AllRoutable(env, ip, [x])
    ensures var v, waits := Judge(env, x.bytes, x.iface), Awaits(env.t, ip, x);
      && Staying(env.t, ip, [x]) == (if waits then [] else [x])
      && Awaiting(env.t, ip, [x]) == (if waits then [x] else [])
      && Requeued(env, ip, [x]) == (if waits && v.Wait? then [Queued(env, x.bytes, v)] else [])
      && Released(env, ip, [x]) == (if waits && v.Send? then [SentFrame(env, x.bytes, v)] else [])
  {
    MatchingExactly(env, ip, x);
    hide Awaits, Judge, SentFrame, MacsOk, Matching;
  }

  /** Copies that wait still are stuck packets. */
  lemma {:induction false} AwaitingAreStuck(env: Env, ip: Addr, xs: seq<Item>)
    requires MacsOk(env.ifs) && AllRoutable(env, ip, xs)
    ensures |Awaiting(env.t, ip, Requeued(env, ip, xs))| == StuckCount(env, ip, xs)
  {
    if xs != [] {
      var x, rest := xs[0], xs[1..];
      AwaitingAreStuck(env, ip, rest);
      assert xs == [x] + rest && Routable(env, ip, x);
      StuckCountSplit(env, ip, [x], rest);
      StuckCountOne(env, ip, x);
      RequeuedSplit(env, ip, [x], rest);
      AwaitingSplit(env.t, ip, Requeued(env, ip, [x]), Requeued(env, ip, rest));
      OneIsStuck(env, ip, x);
    }
  }

  lemma OneIsStuck(env: Env, ip: Addr, x: Item)
    requires MacsOk(env.ifs) && Routable(env, ip, x)
    ensures AllRoutable(env, ip, [x])
    ensures |Awaiting(env.t, ip, Requeued(env, ip, [x]))| == if Stuck(env, ip, x) then 1 else 0
  {
    Alone(env, ip, x);
    MatchingExactly(env, ip, x);
    hide Awaits, Matching, Judge, MacsOk;
    if Matching(env, ip, x) && VerdictOn(env, x).Wait? {
      QueuedAgain(env, ip, x);
      var y := Queued(env, x.bytes, VerdictOn(env, x));
      MatchingExactly(env, ip, y);
      Alone(env, ip, y);
    }
  }

  // ----- one turn ------------------------------------------------------------------------

  /** The first packet ahead taken apart from the rest. */
  lemma LeftSplit(env: Env, ip: Addr, x: Item, rest: seq<Item>)
    requires MacsOk(env.ifs) && Routable(env, ip, x) && AllRoutable(env, ip, rest)
    ensures AllRoutable(env, ip, [x]) && AllRoutable(env, ip, [x] + rest)
    ensures var t, first, copies := env.t, Requeued(env, ip, [x]), Requeued(env, ip, rest);
      Left(env, ip, [x] + rest)
      == Staying(t, ip, [x]) + Staying(t, ip, rest) + (Staying(t, ip, first) + Staying(t, ip, copies))
         + (Awaiting(t, ip, first) + Awaiting(t, ip, copies))
  {
    hide Awaits, Routable, Staying, Awaiting, Requeued;
    assert AllRoutable(env, ip, [x]);
    StayingSplit(env.t, ip, [x], rest);
    RequeuedSplit(env, ip, [x], rest);
    StayingSplit(env.t, ip, Requeued(env, ip, [x]), Requeued(env, ip, rest));
    AwaitingSplit(env.t, ip, Requeued(env, ip, [x]), Requeued(env, ip, rest));
  }

  /** The same with the last packet ahead. */
  lemma LeftAppended(env: Env, ip: Addr, rest: seq<Item>, y: Item)
    requires MacsOk(env.ifs) && Routable(env, ip, y) && AllRoutable(env, ip, rest)
    ensures AllRoutable(env, ip, [y]) && AllRoutable(env, ip, rest + [y])
    ensures var t, last, copies := env.t, Requeued(env, ip, [y]), Requeued(env, ip, rest);
      Left(env, ip, rest + [y])
      == Staying(t, ip, rest) + Staying(t, ip, [y]) + (Staying(t, ip, copies) + Staying(t, ip, last))
         + (Awaiting(t, ip, copies) + Awaiting(t, ip, last))
  {
    hide Awaits, Routable, Staying, Awaiting, Requeued;
    assert AllRoutable(env, ip, [y]);
    StayingSplit(env.t, ip, rest, [y]);
    RequeuedSplit(env, ip, rest, [y]);
    StayingSplit(env.t, ip, Requeued(env, ip, rest), Requeued(env, ip, [y]));
    AwaitingSplit(env.t, ip, Requeued(env, ip, rest), Requeued(env, ip, [y]));
  }

  /** A packet queued again, while no other is stuck, leaves the same in the end. */
  lemma QueuingAgainLeaves(env: Env, ip: Addr, x: Item, rest: seq<Item>, y: Item)
    requires MacsOk(env.ifs) && Routable(env, ip, x) && AllRoutable(env, ip, rest)
    requires Matching(env, ip, x) && VerdictOn(env, x).Wait? && StuckCount(env, ip, [x] + rest) <= 1
    requires y == Queued(env, x.bytes, VerdictOn(env, x))
    ensures Routable(env, ip, y) && AllRoutable(env, ip, rest + [y]) && AllRoutable(env, ip, [x] + rest)
    ensures Left(env, ip, [x] + rest) == Left(env, ip, rest + [y])
    ensures rest == [] ==> Left(env, ip, [x] + rest) == [y]
  {
    CopyIs(env, ip, x, y);
    hide Awaits, Routable, Staying, Awaiting, Requeued, Released, Left, Matching, VerdictOn, Judge, StuckCount, MacsOk;
    hide Queued, Stuck;
    LeftSplit(env, ip, x, rest);
    LeftAppended(env, ip, rest, y);
    NoneLeft(env, ip, x, rest);
    var copies, stuck := Requeued(env, ip, rest), Stuck(env, ip, x);
    Reorder(stuck, y, Staying(env.t, ip, rest), Staying(env.t, ip, copies), Awaiting(env.t, ip, copies));
  }

  lemma ReleasesNothing(env: Env, ip: Addr, x: Item, rest: seq<Item>)
    requires MacsOk(env.ifs) && AllRoutable(env, ip, [x]) && AllRoutable(env, ip, rest) && Released(env, ip, [x]) == []
    ensures AllRoutable(env, ip, [x] + rest) && Released(env, ip, [x] + rest) == Released(env, ip, rest)
    ensures AllRoutable(env, ip, rest + [x]) && Released(env, ip, rest + [x]) == Released(env, ip, rest)
  {
    hide Routable, Released, MacsOk;
    ReleasedFirst(env, ip, x, rest);
    ReleasedLast(env, ip, rest, x);
  }

  lemma Reorder(stuck: bool, y: Item, a: seq<Item>, b: seq<Item>, c: seq<Item>)
    requires stuck ==> c == []
    ensures var (go, stay) := if stuck then ([], [y]) else ([y], []);
      && [] + a + (go + b) + (stay + c) == a + go + (b + []) + (c + stay)
      && (a == b == c == [] ==> [] + a + (go + b) + (stay + c) == [y])
  {
  }

  /** What the lists hold of a packet that is queued again and of its copy. */
  lemma CopyIs(env: Env, ip: Addr, x: Item, y: Item)
    requires MacsOk(env.ifs) && Routable(env, ip, x) && Matching(env, ip, x) && VerdictOn(env, x).Wait?
    requires y == Queued(env, x.bytes, VerdictOn(env, x))
    ensures Routable(env, ip, y) && AllRoutable(env, ip, [x]) && AllRoutable(env, ip, [y])
    ensures Staying(env.t, ip, [x]) == [] && Requeued(env, ip, [x]) == [y]
    ensures Released(env, ip, [x]) == Released(env, ip, [y]) == []
    ensures Staying(env.t, ip, [y]) == if Stuck(env, ip, x) then [] else [y]
    ensures Awaiting(env.t, ip, [y]) == if Stuck(env, ip, x) then [y] else []
    ensures Requeued(env, ip, [y]) == if Stuck(env, ip, x) then [y] else []
    ensures Staying(env.t, ip, []) == Awaiting(env.t, ip, []) == []
  {
    CopyStands(env, ip, x, y);
    assert Staying(env.t, ip, []) == Awaiting(env.t, ip, []) == [];
    hide Stuck, Awaits, Matching, Judge, VerdictOn, Routable, Queued, SentFrame, Staying, Awaiting, Requeued, Released;
    hide AllRoutable, MacsOk;
    MatchingExactly(env, ip, x);
    MatchingExactly(env, ip, y);
    Alone(env, ip, x);
    Alone(env, ip, y);
  }

  /** The copy waits as long as it is stuck, and is queued as itself. */
  lemma CopyStands(env: Env, ip: Addr, x: Item, y: Item)
    requires Routable(env, ip, x) && Matching(env, ip, x) && VerdictOn(env, x).Wait?
    requires y == Queued(env, x.bytes, VerdictOn(env, x))
    ensures HasIpHeader(x.bytes) && HasIpHeader(y.bytes) && Routable(env, ip, y)
    ensures Matching(env, ip, y) <==> Stuck(env, ip, x)
    ensures Matching(env, ip, y) ==> VerdictOn(env, y).Wait? && Queued(env, y.bytes, VerdictOn(env, y)) == y
    ensures VerdictOn(env, x) == Judge(env, x.bytes, x.iface) && VerdictOn(env, y) == Judge(env, y.bytes, y.iface)
  {
    hide Judge, Matching;
    QueuedAgain(env, ip, x);
  }

  lemma NoneLeft(env: Env, ip: Addr, x: Item, rest: seq<Item>)
    requires MacsOk(env.ifs) && AllRoutable(env, ip, rest) && StuckCount(env, ip, [x] + rest) <= 1
    ensures Stuck(env, ip, x) ==> Awaiting(env.t, ip, Requeued(env, ip, rest)) == []
    ensures rest == [] ==>
      Staying(env.t, ip, rest) == Requeued(env, ip, rest) == []
  {
    hide Awaits, Routable, StuckCount, MacsOk, Stuck;
    AwaitingAreStuck(env, ip, rest);
    StuckCountSplit(env, ip, [x], rest);
    StuckCountOne(env, ip, x);
  }

  /** A turn changes nothing in what the walk leaves and sends in the end. */
  lemma TurnLeaves(env: Env, ip: Addr, w: Walk)
    requires WalkOk(env, ip, w) && w.ahead != [] && StuckCount(env, ip, w.ahead) <= 1
    ensures var w' := Turn(env, ip, w);
      && AllRoutable(env, ip, w'.ahead)
      && w'.kept + Left(env, ip, w'.ahead) == w.kept + Left(env, ip, w.ahead)
      && Frames(w'.out) + Released(env, ip, w'.ahead) == Frames(w.out) + Released(env, ip, w.ahead)
  {
    var x, rest := w.ahead[0], w.ahead[1..];
    assert Routable(env, ip, x) && AllRoutable(env, ip, rest) && w.ahead == [x] + rest;
    if !Matching(env, ip, x) {
      TurnPasses(env, ip, w, x, rest);
    } else if VerdictOn(env, x).Send? {
      NothingRequeued(env, ip, x, rest);
      FrameAdded(w.out, SentFrame(env, x.bytes, VerdictOn(env, x)), Released(env, ip, rest));
      hide Awaits, Routable, Matching, Judge, VerdictOn, MacsOk, Left, Released, Frames, SentFrame, StuckCount;
      assert [] + Left(env, ip, rest) == Left(env, ip, rest);
    } else {
      TurnRequeues(env, ip, w, x, rest, Queued(env, x.bytes, VerdictOn(env, x)));
    }
  }

  /** A packet of which no copy is queued. */
  lemma NothingRequeued(env: Env, ip: Addr, x: Item, rest: seq<Item>)
    requires MacsOk(env.ifs) && Routable(env, ip, x) && AllRoutable(env, ip, rest)
    requires Matching(env, ip, x) ==> VerdictOn(env, x).Send?
    ensures AllRoutable(env, ip, [x]) && AllRoutable(env, ip, [x] + rest)
    ensures Left(env, ip, [x] + rest) == Staying(env.t, ip, [x]) + Left(env, ip, rest)
    ensures Released(env, ip, [x] + rest) == Released(env, ip, [x]) + Released(env, ip, rest)
    ensures Staying(env.t, ip, [x]) == if Matching(env, ip, x) then [] else [x]
    ensures Released(env, ip, [x])
         == if Matching(env, ip, x) then [SentFrame(env, x.bytes, VerdictOn(env, x))] else []
  {
    MatchingExactly(env, ip, x);
    Alone(env, ip, x);
    assert Staying(env.t, ip, []) == Awaiting(env.t, ip, []) == [];
    LeftSplit(env, ip, x, rest);
    ReleasedFirst(env, ip, x, rest);
    hide Awaits, Routable, Matching, Judge, MacsOk, Requeued, Staying, Awaiting, Released, SentFrame;
    var copies := Requeued(env, ip, rest);
    var a, b, c := Staying(env.t, ip, rest), Staying(env.t, ip, copies), Awaiting(env.t, ip, copies);
    Regrouped(Staying(env.t, ip, [x]), a, b, c);
  }

  lemma Regrouped(first: seq<Item>, a: seq<Item>, b: seq<Item>, c: seq<Item>)
    ensures first + a + ([] + b) + ([] + c) == first + (a + b + c)
  {
  }

  lemma TurnPasses(env: Env, ip: Addr, w: Walk, x: Item, rest: seq<Item>)
    requires MacsOk(env.ifs) && Routable(env, ip, x) && AllRoutable(env, ip, rest) && !Matching(env, ip, x)
    ensures AllRoutable(env, ip, [x] + rest)
    ensures w.kept + [x] + Left(env, ip, rest) == w.kept + Left(env, ip, [x] + rest)
    ensures Released(env, ip, [x] + rest) == Released(env, ip, rest)
  {
    NothingRequeued(env, ip, x, rest);
    hide Awaits, Routable, Matching, Judge, MacsOk, Left, Released;
    assert w.kept + [x] + Left(env, ip, rest) == w.kept + ([x] + Left(env, ip, rest));
    assert [] + Released(env, ip, rest) == Released(env, ip, rest);
  }

  lemma FrameAdded(out: seq<Output>, f: Output, more: seq<Output>)
    requires f.Forwarded?
    ensures Frames(out + [f]) + more == Frames(out) + ([f] + more)
  {
    assert (out + [f])[..|out|] == out;
  }

  lemma TurnRequeues(env: Env, ip: Addr, w: Walk, x: Item, rest: seq<Item>, y: Item)
    requires MacsOk(env.ifs) && Routable(env, ip, x) && AllRoutable(env, ip, rest)
    requires Matching(env, ip, x) && VerdictOn(env, x).Wait? && StuckCount(env, ip, [x] + rest) <= 1
    requires y == Queued(env, x.bytes, VerdictOn(env, x))
    ensures AllRoutable(env, ip, rest + [y]) && AllRoutable(env, ip, [x] + rest)
    ensures Left(env, ip, [x] + rest) == Left(env, ip, rest + [y])
    ensures rest == [] ==> Left(env, ip, [x] + rest) == [y]
    ensures Released(env, ip, [x] + rest) == Released(env, ip, rest + [y]) == Released(env, ip, rest)
    ensures var v := VerdictOn(env, x); Frames(w.out + ArpRequests(env.ifs, v.arpIface, v.hop)) == Frames(w.out)
  {
    QueuingAgainLeaves(env, ip, x, rest, y);
    CopyIs(env, ip, x, y);
    ReleasesNothing(env, ip, x, rest);
    ReleasesNothing(env, ip, y, rest);
    var v := VerdictOn(env, x);
    hide Routable, Matching, Judge, MacsOk, Queued, Left, Released, VerdictOn, AllRoutable, Staying, Requeued, Awaiting;
    hide Stuck;
    FramesSplit(w.out, ArpRequests(env.ifs, v.arpIface, v.hop));
    NoFrames(env.ifs, v.arpIface, v.hop);
  }

  // ----- the whole walk ------------------------------------------------------------------

  /**
    The release walk, exactly: of the packets ahead, those that wait for `ip` and can be sent are
    sent, in order and nothing else; the others stay, those that do not wait in their order first.
  */
  lemma {:induction false} WalkExactly(env: Env, ip: Addr, w: Walk)
    requires WalkOk(env, ip, w) && StuckCount(env, ip, w.ahead) <= 1
    ensures var r := Finish(env, ip, w);
      && r.kept == w.kept + Left(env, ip, w.ahead)
      && Frames(r.out) == Frames(w.out) + Released(env, ip, w.ahead)
    decreases Measure(env, ip, w.ahead)
  {
    hide Turn, Finish, Measure, StuckCount, Routable, Awaits, MacsOk;
    FinishTurn(env, ip, w);
    if w.ahead != [] {
      TurnLeaves(env, ip, w);
      WalkExactly(env, ip, Turn(env, ip, w));
    }
  }

  // ----- one packet of the queue ---------------------------------------------------------

  /** `y` is the copy of some `x` of the list that waits for `ip` and has to wait on. */
  ghost predicate IsRequeued(env: Env, ip: Addr, xs: seq<Item>, y: Item) {
    exists x :: x in xs && WaitsOn(env, ip, x, y)
  }

  ghost predicate WaitsOn(env: Env, ip: Addr, x: Item, y: Item) {
    && HasIpHeader(x.bytes) && Awaits(env.t, ip, x)
    && exists name, hop, on ::
         Judge(env, x.bytes, x.iface) == Wait(name, hop, on) && IsCopyOf(env.t, x.bytes, name, hop, y)
  }

  lemma WaitsOnIs(env: Env, ip: Addr, x: Item, y: Item)
    requires Routable(env, ip, x)
    ensures WaitsOn(env, ip, x, y) <==>
      var v := Judge(env, x.bytes, x.iface);
      Awaits(env.t, ip, x) && v.Wait? && y == Item(x.bytes, v.iface, SomeGateway(env.t, v.hop))
  {
    hide Awaits, Judge, SomeGateway, Matching;
    var v := Judge(env, x.bytes, x.iface);
    assert v.Wait? ==> v == Wait(v.iface, v.hop, v.arpIface);
  }

  lemma {:induction false} InStaying(t: seq<Route>, ip: Addr, xs: seq<Item>, y: Item)
    ensures y in Staying(t, ip, xs) <==> y in xs && !Awaits(t, ip, y)
    ensures y in Awaiting(t, ip, xs) <==> y in xs && Awaits(t, ip, y)
  {
    hide Awaits;
    if xs != [] {
      InStaying(t, ip, xs[1..], y);
      assert xs == [xs[0]] + xs[1..];
    }
  }

  lemma {:induction false} InRequeued(env: Env, ip: Addr, xs: seq<Item>, y: Item)
    requires AllRoutable(env, ip, xs)
    ensures y in Requeued(env, ip, xs) <==> IsRequeued(env, ip, xs, y)
  {
    hide Awaits, Judge, WaitsOn, Routable, SomeGateway;
    if xs != [] {
      assert xs == [xs[0]] + xs[1..];
      InRequeued(env, ip, xs[1..], y);
      WaitsOnIs(env, ip, xs[0], y);
    }
  }

  /**
    What is queued once the walk is over: the packets that do not wait for `ip`, and new copies of
    those that do and have to wait on. Nothing else, and nothing less.
  */
  lemma StaysExactly(env: Env, ip: Addr, w: Walk, y: Item)
    requires WalkOk(env, ip, w) && StuckCount(env, ip, w.ahead) <= 1
    ensures y in Finish(env, ip, w).kept
       <==> y in w.kept || (y in w.ahead && !Awaits(env.t, ip, y)) || IsRequeued(env, ip, w.ahead, y)
  {
    hide Finish, StuckCount, Awaits, IsRequeued, Routable, Staying, Awaiting, Requeued;
    WalkExactly(env, ip, w);
    var copies := Requeued(env, ip, w.ahead);
    InStaying(env.t, ip, w.ahead, y);
    InStaying(env.t, ip, copies, y);
    InRequeued(env, ip, w.ahead, y);
  }

  lemma {:induction false} InReleased(env: Env, ip: Addr, xs: seq<Item>, x: Item)
    requires MacsOk(env.ifs) && AllRoutable(env, ip, xs) && x in xs && Awaits(env.t, ip, x)
    requires HasIpHeader(x.bytes) && Judge(env, x.bytes, x.iface).Send? && |Judge(env, x.bytes, x.iface).mac| == 6
    ensures SentFrame(env, x.bytes, Judge(env, x.bytes, x.iface)) in Released(env, ip, xs)
  {
    hide Awaits, Judge, Routable, SentFrame, HasIpHeader, MacsOk;
    if x != xs[0] { InReleased(env, ip, xs[1..], x); }
  }

  lemma {:induction false} InFrames(out: seq<Output>, f: Output)
    ensures f in Frames(out) ==> f in out
  {
    if out != [] { InFrames(out[..|out| - 1], f); }
  }

  /** A copy that waits still has to wait on. */
  lemma CopiesHaveToWait(env: Env, ip: Addr, xs: seq<Item>, y: Item)
    requires AllRoutable(env, ip, xs) && IsRequeued(env, ip, xs, y) && Awaits(env.t, ip, y)
    ensures HasIpHeader(y.bytes) && Judge(env, y.bytes, y.iface).Wait?
  {
    var x :| x in xs && WaitsOn(env, ip, x, y);
    assert Routable(env, ip, x);
    WaitsOnIs(env, ip, x, y);
    MatchingExactly(env, ip, x);
    MatchingExactly(env, ip, y);
    hide Awaits, Judge, Matching;
    QueuedAgain(env, ip, x);
  }

  /**
    A packet that waits for `ip` is sent by the walk that a reply from `ip` starts, and is then
    not queued any more, provided the decision made about it is to send it.
  */
  lemma ReleasedByReply(env: Env, ip: Addr, w: Walk, x: Item, iface: string, mac: seq<byte>)
    requires WalkOk(env, ip, w) && StuckCount(env, ip, w.ahead) <= 1 && x in w.ahead && Awaits(env.t, ip, x)
    requires HasIpHeader(x.bytes) && Judge(env, x.bytes, x.iface) == Send(iface, mac)
    ensures exists f :: f in Finish(env, ip, w).out && IsFrameOf(env.ifs, x.bytes, iface, mac, f)
    ensures x !in w.kept ==> x !in Finish(env, ip, w).kept
  {
    assert Routable(env, ip, x);
    MatchingExactly(env, ip, x);
    hide Finish, StuckCount, Awaits, IsRequeued, Routable, Matching, Released, Left, Frames, Judge, IsFrameOf;
    WalkExactly(env, ip, w);
    InReleased(env, ip, w.ahead, x);
    InFrames(Finish(env, ip, w).out, SentFrame(env, x.bytes, Judge(env, x.bytes, x.iface)));
    RoutedExactly(env, x.bytes, Send(iface, mac));
    StaysExactly(env, ip, w, x);
    if IsRequeued(env, ip, w.ahead, x) { CopiesHaveToWait(env, ip, w.ahead, x); }
  }

  /**
    So is a packet that was queued while its next hop was a gateway, whatever its destination, when
    the gateway replies.
  */
  lemma GatewayReplyReleases(before: Env, p: seq<byte>, came: string, name: string, gw: Addr, on: string,
                             env: Env, w: Walk, iface: string, mac: seq<byte>)
    requires HasIpHeader(p) && MacsOk(before.ifs) && p[12] == 8 && p[13] == 0 && p[22] > 1
    requires Judge(before, p, came) == Wait(name, gw, on) && SomeGateway(before.t, gw) && SomeGateway(env.t, gw)
    requires WalkOk(env, gw, w) && StuckCount(env, gw, w.ahead) <= 1 && Judge(env, p, name) == Send(iface, mac)
    ensures var queued := Routed(before, p, Wait(name, gw, on)).0;
      && |queued| == 1
      && (queued[0] in w.ahead ==>
            && (exists f :: f in Finish(env, gw, w).out && IsFrameOf(env.ifs, p, iface, mac, f))
            && (queued[0] !in w.kept ==> queued[0] !in Finish(env, gw, w).kept))
  {
    hide Finish, StuckCount, WalkOk, Judge, IsFrameOf, SomeGateway, MacsOk, AllAskFor, Routed, AddressAt;
    RoutedExactly(before, p, Wait(name, gw, on));
    var x := Routed(before, p, Wait(name, gw, on)).0[0];
    if x in w.ahead { ReleasedByReply(env, gw, w, x, iface, mac); }
  }
}
