/** The walk an ARP reply starts over the packets waiting for ARP: when it ends, and what it leaves and sends. */
module ReleaseWalks {
  import opened Words
  import opened RouteTables
  import opened Checksum
  import opened LsuPackets
  import opened ArpCaches
  import opened ForwardingRules

  // ----- the release walk ----------------------------------------------------------------

  /** An item the walk can be run on: a full IP header, hardware addresses of the right length, no null route. */
  ghost predicate Routable(env: Env, ip: Addr, x: Item) {
    && HasIpHeader(x.bytes) && IsIp(x.bytes)
    && (Matching(env, ip, x) ==> !VerdictOn(env, x).NullRoute?)
    && (Matching(env, ip, x) && VerdictOn(env, x).Send? ==> |VerdictOn(env, x).mac| == 6)
  }

  ghost predicate AllRoutable(env: Env, ip: Addr, xs: seq<Item>) {
    forall i :: 0 <= i < |xs| ==> Routable(env, ip, xs[i])
  }

  /** Packets already walked past, packets still ahead, and all that went out. */
  datatype Walk = Walk(kept: seq<Item>, ahead: seq<Item>, out: seq<Output>)

  ghost predicate WalkOk(env: Env, ip: Addr, w: Walk) {
    MacsOk(env.ifs) && AllRoutable(env, ip, w.ahead)
  }

  /**
    One turn of the walk. The next pointer is read before the packet is routed, so a packet that is
    queued again is met again unless it was the last one.
  */
  ghost function Turn(env: Env, ip: Addr, w: Walk): Walk
    requires WalkOk(env, ip, w) && w.ahead != []
  {
    var x, rest := w.ahead[0], w.ahead[1..];
    assert Routable(env, ip, x);
    if !Matching(env, ip, x) then Walk(w.kept + [x], rest, w.out)
    else
      var v := VerdictOn(env, x);
      if v.Send? then Walk(w.kept, rest, w.out + [SentFrame(env, x.bytes, v)])
      else
        var y := Queued(env, x.bytes, v);
        var out := w.out + ArpRequests(env.ifs, v.arpIface, v.hop);
        if rest == [] then Walk(w.kept + [y], [], out) else Walk(w.kept, rest + [y], out)
  }

  /** A turn in terms of what routing the first packet ahead adds. */
  lemma TurnRoutes(env: Env, ip: Addr, w: Walk)
    requires WalkOk(env, ip, w) && w.ahead != []
    ensures var x, rest := w.ahead[0], w.ahead[1..];
      HasIpHeader(x.bytes) &&
      if !Matching(env, ip, x) then Turn(env, ip, w) == Walk(w.kept + [x], rest, w.out)
      else
        var v := VerdictOn(env, x);
        && !v.NullRoute? && (v.Send? ==> |v.mac| == 6)
        && var r := Routed(env, x.bytes, v);
           Turn(env, ip, w) == if rest == [] then Walk(w.kept + r.0, [], w.out + r.1)
                               else Walk(w.kept, rest + r.0, w.out + r.1)
  {
    hide Matching, VerdictOn, Queued, SentFrame, ArpRequests, IsIp;
    assert Routable(env, ip, w.ahead[0]);
  }

  /** A packet that is queued again in a form that matches again. */
  ghost predicate Stuck(env: Env, ip: Addr, x: Item) {
    && HasIpHeader(x.bytes) && Matching(env, ip, x) && VerdictOn(env, x).Wait?
    && Matching(env, ip, Queued(env, x.bytes, VerdictOn(env, x)))
  }

  ghost function StuckCount(env: Env, ip: Addr, xs: seq<Item>): nat {
    if xs == [] then 0 else StuckCount(env, ip, xs[..|xs| - 1]) + if Stuck(env, ip, xs[|xs| - 1]) then 1 else 0
  }

  lemma {:induction false} StuckCountSplit(env: Env, ip: Addr, xs: seq<Item>, ys: seq<Item>)
    ensures StuckCount(env, ip, xs + ys) == StuckCount(env, ip, xs) + StuckCount(env, ip, ys)
  {
    hide Stuck;
    if ys == [] {
      assert xs + ys == xs;
    } else {
      assert (xs + ys)[..|xs + ys| - 1] == xs + ys[..|ys| - 1];
      StuckCountSplit(env, ip, xs, ys[..|ys| - 1]);
    }
  }

  lemma StuckCountOne(env: Env, ip: Addr, x: Item)
    ensures StuckCount(env, ip, [x]) == if Stuck(env, ip, x) then 1 else 0
  {
    assert [x][..0] == [];
  }

  /** Queuing again changes neither the decision, nor whether the packet is stuck once it is. */
  lemma QueuedAgain(env: Env, ip: Addr, x: Item)
    requires Routable(env, ip, x) && Matching(env, ip, x) && VerdictOn(env, x).Wait?
    ensures var y := Queued(env, x.bytes, VerdictOn(env, x));
      && Routable(env, ip, y)
      && (Matching(env, ip, y) ==> VerdictOn(env, y).Wait? && Queued(env, y.bytes, VerdictOn(env, y)) == y)
      && (Stuck(env, ip, y) <==> Matching(env, ip, y)) && (Stuck(env, ip, x) <==> Matching(env, ip, y))
  {
    hide MacFor, FirstMatch, FirstDefault, Get32;
  }

  /** The first packet ahead is processed as the three cases say; the count of stuck ones follows. */
  lemma TurnCounts(env: Env, ip: Addr, w: Walk)
    requires WalkOk(env, ip, w) && w.ahead != []
    ensures var w' := Turn(env, ip, w);
      && WalkOk(env, ip, w')
      && (w'.ahead != [] ==> StuckCount(env, ip, w'.ahead) == StuckCount(env, ip, w.ahead))
      && (w'.ahead == [] ==> |w.ahead| == 1)
  {
    hide Routable, Matching, VerdictOn, Stuck, Queued, SentFrame, ArpRequests, StuckCount;
    var x, rest, w' := w.ahead[0], w.ahead[1..], Turn(env, ip, w);
    assert w.ahead == [x] + rest;
    StuckCountSplit(env, ip, [x], rest);
    StuckCountOne(env, ip, x);
    TurnCases(env, ip, w);
    if w'.ahead != rest && w'.ahead != [] {
      var y := w'.ahead[|rest|];
      StuckCountSplit(env, ip, rest, [y]);
      StuckCountOne(env, ip, y);
    }
  }

  lemma TurnCases(env: Env, ip: Addr, w: Walk)
    requires WalkOk(env, ip, w) && w.ahead != []
    ensures var x, rest, w' := w.ahead[0], w.ahead[1..], Turn(env, ip, w);
      || (w'.ahead == rest && !Stuck(env, ip, x))
      || (rest == [] && w'.ahead == [])
      || (rest != [] && exists y :: w'.ahead == rest + [y] && Routable(env, ip, y)
                                    && (Stuck(env, ip, y) <==> Stuck(env, ip, x)))
  {
    var x := w.ahead[0];
    assert Routable(env, ip, x);
    hide Routable;
    if Matching(env, ip, x) && VerdictOn(env, x).Wait? { QueuedAgain(env, ip, x); }
    hide VerdictOn, Matching;
  }

  // ----- when the walk ends --------------------------------------------------------------

  /** `n` turns, or fewer when nothing is left ahead. */
  ghost function Turns(env: Env, ip: Addr, w: Walk, n: nat): (r: Walk)
    requires WalkOk(env, ip, w)
    ensures WalkOk(env, ip, r)
    decreases n
  {
    if n == 0 || w.ahead == [] then w
    else
      TurnCounts(env, ip, w);
      Turns(env, ip, Turn(env, ip, w), n - 1)
  }

  /** Stuck packets weigh nothing, packets to be queued once more weigh 2, all others 1. */
  ghost function Effort(env: Env, ip: Addr, x: Item): nat {
    if Stuck(env, ip, x) then 0
    else if HasIpHeader(x.bytes) && Matching(env, ip, x) && VerdictOn(env, x).Wait? then 2
    else 1
  }

  ghost function Efforts(env: Env, ip: Addr, xs: seq<Item>): nat {
    if xs == [] then 0 else Efforts(env, ip, xs[..|xs| - 1]) + Effort(env, ip, xs[|xs| - 1])
  }

  lemma {:induction false} EffortsSplit(env: Env, ip: Addr, xs: seq<Item>, ys: seq<Item>)
    ensures Efforts(env, ip, xs + ys) == Efforts(env, ip, xs) + Efforts(env, ip, ys)
  {
    hide Effort;
    if ys == [] {
      assert xs + ys == xs;
    } else {
      assert (xs + ys)[..|xs + ys| - 1] == xs + ys[..|ys| - 1];
      EffortsSplit(env, ip, xs, ys[..|ys| - 1]);
    }
  }

  lemma EffortsOne(env: Env, ip: Addr, x: Item)
    ensures Efforts(env, ip, [x]) == Effort(env, ip, x)
  {
    assert [x][..0] == [];
  }

  ghost function Measure(env: Env, ip: Addr, xs: seq<Item>): nat {
    if xs == [] then 0 else 1 + 2 * Efforts(env, ip, xs) + if Stuck(env, ip, xs[0]) then 1 else 0
  }

  /** With at most one stuck packet every turn makes progress. */
  lemma TurnProgresses(env: Env, ip: Addr, w: Walk)
    requires WalkOk(env, ip, w) && w.ahead != [] && StuckCount(env, ip, w.ahead) <= 1
    ensures Measure(env, ip, Turn(env, ip, w).ahead) < Measure(env, ip, w.ahead)
  {
    hide Routable, Matching, VerdictOn, Stuck, Queued, SentFrame, ArpRequests, StuckCount, Efforts, Effort;
    var x, rest, w' := w.ahead[0], w.ahead[1..], Turn(env, ip, w);
    assert w.ahead == [x] + rest;
    EffortsSplit(env, ip, [x], rest);
    EffortsOne(env, ip, x);
    TurnSpends(env, ip, w);
    if w'.ahead != [] {
      if w'.ahead != rest {
        EffortsSplit(env, ip, rest, [w'.ahead[|rest|]]);
        EffortsOne(env, ip, w'.ahead[|rest|]);
      }
      if Stuck(env, ip, x) {
        StuckCountSplit(env, ip, [x], rest);
        StuckCountOne(env, ip, x);
        FirstIsStuck(env, ip, rest);
      }
    }
  }

  lemma FirstIsStuck(env: Env, ip: Addr, xs: seq<Item>)
    ensures xs != [] && Stuck(env, ip, xs[0]) ==> StuckCount(env, ip, xs) >= 1
  {
    if xs != [] {
      assert xs == [xs[0]] + xs[1..];
      StuckCountSplit(env, ip, [xs[0]], xs[1..]);
      StuckCountOne(env, ip, xs[0]);
    }
  }

  lemma TurnSpends(env: Env, ip: Addr, w: Walk)
    requires WalkOk(env, ip, w) && w.ahead != []
    ensures var x, rest, w' := w.ahead[0], w.ahead[1..], Turn(env, ip, w);
      || w'.ahead == []
      || (w'.ahead == rest && Effort(env, ip, x) >= 1)
      || (rest != [] && |w'.ahead| == |rest| + 1 && w'.ahead == rest + [w'.ahead[|rest|]]
          && (if Stuck(env, ip, x) then Effort(env, ip, w'.ahead[|rest|]) == 0
              else Effort(env, ip, w'.ahead[|rest|]) < Effort(env, ip, x)))
      || (w'.ahead == rest && !Stuck(env, ip, x) && Effort(env, ip, x) >= 1)
  {
    var x := w.ahead[0];
    assert Routable(env, ip, x);
    hide Routable;
    if Matching(env, ip, x) && VerdictOn(env, x).Wait? { QueuedAgain(env, ip, x); }
    hide VerdictOn, Matching;
  }

  lemma {:induction false} WalkEnds(env: Env, ip: Addr, w: Walk, n: nat)
    requires WalkOk(env, ip, w) && StuckCount(env, ip, w.ahead) <= 1 && Measure(env, ip, w.ahead) <= n
    ensures Turns(env, ip, w, n).ahead == []
    decreases n
  {
    hide Routable, Turn, Measure, StuckCount;
    if w.ahead == [] || n == 0 {
      MeasureZero(env, ip, w.ahead);
    } else {
      TurnCounts(env, ip, w);
      TurnProgresses(env, ip, w);
      NoneStuck(env, ip);
      WalkEnds(env, ip, Turn(env, ip, w), n - 1);
    }
  }

  lemma MeasureZero(env: Env, ip: Addr, xs: seq<Item>)
    ensures Measure(env, ip, xs) == 0 ==> xs == []
  {
  }

  lemma NoneStuck(env: Env, ip: Addr)
    ensures StuckCount(env, ip, []) == 0
  {
  }

  lemma {:induction false} WalkGoesOn(env: Env, ip: Addr, w: Walk, n: nat)
    requires WalkOk(env, ip, w) && StuckCount(env, ip, w.ahead) >= 2
    ensures StuckCount(env, ip, Turns(env, ip, w, n).ahead) >= 2
    decreases n
  {
    hide Routable, Turn, StuckCount;
    NoneStuck(env, ip);
    if n > 0 {
      TurnCounts(env, ip, w);
      StuckAreAhead(env, ip, w.ahead);
      WalkGoesOn(env, ip, Turn(env, ip, w), n - 1);
    }
  }

  lemma {:induction false} StuckAreAhead(env: Env, ip: Addr, xs: seq<Item>)
    ensures StuckCount(env, ip, xs) <= |xs|
  {
    hide Stuck;
    if xs != [] { StuckAreAhead(env, ip, xs[..|xs| - 1]); }
  }

  /** The release walk comes to an end exactly when at most one packet in the queue is stuck. */
  lemma WalkEndsExactly(env: Env, ip: Addr, w: Walk)
    requires WalkOk(env, ip, w)
    ensures (exists n :: Turns(env, ip, w, n).ahead == []) <==> StuckCount(env, ip, w.ahead) <= 1
  {
    if StuckCount(env, ip, w.ahead) <= 1 {
      WalkEnds(env, ip, w, Measure(env, ip, w.ahead));
    } else {
      forall n ensures Turns(env, ip, w, n).ahead != [] {
        WalkGoesOn(env, ip, w, n);
        NoneStuck(env, ip);
      }
    }
  }

  // ----- what the walk leaves and sends --------------------------------------------------

  /** The end of a walk that ends. */
  ghost function Finish(env: Env, ip: Addr, w: Walk): (r: Walk)
    requires WalkOk(env, ip, w) && StuckCount(env, ip, w.ahead) <= 1
    ensures r.ahead == []
    decreases Measure(env, ip, w.ahead)
  {
    if w.ahead == [] then w
    else
      TurnCounts(env, ip, w);
      TurnProgresses(env, ip, w);
      NoneStuck(env, ip);
      Finish(env, ip, Turn(env, ip, w))
  }

  /** One turn on the way to the end. */
  lemma FinishTurn(env: Env, ip: Addr, w: Walk)
    requires WalkOk(env, ip, w) && StuckCount(env, ip, w.ahead) <= 1
    ensures w.ahead == [] ==> Finish(env, ip, w) == w
    ensures w.ahead != [] ==>
              var w' := Turn(env, ip, w);
              && WalkOk(env, ip, w') && StuckCount(env, ip, w'.ahead) <= 1
              && Measure(env, ip, w'.ahead) < Measure(env, ip, w.ahead)
              && Finish(env, ip, w') == Finish(env, ip, w)
  {
    hide Turn, Measure, StuckCount, WalkOk;
    if w.ahead != [] {
      TurnCounts(env, ip, w);
      TurnProgresses(env, ip, w);
      NoneStuck(env, ip);
    }
  }

  /** The packets of a list that do not match, in order. */
  ghost function Remaining(env: Env, ip: Addr, xs: seq<Item>): seq<Item>
    requires AllRoutable(env, ip, xs)
  {
    if xs == [] then []
    else
      assert Routable(env, ip, xs[0]);
      (if Matching(env, ip, xs[0]) then [] else [xs[0]]) + Remaining(env, ip, xs[1..])
  }

  /** The next hop of every matching packet is known. */
  ghost predicate HopsKnown(env: Env, ip: Addr, xs: seq<Item>)
    requires AllRoutable(env, ip, xs)
  {
    forall i :: 0 <= i < |xs| ==> Routable(env, ip, xs[i]) && (Matching(env, ip, xs[i]) ==> VerdictOn(env, xs[i]).Send?)
  }

  /** The frames of the matching packets of a list, in order. */
  ghost function Releases(env: Env, ip: Addr, xs: seq<Item>): seq<Output>
    requires MacsOk(env.ifs) && AllRoutable(env, ip, xs) && HopsKnown(env, ip, xs)
  {
    if xs == [] then []
    else
      assert Routable(env, ip, xs[0]);
      (if Matching(env, ip, xs[0]) then [SentFrame(env, xs[0].bytes, VerdictOn(env, xs[0]))] else [])
      + Releases(env, ip, xs[1..])
  }

  lemma {:induction false} NoneStuckWhenKnown(env: Env, ip: Addr, xs: seq<Item>)
    requires AllRoutable(env, ip, xs) && HopsKnown(env, ip, xs)
    ensures StuckCount(env, ip, xs) == 0
  {
    hide Routable, Matching, VerdictOn;
    if xs != [] { NoneStuckWhenKnown(env, ip, xs[..|xs| - 1]); }
  }

  /**
    ARP queue release. When every matching packet's next hop is known, the walk sends exactly the
    matching packets in queue order and leaves exactly the others in their order.
  */
  lemma {:induction false} ReleaseInOrder(env: Env, ip: Addr, w: Walk)
    requires WalkOk(env, ip, w) && HopsKnown(env, ip, w.ahead)
    ensures StuckCount(env, ip, w.ahead) == 0
    ensures Finish(env, ip, w)
         == Walk(w.kept + Remaining(env, ip, w.ahead), [], w.out + Releases(env, ip, w.ahead))
    decreases |w.ahead|
  {
    hide Routable, Matching, VerdictOn, SentFrame, StuckCount, Measure, Queued, ArpRequests;
    NoneStuckWhenKnown(env, ip, w.ahead);
    if w.ahead != [] {
      var x := w.ahead[0];
      assert Routable(env, ip, x);
      TurnCounts(env, ip, w);
      TurnProgresses(env, ip, w);
      ReleaseInOrder(env, ip, Turn(env, ip, w));
    }
  }

  /**
    What a reply makes known. Every packet whose next hop is the sender goes to the address learned
    first for it, the one just heard when there is no earlier one, and `ReleaseInOrder` applies; with
    an address that starts with octet 0 it waits on, unless its source is on one of the networks.
  */
  lemma ReplyMakesHopKnown(env: Env, free: nat, z: nat, ip: Addr, mac: seq<byte>, p: nat, x: Item)
    requires FilledTo(env.c, free) && free < |env.c| && VisibleTo(env.c, z) && ip != 0
    requires FirstLearned(env.c, z, ip, env.now, p) && HasIpHeader(x.bytes)
    requires var k := FirstMatch(env.t, DstOf(x.bytes));
      k < |env.t| && ip == if env.t[k].gw != 0 then env.t[k].gw else DstOf(x.bytes)
    ensures var known := if p < z then env.c[p].mac else if z == free then mac else NO_MAC;
      var v := VerdictOn(env.(c := Learn(env.c, free, ip, mac, env.now, true)), x);
      && (Found(known) ==> v == Send(env.t[FirstMatch(env.t, DstOf(x.bytes))].iface, known))
      && (!Found(known) && FirstMatch(env.t, SrcOf(x.bytes)) == |env.t| ==> v.Wait? && v.hop == ip)
  {
    FirstLearnedWins(env.c, free, z, ip, mac, env.now, p);
    hide Learn, MacFor, FirstMatch, FirstDefault, Get32;
  }

  // ----- a walk without end --------------------------------------------------------------

  /** Whatever waits for the sender itself and cannot be sent is stuck. */
  lemma WaitingForSenderIsStuck(env: Env, ip: Addr, x: Item)
    requires HasIpHeader(x.bytes) && x.bytes[IP_TTL_AT] > 1 && DstOf(x.bytes) == ip && VerdictOn(env, x).Wait?
    ensures Stuck(env, ip, x)
  {
    hide VerdictOn, Get32;
  }

  const HOST: Addr := 0x0A00_0002              // 10.0.0.2
  const CARD: seq<byte> := [0x00, 0x50, 0x56, 0, 0, 1]

  /** From 11.0.0.1 to `HOST`, time-to-live 64. */
  const TO_HOST: seq<byte> :=
    [0, 0, 0, 0, 0, 0, 0, 0, 0, 0, 0, 0, 8, 0, 0x45, 0, 0, 20, 0, 0, 0, 0, 64, 1, 0, 0, 11, 0, 0, 1, 10, 0, 0, 2]

  const LAN: Route := Route(0x0A00_0000, 0, 0xFFFF_FF00, "eth1")

  /** One network, and an empty cache that has just heard `HOST` from a card whose address starts with octet 0. */
  ghost function ZeroOctetEnv(): Env {
    Env([LAN], [], Learn(seq(CACHE_SIZE, _ => EMPTY), 0, HOST, CARD, 1.0, true), 1.0)
  }

  lemma LanMatchesHost()
    ensures Matches(LAN, HOST) && !Matches(LAN, 0x0B00_0001)
  {
  }

  lemma HostFields()
    ensures HasIpHeader(TO_HOST) && IsIp(TO_HOST) && TO_HOST[IP_TTL_AT] == 64
    ensures SrcOf(TO_HOST) == 0x0B00_0001 && DstOf(TO_HOST) == HOST
  {
  }

  lemma HostIsNotFound()
    ensures MacFor(ZeroOctetEnv().c, HOST, 1.0) == CARD && ZeroOctetEnv().t == [LAN] && ZeroOctetEnv().now == 1.0
    ensures FirstMatch([LAN], HOST) == 0 && FirstMatch([LAN], 0x0B00_0001) == 1
  {
    FirstLearnedWins(seq(CACHE_SIZE, _ => EMPTY), 0, 0, HOST, CARD, 1.0, 0);
    LanMatchesHost();
    hide Matches, Learn, MacFor;
  }

  lemma HostHasToWait()
    ensures HasIpHeader(TO_HOST) && IsIp(TO_HOST) && TO_HOST[IP_TTL_AT] == 64 && DstOf(TO_HOST) == HOST
    ensures VerdictOn(ZeroOctetEnv(), Item(TO_HOST, "eth0", false)) == Wait("eth0", HOST, "eth1")
  {
    HostFields();
    HostIsNotFound();
    hide HasIpHeader, IsIp, SrcOf, DstOf, MacFor, FirstMatch, ZeroOctetEnv;
  }

  /** Two stuck packets keep the walk going. */
  lemma TwoStuckGoOn(env: Env, ip: Addr, x: Item)
    requires MacsOk(env.ifs) && Routable(env, ip, x) && Stuck(env, ip, x)
    ensures var w := Walk([], [x, x], []);
      && WalkOk(env, ip, w) && StuckCount(env, ip, w.ahead) == 2
      && forall n :: Turns(env, ip, w, n).ahead != []
  {
    hide MacsOk, Routable, Stuck, StuckCount, Turns;
    assert [x, x] == [x] + [x];
    StuckCountSplit(env, ip, [x], [x]);
    StuckCountOne(env, ip, x);
    WalkEndsExactly(env, ip, Walk([], [x, x], []));
  }

  /**
    Two packets wait for a host; the reply comes from a card whose address starts with octet 0. The
    address is cached but never counts as found, and the walk goes round for ever.
  */
  lemma WalkNeedNotEnd()
    ensures var env, x := ZeroOctetEnv(), Item(TO_HOST, "eth0", false);
      var w := Walk([], [x, x], []);
      && WalkOk(env, HOST, w) && StuckCount(env, HOST, w.ahead) == 2
      && forall n :: Turns(env, HOST, w, n).ahead != []
  {
    HostHasToWait();
    WaitsAndGoesOn(ZeroOctetEnv(), HOST, Item(TO_HOST, "eth0", false));
  }

  lemma WaitsAndGoesOn(env: Env, ip: Addr, x: Item)
    requires MacsOk(env.ifs) && HasIpHeader(x.bytes) && IsIp(x.bytes) && x.bytes[IP_TTL_AT] > 1
    requires DstOf(x.bytes) == ip && VerdictOn(env, x).Wait?
    ensures var w := Walk([], [x, x], []);
      && WalkOk(env, ip, w) && StuckCount(env, ip, w.ahead) == 2
      && forall n :: Turns(env, ip, w, n).ahead != []
  {
    WaitingForSenderIsStuck(env, ip, x);
    hide VerdictOn, Matching, Turns, StuckCount;
    TwoStuckGoOn(env, ip, x);
  }
}
