/** Which edges a router holds after any run, exactly: its own, and those of every update it has taken in. */
module EdgeHistory {
  import opened Words
  import opened Topology
  import opened Convergence
  import opened Flooding
  import opened FloodOutcome

  /** Event `ev` makes router `i` take in an update that speaks of edge `e`. */
  ghost predicate TakesIn(net: Net, st: State, ev: Event, i: nat, e: (Key, Key))
    requires Shape(net, st) && Enabled(net, st, ev)
  {
    ev.Deliver? && ev.m.to == i && Accepted(net, st, ev.m) && SomeSpeaks(net.rids[ev.m.origin], ev.m.adverts, e)
  }

  /** Some event of the run did. */
  ghost predicate Heard(net: Net, evs: seq<Event>, i: nat, e: (Key, Key))
    requires ValidRun(net, evs)
    decreases |evs|
  {
    evs != [] &&
    var init := evs[..|evs| - 1];
    Heard(net, init, i, e) || TakesIn(net, After(net, init), evs[|evs| - 1], i, e)
  }

  lemma StepEdges(net: Net, st: State, ev: Event, i: nat, e: (Key, Key))
    requires Sane(net, st) && TopologiesOk(net, st) && Enabled(net, st, ev) && i < |net.rids|
    ensures |Step(net, st, ev).graphs| == |net.rids|
    ensures e in Abs(Step(net, st, ev).graphs[i]).edges
       <==> e in Abs(st.graphs[i]).edges || TakesIn(net, st, ev, i, e)
  {
    hide Abs, Basic, Seen, Sends, Accepts, Receive, SomeSpeaks, OwnEdge;
    if ev.Deliver? && ev.m.to == i {
      var m := ev.m;
      AcceptedExactly(net, st, m);
      assert HoldsOwn(net, st, i);
      UpdateTakenIn(st.graphs[i], net.rids[i], LsuOf(net, m));
      ReceiveOrNot(st.graphs[i], net.rids[i], LsuOf(net, m));
    }
  }

  lemma ReceiveOrNot(g: Graph, self: Addr, l: Lsu)
    ensures !Accepts(g, self, l) ==> Receive(g, self, l) == g
  {
  }

  lemma InitEdgesExactly(net: Net, i: nat, e: (Key, Key))
    requires NetOk(net) && i < |net.rids|
    ensures e in Abs(Init(net).graphs[i]).edges <==> IsOwn(net, i, e)
  {
    hide Abs, InitGraph, OwnEdge, HoldsRecorded;
    InitTopologiesOk(net);
    var st := Init(net);
    assert HoldsOwn(net, st, i);
    if e in Abs(st.graphs[i]).edges { assert Justified(net, st, i, e); }
  }

  /**
    Exact edges. After any run, at rest or not, lossy or not, a router holds precisely its own
    interface edges and what the updates it has taken in speak of.
  */
  lemma {:induction false} EdgesExactly(net: Net, evs: seq<Event>, i: nat, e: (Key, Key))
    requires ValidRun(net, evs) && NoWrap(After(net, evs)) && i < |net.rids|
    ensures Shape(net, After(net, evs))
    ensures e in Abs(After(net, evs).graphs[i]).edges <==> IsOwn(net, i, e) || Heard(net, evs, i, e)
  {
    hide Abs, Step, Shape, RecordsOk, NoWrap, TopologiesOk, TakesIn, IsOwn;
    RunsAreSane(net, evs);
    if evs == [] {
      InitEdgesExactly(net, i, e);
    } else {
      var init, ev := evs[..|evs| - 1], evs[|evs| - 1];
      StepGrowsHistory(net, After(net, init), ev);
      EdgesExactly(net, init, i, e);
      TopologiesOverRuns(net, init);
      StepEdges(net, After(net, init), ev, i, e);
    }
  }

  lemma {:induction false} HeardStays(net: Net, evs: seq<Event>, more: seq<Event>, i: nat, e: (Key, Key))
    requires ValidRun(net, evs) && ValidRun(net, evs + more) && Heard(net, evs, i, e)
    ensures Heard(net, evs + more, i, e)
    decreases |more|
  {
    hide TakesIn, Shape, Enabled, Step;
    if more == [] {
      assert evs + more == evs;
    } else {
      assert (evs + more)[..|evs + more| - 1] == evs + more[..|more| - 1];
      HeardStays(net, evs, more[..|more| - 1], i, e);
    }
  }

  /** Nothing is ever withdrawn: an edge once held is held for good, whatever later updates say. */
  lemma NothingIsWithdrawn(net: Net, evs: seq<Event>, more: seq<Event>, i: nat, e: (Key, Key))
    requires ValidRun(net, evs) && NoWrap(After(net, evs)) && i < |net.rids|
    requires ValidRun(net, evs + more) && NoWrap(After(net, evs + more))
    ensures Shape(net, After(net, evs)) && Shape(net, After(net, evs + more))
    ensures e in Abs(After(net, evs).graphs[i]).edges ==> e in Abs(After(net, evs + more).graphs[i]).edges
  {
    hide Abs, ValidRun, After, NoWrap, Shape, Heard, IsOwn;
    EdgesExactly(net, evs, i, e);
    EdgesExactly(net, evs + more, i, e);
    if Heard(net, evs, i, e) { HeardStays(net, evs, more, i, e); }
  }

  // ----- subnets -------------------------------------------------------------------------

  /** Event `ev` makes router `i` take in update number `k + 1` of router `o`. */
  ghost predicate TakesUpdate(net: Net, st: State, ev: Event, i: nat, o: nat, k: nat)
    requires Shape(net, st) && Enabled(net, st, ev)
  {
    ev.Deliver? && ev.m.to == i && Accepted(net, st, ev.m) && ev.m.origin == o && ev.m.seqNbr == k + 1
  }

  ghost predicate Took(net: Net, evs: seq<Event>, i: nat, o: nat, k: nat)
    requires ValidRun(net, evs)
    decreases |evs|
  {
    evs != [] &&
    var init := evs[..|evs| - 1];
    Took(net, init, i, o, k) || TakesUpdate(net, After(net, init), evs[|evs| - 1], i, o, k)
  }

  /** Of update number `k + 1` of router `o`, router `i` has taken it in and it speaks of `e`. */
  ghost predicate TookSaying(net: Net, evs: seq<Event>, i: nat, o: nat, k: nat, e: (Key, Key))
    requires ValidRun(net, evs) && o < |After(net, evs).history| == |net.rids|
  {
    && k < |After(net, evs).history[o]| && Took(net, evs, i, o, k)
    && SomeSpeaks(net.rids[o], After(net, evs).history[o][k], e)
  }

  lemma StepKeepsHistory(net: Net, st: State, ev: Event, o: nat)
    requires Shape(net, st) && Enabled(net, st, ev) && o < |net.rids|
    ensures |Step(net, st, ev).history| == |net.rids| && st.history[o] <= Step(net, st, ev).history[o]
    ensures !ev.Originate? ==> Step(net, st, ev).history == st.history
  {
    hide Sends, Accepts, Receive;
  }

  /** Only a router itself speaks of its subnets. */
  lemma SubnetsAreSpokenByOwner(net: Net, p: nat, o: nat, advs: seq<Advert>, subnet: Addr)
    requires NetOk(net) && p < |net.rids| && o < |net.rids|
    requires SomeSpeaks(net.rids[p], advs, (RouterKey(net.rids[o]), LeafKey(net.rids[o], subnet)))
    ensures p == o
  {
  }

  lemma LastStepHeard(net: Net, st: State, ev: Event, i: nat, o: nat, subnet: Addr)
    requires Sane(net, st) && Enabled(net, st, ev) && o < |net.rids|
    ensures var e := (RouterKey(net.rids[o]), LeafKey(net.rids[o], subnet));
      TakesIn(net, st, ev, i, e) <==>
      exists k :: 0 <= k < |st.history[o]| && TakesUpdate(net, st, ev, i, o, k)
               && SomeSpeaks(net.rids[o], st.history[o][k], e)
  {
    hide SomeSpeaks, Accepts, Receive, Basic, Seen;
    var e := (RouterKey(net.rids[o]), LeafKey(net.rids[o], subnet));
    if ev.Deliver? {
      var m := ev.m;
      assert MsgOk(net, st, m);
      if TakesIn(net, st, ev, i, e) {
        SubnetsAreSpokenByOwner(net, m.origin, o, m.adverts, subnet);
        assert TakesUpdate(net, st, ev, i, o, m.seqNbr - 1);
      }
    }
  }

  /** A router holds another's subnet exactly when it has taken in one of its updates that speaks of it. */
  lemma {:induction false} SubnetHeardExactly(net: Net, evs: seq<Event>, i: nat, o: nat, subnet: Addr)
    requires ValidRun(net, evs) && NoWrap(After(net, evs)) && i < |net.rids| && o < |net.rids|
    ensures |After(net, evs).history| == |net.rids|
    ensures var e := (RouterKey(net.rids[o]), LeafKey(net.rids[o], subnet));
      Heard(net, evs, i, e) <==> exists k: nat :: TookSaying(net, evs, i, o, k, e)
  {
    hide Shape, RecordsOk, NoWrap, TakesIn, TakesUpdate, SomeSpeaks, Step, Enabled;
    RunsAreSane(net, evs);
    var e := (RouterKey(net.rids[o]), LeafKey(net.rids[o], subnet));
    ShapeHistory(net, After(net, evs));
    if evs != [] {
      var init, ev := evs[..|evs| - 1], evs[|evs| - 1];
      StepGrowsHistory(net, After(net, init), ev);
      SubnetHeardExactly(net, init, i, o, subnet);
      RunsAreSane(net, init);
      LastStepHeard(net, After(net, init), ev, i, o, subnet);
      StepKeepsHistory(net, After(net, init), ev, o);
      NextTook(net, init, ev, evs, i, o, e);
    }
  }

  lemma ShapeHistory(net: Net, st: State)
    requires Shape(net, st)
    ensures |st.history| == |net.rids|
  {
  }

  /** Only updates that were sent are taken in. */
  lemma {:induction false} TookIsSent(net: Net, evs: seq<Event>, i: nat, o: nat, k: nat)
    requires ValidRun(net, evs) && NoWrap(After(net, evs)) && o < |net.rids| && Took(net, evs, i, o, k)
    ensures |After(net, evs).history| == |net.rids| && k < |After(net, evs).history[o]|
  {
    hide Shape, RecordsOk, NoWrap, Step, Enabled, TakesUpdate;
    var init, ev := evs[..|evs| - 1], evs[|evs| - 1];
    var st := After(net, init);
    StepGrowsHistory(net, st, ev);
    StepKeepsHistory(net, st, ev, o);
    RunsAreSane(net, init);
    ShapeHistory(net, st);
    if Took(net, init, i, o, k) {
      TookIsSent(net, init, i, o, k);
    } else {
      TakenIsSent(net, st, ev, i, o, k);
    }
  }

  lemma TakenIsSent(net: Net, st: State, ev: Event, i: nat, o: nat, k: nat)
    requires Sane(net, st) && Enabled(net, st, ev) && TakesUpdate(net, st, ev, i, o, k)
    ensures o < |st.history| && k < |st.history[o]|
  {
    assert MsgOk(net, st, ev.m);
  }

  lemma NextTook(net: Net, init: seq<Event>, ev: Event, evs: seq<Event>, i: nat, o: nat, e: (Key, Key))
    requires evs == init + [ev] && ValidRun(net, evs) && ValidRun(net, init) && o < |net.rids|
    requires |After(net, init).history| == |After(net, evs).history| == |net.rids|
    requires After(net, init).history[o] <= After(net, evs).history[o]
    requires !ev.Originate? ==> After(net, evs).history == After(net, init).history
    requires Sane(net, After(net, init)) && NoWrap(After(net, init)) && Enabled(net, After(net, init), ev)
    ensures (exists k: nat :: TookSaying(net, evs, i, o, k, e)) <==>
      ((exists k: nat :: TookSaying(net, init, i, o, k, e)) ||
       exists k :: 0 <= k < |After(net, init).history[o]| && TakesUpdate(net, After(net, init), ev, i, o, k)
                && SomeSpeaks(net.rids[o], After(net, init).history[o][k], e))
  {
    hide After, SomeSpeaks, Took, TakesUpdate, ValidRun, NoWrap, RecordsOk, Enabled, Step, Shape;
    var st, st' := After(net, init), After(net, evs);
    if k: nat :| TookSaying(net, evs, i, o, k, e) {
      TookNext(net, init, ev, evs, i, o, k);
      if Took(net, init, i, o, k) {
        TookIsSent(net, init, i, o, k);
        assert TookSaying(net, init, i, o, k, e);
      } else {
        TakenIsSent(net, st, ev, i, o, k);
        assert st'.history[o][k] == st.history[o][k];
      }
    }
    if k: nat :| TookSaying(net, init, i, o, k, e) {
      TookNext(net, init, ev, evs, i, o, k);
      assert TookSaying(net, evs, i, o, k, e);
    }
    if k :| (0 <= k < |st.history[o]| && TakesUpdate(net, st, ev, i, o, k)
             && SomeSpeaks(net.rids[o], st.history[o][k], e)) {
      TookNext(net, init, ev, evs, i, o, k);
      assert TookSaying(net, evs, i, o, k, e);
    }
  }

  lemma TookNext(net: Net, init: seq<Event>, ev: Event, evs: seq<Event>, i: nat, o: nat, k: nat)
    requires evs == init + [ev] && ValidRun(net, evs)
    ensures ValidRun(net, init) && Shape(net, After(net, init)) && Enabled(net, After(net, init), ev)
    ensures Took(net, evs, i, o, k) <==> Took(net, init, i, o, k) || TakesUpdate(net, After(net, init), ev, i, o, k)
  {
    assert evs[..|evs| - 1] == init;
    hide Shape, Enabled, TakesUpdate, Step;
  }
}
