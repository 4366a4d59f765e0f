/** What one update does to a topology, and one step to the network, spelled out. */
module UpdateExactly {
  import opened Words
  import opened Topology
  import opened Convergence
  import opened Flooding
  import opened FloodOutcome

  // ----- one update ----------------------------------------------------------------------

  /** Advertisement `a` of router `o` speaks of vertex `k`. */
  predicate SpeaksOf(o: Addr, a: Advert, k: Key) {
    k == LeafKey(o, a.subnet) || (a.rid != 0 && k == RouterKey(a.rid))
  }

  predicate SomeSpeakOf(o: Addr, advs: seq<Advert>, k: Key) {
    exists i :: 0 <= i < |advs| && SpeaksOf(o, advs[i], k)
  }

  /** The first advertisement of a subnet gives its mask. */
  ghost predicate FirstMask(advs: seq<Advert>, subnet: Addr, mask: Addr) {
    exists i :: 0 <= i < |advs| && advs[i].subnet == subnet && advs[i].mask == mask
                && forall j :: 0 <= j < i ==> advs[j].subnet != subnet
  }

  /** How vertex `k` is known after router `o` has advertised `advs`. */
  ghost predicate KnownAfter(t: Topo, o: Addr, advs: seq<Advert>, r: Topo, k: Key) {
    && (k in r.verts <==> k in t.verts || SomeSpeakOf(o, advs, k))
    && (k in t.verts ==> r.verts[k] == t.verts[k])
    && (k in r.verts && k !in t.verts ==>
          && r.verts[k].seqNbr == 0
          && if k.RouterKey? then r.verts[k].mask == 0 else FirstMask(advs, k.subnet, r.verts[k].mask))
  }

  lemma {:induction false} AdvertsKnown(t: Topo, o: Addr, advs: seq<Advert>, k: Key)
    ensures KnownAfter(t, o, advs, TAdverts(t, o, advs), k)
  {
    if advs != [] {
      var init, a := advs[..|advs| - 1], advs[|advs| - 1];
      var u := TAdverts(t, o, init);
      AdvertsKnown(t, o, init, k);
      AdvertVert(u, o, a, k);
      SpeakNext(o, init, a, advs, k);
      if k.LeafKey? { MaskNext(o, init, a, advs, k.subnet); }
      hide TAdvert, SomeSpeakOf, FirstMask;
      assert TAdverts(t, o, advs) == TAdvert(u, o, a);
    }
  }

  lemma SpeakNext(o: Addr, init: seq<Advert>, a: Advert, advs: seq<Advert>, k: Key)
    requires advs == init + [a]
    ensures SomeSpeakOf(o, advs, k) <==> SomeSpeakOf(o, init, k) || SpeaksOf(o, a, k)
  {
    hide SpeaksOf;
    assert advs[|init|] == a;
    if i :| 0 <= i < |init| && SpeaksOf(o, init[i], k) { assert SpeaksOf(o, advs[i], k); }
  }

  lemma MaskNext(o: Addr, init: seq<Advert>, a: Advert, advs: seq<Advert>, subnet: Addr)
    requires advs == init + [a]
    ensures forall mask :: FirstMask(init, subnet, mask) ==> FirstMask(advs, subnet, mask)
    ensures !SomeSpeakOf(o, init, LeafKey(o, subnet)) && a.subnet == subnet ==> FirstMask(advs, subnet, a.mask)
  {
    assert advs[|init|] == a;
    forall mask | FirstMask(init, subnet, mask) ensures FirstMask(advs, subnet, mask) {
      var i :| 0 <= i < |init| && init[i].subnet == subnet && init[i].mask == mask
               && forall j :: 0 <= j < i ==> init[j].subnet != subnet;
      assert advs[i] == init[i] && forall j :: 0 <= j < i ==> advs[j] == init[j];
    }
    if !SomeSpeakOf(o, init, LeafKey(o, subnet)) {
      forall j | 0 <= j < |init| ensures advs[j].subnet != subnet {
        assert !SpeaksOf(o, init[j], LeafKey(o, subnet));
      }
    }
  }

  /**
    The update handler, exactly. A foreign update newer than the record is accepted, any other
    changes nothing. An accepted one sets the record of its origin, adds the vertices it speaks of
    and the edges it brings, and changes no other vertex and removes no edge.
  */
  lemma ReceiveExactly(t: Topo, self: Addr, l: Lsu, k: Key, e: (Key, Key))
    ensures var r, o, known := TReceive(t, self, l), l.origin, RouterKey(l.origin);
      if o == self || (known in t.verts && t.verts[known].seqNbr >= l.seqNbr) then r == t
      else
        && known in r.verts && r.verts[known] == Attr(0, l.seqNbr)
        && (k != known ==> KnownAfter(t, o, l.adverts, r, k))
        && (e in r.edges <==>
              e in t.edges
              || exists i :: 0 <= i < |l.adverts|
                             && AsksFor(o, l.adverts[i], o == 0 || RouterKey(0) in t.verts, e))
  {
    var u := TRecord(t, l.origin, l.seqNbr);
    AdvertsKnown(u, l.origin, l.adverts, k);
    AdvertsKnown(u, l.origin, l.adverts, RouterKey(l.origin));
    AdvertsEdges(u, l.origin, l.adverts, e);
    hide TAdverts, SomeSpeakOf, FirstMask, AsksFor;
  }

  // ----- one step of the network ---------------------------------------------------------

  /** `x` is what message `m` becomes on a link of router `i` other than number `skip`. */
  ghost predicate OnLink(net: Net, m: Msg, i: nat, skip: int, x: Msg)
    requires i < |net.links|
  {
    exists a :: 0 <= a < |net.links[i]| && a != skip
                && x == Msg(i, net.links[i][a].to, net.links[i][a].via, m.origin, m.seqNbr, m.adverts)
  }

  lemma {:induction false} SendsExactly(m: Msg, ends: seq<End>, skip: int, copies: nat, x: Msg)
    requires forall a, b :: 0 <= a < b < |ends| ==> ends[a] != ends[b]
    ensures Sends(m, ends, skip, copies)[x] == if Gone(m, ends, skip, x) then copies else 0
  {
    if ends != [] {
      var init, n := ends[..|ends| - 1], |ends| - 1;
      SendsExactly(m, init, skip, copies, x);
      if a :| GoesOn(m, init, skip, x, a) { assert GoesOn(m, ends, skip, x, a); }
      if a :| GoesOn(m, ends, skip, x, a) { assert a == n || GoesOn(m, init, skip, x, a); }
      assert n != skip && x == Across(m, ends[n]) ==> GoesOn(m, ends, skip, x, n);
    }
  }

  lemma LinksDiffer(net: Net, i: nat)
    requires NetOk(net) && i < |net.rids|
    ensures forall a, b :: 0 <= a < b < |net.links[i]| ==> net.links[i][a] != net.links[i][b]
  {
    forall a, b | 0 <= a < b < |net.links[i]| ensures net.links[i][a] != net.links[i][b] {
      assert IsLink(net, i, a) && IsLink(net, i, b);
    }
  }

  lemma GoneIsOnLink(net: Net, m: Msg, i: nat, skip: int, x: Msg)
    requires i < |net.links| && m.from == i
    ensures Gone(m, net.links[i], skip, x) <==> OnLink(net, m, i, skip, x)
  {
    if a :| GoesOn(m, net.links[i], skip, x, a) {
      assert x == Msg(i, net.links[i][a].to, net.links[i][a].via, m.origin, m.seqNbr, m.adverts);
    }
    if a :| 0 <= a < |net.links[i]| && a != skip
            && x == Msg(i, net.links[i][a].to, net.links[i][a].via, m.origin, m.seqNbr, m.adverts) {
      assert GoesOn(m, net.links[i], skip, x, a);
    }
  }

  /**
    A round of the periodic sender: one frame on every link, numbered one above the rounds before
    in 16 bits, and nothing else changes.
  */
  lemma OriginateExactly(net: Net, st: State, o: nat, adverts: seq<Advert>, x: Msg)
    requires Shape(net, st) && Enabled(net, st, Originate(o, adverts))
    ensures var st' := Step(net, st, Originate(o, adverts));
      && st'.graphs == st.graphs && st'.history == st.history[o := st.history[o] + [adverts]]
      && var m := Msg(o, 0, 0, o, (|st.history[o]| + 1) % 65536, adverts);
         st'.inflight[x] == st.inflight[x] + if OnLink(net, m, o, -1, x) then 1 else 0
  {
    var m := Msg(o, 0, 0, o, (|st.history[o]| + 1) % 65536, adverts);
    LinksDiffer(net, o);
    SendsExactly(m, net.links[o], -1, 1, x);
    GoneIsOnLink(net, m, o, -1, x);
    hide Sends, Gone, OnLink;
  }

  /**
    A delivery: one frame less; if it is accepted, the receiver takes it in and sends on each other
    link as many copies as it has advertisements. Otherwise nothing else changes, as after a loss.
  */
  lemma DeliverExactly(net: Net, st: State, m: Msg, x: Msg)
    requires Shape(net, st) && m in st.inflight
    ensures var st', g := Step(net, st, Deliver(m)), st.graphs[m.to];
      var l := Lsu(net.rids[m.origin], m.seqNbr, m.adverts);
      && st'.history == st.history && Step(net, st, Lose(m)) == st.(inflight := st.inflight - multiset{m})
      && if Accepts(g, net.rids[m.to], l) then
           && st'.graphs == st.graphs[m.to := Receive(g, net.rids[m.to], l)]
           && st'.inflight[x] == st.inflight[x] - (if x == m then 1 else 0)
                                 + (if OnLink(net, m, m.to, m.via, x) then |m.adverts| else 0)
         else st' == Step(net, st, Lose(m))
  {
    hide Sends, Gone, OnLink, Accepts, Receive;
    var sent := m.(from := m.to);
    LinksDiffer(net, m.to);
    SendsExactly(sent, net.links[m.to], m.via, |m.adverts|, x);
    GoneIsOnLink(net, sent, m.to, m.via, x);
    SameOnLink(net, sent, m, m.to, m.via, x);
  }

  lemma SameOnLink(net: Net, a: Msg, b: Msg, i: nat, skip: int, x: Msg)
    requires i < |net.links| && a.origin == b.origin && a.seqNbr == b.seqNbr && a.adverts == b.adverts
    ensures OnLink(net, a, i, skip, x) <==> OnLink(net, b, i, skip, x)
  {
  }

  /** Every event of a run is either a round of a sender or takes one frame off a link. */
  lemma {:induction false} EventsCounted(evs: seq<Event>)
    ensures Originated(evs) == |set k | 0 <= k < |evs| && evs[k].Originate?|
    ensures Taken(evs) + Originated(evs) == |evs|
  {
    var s := set k | 0 <= k < |evs| && evs[k].Originate?;
    if evs == [] {
      assert s == {};
    } else {
      var l := |evs| - 1;
      EventsCounted(evs[..l]);
      var s' := set k | 0 <= k < l && evs[..l][k].Originate?;
      assert s == s' + if evs[l].Originate? then {l} else {};
    }
  }
}
