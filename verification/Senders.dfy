/** What a router advertises as hellos come in: exactly which entries change, and which last. */
module Senders {
  import opened Words
  import opened Topology
  import opened RouteTables
  import opened Convergence
  import opened LsuPackets
  import opened Hellos
  import ShortestPaths

  function NetOf(i: Interface): Addr { And(i.ip, i.mask) }

  /** Every interface has a record and a nonzero subnet of its own. */
  ghost predicate Wired(ifs: seq<Interface>) {
    && (forall i :: 0 <= i < |ifs| ==>
          NetOf(ifs[i]) != 0 && |ifs[i].name| > 3 && 0 <= RecordOf(ifs[i].name) < |ifs|)
    && (forall i, j :: 0 <= i < j < |ifs| ==>
          RecordOf(ifs[i].name) != RecordOf(ifs[j].name) && NetOf(ifs[i]) != NetOf(ifs[j]))
  }

  /** A hello from a router with a nonzero id and an address on the subnet of the interface. */
  ghost predicate OnLink(ifs: seq<Interface>, h: Hello) {
    && Arrives(ifs, |ifs|, h) && h.rid != 0
    && (Fits(ifs, h) ==> And(h.src, h.nmask) == NetOf(ifs[Named(ifs, h.incoming)]))
  }

  // ----- the records ---------------------------------------------------------------------

  /** Record `k` is unknown, or was filled from the subnet of the interface it belongs to. */
  ghost predicate RecordFits(n: Neighbour, ifs: seq<Interface>, k: nat) {
    && n.alive && n.interFace == EthName(k)
    && (if n.routerId == 0 then And(n.ip, n.netMask) == 0
        else exists i :: 0 <= i < |ifs| && |ifs[i].name| > 3 && RecordOf(ifs[i].name) == k
                      && And(n.ip, n.netMask) == NetOf(ifs[i]))
  }

  ghost predicate RecordsFit(nb: seq<Neighbour>, ifs: seq<Interface>) {
    |nb| == |ifs| && forall k :: 0 <= k < |nb| ==> RecordFits(nb[k], ifs, k)
  }

  /** Whoever is known stays known. */
  ghost predicate Keeps(nb: seq<Neighbour>, nb': seq<Neighbour>) {
    |nb| == |nb'| && forall k :: 0 <= k < |nb| && nb[k].routerId != 0 ==> nb'[k].routerId == nb[k].routerId
  }

  lemma StartFits(ifs: seq<Interface>, now: real)
    ensures RecordsFit(StartRecords(|ifs|, now), ifs)
  {
    ZeroNet();
    hide And, EthName;
  }

  lemma ZeroNet()
    ensures And(0, 0) == 0
  {
  }

  lemma HelloKeepsFit(nb: seq<Neighbour>, ifs: seq<Interface>, h: Hello)
    requires RecordsFit(nb, ifs) && OnLink(ifs, h)
    ensures RecordsFit(AfterHello(nb, ifs, h), ifs) && Keeps(nb, AfterHello(nb, ifs, h))
  {
    hide And, EthName;
    var nb', i := AfterHello(nb, ifs, h), Named(ifs, h.incoming);
    forall k | 0 <= k < |nb'| ensures RecordFits(nb'[k], ifs, k) {
      assert RecordFits(nb[k], ifs, k);
      assert ifs[i].name == h.incoming;
    }
  }

  /** The records after a sequence of hellos. */
  ghost function RecordsAfter(ifs: seq<Interface>, now: real, hs: seq<Hello>): (nb: seq<Neighbour>)
    requires forall i :: 0 <= i < |hs| ==> OnLink(ifs, hs[i])
    ensures |nb| == |ifs|
  {
    if hs == [] then StartRecords(|ifs|, now)
    else
      assert OnLink(ifs, hs[|hs| - 1]);
      AfterHello(RecordsAfter(ifs, now, hs[..|hs| - 1]), ifs, hs[|hs| - 1])
  }

  lemma {:induction false} RecordsAfterFit(ifs: seq<Interface>, now: real, hs: seq<Hello>)
    requires forall i :: 0 <= i < |hs| ==> OnLink(ifs, hs[i])
    ensures RecordsFit(RecordsAfter(ifs, now, hs), ifs)
  {
    hide OnLink, RecordsFit, AfterHello;
    if hs == [] {
      StartFits(ifs, now);
    } else {
      assert OnLink(ifs, hs[|hs| - 1]);
      RecordsAfterFit(ifs, now, hs[..|hs| - 1]);
      HelloKeepsFit(RecordsAfter(ifs, now, hs[..|hs| - 1]), ifs, hs[|hs| - 1]);
    }
  }

  lemma {:induction false} LaterKeeps(ifs: seq<Interface>, now: real, hs: seq<Hello>, n: nat)
    requires n <= |hs| && forall i :: 0 <= i < |hs| ==> OnLink(ifs, hs[i])
    ensures Keeps(RecordsAfter(ifs, now, hs[..n]), RecordsAfter(ifs, now, hs))
  {
    if n == |hs| {
      assert hs[..n] == hs;
    } else {
      var init := hs[..|hs| - 1];
      assert OnLink(ifs, hs[|hs| - 1]);
      assert init[..n] == hs[..n];
      LaterKeeps(ifs, now, init, n);
      RecordsAfterFit(ifs, now, init);
      hide RecordsFit, OnLink, AfterHello;
      HelloKeepsFit(RecordsAfter(ifs, now, init), ifs, hs[|hs| - 1]);
    }
  }

  // ----- the advertisements --------------------------------------------------------------

  /** From record `k` on, the only one that can answer for an interface is its own. */
  lemma {:induction false} RidFromOwnRecord(nb: seq<Neighbour>, ifs: seq<Interface>, i: nat, k: nat)
    requires Wired(ifs) && RecordsFit(nb, ifs) && i < |ifs| && k <= RecordOf(ifs[i].name)
    ensures RidFrom(nb, NetOf(ifs[i]), k) == nb[RecordOf(ifs[i].name)].routerId
    decreases |nb| - k
  {
    hide And, EthName;
    var r := RecordOf(ifs[i].name);
    assert RecordFits(nb[k], ifs, k);
    if k < r {
      RidFromOwnRecord(nb, ifs, i, k + 1);
    } else if nb[k].routerId == 0 {
      NothingBehind(nb, ifs, i, k + 1);
    }
  }

  lemma {:induction false} NothingBehind(nb: seq<Neighbour>, ifs: seq<Interface>, i: nat, k: nat)
    requires Wired(ifs) && RecordsFit(nb, ifs) && i < |ifs| && k > RecordOf(ifs[i].name)
    ensures RidFrom(nb, NetOf(ifs[i]), k) == 0
    decreases |nb| - k
  {
    hide And, EthName;
    if k < |nb| {
      assert RecordFits(nb[k], ifs, k);
      NothingBehind(nb, ifs, i, k + 1);
    }
  }

  /**
    The sender, exactly. An interface is advertised with the router heard there; as 0/0 while nobody
    has been heard there nor on eth0; and with no router while somebody has been heard on eth0 only.
  */
  lemma AdvertExactly(nb: seq<Neighbour>, ifs: seq<Interface>, i: nat)
    requires Wired(ifs) && RecordsFit(nb, ifs) && i < |ifs|
    ensures var rid := nb[RecordOf(ifs[i].name)].routerId;
      AdvertFor(nb, ifs[i]) ==
        if rid == 0 && nb[0].routerId == 0 then Advert(0, 0, 0) else Advert(NetOf(ifs[i]), ifs[i].mask, rid)
  {
    hide And;
    var r := RecordOf(ifs[i].name);
    RidFromOwnRecord(nb, ifs, i, 0);
    NeighbourFromExactly(nb, 0, 0);
    assert RecordFits(nb[0], ifs, 0) && RecordFits(nb[r], ifs, r);
    var k := NeighbourIndex(nb, 0);
    assert RecordFits(nb[k], ifs, k);
    OnlyRecordZeroIsEth0(k);
    hide EthName, RidFrom, IsEth0;
    assert nb[0].routerId == 0 ==> k == 0;
  }

  /** The first round names nobody: every interface goes out as 0/0. */
  lemma FirstRoundNamesNobody(ifs: seq<Interface>, now: real, i: nat)
    requires Wired(ifs) && i < |ifs|
    ensures AdvertFor(StartRecords(|ifs|, now), ifs[i]) == Advert(0, 0, 0)
  {
    StartFits(ifs, now);
    AdvertExactly(StartRecords(|ifs|, now), ifs, i);
  }

  /** The subnet 0 of router `o`. */
  predicate ZeroSubnet(k: Key) { k.LeafKey? && k.subnet == 0 }

  /** Interface `x` is the one whose name points to record 0. */
  predicate Eth0At(ifs: seq<Interface>, x: nat) {
    x < |ifs| && |ifs[x].name| > 3 && RecordOf(ifs[x].name) == 0
  }

  /** With as many records as interfaces, each its own, there is such an interface. */
  lemma Eth0Exists(ifs: seq<Interface>) returns (x: nat)
    requires Wired(ifs) && ifs != []
    ensures Eth0At(ifs, x)
  {
    var rs: seq<int> := seq(|ifs|, i requires 0 <= i < |ifs| => RecordOf(ifs[i].name));
    ShortestPaths.CountDistinct(rs);
    var all := set i | 0 <= i < |rs| :: rs[i];
    if 0 !in all {
      assert all <= ShortestPaths.Below(|ifs|) - {0};
      ShortestPaths.CountIn(all, ShortestPaths.Below(|ifs|) - {0});
      assert false;
    }
    x :| 0 <= x < |rs| && rs[x] == 0;
  }

  /** Subnet 0 is advertised exactly as long as nobody has been heard on eth0, which interface `e` is. */
  lemma ZeroSubnetExactly(nb: seq<Neighbour>, ifs: seq<Interface>, o: Addr, e: nat)
    requires Wired(ifs) && RecordsFit(nb, ifs) && Eth0At(ifs, e)
    ensures SomeAsksFor(o, Adverts(nb, ifs), false, (RouterKey(o), LeafKey(o, 0))) <==> nb[0].routerId == 0
  {
    hide And, RecordFits;
    forall i | 0 <= i < |ifs| ensures Adverts(nb, ifs)[i].subnet == 0 ==> nb[0].routerId == 0 {
      AdvertExactly(nb, ifs, i);
    }
    AdvertExactly(nb, ifs, e);
    hide AdvertFor;
    if nb[0].routerId == 0 {
      assert AsksFor(o, Adverts(nb, ifs)[e], false, (RouterKey(o), LeafKey(o, 0)));
    }
  }

  /** Whatever an update says is said by every later one, subnet 0 apart. */
  lemma SaidLasts(nb: seq<Neighbour>, nb': seq<Neighbour>, ifs: seq<Interface>, o: Addr, e: (Key, Key))
    requires Wired(ifs) && RecordsFit(nb, ifs) && RecordsFit(nb', ifs) && Keeps(nb, nb') && ifs != []
    requires SomeAsksFor(o, Adverts(nb, ifs), false, e) && !ZeroSubnet(e.1)
    ensures SomeAsksFor(o, Adverts(nb', ifs), false, e)
  {
    hide And, RecordFits;
    var i :| 0 <= i < |ifs| && AsksFor(o, Adverts(nb, ifs)[i], false, e);
    AdvertExactly(nb, ifs, i);
    AdvertExactly(nb', ifs, i);
    hide AdvertFor;
    assert AsksFor(o, Adverts(nb', ifs)[i], false, e);
  }

  // ----- a sender over time --------------------------------------------------------------

  /** All hellos a router has handled, and for each round of its sender how many came before it. */
  datatype Sender = Sender(ifs: seq<Interface>, start: real, hellos: seq<Hello>, rounds: seq<nat>)

  ghost predicate SenderOk(s: Sender) {
    && s.ifs != [] && Wired(s.ifs)
    && (forall i :: 0 <= i < |s.hellos| ==> OnLink(s.ifs, s.hellos[i]))
    && (forall k :: 0 <= k < |s.rounds| ==> s.rounds[k] <= |s.hellos|)
    && (forall k, m :: 0 <= k < m < |s.rounds| ==> s.rounds[k] <= s.rounds[m])
  }

  ghost function RoundRecords(s: Sender, k: nat): (nb: seq<Neighbour>)
    requires SenderOk(s) && k < |s.rounds|
    ensures nb != []
  {
    RecordsAfter(s.ifs, s.start, s.hellos[..s.rounds[k]])
  }

  /** The updates of this sender. */
  ghost predicate SentBy(history: seq<seq<Advert>>, s: Sender)
    requires SenderOk(s)
  {
    |history| == |s.rounds| && forall k :: 0 <= k < |history| ==> history[k] == Adverts(RoundRecords(s, k), s.ifs)
  }

  lemma RoundsKeep(s: Sender, k: nat, m: nat)
    requires SenderOk(s) && k <= m < |s.rounds|
    ensures RecordsFit(RoundRecords(s, k), s.ifs) && RecordsFit(RoundRecords(s, m), s.ifs)
    ensures Keeps(RoundRecords(s, k), RoundRecords(s, m))
  {
    hide OnLink, RecordsFit, Keeps, Wired;
    var early, late := s.hellos[..s.rounds[k]], s.hellos[..s.rounds[m]];
    assert late[..s.rounds[k]] == early;
    RecordsAfterFit(s.ifs, s.start, early);
    RecordsAfterFit(s.ifs, s.start, late);
    LaterKeeps(s.ifs, s.start, late, s.rounds[k]);
  }

  /** Over any number of hellos and rounds, what one update says its last update says too, subnet 0 apart. */
  lemma UpdatesLast(history: seq<seq<Advert>>, s: Sender, o: Addr, k: nat, e: (Key, Key))
    requires SenderOk(s) && SentBy(history, s) && k < |history|
    requires SomeAsksFor(o, history[k], false, e) && !ZeroSubnet(e.1)
    ensures SomeAsksFor(o, history[|history| - 1], false, e)
  {
    hide OnLink, RecordsFit, Keeps, Wired, RoundRecords, SomeAsksFor;
    RoundsKeep(s, k, |history| - 1);
    SaidLasts(RoundRecords(s, k), RoundRecords(s, |history| - 1), s.ifs, o, e);
  }
}
