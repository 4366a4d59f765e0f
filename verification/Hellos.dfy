/** What a hello does to the neighbour records. */
module Hellos {
  import opened Words
  import opened RouteTables
  import opened LsuPackets

  const OSPF_DEFAULT_HELLOINT: nat := 5

  /** A hello as it arrives: the interface, the sender's address and id, and what it says. */
  datatype Hello = Hello(incoming: string, src: Addr, rid: Addr, nmask: Addr, helloint: nat, now: real)

  /** The position of the interface a name refers to, or the length of the list. */
  function Named(ifs: seq<Interface>, name: string): (k: nat)
    ensures k <= |ifs| && (k < |ifs| ==> ifs[k].name == name)
  {
    if ifs == [] || ifs[0].name == name then 0 else 1 + Named(ifs[1..], name)
  }

  /** The neighbour record of an interface: the digit that is the fourth character of its name. */
  function RecordOf(name: string): int
    requires |name| > 3
  {
    name[3] as int - '0' as int
  }

  /** The interface exists and its name points to one of the `n` records; the code checks neither. */
  predicate Arrives(ifs: seq<Interface>, n: nat, h: Hello) {
    Named(ifs, h.incoming) < |ifs| && |h.incoming| > 3 && 0 <= RecordOf(h.incoming) < n
  }

  /** The two checks on a hello. */
  predicate Fits(ifs: seq<Interface>, h: Hello)
    requires Named(ifs, h.incoming) < |ifs|
  {
    ifs[Named(ifs, h.incoming)].mask == h.nmask && h.helloint == OSPF_DEFAULT_HELLOINT
  }

  /** The first hello that fits fills the record; later ones only change its time. */
  function AfterHello(nb: seq<Neighbour>, ifs: seq<Interface>, h: Hello): (r: seq<Neighbour>)
    requires Arrives(ifs, |nb|, h)
    ensures |r| == |nb|
  {
    var k := RecordOf(h.incoming);
    if !Fits(ifs, h) then nb
    else if nb[k].routerId == 0 then nb[k := Neighbour(h.rid, h.src, h.nmask, true, nb[k].interFace, h.now)]
    else nb[k := nb[k].(timeStamp := h.now)]
  }

  /** The records at start-up: nobody known, all taken to be alive. */
  function StartRecords(n: nat, now: real): (nb: seq<Neighbour>)
    ensures |nb| == n
  {
    seq(n, k requires 0 <= k < n => Neighbour(0, 0, 0, true, EthName(k), now))
  }

  /** Interface `k` is the first called `name`. */
  ghost predicate FirstNamed(ifs: seq<Interface>, name: string, k: nat) {
    k < |ifs| && ifs[k].name == name && forall j :: 0 <= j < k ==> ifs[j].name != name
  }

  lemma {:induction false} NamedIsFirst(ifs: seq<Interface>, name: string, k: nat)
    requires FirstNamed(ifs, name, k)
    ensures Named(ifs, name) == k
  {
    if k > 0 { NamedIsFirst(ifs[1..], name, k - 1); }
  }

  /**
    A hello, exactly. With the mask of its interface and an interval of 5 seconds, it enters its
    sender into the record that the digit after "eth" points to, if that has none yet, and sets the
    time of the record in any case. No other hello and no other record is touched.
  */
  lemma HelloExactly(nb: seq<Neighbour>, ifs: seq<Interface>, h: Hello, k: nat, j: nat)
    requires Arrives(ifs, |nb|, h) && FirstNamed(ifs, h.incoming, k) && j < |nb|
    ensures var n := AfterHello(nb, ifs, h)[j];
      if h.nmask == ifs[k].mask && h.helloint == 5 && h.incoming[3] as int == 48 + j then
        && n.timeStamp == h.now && n.interFace == nb[j].interFace
        && (nb[j].routerId == 0 ==> n.routerId == h.rid && n.ip == h.src && n.netMask == h.nmask && n.alive)
        && (nb[j].routerId != 0 ==> n == nb[j].(timeStamp := h.now))
      else n == nb[j]
  {
    NamedIsFirst(ifs, h.incoming, k);
  }

  /** At start-up record `j` is called "eth" and its digit, and nobody has been heard there. */
  lemma StartExactly(n: nat, now: real, j: nat)
    requires j < n && j < 10
    ensures var r := StartRecords(n, now)[j];
      && |r.interFace| == 4 && r.interFace[..3] == "eth" && r.interFace[3] as int == 48 + j
      && r.routerId == 0 && r.alive && r.timeStamp == now
  {
    assert EthName(j) == "eth" + [DIGITS[j]];
  }
}
