/** Link-state update packets: what the periodic sender writes and what the handler reads back. */
module LsuPackets {
  import opened Words
  import opened Topology
  import opened RouteTables
  import opened Checksum

  datatype Interface = Interface(name: string, mac: seq<byte>, ip: Addr, mask: Addr)

  /** One record per interface; router id 0 until the first hello arrives there. */
  datatype Neighbour = Neighbour(routerId: Addr, ip: Addr, netMask: Addr, alive: bool,
                                 interFace: string, timeStamp: real)

  const ETHER_LEN: nat := 14
  const RID_AT: nat := 38        // router id, in the OSPF header after 14 + 20 octets
  const SEQ_AT: nat := 58        // the LSU header, after 14 + 20 + 24 octets
  const TTL_AT: nat := 61
  const NUM_ADV_AT: nat := 62
  const ADVERTS_AT: nat := 66
  const ADVERT_LEN: nat := 12

  // ----- fields --------------------------------------------------------------------------

  function Put16(x: nat): (r: seq<byte>)
    ensures |r| == 2
  {
    [x / 256 % 256, x % 256]
  }

  function Put32(x: nat): (r: seq<byte>)
    ensures |r| == 4
  {
    [x / 0x100_0000 % 256, x / 0x1_0000 % 256, x / 0x100 % 256, x % 256]
  }

  function Get16(p: seq<byte>, at: nat): nat
    requires at + 2 <= |p|
  {
    256 * p[at] as int + p[at + 1] as int
  }

  function Get32(p: seq<byte>, at: nat): Addr
    requires at + 4 <= |p|
  {
    0x100_0000 * (p[at] as int) + 0x1_0000 * (p[at + 1] as int) + 0x100 * (p[at + 2] as int) + p[at + 3] as int
  }

  lemma PutGet16(p: seq<byte>, at: nat, x: nat)
    requires at + 2 <= |p| && p[at..at + 2] == Put16(x)
    ensures Get16(p, at) == x % 0x10000
  {
    assert p[at] == Put16(x)[0] && p[at + 1] == Put16(x)[1];
  }

  lemma PutGet32(p: seq<byte>, at: nat, x: nat)
    requires at + 4 <= |p| && p[at..at + 4] == Put32(x) && x < 0x1_0000_0000
    ensures Get32(p, at) == x
  {
    assert p[at] == Put32(x)[0] && p[at + 1] == Put32(x)[1] && p[at + 2] == Put32(x)[2] && p[at + 3] == Put32(x)[3];
    assert x / 0x1_0000 == 256 * (x / 0x100_0000) + x / 0x1_0000 % 256;
    assert x / 0x100 == 256 * (x / 0x1_0000) + x / 0x100 % 256;
  }

  // ----- decoding ------------------------------------------------------------------------

  function AdvertAt(p: seq<byte>, i: nat): Advert
    requires ADVERTS_AT + ADVERT_LEN * (i + 1) <= |p|
  {
    var at := ADVERTS_AT + ADVERT_LEN * i;
    Advert(Get32(p, at), Get32(p, at + 4), Get32(p, at + 8))
  }

  /** The packet is as long as its advertisement count says; the handler relies on this. */
  predicate Decodable(p: seq<byte>) {
    |p| >= ADVERTS_AT && ADVERTS_AT + ADVERT_LEN * Get32(p, NUM_ADV_AT) <= |p|
  }

  function Decode(p: seq<byte>): Lsu
    requires Decodable(p)
  {
    Lsu(Get32(p, RID_AT), Get16(p, SEQ_AT),
        seq(Get32(p, NUM_ADV_AT), i requires 0 <= i < Get32(p, NUM_ADV_AT) => AdvertAt(p, i)))
  }

  // ----- what the sender advertises ------------------------------------------------------

  /** The first live neighbour from position `k` on with this router id; 0 when there is none. */
  function NeighbourFrom(nb: seq<Neighbour>, rid: Addr, k: nat): nat
    decreases |nb| - k
  {
    if k >= |nb| then 0
    else if nb[k].routerId == rid && nb[k].alive then k
    else NeighbourFrom(nb, rid, k + 1)
  }

  function NeighbourIndex(nb: seq<Neighbour>, rid: Addr): nat { NeighbourFrom(nb, rid, 0) }

  /** The router id heard on a subnet, 0 when none was. */
  function RidFrom(nb: seq<Neighbour>, subnet: Addr, k: nat): Addr
    decreases |nb| - k
  {
    if k >= |nb| then 0
    else if And(nb[k].ip, nb[k].netMask) == subnet && nb[k].alive then nb[k].routerId
    else RidFrom(nb, subnet, k + 1)
  }

  /** The digit that follows "eth" is 0. */
  predicate IsEth0(name: string) { |name| > 3 && name[3] == '0' }

  const DIGITS: string := "0123456789"

  function Decimal(k: nat): (s: string)
    ensures s != []
  {
    if k < 10 then [DIGITS[k]] else Decimal(k / 10) + [DIGITS[k % 10]]
  }

  /** The interface name a neighbour record starts with. */
  function EthName(k: nat): string { "eth" + Decimal(k) }

  /** The test on the fourth character singles out record 0. */
  lemma {:induction false} OnlyRecordZeroIsEth0(k: nat)
    ensures IsEth0(EthName(k)) <==> k == 0
  {
    LeadingDigit(k);
  }

  lemma {:induction false} LeadingDigit(k: nat)
    ensures Decimal(k)[0] == '0' <==> k == 0
  {
    if k >= 10 { LeadingDigit(k / 10); }
  }

  /** A link without a router is advertised as 0/0 when the first neighbour not yet heard from is on eth0. */
  function AdvertFor(nb: seq<Neighbour>, i: Interface): Advert
    requires nb != []
  {
    var subnet := And(i.ip, i.mask);
    var rid := RidFrom(nb, subnet, 0);
    NeighbourFromInRange(nb, 0, 0);
    if rid == 0 && IsEth0(nb[NeighbourIndex(nb, 0)].interFace) then Advert(0, 0, 0) else Advert(subnet, i.mask, rid)
  }

  lemma {:induction false} NeighbourFromInRange(nb: seq<Neighbour>, rid: Addr, k: nat)
    requires nb != [] && k <= |nb|
    ensures NeighbourFrom(nb, rid, k) < |nb|
    decreases |nb| - k
  {
    if k < |nb| && !(nb[k].routerId == rid && nb[k].alive) { NeighbourFromInRange(nb, rid, k + 1); }
  }

  /** The index found is right exactly when there is a live neighbour with that router id. */
  lemma {:induction false} NeighbourFromExactly(nb: seq<Neighbour>, rid: Addr, k: nat)
    requires k < |nb|
    ensures NeighbourFrom(nb, rid, k) < |nb|
    ensures (exists j :: k <= j < |nb| && nb[j].routerId == rid && nb[j].alive) ==>
              var i := NeighbourFrom(nb, rid, k);
              && k <= i && nb[i].routerId == rid && nb[i].alive
              && forall j :: k <= j < i ==> !(nb[j].routerId == rid && nb[j].alive)
    ensures (forall j :: k <= j < |nb| ==> !(nb[j].routerId == rid && nb[j].alive)) ==> NeighbourFrom(nb, rid, k) == 0
    decreases |nb| - k
  {
    if !(nb[k].routerId == rid && nb[k].alive) && k + 1 < |nb| { NeighbourFromExactly(nb, rid, k + 1); }
  }

  function Adverts(nb: seq<Neighbour>, ifs: seq<Interface>): (r: seq<Advert>)
    requires nb != []
    ensures |r| == |ifs|
  {
    seq(|ifs|, i requires 0 <= i < |ifs| => AdvertFor(nb, ifs[i]))
  }

  function AliveCount(nb: seq<Neighbour>): (r: nat)
    ensures r <= |nb|
    ensures r == |nb| <==> forall k :: 0 <= k < |nb| ==> nb[k].alive
  {
    if nb == [] then 0
    else
      assert nb == nb[..|nb| - 1] + [nb[|nb| - 1]];
      AliveCount(nb[..|nb| - 1]) + if nb[|nb| - 1].alive then 1 else 0
  }

  // ----- encoding ------------------------------------------------------------------------

  function EncodeAdvert(a: Advert): (r: seq<byte>)
    ensures |r| == ADVERT_LEN
  {
    Put32(a.subnet) + Put32(a.mask) + Put32(a.rid)
  }

  function EncodeAdverts(advs: seq<Advert>): (r: seq<byte>)
    ensures |r| == ADVERT_LEN * |advs|
  {
    if advs == [] then [] else EncodeAdverts(advs[..|advs| - 1]) + EncodeAdvert(advs[|advs| - 1])
  }

  function Octets(n: nat): (r: seq<byte>)
    ensures |r| == n
  {
    seq(n, _ => 0)
  }

  /** The destination address is never filled in: the initialiser shadows the variable the sender reads. */
  function EtherHeader(i: Interface): (r: seq<byte>)
    requires |i.mac| == 6
    ensures |r| == 14
  {
    Octets(6) + i.mac + Put16(0x0800)
  }

  function IpHeader(i: Interface, length: nat): (r: seq<byte>)
    ensures |r| == 20 && r[0] == 0x45
  {
    [0x45, 0] + Put16(length) + Put16(0x2607) + Put16(0x4000) + [64, 89, 0, 0] + Put32(i.ip) + Put32(0xE000_0005)
  }

  function OspfHeader(routerId: Addr, length: nat): (r: seq<byte>)
    ensures |r| == 24 && r[4..8] == Put32(routerId)
  {
    [2, 4] + Put16(length) + Put32(routerId) + Octets(16)
  }

  function LsuHeader(seqCount: nat, count: nat): (r: seq<byte>)
    ensures |r| == 8 && r[0..2] == Put16(seqCount) && r[4..8] == Put32(count)
  {
    Put16(seqCount) + [0, 64] + Put32(count)
  }

  function Headers(routerId: Addr, i: Interface, seqCount: nat, count: nat, alive: nat): (r: seq<byte>)
    requires |i.mac| == 6
    ensures |r| == ADVERTS_AT && r[ETHER_LEN] == 0x45
    ensures r[RID_AT..RID_AT + 4] == Put32(routerId)
    ensures r[SEQ_AT..SEQ_AT + 2] == Put16(seqCount) && r[NUM_ADV_AT..NUM_ADV_AT + 4] == Put32(count)
  {
    var length := ADVERTS_AT + ADVERT_LEN * alive;
    var ip := EtherHeader(i) + IpHeader(i, length - 14);
    var ospf := ip + OspfHeader(routerId, length - 34);
    assert ospf[RID_AT..RID_AT + 4] == OspfHeader(routerId, length - 34)[4..8];
    var r := ospf + LsuHeader(seqCount, count);
    assert r[RID_AT..RID_AT + 4] == ospf[RID_AT..RID_AT + 4];
    assert r[SEQ_AT..SEQ_AT + 2] == LsuHeader(seqCount, count)[0..2];
    assert r[NUM_ADV_AT..NUM_ADV_AT + 4] == LsuHeader(seqCount, count)[4..8];
    r
  }

  /** The packet sent on interface `i`: as many advertisements as there are live neighbours are copied in. */
  function LsuPacket(routerId: Addr, nb: seq<Neighbour>, ifs: seq<Interface>, seqCount: nat, i: Interface): seq<byte>
    requires |i.mac| == 6 && |nb| == |ifs| && nb != []
  {
    var alive := AliveCount(nb);
    var p := Headers(routerId, i, seqCount, |ifs|, alive) + EncodeAdverts(Adverts(nb, ifs))[..ADVERT_LEN * alive];
    assert p[ETHER_LEN] == 0x45 && 0x45 % 16 == 5 && |p| >= ADVERTS_AT;
    IpChecksummed(p, ETHER_LEN)
  }

  lemma {:induction false} EncodedAt(advs: seq<Advert>, i: nat)
    requires i < |advs|
    ensures EncodeAdverts(advs)[ADVERT_LEN * i..ADVERT_LEN * i + ADVERT_LEN] == EncodeAdvert(advs[i])
  {
    var init := advs[..|advs| - 1];
    if i < |advs| - 1 {
      EncodedAt(init, i);
      assert EncodeAdverts(advs)[ADVERT_LEN * i..ADVERT_LEN * i + ADVERT_LEN]
          == EncodeAdverts(init)[ADVERT_LEN * i..ADVERT_LEN * i + ADVERT_LEN];
    }
  }

  lemma AdvertDecodes(p: seq<byte>, advs: seq<Advert>, i: nat)
    requires |p| == ADVERTS_AT + ADVERT_LEN * |advs| && p[ADVERTS_AT..] == EncodeAdverts(advs) && i < |advs|
    ensures AdvertAt(p, i) == advs[i]
  {
    hide EncodeAdvert, Get32;
    EncodedAt(advs, i);
    var at := ADVERTS_AT + ADVERT_LEN * i;
    assert p[at..at + ADVERT_LEN] == p[ADVERTS_AT..][ADVERT_LEN * i..ADVERT_LEN * i + ADVERT_LEN];
    FieldsDecode(p, at, advs[i]);
  }

  lemma SliceOfSlice(p: seq<byte>, at: nat, n: nat, i: nat, j: nat)
    requires at + n <= |p| && i <= j <= n
    ensures p[at..at + n][i..j] == p[at + i..at + j]
  {
    var q := p[at..at + n];
    forall k | 0 <= k < j - i ensures q[i..j][k] == p[at + i..at + j][k] {
      assert q[i..j][k] == q[i + k] == p[at + (i + k)];
      assert p[at + i..at + j][k] == p[at + i + k];
    }
  }

  lemma FieldsDecode(p: seq<byte>, at: nat, a: Advert)
    requires at + ADVERT_LEN <= |p| && p[at..at + ADVERT_LEN] == EncodeAdvert(a)
    ensures Get32(p, at) == a.subnet && Get32(p, at + 4) == a.mask && Get32(p, at + 8) == a.rid
  {
    var q := p[at..at + ADVERT_LEN];
    SliceOfSlice(p, at, 12, 0, 4);
    SliceOfSlice(p, at, 12, 4, 8);
    SliceOfSlice(p, at, 12, 8, 12);
    assert q[0..4] == Put32(a.subnet) && q[4..8] == Put32(a.mask) && q[8..12] == Put32(a.rid);
    PutGet32(p, at, a.subnet);
    PutGet32(p, at + 4, a.mask);
    PutGet32(p, at + 8, a.rid);
  }

  /** The packet has the length its count calls for exactly when every neighbour is alive. */
  lemma LengthMatchesExactly(routerId: Addr, nb: seq<Neighbour>, ifs: seq<Interface>, seqCount: nat, i: Interface)
    requires |i.mac| == 6 && |nb| == |ifs| && nb != [] && |ifs| < 0x1_0000_0000
    ensures var p := LsuPacket(routerId, nb, ifs, seqCount, i);
      && |p| >= ADVERTS_AT && Get32(p, NUM_ADV_AT) == |ifs|
      && (Decodable(p) <==> forall k :: 0 <= k < |nb| ==> nb[k].alive)
  {
    hide IpChecksummed, Headers, EncodeAdverts;
    var alive := AliveCount(nb);
    var h := Headers(routerId, i, seqCount, |ifs|, alive);
    var b := h + EncodeAdverts(Adverts(nb, ifs))[..ADVERT_LEN * alive];
    var p := LsuPacket(routerId, nb, ifs, seqCount, i);
    ChecksumElsewhere(b, ETHER_LEN);
    assert p[NUM_ADV_AT..NUM_ADV_AT + 4] == b[NUM_ADV_AT..NUM_ADV_AT + 4] == h[NUM_ADV_AT..NUM_ADV_AT + 4];
    PutGet32(p, NUM_ADV_AT, |ifs|);
  }

  /** What the handler decodes is the router id, the 16-bit sequence number and the list that was encoded. */
  lemma LsuRoundTrip(routerId: Addr, nb: seq<Neighbour>, ifs: seq<Interface>, seqCount: nat, i: Interface)
    requires |i.mac| == 6 && |nb| == |ifs| && nb != [] && |ifs| < 0x1_0000_0000
    requires forall k :: 0 <= k < |nb| ==> nb[k].alive
    ensures var p := LsuPacket(routerId, nb, ifs, seqCount, i);
      Decodable(p) && Decode(p) == Lsu(routerId, seqCount % 0x10000, Adverts(nb, ifs))
  {
    hide IpChecksummed, Headers, EncodeAdverts, AdvertAt, Adverts;
    LengthMatchesExactly(routerId, nb, ifs, seqCount, i);
    var advs, h := Adverts(nb, ifs), Headers(routerId, i, seqCount, |ifs|, |ifs|);
    var b := h + EncodeAdverts(advs);
    assert EncodeAdverts(advs)[..ADVERT_LEN * |ifs|] == EncodeAdverts(advs);
    var p := LsuPacket(routerId, nb, ifs, seqCount, i);
    ChecksumElsewhere(b, ETHER_LEN);
    assert p[RID_AT..RID_AT + 4] == b[RID_AT..RID_AT + 4] == h[RID_AT..RID_AT + 4];
    assert p[SEQ_AT..SEQ_AT + 2] == b[SEQ_AT..SEQ_AT + 2] == h[SEQ_AT..SEQ_AT + 2];
    PutGet32(p, RID_AT, routerId);
    PutGet16(p, SEQ_AT, seqCount);
    assert p[ADVERTS_AT..] == b[ADVERTS_AT..] == EncodeAdverts(advs);
    forall k | 0 <= k < |advs| ensures AdvertAt(p, k) == advs[k] { AdvertDecodes(p, advs, k); }
    assert Decode(p).adverts == advs;
  }

  // ----- passing a packet on -------------------------------------------------------------

  datatype Frame = Frame(iface: string, bytes: seq<byte>)

  /** The source address is overwritten with that of the outgoing interface. */
  function WithSource(p: seq<byte>, mac: seq<byte>): (r: seq<byte>)
    requires |p| >= ADVERTS_AT && |mac| == 6
    ensures |r| == |p| && (forall k :: 12 <= k < |p| ==> r[k] == p[k]) && r[6..12] == mac && r[..6] == p[..6]
  {
    p[..6] + mac + p[12..]
  }

  function TtlLowered(p: seq<byte>, times: nat): (r: seq<byte>)
    requires |p| >= ADVERTS_AT
    ensures |r| == |p|
  {
    p[TTL_AT := (p[TTL_AT] as int - times) % 256]
  }

  ghost predicate MacsOk(ifs: seq<Interface>) {
    forall i :: 0 <= i < |ifs| ==> |ifs[i].mac| == 6
  }

  /** One pass over the interface list: out on every interface but the incoming one. */
  ghost function OnOthers(p: seq<byte>, ifs: seq<Interface>, incoming: string): seq<Frame>
    requires |p| >= ADVERTS_AT && MacsOk(ifs)
  {
    if ifs == [] then []
    else
      var i := ifs[|ifs| - 1];
      OnOthers(p, ifs[..|ifs| - 1], incoming)
      + if i.name != incoming then [Frame(i.name, WithSource(p, i.mac))] else []
  }

  /** All that an accepted update with `k` advertisements puts out. */
  ghost function Forwards(p: seq<byte>, ifs: seq<Interface>, incoming: string, k: nat): seq<Frame>
    requires |p| >= ADVERTS_AT && MacsOk(ifs)
  {
    if k == 0 then [] else Forwards(p, ifs, incoming, k - 1) + OnOthers(TtlLowered(p, k), ifs, incoming)
  }

  ghost function OtherInterfaces(ifs: seq<Interface>, incoming: string): nat {
    if ifs == [] then 0
    else OtherInterfaces(ifs[..|ifs| - 1], incoming) + if ifs[|ifs| - 1].name != incoming then 1 else 0
  }

  lemma {:induction false} OnOthersCarries(p: seq<byte>, ifs: seq<Interface>, incoming: string)
    requires Decodable(p) && MacsOk(ifs)
    ensures |OnOthers(p, ifs, incoming)| == OtherInterfaces(ifs, incoming)
    ensures forall f :: f in OnOthers(p, ifs, incoming) ==>
              f.iface != incoming && Decodable(f.bytes) && Decode(f.bytes) == Decode(p)
  {
    assert |p| >= ADVERTS_AT;
    hide Decodable, Decode;
    if ifs != [] {
      var i := ifs[|ifs| - 1];
      OnOthersCarries(p, ifs[..|ifs| - 1], incoming);
      SameUpdate(p, WithSource(p, i.mac));
    }
  }

  /** Octets outside the fields read by the handler do not matter. */
  lemma SameUpdate(p: seq<byte>, q: seq<byte>)
    requires Decodable(p) && |p| == |q| && forall k :: 12 <= k < |p| && k != TTL_AT ==> q[k] == p[k]
    ensures Decodable(q) && Decode(q) == Decode(p)
  {
    assert Get32(q, NUM_ADV_AT) == Get32(p, NUM_ADV_AT);
    forall i | 0 <= i < Get32(p, NUM_ADV_AT) ensures AdvertAt(q, i) == AdvertAt(p, i) {}
    assert Decode(q).adverts == Decode(p).adverts;
  }

  /** Every forwarded frame carries the same update, once per advertisement on every other interface. */
  lemma {:induction false} ForwardsCarry(p: seq<byte>, ifs: seq<Interface>, incoming: string, k: nat)
    requires Decodable(p) && MacsOk(ifs)
    ensures |Forwards(p, ifs, incoming, k)| == k * OtherInterfaces(ifs, incoming)
    ensures forall f :: f in Forwards(p, ifs, incoming, k) ==>
              f.iface != incoming && Decodable(f.bytes) && Decode(f.bytes) == Decode(p)
  {
    assert |p| >= ADVERTS_AT;
    hide Decodable, Decode;
    if k > 0 {
      ForwardsCarry(p, ifs, incoming, k - 1);
      SameUpdate(p, TtlLowered(p, k));
      OnOthersCarries(TtlLowered(p, k), ifs, incoming);
      var others := OtherInterfaces(ifs, incoming);
      assert k * others == (k - 1) * others + others;
    }
  }

  // ----- how often, and where ------------------------------------------------------------

  ghost function FramesOn(fs: seq<Frame>, name: string): nat {
    if fs == [] then 0 else FramesOn(fs[..|fs| - 1], name) + if fs[|fs| - 1].iface == name then 1 else 0
  }

  ghost function InterfacesNamed(ifs: seq<Interface>, name: string): nat {
    if ifs == [] then 0
    else InterfacesNamed(ifs[..|ifs| - 1], name) + if ifs[|ifs| - 1].name == name then 1 else 0
  }

  lemma {:induction false} FramesOnSplit(a: seq<Frame>, b: seq<Frame>, name: string)
    ensures FramesOn(a + b, name) == FramesOn(a, name) + FramesOn(b, name)
  {
    if b == [] {
      assert a + b == a;
    } else {
      assert (a + b)[..|a + b| - 1] == a + b[..|b| - 1];
      FramesOnSplit(a, b[..|b| - 1], name);
    }
  }

  lemma {:induction false} OnOthersOnEach(p: seq<byte>, ifs: seq<Interface>, incoming: string, name: string)
    requires |p| >= ADVERTS_AT && MacsOk(ifs)
    ensures FramesOn(OnOthers(p, ifs, incoming), name) == if name == incoming then 0 else InterfacesNamed(ifs, name)
  {
    if ifs != [] {
      var init, i := ifs[..|ifs| - 1], ifs[|ifs| - 1];
      OnOthersOnEach(p, init, incoming, name);
      var last := if i.name != incoming then [Frame(i.name, WithSource(p, i.mac))] else [];
      FramesOnSplit(OnOthers(p, init, incoming), last, name);
      assert OnOthers(p, ifs, incoming) == OnOthers(p, init, incoming) + last;
      assert last != [] ==> last[..0] == [] && FramesOn(last, name) == if i.name == name then 1 else 0;
    }
  }

  /** An update with `k` advertisements goes out exactly `k` times on each other interface, never on its own. */
  lemma {:induction false} ForwardsOnEach(p: seq<byte>, ifs: seq<Interface>, incoming: string, k: nat, name: string)
    requires |p| >= ADVERTS_AT && MacsOk(ifs)
    ensures FramesOn(Forwards(p, ifs, incoming, k), name)
         == if name == incoming then 0 else k * InterfacesNamed(ifs, name)
  {
    hide FramesOn, OnOthers;
    if k > 0 {
      ForwardsOnEach(p, ifs, incoming, k - 1, name);
      OnOthersOnEach(TtlLowered(p, k), ifs, incoming, name);
      FramesOnSplit(Forwards(p, ifs, incoming, k - 1), OnOthers(TtlLowered(p, k), ifs, incoming), name);
      assert k * InterfacesNamed(ifs, name) == (k - 1) * InterfacesNamed(ifs, name) + InterfacesNamed(ifs, name);
    } else {
      NoFrames(name);
    }
  }

  lemma NoFrames(name: string)
    ensures FramesOn([], name) == 0
  {
  }
}
