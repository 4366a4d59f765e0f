/** Every octet of an update as the sender writes it, and the octets the handler reads. */
module LsuPacketExactly {
  import opened Words
  import opened PacketFields
  import opened Topology
  import opened RouteTables
  import opened Checksum
  import opened LsuPackets

  // ----- fields written ------------------------------------------------------------------

  lemma Put16Octets(x: nat)
    ensures NumberAt(Put16(x), 0, x)
  {
  }

  lemma Put32Octets(x: Addr)
    ensures AddressAt(Put32(x), 0, x)
  {
    assert x == 0x100_0000 * (x / 0x100_0000) + x % 0x100_0000;
    assert x / 0x1_0000 == 256 * (x / 0x100_0000) + x / 0x1_0000 % 256;
    assert x / 0x100 == 256 * (x / 0x1_0000) + x / 0x100 % 256;
  }

  lemma AddressMoved(a: seq<byte>, i: nat, b: seq<byte>, j: nat, x: Addr)
    requires AddressAt(a, i, x) && j + 4 <= |b| && a[i..i + 4] == b[j..j + 4]
    ensures AddressAt(b, j, x)
  {
    var c := a[i..i + 4];
    assert c[0] == a[i] && c[1] == a[i + 1] && c[2] == a[i + 2] && c[3] == a[i + 3];
    assert c[0] == b[j] && c[1] == b[j + 1] && c[2] == b[j + 2] && c[3] == b[j + 3];
  }

  lemma NumberMoved(a: seq<byte>, i: nat, b: seq<byte>, j: nat, x: nat)
    requires NumberAt(a, i, x) && j + 2 <= |b| && a[i..i + 2] == b[j..j + 2]
    ensures NumberAt(b, j, x)
  {
    var c := a[i..i + 2];
    assert c[0] == a[i] && c[1] == a[i + 1] && c[0] == b[j] && c[1] == b[j + 1];
  }

  /** The Ethernet and the IP header. */
  ghost predicate NetworkHeaders(p: seq<byte>, mac: seq<byte>, ip: Addr, length: nat)
    requires length >= 14
  {
    && |p| >= 34 && ZerosAt(p, 0, 6) && p[6..12] == mac && p[12] == 8 && p[13] == 0
    && p[14] == 0x45 && p[15] == 0 && NumberAt(p, 16, length - 14) && NumberAt(p, 18, 0x2607)
    && NumberAt(p, 20, 0x4000) && p[22] == 64 && p[23] == 89
    && AddressAt(p, 26, ip) && p[30] == 224 && p[31] == 0 && p[32] == 0 && p[33] == 5
  }

  /** The OSPF and the update header. */
  ghost predicate UpdateHeaders(p: seq<byte>, routerId: Addr, length: nat, number: nat, count: nat)
    requires length >= 34
  {
    && |p| >= 66 && p[34] == 2 && p[35] == 4 && NumberAt(p, 36, length - 34) && AddressAt(p, 38, routerId)
    && ZerosAt(p, 42, 58) && NumberAt(p, 58, number) && p[60] == 0 && p[61] == 64
    && (count < 0x1_0000_0000 ==> AddressAt(p, 62, count))
  }

  lemma NetworkOctets(i: Interface, length: nat)
    requires |i.mac| == 6 && length >= 14
    ensures NetworkHeaders(EtherHeader(i) + IpHeader(i, length - 14), i.mac, i.ip, length)
  {
    var e, h := EtherHeader(i), IpHeader(i, length - 14);
    EtherOctets(i);
    IpOctets(i, length - 14);
    hide EtherHeader, IpHeader;
    var p := e + h;
    assert p[6..12] == e[6..12];
    assert forall k :: 14 <= k < 34 ==> p[k] == h[k - 14];
  }

  lemma EtherOctets(i: Interface)
    requires |i.mac| == 6
    ensures var e := EtherHeader(i); ZerosAt(e, 0, 6) && e[6..12] == i.mac && e[12] == 8 && e[13] == 0
  {
  }

  lemma IpOctets(i: Interface, length: nat)
    ensures var h := IpHeader(i, length);
      && h[0] == 0x45 && h[1] == 0 && NumberAt(h, 2, length) && NumberAt(h, 4, 0x2607) && NumberAt(h, 6, 0x4000)
      && h[8] == 64 && h[9] == 89 && AddressAt(h, 12, i.ip) && h[16] == 224 && h[17] == 0 && h[18] == 0 && h[19] == 5
  {
    var h := IpHeader(i, length);
    Put16Octets(length);
    Put32Octets(i.ip);
    var id, group := [0x26, 7, 0x40, 0], [224, 0, 0, 5];
    assert Put16(0x2607) + Put16(0x4000) == id && Put32(0xE000_0005) == group;
    hide Put32, Put16;
    assert h == [0x45, 0] + Put16(length) + Put16(0x2607) + Put16(0x4000) + [64, 89, 0, 0] + Put32(i.ip) + group;
    assert h == [0x45, 0] + Put16(length) + id + [64, 89, 0, 0] + Put32(i.ip) + group;
    NumberMoved(Put16(length), 0, h, 2, length);
    AddressMoved(Put32(i.ip), 0, h, 12, i.ip);
  }

  lemma OspfOctets(routerId: Addr, length: nat)
    ensures var o := OspfHeader(routerId, length);
      o[0] == 2 && o[1] == 4 && NumberAt(o, 2, length) && AddressAt(o, 4, routerId) && ZerosAt(o, 8, 24)
  {
    var o := OspfHeader(routerId, length);
    Put16Octets(length);
    Put32Octets(routerId);
    hide Put32, Put16;
    assert o == [2, 4] + Put16(length) + Put32(routerId) + Octets(16);
    NumberMoved(Put16(length), 0, o, 2, length);
    AddressMoved(Put32(routerId), 0, o, 4, routerId);
  }

  lemma NumbersOctets(number: nat, count: nat)
    ensures var l := LsuHeader(number, count);
      NumberAt(l, 0, number) && l[2] == 0 && l[3] == 64 && (count < 0x1_0000_0000 ==> AddressAt(l, 4, count))
  {
    var l := LsuHeader(number, count);
    Put16Octets(number);
    hide Put32, Put16;
    assert l == Put16(number) + [0, 64] + Put32(count);
    NumberMoved(Put16(number), 0, l, 0, number);
    if count < 0x1_0000_0000 {
      Put32Octets(count);
      AddressMoved(Put32(count), 0, l, 4, count);
    }
  }

  lemma UpdateOctets(q: seq<byte>, routerId: Addr, length: nat, number: nat, count: nat)
    requires |q| == 34 && length >= 34
    ensures UpdateHeaders(q + OspfHeader(routerId, length - 34) + LsuHeader(number, count),
                          routerId, length, number, count)
  {
    var o, l := OspfHeader(routerId, length - 34), LsuHeader(number, count);
    OspfOctets(routerId, length - 34);
    NumbersOctets(number, count);
    hide OspfHeader, LsuHeader;
    Appended(q, o, l, routerId, length, number, count);
  }

  lemma Appended(q: seq<byte>, o: seq<byte>, l: seq<byte>, routerId: Addr, length: nat, number: nat, count: nat)
    requires |q| == 34 && |o| == 24 && |l| == 8 && length >= 34
    requires o[0] == 2 && o[1] == 4 && NumberAt(o, 2, length - 34) && AddressAt(o, 4, routerId) && ZerosAt(o, 8, 24)
    requires NumberAt(l, 0, number) && l[2] == 0 && l[3] == 64 && (count < 0x1_0000_0000 ==> AddressAt(l, 4, count))
    ensures UpdateHeaders(q + o + l, routerId, length, number, count)
  {
    var p := q + o + l;
    assert forall k :: 34 <= k < 58 ==> p[k] == o[k - 34];
    assert forall k :: 58 <= k < 66 ==> p[k] == l[k - 58];
  }

  /** Headers carry over to any packet with the same first octets; the IP checksum takes no part. */
  lemma SameHeaders(a: seq<byte>, b: seq<byte>, mac: seq<byte>, ip: Addr, rid: Addr,
                    length: nat, number: nat, count: nat)
    requires length >= 34 && |a| == 66 <= |b|
    requires forall k :: 0 <= k < 66 && k != 24 && k != 25 ==> b[k] == a[k]
    requires NetworkHeaders(a, mac, ip, length) && UpdateHeaders(a, rid, length, number, count)
    ensures NetworkHeaders(b, mac, ip, length) && UpdateHeaders(b, rid, length, number, count)
  {
    assert b[6..12] == a[6..12];
  }

  lemma HeadersOctets(rid: Addr, i: Interface, number: nat, count: nat, alive: nat)
    requires |i.mac| == 6
    ensures var h, length := Headers(rid, i, number, count, alive), 66 + 12 * alive;
      NetworkHeaders(h, i.mac, i.ip, length) && UpdateHeaders(h, rid, length, number, count)
  {
    var length := 66 + 12 * alive;
    var ip := EtherHeader(i) + IpHeader(i, length - 14);
    NetworkOctets(i, length);
    UpdateOctets(ip, rid, length, number, count);
    var h := Headers(rid, i, number, count, alive);
    assert h == ip + OspfHeader(rid, length - 34) + LsuHeader(number, count);
    hide Headers, EtherHeader, IpHeader, OspfHeader, LsuHeader;
    assert ip == h[..34];
    NetworkMoved(ip, h, i.mac, i.ip, length);
  }

  lemma NetworkMoved(a: seq<byte>, b: seq<byte>, mac: seq<byte>, ip: Addr, length: nat)
    requires length >= 14 && |a| == 34 <= |b| && a == b[..34] && NetworkHeaders(a, mac, ip, length)
    ensures NetworkHeaders(b, mac, ip, length)
  {
    assert b[6..12] == a[6..12];
    assert forall k :: 0 <= k < 34 ==> b[k] == a[k];
  }

  /** The advertisements one after another from octet 66 on. */
  ghost predicate AdvertsAt(p: seq<byte>, advs: seq<Advert>, n: nat) {
    |p| >= 66 + 12 * n && n <= |advs| && forall k :: 0 <= k < n ==> IsAdvertAt(p, k, advs[k])
  }

  ghost predicate IsAdvertAt(p: seq<byte>, k: nat, a: Advert) {
    AddressAt(p, 66 + 12 * k, a.subnet) && AddressAt(p, 70 + 12 * k, a.mask) && AddressAt(p, 74 + 12 * k, a.rid)
  }

  /** Record `i` is the first of a live router heard on `subnet`. */
  ghost predicate FirstHeard(nb: seq<Neighbour>, subnet: Addr, i: nat) {
    && i < |nb| && HeardOn(nb, subnet, i) && forall j :: 0 <= j < i ==> !HeardOn(nb, subnet, j)
  }

  ghost predicate HeardOn(nb: seq<Neighbour>, subnet: Addr, j: nat)
    requires j < |nb|
  {
    And(nb[j].ip, nb[j].netMask) == subnet && nb[j].alive
  }

  /** Record `z` is the first live one without a router; record 0 stands in where there is none. */
  ghost predicate FirstUnheard(nb: seq<Neighbour>, z: nat) {
    && z < |nb| && (forall j :: 0 <= j < z ==> !(nb[j].routerId == 0 && nb[j].alive))
    && ((nb[z].routerId == 0 && nb[z].alive)
        || (z == 0 && forall j :: 0 <= j < |nb| ==> !(nb[j].routerId == 0 && nb[j].alive)))
  }

  lemma {:induction false} RidFromExactly(nb: seq<Neighbour>, subnet: Addr, k: nat)
    ensures forall i :: k <= i && FirstHeard(nb, subnet, i) ==> RidFrom(nb, subnet, k) == nb[i].routerId
    ensures (forall j :: k <= j < |nb| ==> !HeardOn(nb, subnet, j)) ==> RidFrom(nb, subnet, k) == 0
    decreases |nb| - k
  {
    hide And;
    if k < |nb| {
      RidFromExactly(nb, subnet, k + 1);
      assert HeardOn(nb, subnet, k) <==> And(nb[k].ip, nb[k].netMask) == subnet && nb[k].alive;
    }
  }

  /**
    What the sender says of an interface, whatever the records hold: its subnet and mask with the
    router heard there, but 0/0 when none was and the first record without a router is called eth0.
  */
  lemma AdvertForExactly(nb: seq<Neighbour>, i: Interface, z: nat)
    requires FirstUnheard(nb, z)
    ensures var subnet, first, a := And(i.ip, i.mask), nb[z].interFace, AdvertFor(nb, i);
      var zero := |first| > 3 && first[3] as int == 48;
      && (forall h: nat :: FirstHeard(nb, subnet, h) ==>
            a == if nb[h].routerId == 0 && zero then Advert(0, 0, 0) else Advert(subnet, i.mask, nb[h].routerId))
      && ((forall j :: 0 <= j < |nb| ==> !HeardOn(nb, subnet, j)) ==>
            a == if zero then Advert(0, 0, 0) else Advert(subnet, i.mask, 0))
  {
    FirstUnheardIs(nb, z);
    hide And, FirstHeard, HeardOn, RidFrom, NeighbourIndex;
    RidFromExactly(nb, And(i.ip, i.mask), 0);
  }

  lemma FirstUnheardIs(nb: seq<Neighbour>, z: nat)
    requires FirstUnheard(nb, z)
    ensures NeighbourIndex(nb, 0) == z
  {
    hide NeighbourFrom;
    NeighbourFromExactly(nb, 0, 0);
    if nb[z].routerId == 0 && nb[z].alive {
      var i := NeighbourIndex(nb, 0);
      assert !(z < i) && !(i < z);
    }
  }

  lemma {:induction false} AliveAre(nb: seq<Neighbour>)
    ensures AliveCount(nb) == |set k | 0 <= k < |nb| && nb[k].alive|
  {
    var s := set k | 0 <= k < |nb| && nb[k].alive;
    if nb == [] {
      assert s == {};
    } else {
      var l := |nb| - 1;
      AliveAre(nb[..l]);
      var s' := set k | 0 <= k < l && nb[..l][k].alive;
      assert s == s' + if nb[l].alive then {l} else {};
    }
  }

  lemma AdvertWritten(p: seq<byte>, advs: seq<Advert>, n: nat, k: nat)
    requires |p| == 66 + 12 * n && k < n <= |advs| && p[66..] == EncodeAdverts(advs)[..12 * n]
    ensures IsAdvertAt(p, k, advs[k])
  {
    hide EncodeAdverts, EncodeAdvert, Put32;
    EncodedAt(advs, k);
    SliceOfRest(p, EncodeAdverts(advs), n, k);
    AdvertIs(advs[k]);
    AdvertOctets(p, 66 + 12 * k, advs[k]);
  }

  lemma AdvertIs(a: Advert)
    ensures EncodeAdvert(a) == Put32(a.subnet) + Put32(a.mask) + Put32(a.rid)
  {
  }

  lemma SliceOfRest(p: seq<byte>, e: seq<byte>, n: nat, k: nat)
    requires |p| == 66 + 12 * n && k < n && 12 * n <= |e| && p[66..] == e[..12 * n]
    ensures p[66 + 12 * k..66 + 12 * k + 12] == e[12 * k..12 * k + 12]
  {
    var a, b := p[66 + 12 * k..66 + 12 * k + 12], e[12 * k..12 * k + 12];
    forall i | 0 <= i < 12 ensures a[i] == b[i] {
      assert a[i] == p[66..][12 * k + i] == e[..12 * n][12 * k + i];
    }
  }

  lemma AdvertOctets(p: seq<byte>, at: nat, a: Advert)
    requires at + 12 <= |p| && p[at..at + 12] == Put32(a.subnet) + Put32(a.mask) + Put32(a.rid)
    ensures AddressAt(p, at, a.subnet) && AddressAt(p, at + 4, a.mask) && AddressAt(p, at + 8, a.rid)
  {
    var q := p[at..at + 12];
    Put32Octets(a.subnet);
    Put32Octets(a.mask);
    Put32Octets(a.rid);
    hide Put32;
    SliceOfSlice(p, at, 12, 0, 4);
    SliceOfSlice(p, at, 12, 4, 8);
    SliceOfSlice(p, at, 12, 8, 12);
    AddressMoved(Put32(a.subnet), 0, p, at, a.subnet);
    AddressMoved(Put32(a.mask), 0, p, at + 4, a.mask);
    AddressMoved(Put32(a.rid), 0, p, at + 8, a.rid);
  }

  /**
    The update on the wire, octet by octet: headers with the addresses of the interface it goes out
    on, a checksum that verifies, and the first advertisements, as many as there are live records.
  */
  lemma LsuOctets(rid: Addr, nb: seq<Neighbour>, ifs: seq<Interface>, number: nat, i: Interface)
    requires |i.mac| == 6 && |nb| == |ifs| && nb != []
    ensures var p, n := LsuPacket(rid, nb, ifs, number, i), |set k | 0 <= k < |nb| && nb[k].alive|;
      && n <= |ifs| && |p| == 66 + 12 * n && OnesSum(p[14..], 10) == 0xFFFF
      && NetworkHeaders(p, i.mac, i.ip, |p|) && UpdateHeaders(p, rid, |p|, number, |ifs|)
      && AdvertsAt(p, Adverts(nb, ifs), n)
  {
    AliveAre(nb);
    hide LsuPacket, Headers, EncodeAdverts, Adverts, AliveCount, NetworkHeaders, UpdateHeaders, OnesSum, AdvertsAt;
    LsuHeaders(rid, nb, ifs, number, i);
    LsuAdverts(LsuPacket(rid, nb, ifs, number, i), Adverts(nb, ifs), AliveCount(nb));
  }

  lemma LsuHeaders(rid: Addr, nb: seq<Neighbour>, ifs: seq<Interface>, number: nat, i: Interface)
    requires |i.mac| == 6 && |nb| == |ifs| && nb != []
    ensures var p, n := LsuPacket(rid, nb, ifs, number, i), AliveCount(nb);
      && |p| == 66 + 12 * n && OnesSum(p[14..], 10) == 0xFFFF
      && NetworkHeaders(p, i.mac, i.ip, |p|) && UpdateHeaders(p, rid, |p|, number, |ifs|)
      && p[66..] == EncodeAdverts(Adverts(nb, ifs))[..12 * n]
  {
    hide LsuPacket, Headers, EncodeAdverts, Adverts, AliveCount, NetworkHeaders, UpdateHeaders, OnesSum;
    var h, p := Headers(rid, i, number, |ifs|, AliveCount(nb)), LsuPacket(rid, nb, ifs, number, i);
    LsuPutTogether(rid, nb, ifs, number, i, h);
    LsuSum(rid, nb, ifs, number, i, 10);
    HeadersOctets(rid, i, number, |ifs|, AliveCount(nb));
    SameHeaders(h, p, i.mac, i.ip, rid, |p|, number, |ifs|);
  }

  lemma LsuAdverts(p: seq<byte>, advs: seq<Advert>, n: nat)
    requires |p| == 66 + 12 * n && n <= |advs| && p[66..] == EncodeAdverts(advs)[..12 * n]
    ensures AdvertsAt(p, advs, n)
  {
    hide EncodeAdverts, IsAdvertAt;
    forall k | 0 <= k < n ensures IsAdvertAt(p, k, advs[k]) { AdvertWritten(p, advs, n, k); }
  }

  lemma LsuSum(rid: Addr, nb: seq<Neighbour>, ifs: seq<Interface>, number: nat, i: Interface, words: nat)
    requires |i.mac| == 6 && |nb| == |ifs| && nb != [] && words == 10
    ensures var p := LsuPacket(rid, nb, ifs, number, i); |p| >= 66 && OnesSum(p[14..], words) == 0xFFFF
  {
    var body := EncodeAdverts(Adverts(nb, ifs))[..12 * AliveCount(nb)];
    var h := Headers(rid, i, number, |ifs|, AliveCount(nb));
    LsuIs(rid, nb, ifs, number, i, h, body);
    hide LsuPacket, IpChecksummed, Headers, EncodeAdverts, Adverts, AliveCount, OnesSum;
    IpChecksummedVerifies(h + body, 14);
  }

  lemma LsuPutTogether(rid: Addr, nb: seq<Neighbour>, ifs: seq<Interface>, number: nat, i: Interface, h: seq<byte>)
    requires |i.mac| == 6 && |nb| == |ifs| && nb != [] && h == Headers(rid, i, number, |ifs|, AliveCount(nb))
    ensures var p, n := LsuPacket(rid, nb, ifs, number, i), AliveCount(nb);
      && |p| == 66 + 12 * n
      && (forall k :: 0 <= k < 66 && k != 24 && k != 25 ==> p[k] == h[k])
      && p[66..] == EncodeAdverts(Adverts(nb, ifs))[..12 * n]
  {
    var body := EncodeAdverts(Adverts(nb, ifs))[..12 * AliveCount(nb)];
    LsuIs(rid, nb, ifs, number, i, h, body);
    hide LsuPacket, IpChecksummed, Headers, EncodeAdverts, Adverts, AliveCount;
    ChecksumElsewhere(h + body, 14);
    Sealed(h, body, LsuPacket(rid, nb, ifs, number, i));
  }

  lemma LsuIs(rid: Addr, nb: seq<Neighbour>, ifs: seq<Interface>, number: nat, i: Interface,
              h: seq<byte>, body: seq<byte>)
    requires |i.mac| == 6 && |nb| == |ifs| && nb != [] && h == Headers(rid, i, number, |ifs|, AliveCount(nb))
    requires body == EncodeAdverts(Adverts(nb, ifs))[..12 * AliveCount(nb)]
    ensures (h + body)[14] == 0x45 && LsuPacket(rid, nb, ifs, number, i) == IpChecksummed(h + body, 14)
  {
    hide Headers, EncodeAdverts, Adverts, AliveCount, IpChecksummed;
  }

  lemma Sealed(h: seq<byte>, body: seq<byte>, p: seq<byte>)
    requires |h| == 66 && |p| == 66 + |body|
    requires forall k :: 0 <= k < |p| && k != 24 && k != 25 ==> p[k] == (h + body)[k]
    ensures p[66..] == body && forall k :: 0 <= k < 66 && k != 24 && k != 25 ==> p[k] == h[k]
  {
  }

  // ----- fields read ---------------------------------------------------------------------

  /** What the handler takes a packet to say, in the octets it looks at. */
  lemma DecodedOctets(p: seq<byte>, count: Addr)
    requires AddressAt(p, 62, count)
    ensures Decodable(p) <==> 66 + 12 * count <= |p|
    ensures Decodable(p) ==>
              var u := Decode(p);
              && AddressAt(p, 38, u.origin) && NumberAt(p, 58, u.seqNbr) && u.seqNbr < 0x1_0000
              && |u.adverts| == count && AdvertsAt(p, u.adverts, count)
  {
    if Decodable(p) {
      forall k | 0 <= k < count ensures IsAdvertAt(p, k, Decode(p).adverts[k]) {
        assert Decode(p).adverts[k] == AdvertAt(p, k);
      }
    }
  }

  // ----- copies passed on ----------------------------------------------------------------

  /** The copy of `p` that pass `j` sends on interface `i`: its source address, time-to-live `j` less in eight bits. */
  ghost predicate IsPass(p: seq<byte>, i: Interface, j: nat, f: Frame) {
    && f.iface == i.name && 66 <= |p| == |f.bytes| && f.bytes[..6] == p[..6] && f.bytes[6..12] == i.mac
    && f.bytes[61] == (p[61] as int - j) % 256 && forall k :: 12 <= k < |p| && k != 61 ==> f.bytes[k] == p[k]
  }

  ghost predicate OnePass(p: seq<byte>, ifs: seq<Interface>, incoming: string, j: nat, f: Frame) {
    exists i :: 0 <= i < |ifs| && ifs[i].name != incoming && IsPass(p, ifs[i], j, f)
  }

  lemma PassIs(p: seq<byte>, i: Interface, j: nat, f: Frame)
    requires |p| >= 66 && |i.mac| == 6
    ensures f == Frame(i.name, WithSource(TtlLowered(p, j), i.mac)) <==> IsPass(p, i, j, f)
  {
    var q := WithSource(TtlLowered(p, j), i.mac);
    if IsPass(p, i, j, f) {
      assert f.bytes[..6] == q[..6] && f.bytes[6..12] == q[6..12];
      forall k | 0 <= k < |p| ensures f.bytes[k] == q[k] {
        assert k < 6 ==> f.bytes[k] == f.bytes[..6][k] && q[k] == q[..6][k];
        assert 6 <= k < 12 ==> f.bytes[k] == f.bytes[6..12][k - 6] && q[k] == q[6..12][k - 6];
      }
    }
  }

  lemma {:induction false} OnePassExactly(p: seq<byte>, ifs: seq<Interface>, incoming: string, j: nat, f: Frame)
    requires |p| >= 66 && MacsOk(ifs)
    ensures f in OnOthers(TtlLowered(p, j), ifs, incoming) <==> OnePass(p, ifs, incoming, j, f)
  {
    assert !OnePass(p, [], incoming, j, f);
    hide IsPass, OnePass, WithSource, TtlLowered;
    if ifs != [] {
      var l := |ifs| - 1;
      OnePassExactly(p, ifs[..l], incoming, j, f);
      PassIs(p, ifs[l], j, f);
      OnePassNext(p, ifs, incoming, j, f);
    }
  }

  lemma OnePassNext(p: seq<byte>, ifs: seq<Interface>, incoming: string, j: nat, f: Frame)
    requires ifs != []
    ensures var l := |ifs| - 1;
      OnePass(p, ifs, incoming, j, f)
      <==> OnePass(p, ifs[..l], incoming, j, f) || (ifs[l].name != incoming && IsPass(p, ifs[l], j, f))
  {
    hide IsPass;
    var l := |ifs| - 1;
    if i :| 0 <= i < l && ifs[..l][i].name != incoming && IsPass(p, ifs[..l][i], j, f) {
      assert ifs[i] == ifs[..l][i];
    }
    if i :| 0 <= i < |ifs| && ifs[i].name != incoming && IsPass(p, ifs[i], j, f) {
      assert i < l ==> ifs[i] == ifs[..l][i];
    }
  }

  /** An accepted update with `k` advertisements goes out in `k` passes, on each of the other interfaces each time. */
  lemma {:induction false} PassesExactly(p: seq<byte>, ifs: seq<Interface>, incoming: string, k: nat, f: Frame)
    requires |p| >= 66 && MacsOk(ifs)
    ensures f in Forwards(p, ifs, incoming, k) <==> exists j :: 1 <= j <= k && OnePass(p, ifs, incoming, j, f)
  {
    hide OnePass, OnOthers, TtlLowered;
    if k > 0 {
      PassesExactly(p, ifs, incoming, k - 1, f);
      OnePassExactly(p, ifs, incoming, k, f);
    }
  }
}
