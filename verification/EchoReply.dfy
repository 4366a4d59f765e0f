/** Answering an ICMP echo request in place. */
module EchoReplies {
  import opened Words
  import opened Checksum
  import opened ForwardingRules

  const ECHO_REQUEST: byte := 8
  const ECHO_REPLY: byte := 0

  /** Start of the ICMP message. */
  function IcmpAt(p: seq<byte>): nat
    requires |p| > IP_AT
  {
    IP_AT + 4 * (p[IP_AT] % 16)
  }

  /** Room for the IP header and for the ICMP fields that are rewritten. */
  predicate HasIcmp(p: seq<byte>) {
    HasIpHeader(p) && IcmpAt(p) + 4 <= |p|
  }

  predicate IsEchoRequest(p: seq<byte>)
    requires HasIcmp(p)
  {
    p[IcmpAt(p)] == ECHO_REQUEST && p[IP_TTL_AT] > 1
  }

  /** What is answered: ICMP type 8 behind the IP header, and a time-to-live above 1. The protocol is not looked at. */
  lemma EchoRequestExactly(p: seq<byte>)
    requires HasIcmp(p)
    ensures IcmpAt(p) == 14 + 4 * (p[14] % 16)
    ensures IsEchoRequest(p) <==> p[14 + 4 * (p[14] % 16)] == 8 && p[22] > 1
  {
  }

  /** Hardware and IP addresses exchanged. */
  function Turned(p: seq<byte>): (r: seq<byte>)
    requires |p| >= IP_AT + 20
    ensures |r| == |p|
  {
    p[6..12] + p[..6] + [8, 0] + p[14..IP_SRC_AT] + p[IP_DST_AT..34] + p[IP_SRC_AT..IP_DST_AT] + p[34..]
  }

  function PartlyExchanged(q: seq<byte>, at: nat, n: nat, i: nat): seq<byte>
    requires i <= n && at + 2 * n <= |q|
  {
    q[..at] + q[at + n..at + n + i] + q[at + i..at + n] + q[at..at + i] + q[at + n + i..]
  }

  function Exchanged(q: seq<byte>, at: nat, n: nat): seq<byte>
    requires at + 2 * n <= |q|
  {
    PartlyExchanged(q, at, n, n)
  }

  lemma ExchangeStarts(q: seq<byte>, at: nat, n: nat)
    requires at + 2 * n <= |q|
    ensures PartlyExchanged(q, at, n, 0) == q
  {
  }

  lemma ExchangeNext(q: seq<byte>, at: nat, n: nat, i: nat)
    requires i < n && at + 2 * n <= |q|
    ensures var r := PartlyExchanged(q, at, n, i);
      && |r| == |q|
      && r[at + i := r[at + n + i]][at + n + i := r[at + i]] == PartlyExchanged(q, at, n, i + 1)
  {
  }

  lemma TurnedIs(p: seq<byte>)
    requires |p| >= IP_AT + 20
    ensures |Exchanged(p, 0, 6)| == |p|
    ensures Exchanged(Exchanged(p, 0, 6)[12 := 8][13 := 0], IP_SRC_AT, 4) == Turned(p)
  {
  }

  /** The message as a reply with a zero checksum. */
  function Cleared(m: seq<byte>): (r: seq<byte>)
    requires |m| >= 4
    ensures |r| == |m|
  {
    m[0 := ECHO_REPLY][2 := 0][3 := 0]
  }

  function Signed(m: seq<byte>): (r: seq<byte>)
    requires |m| >= 4
    ensures |r| == |m|
  {
    StoreWord(m, 1, 0xFFFF - TwoFolds(Sum(m, |m| / 2)))
  }

  function EchoReplied(p: seq<byte>): (r: seq<byte>)
    requires HasIcmp(p)
    ensures |r| == |p|
  {
    var q := Turned(p);
    q[..IcmpAt(p)] + Signed(Cleared(q[IcmpAt(p)..]))
  }

  lemma TurnedAt(p: seq<byte>)
    requires |p| >= 34
    ensures var r := Turned(p);
      && r[..6] == p[6..12] && r[6..12] == p[..6] && r[12] == 8 && r[13] == 0
      && (forall i :: IP_SRC_AT <= i < IP_DST_AT ==> r[i] == p[i + 4])
      && (forall i :: IP_DST_AT <= i < 34 ==> r[i] == p[i - 4])
      && (forall i :: 14 <= i < IP_SRC_AT || 34 <= i < |p| ==> r[i] == p[i])
  {
  }

  /** The addresses are exchanged, the request has become a reply, all else but the checksum is unchanged. */
  lemma EchoFields(p: seq<byte>)
    requires HasIcmp(p) && p[IP_AT] % 16 >= 5
    ensures var r, at := EchoReplied(p), IcmpAt(p);
      && r[..6] == p[6..12] && r[6..12] == p[..6] && r[12] == 8 && r[13] == 0
      && r[26..30] == p[30..34] && r[30..34] == p[26..30]
      && r[at] == 0 && r[at + 1] == p[at + 1] && r[at + 4..] == p[at + 4..]
      && r[14..26] == p[14..26] && r[34..at] == p[34..at]
  {
    TurnedAt(p);
    hide Turned;
    var q, r, at := Turned(p), EchoReplied(p), IcmpAt(p);
    assert forall i :: 0 <= i < at ==> r[i] == q[i];
    assert r[..6] == q[..6] && r[6..12] == q[6..12];
    MessageOctets(q, at);
    hide EchoReplied;
    assert forall i :: at + 4 <= i < |p| ==> r[i] == p[i];
  }

  lemma MessageOctets(q: seq<byte>, at: nat)
    requires at + 4 <= |q|
    ensures var r := q[..at] + Signed(Cleared(q[at..]));
      r[at] == ECHO_REPLY && r[at + 1] == q[at + 1] && forall i :: at + 4 <= i < |q| ==> r[i] == q[i]
  {
    hide TwoFolds, Sum;
  }

  /** The IP header checksum, not recomputed, is still the right one. */
  lemma EchoKeepsHeaderSum(p: seq<byte>)
    requires HasIcmp(p) && p[IP_AT] % 16 >= 5
    ensures OnesSum(EchoReplied(p)[IP_AT..], 2 * (p[IP_AT] % 16)) == OnesSum(p[IP_AT..], 2 * (p[IP_AT] % 16))
  {
    var n: nat := 2 * (p[IP_AT] % 16);
    var h, k := p[IP_AT..], EchoReplied(p)[IP_AT..];
    HeaderOctets(p);
    hide EchoReplied, Sum, OnesSum;
    ExchangedSum(h, k, n);
    OnesSumIsResidue(h, n);
    OnesSumIsResidue(k, n);
  }

  lemma HeaderOctets(p: seq<byte>)
    requires HasIcmp(p) && p[IP_AT] % 16 >= 5
    ensures var h, k, n := p[IP_AT..], EchoReplied(p)[IP_AT..], 4 * (p[IP_AT] % 16);
      k[..n] == h[..12] + h[16..20] + h[12..16] + h[20..n]
  {
    hide Signed, Cleared;
    var q, at := Turned(p), IcmpAt(p);
    assert EchoReplied(p)[..at] == q[..at];
    assert EchoReplied(p)[IP_AT..][..at - IP_AT] == q[..at][IP_AT..];
    TurnedOctets(p, at);
  }

  lemma TurnedOctets(p: seq<byte>, at: nat)
    requires 34 <= at <= |p|
    ensures Turned(p)[..at][IP_AT..]
         == p[IP_AT..][..12] + p[IP_AT..][16..20] + p[IP_AT..][12..16] + p[IP_AT..][20..at - IP_AT]
  {
    TurnedAt(p);
    hide Turned;
    var h, a := p[IP_AT..], Turned(p)[..at][IP_AT..];
    forall i | 0 <= i < at - IP_AT ensures a[i] == (h[..12] + h[16..20] + h[12..16] + h[20..at - IP_AT])[i] {
      assert a[i] == Turned(p)[i + IP_AT];
      if i < 12 {
        assert a[i] == h[i];
      } else if i < 16 {
        assert a[i] == p[i + IP_AT + 4] == h[16..20][i - 12];
      } else if i < 20 {
        assert a[i] == p[i + IP_AT - 4] == h[12..16][i - 16];
      } else {
        assert a[i] == h[i] == h[20..at - IP_AT][i - 20];
      }
    }
  }

  lemma {:induction false} ExchangedSum(h: seq<byte>, k: seq<byte>, n: nat)
    requires 10 <= n && 2 * n <= |h| && 2 * n <= |k|
    requires k[..2 * n] == h[..12] + h[16..20] + h[12..16] + h[20..2 * n]
    ensures Sum(k, n) == Sum(h, n)
  {
    if n == 10 {
      SumFrom(h, k, 6);
      forall i | 6 <= i < 10 ensures WordAt(k, i) == WordAt(h, if i < 8 then i + 2 else i - 2) {
        assert k[2 * i] == k[..20][2 * i] && k[2 * i + 1] == k[..20][2 * i + 1];
      }
      FourWords(h);
      FourWords(k);
    } else {
      assert k[..2 * n - 2] == k[..2 * n][..2 * n - 2];
      ExchangedSum(h, k, n - 1);
      assert k[2 * n - 2] == k[..2 * n][2 * n - 2] && k[2 * n - 1] == k[..2 * n][2 * n - 1];
    }
  }

  lemma {:induction false} SumFrom(h: seq<byte>, k: seq<byte>, n: nat)
    requires 2 * n <= |h| && 2 * n <= |k| && k[..2 * n] == h[..2 * n]
    ensures Sum(k, n) == Sum(h, n)
  {
    if n > 0 {
      assert k[..2 * n - 2] == k[..2 * n][..2 * n - 2] && h[..2 * n - 2] == h[..2 * n][..2 * n - 2];
      SumFrom(h, k, n - 1);
      assert k[2 * n - 2] == k[..2 * n][2 * n - 2] && k[2 * n - 1] == k[..2 * n][2 * n - 1];
    }
  }

  lemma FourWords(h: seq<byte>)
    requires 20 <= |h|
    ensures Sum(h, 10) == Sum(h, 6) + WordAt(h, 6) + WordAt(h, 7) + WordAt(h, 8) + WordAt(h, 9)
  {
    assert Sum(h, 8) == Sum(h, 7) + WordAt(h, 7);
    assert Sum(h, 9) == Sum(h, 8) + WordAt(h, 8);
  }

  /**
    The ICMP checksum of the reply verifies exactly when the message has even length or ends in
    an octet 0: the routine leaves the last octet of an odd message out.
  */
  lemma EchoVerifiesExactly(p: seq<byte>)
    requires HasIcmp(p) && (|p| - IcmpAt(p)) / 2 <= 65537
    ensures OnesSumOf(EchoReplied(p)[IcmpAt(p)..]) == 0xFFFF
       <==> (|p| - IcmpAt(p)) % 2 == 0 || EchoReplied(p)[|p| - 1] == 0
  {
    var at, r := IcmpAt(p), EchoReplied(p);
    var m := Cleared(Turned(p)[at..]);
    var n := |m| / 2;
    assert r[at..] == Signed(m);
    assert WordAt(m, 1) == 0;
    AccumulateIsOnesSum(m, n);
    StoredChecksumVerifies(m, 1, n);
    if |m| % 2 == 1 {
      assert r[|p| - 1] == r[at..][|m| - 1];
      OnesAddChanges(0xFFFF, r[|p| - 1]);
    }
  }
}
