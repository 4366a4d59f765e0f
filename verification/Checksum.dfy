/**
  The two Internet-checksum routines of the router against the one's-complement sum of
  section 1 of RFC 1071. Buffers are octets; 16-bit words are read in host (little-endian) order.
*/
module Checksum {
  import opened Words

  // ----- the reference -------------------------------------------------------------------

  function WordAt(b: seq<byte>, k: nat): (w: nat)
    requires 2 * k + 1 < |b|
    ensures w <= 0xFFFF
  {
    b[2 * k] as int + 256 * (b[2 * k + 1] as int)
  }

  /** One's-complement addition of 16-bit values: the carry out goes back in at the bottom. */
  function OnesAdd(a: nat, b: nat): nat {
    if a + b > 0xFFFF then a + b - 0xFFFF else a + b
  }

  /** The one's-complement sum of the first `n` words. */
  function OnesSum(b: seq<byte>, n: nat): (r: nat)
    requires 2 * n <= |b|
    ensures r <= 0xFFFF
  {
    if n == 0 then 0 else OnesAdd(OnesSum(b, n - 1), WordAt(b, n - 1))
  }

  /** The one's-complement sum of a whole buffer; an odd last octet counts as a low octet. */
  function OnesSumOf(b: seq<byte>): (r: nat)
    ensures r <= 0xFFFF
  {
    var s := OnesSum(b, |b| / 2);
    if |b| % 2 == 1 then OnesAdd(s, b[|b| - 1]) else s
  }

  // ----- plain sums and their 16-bit residue ---------------------------------------------

  function Sum(b: seq<byte>, n: nat): (r: nat)
    requires 2 * n <= |b|
    ensures r <= 0xFFFF * n
  {
    if n == 0 then 0 else Sum(b, n - 1) + WordAt(b, n - 1)
  }

  /** The 16-bit value a plain sum folds to: 0 stays 0, anything else lands in 1..0xFFFF. */
  function Residue(s: nat): (r: nat)
    ensures r <= 0xFFFF
  {
    if s == 0 then 0 else (s - 1) % 0xFFFF + 1
  }

  /** The high half added to the low half. */
  function Fold(s: nat): nat {
    s % 0x10000 + s / 0x10000
  }

  lemma ResidueShift(s: nat, q: nat)
    requires s > 0
    ensures Residue(s + 0xFFFF * q) == Residue(s)
  {
    ModShift(s - 1, q);
  }

  lemma {:induction false} ModShift(x: nat, q: nat)
    ensures (x + 0xFFFF * q) % 0xFFFF == x % 0xFFFF
  {
    if q > 0 {
      ModShift(x, q - 1);
      assert x + 0xFFFF * q == (x + 0xFFFF * (q - 1)) + 0xFFFF;
    }
  }

  lemma FoldKeepsResidue(s: nat)
    ensures Residue(Fold(s)) == Residue(s)
  {
    if s > 0 {
      assert s == Fold(s) + 0xFFFF * (s / 0x10000);
      ResidueShift(Fold(s), s / 0x10000);
    }
  }

  lemma ResidueAdd(s: nat, w: nat)
    requires w <= 0xFFFF
    ensures Residue(s + w) == OnesAdd(Residue(s), w)
  {
    if s > 0 {
      var r := Residue(s);
      assert s == r + 0xFFFF * ((s - 1) / 0xFFFF);
      ResidueShift(r + w, (s - 1) / 0xFFFF);
    }
  }

  lemma {:induction false} OnesSumIsResidue(b: seq<byte>, n: nat)
    requires 2 * n <= |b|
    ensures OnesSum(b, n) == Residue(Sum(b, n))
  {
    if n > 0 {
      OnesSumIsResidue(b, n - 1);
      ResidueAdd(Sum(b, n - 1), WordAt(b, n - 1));
    }
  }

  // ----- the accumulate-then-two-folds routine -------------------------------------------

  /** The 32-bit accumulator wraps; the second fold keeps the low half in place. */
  function TwoFolds(s: nat): (r: nat)
    ensures r <= 0xFFFF
  {
    var s1 := Fold(s % 0x1_0000_0000);
    (s1 + s1 / 0x10000) % 0x10000
  }

  lemma SecondFold(s1: nat)
    requires s1 <= 0x1FFFE
    ensures (s1 + s1 / 0x10000) % 0x10000 == Residue(s1)
  {
    if s1 < 0x10000 {
      assert s1 / 0x10000 == 0;
    } else {
      assert s1 / 0x10000 == 1;
      assert (s1 + 1) % 0x10000 == s1 - 0xFFFF;
      ResidueShift(s1 - 0xFFFF, 1);
    }
  }

  lemma FoldBound(s: nat)
    requires s < 0x1_0000_0000
    ensures Fold(s) <= 0x1FFFE
  {
    assert s / 0x10000 <= 0xFFFF;
  }

  lemma TwoFoldsIsResidue(s: nat)
    requires s < 0x1_0000_0000
    ensures TwoFolds(s) == Residue(s)
  {
    FoldKeepsResidue(s);
    FoldBound(s);
    SecondFold(Fold(s));
    assert s % 0x1_0000_0000 == s;
  }

  lemma WrapAdd(x: nat, w: nat)
    ensures (x % 0x1_0000_0000 + w) % 0x1_0000_0000 == (x + w) % 0x1_0000_0000
  {
  }

  method Accumulate(b: seq<byte>, words: nat) returns (sum: nat)
    requires 2 * words <= |b|
    ensures sum == 0xFFFF - TwoFolds(Sum(b, words))
  {
    hide WordAt;
    sum := 0;
    var i := 0;
    while i < words
      invariant 0 <= i <= words
      invariant sum == Sum(b, i) % 0x1_0000_0000
    {
      WrapAdd(Sum(b, i), WordAt(b, i));
      sum := (sum + WordAt(b, i)) % 0x1_0000_0000;
      i := i + 1;
    }
    hide Sum;
    sum := sum / 0x10000 + sum % 0x10000;
    assert sum == Fold(Sum(b, i) % 0x1_0000_0000);
    sum := sum + sum / 0x10000;
    sum := 0xFFFF - sum % 0x10000;
  }

  /** With at most 65537 words the accumulator cannot wrap: the result is the complemented sum. */
  lemma AccumulateIsOnesSum(b: seq<byte>, n: nat)
    requires 2 * n <= |b| && n <= 65537
    ensures TwoFolds(Sum(b, n)) == OnesSum(b, n)
  {
    TwoFoldsIsResidue(Sum(b, n));
    OnesSumIsResidue(b, n);
  }

  /** `ones` words of all ones, then zeros. */
  function OnesThenZeros(ones: nat, n: nat): (b: seq<byte>)
    requires ones <= n
    ensures |b| == 2 * n
  {
    seq(2 * ones, _ => 0xFF) + seq(2 * (n - ones), _ => 0)
  }

  lemma {:induction false} SumOfOnesThenZeros(ones: nat, n: nat, k: nat)
    requires ones <= n && k <= n
    ensures Sum(OnesThenZeros(ones, n), k) == 0xFFFF * if k <= ones then k else ones
  {
    if k > 0 {
      SumOfOnesThenZeros(ones, n, k - 1);
      var b := OnesThenZeros(ones, n);
      assert WordAt(b, k - 1) == if k <= ones then 0xFFFF else 0;
    }
  }

  /** With 65538 words of ones and zeros behind them the wrapped result is wrong. */
  lemma LongBufferFails(n: nat)
    requires n >= 65538
    ensures var b := OnesThenZeros(65538, n); TwoFolds(Sum(b, n)) != OnesSum(b, n)
  {
    SumOfOnesThenZeros(65538, n, n);
    OnesSumIsResidue(OnesThenZeros(65538, n), n);
    hide OnesThenZeros, Sum;
    ResidueShift(0xFFFF, 65537);
  }

  /** The routine is right on every buffer of `n` words if and only if `n` is at most 65537. */
  lemma WordBoundExactly(n: nat)
    ensures (forall b: seq<byte> :: 2 * n <= |b| ==> TwoFolds(Sum(b, n)) == OnesSum(b, n)) <==> n <= 65537
  {
    hide Sum, OnesSum, TwoFolds, OnesThenZeros;
    if n <= 65537 {
      forall b: seq<byte> | 2 * n <= |b| ensures TwoFolds(Sum(b, n)) == OnesSum(b, n) { AccumulateIsOnesSum(b, n); }
    } else {
      LongBufferFails(n);
    }
  }

  // ----- the fold-when-bit-31-is-set routine ---------------------------------------------

  /** The loop body: add one word, fold if bit 31 is now set. */
  lemma GuardedStep(sum: nat, w: nat)
    requires sum < 0x8000_0000 && w <= 0xFFFF
    ensures sum + w >= 0x8000_0000 <==> (sum + w) / 0x8000_0000 % 2 == 1
    ensures sum + w >= 0x8000_0000 ==> Fold(sum + w) < 0x8000_0000
    ensures Residue(Fold(sum + w)) == Residue(sum + w) == OnesAdd(Residue(sum), w)
  {
    ResidueAdd(sum, w);
    FoldKeepsResidue(sum + w);
    assert (sum + w) / 0x8000_0000 <= 1;
  }

  method GuardedFold(hdr: seq<byte>) returns (r: nat)
    ensures r == 0xFFFF - OnesSumOf(hdr)
  {
    hide WordAt, Fold, Residue;
    ResidueOfZero();
    var sum: nat := 0;
    var len, k := |hdr|, 0;
    while len > 1
      invariant 0 <= len && 2 * k + len == |hdr|
      invariant sum < 0x8000_0000
      invariant Residue(sum) == OnesSum(hdr, k)
    {
      GuardedStep(sum, WordAt(hdr, k));
      sum := sum + WordAt(hdr, k);
      if sum / 0x8000_0000 % 2 == 1 {
        sum := Fold(sum);
      }
      k := k + 1;
      len := len - 2;
    }
    assert k == |hdr| / 2;
    if len > 0 {
      ResidueAdd(sum, hdr[2 * k]);
      sum := sum + hdr[2 * k] as int;
    }
    r := FoldedAway(sum);
  }

  lemma ResidueOfZero()
    ensures Residue(0) == 0
  {
  }

  /** The closing loop: high halves are added in until none is left. */
  method FoldedAway(total: nat) returns (r: nat)
    ensures r == 0xFFFF - Residue(total)
  {
    var sum := total;
    while sum / 0x10000 != 0
      invariant Residue(sum) == Residue(total)
      decreases sum
    {
      FoldKeepsResidue(sum);
      assert Fold(sum) == sum - 0xFFFF * (sum / 0x10000);
      sum := Fold(sum);
    }
    r := 0xFFFF - sum % 0x10000;
  }

  lemma OnesAddChanges(s: nat, w: nat)
    requires s <= 0xFFFF && w < 256
    ensures OnesAdd(s, w) == s <==> w == 0
  {
  }

  /** The routines agree on a buffer of at most 65537 words exactly when no odd octet is lost. */
  lemma ChecksumsAgreeExactly(b: seq<byte>)
    requires |b| / 2 <= 65537
    ensures TwoFolds(Sum(b, |b| / 2)) == OnesSumOf(b) <==> |b| % 2 == 0 || b[|b| - 1] == 0
  {
    var n := |b| / 2;
    AccumulateIsOnesSum(b, n);
    if |b| % 2 == 1 { OnesAddChanges(OnesSum(b, n), b[|b| - 1]); }
  }

  // ----- storing the checksum ------------------------------------------------------------

  function StoreWord(b: seq<byte>, k: nat, w: nat): seq<byte>
    requires 2 * k + 1 < |b| && w <= 0xFFFF
  {
    b[2 * k := w % 256][2 * k + 1 := w / 256]
  }

  lemma {:induction false} StoreWordSum(b: seq<byte>, k: nat, w: nat, n: nat)
    requires 2 * k + 1 < |b| && w <= 0xFFFF && 2 * n <= |b|
    ensures Sum(StoreWord(b, k, w), n) == Sum(b, n) + if k < n then w - WordAt(b, k) else 0
  {
    if n > 0 {
      StoreWordSum(b, k, w, n - 1);
      var c := StoreWord(b, k, w);
      assert n - 1 != k ==> WordAt(c, n - 1) == WordAt(b, n - 1);
      assert n - 1 == k ==> WordAt(c, n - 1) == w;
    }
  }

  /** Storing the complement of the sum in a zero field makes the whole buffer sum to 0xFFFF. */
  lemma StoredChecksumVerifies(b: seq<byte>, k: nat, n: nat)
    requires k < n && 2 * n <= |b| && WordAt(b, k) == 0
    ensures OnesSum(StoreWord(b, k, 0xFFFF - OnesSum(b, n)), n) == 0xFFFF
  {
    var w := 0xFFFF - OnesSum(b, n);
    OnesSumIsResidue(b, n);
    OnesSumIsResidue(StoreWord(b, k, w), n);
    StoreWordSum(b, k, w, n);
    ComplementFills(Sum(b, n));
  }

  lemma ComplementFills(s: nat)
    ensures Residue(s + (0xFFFF - Residue(s))) == 0xFFFF
  {
    ResidueAdd(s, 0xFFFF - Residue(s));
  }

  // ----- header checksums in place -------------------------------------------------------

  /** The checksum word zeroed, then set to the complemented sum of the first `words` words. */
  function ChecksumStored(h: seq<byte>, words: nat): (r: seq<byte>)
    requires 20 <= |h| && 2 * words <= |h|
    ensures |r| == |h|
  {
    var z := StoreWord(h, 5, 0);
    StoreWord(z, 5, 0xFFFF - TwoFolds(Sum(z, words)))
  }

  /** Recomputing the checksum word (octets 10 and 11) of the IP header starting at `off`. */
  function IpChecksummed(b: seq<byte>, off: nat): (r: seq<byte>)
    requires off + 20 <= |b| && off + 4 * (b[off] % 16) <= |b|
    ensures |r| == |b|
  {
    b[..off] + ChecksumStored(b[off..], 2 * (b[off] % 16))
  }

  method StoreField(buf: array<byte>, off: nat, k: nat, w: nat)
    requires off + 2 * k + 1 < buf.Length && w <= 0xFFFF
    modifies buf
    ensures buf[..off] == old(buf[..off]) && buf[off..] == StoreWord(old(buf[off..]), k, w)
    ensures buf[..] == old(buf[..off]) + StoreWord(old(buf[off..]), k, w)
  {
    buf[off + 2 * k], buf[off + 2 * k + 1] := w % 256, w / 256;
    assert buf[..] == buf[..off] + buf[off..];
  }

  method SetIpChecksum(buf: array<byte>, off: nat)
    requires off + 20 <= buf.Length && off + 4 * (buf[off] % 16) <= buf.Length
    modifies buf
    ensures buf[..] == IpChecksummed(old(buf[..]), off)
  {
    var words: nat := 2 * (buf[off] % 16);
    StoreField(buf, off, 5, 0);
    var calculatedSum := Accumulate(buf[off..], words);
    StoreField(buf, off, 5, calculatedSum);
  }

  /** A header of at least three words is left with a verifying checksum. */
  lemma IpChecksummedVerifies(b: seq<byte>, off: nat)
    requires off + 20 <= |b| && off + 4 * (b[off] % 16) <= |b| && b[off] % 16 >= 3
    ensures OnesSum(IpChecksummed(b, off)[off..], 2 * (b[off] % 16)) == 0xFFFF
  {
    var h := StoreWord(b[off..], 5, 0);
    var n := 2 * (b[off] % 16);
    assert WordAt(h, 5) == 0;
    AccumulateIsOnesSum(h, n);
    StoredChecksumVerifies(h, 5, n);
    assert IpChecksummed(b, off)[off..] == StoreWord(h, 5, 0xFFFF - OnesSum(h, n));
  }

  /** Nothing but the checksum field changes. */
  lemma ChecksumElsewhere(b: seq<byte>, off: nat)
    requires off + 20 <= |b| && off + 4 * (b[off] % 16) <= |b|
    ensures forall i :: 0 <= i < |b| && i != off + 10 && i != off + 11 ==> IpChecksummed(b, off)[i] == b[i]
  {
  }

  /** Storing the checksum of the ICMP message of `length` octets at `off`; its field is octets 2 and 3. */
  method SetIcmpChecksum(buf: array<byte>, off: nat, length: nat)
    requires off + 4 <= buf.Length && off + length <= buf.Length
    modifies buf
    ensures buf[..] == old(buf[..off])
                       + StoreWord(old(buf[off..]), 1, 0xFFFF - TwoFolds(Sum(old(buf[off..]), length / 2)))
  {
    var sum := Accumulate(buf[off..], length / 2);
    StoreField(buf, off, 1, sum);
  }
}
