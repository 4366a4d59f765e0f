/** The one-shot digest of FIPS PUB 180-1, sections 4 to 7, for messages of whole octets. */
module Sha1Spec {
  import opened Words

  /** A 32-bit word; the bit operations appear only in the definitions below. */
  datatype Word = Word(bits: bv32)

  datatype Regs = Regs(a: Word, b: Word, c: Word, d: Word, e: Word)

  // ----- sections 2 and 3: addition, and S^n(X) = (X << n) OR (X >> 32-n) ----------------

  /** Addition of words is modulo 2^32. */
  function Plus(x: Word, y: Word): Word { Word(x.bits + y.bits) }

  function S1(x: Word): Word { Word((x.bits << 1) | (x.bits >> 31)) }
  function S5(x: Word): Word { Word((x.bits << 5) | (x.bits >> 27)) }
  function S30(x: Word): Word { Word((x.bits << 30) | (x.bits >> 2)) }

  // ----- section 4: padding --------------------------------------------------------------

  /** The low `n` octets of `x`, most significant first. */
  function BigEndian(x: nat, n: nat): (r: seq<byte>)
    ensures |r| == n
  {
    if n == 0 then [] else BigEndian(x / 256, n - 1) + [x % 256]
  }

  function Zeros(n: nat): (r: seq<byte>)
    ensures |r| == n
  {
    seq(n, _ => 0)
  }

  /** The least number of zero octets that leaves room for exactly the length field. */
  function PadZeros(n: nat): nat { (119 - n % 64) % 64 }

  function PadWith(m: seq<byte>, length: seq<byte>): seq<byte> {
    m + [0x80] + Zeros(PadZeros(|m|)) + length
  }

  function Pad(m: seq<byte>): seq<byte> { PadWith(m, BigEndian(8 * |m|, 8)) }

  // ----- sections 5 and 6: functions and constants ---------------------------------------

  function Choose(b: Word, c: Word, d: Word): Word { Word((b.bits & c.bits) | (!b.bits & d.bits)) }
  function Parity(b: Word, c: Word, d: Word): Word { Word(b.bits ^ c.bits ^ d.bits) }
  function Majority(b: Word, c: Word, d: Word): Word { Word((b.bits & c.bits) | (b.bits & d.bits) | (c.bits & d.bits)) }

  function F(t: nat, b: Word, c: Word, d: Word): Word {
    if t < 20 then Choose(b, c, d)
    else if t < 40 then Parity(b, c, d)
    else if t < 60 then Majority(b, c, d)
    else Parity(b, c, d)
  }

  function K(t: nat): Word {
    if t < 20 then Word(0x5A827999)
    else if t < 40 then Word(0x6ED9EBA1)
    else if t < 60 then Word(0x8F1BBCDC)
    else Word(0xCA62C1D6)
  }

  // ----- section 7: computing the digest -------------------------------------------------

  const H0: Regs := Regs(Word(0x67452301), Word(0xEFCDAB89), Word(0x98BADCFE), Word(0x10325476), Word(0xC3D2E1F0))

  /** Four octets as a word, most significant first. */
  function Pack(b0: byte, b1: byte, b2: byte, b3: byte): Word {
    Word(((b0 as bv32) << 24) | ((b1 as bv32) << 16) | ((b2 as bv32) << 8) | (b3 as bv32))
  }

  function Expand(w3: Word, w8: Word, w14: Word, w16: Word): Word {
    S1(Word(w3.bits ^ w8.bits ^ w14.bits ^ w16.bits))
  }

  /** The first `n` words of the sequence W. */
  function WordSequence(block: seq<byte>, n: nat): (w: seq<Word>)
    requires |block| == 64
    ensures |w| == n
  {
    if n == 0 then []
    else
      var w := WordSequence(block, n - 1);
      var t := n - 1;
      w + [if t < 16 then Pack(block[4 * t], block[4 * t + 1], block[4 * t + 2], block[4 * t + 3])
           else Expand(w[t - 3], w[t - 8], w[t - 14], w[t - 16])]
  }

  /** The recurrence of section 7, item b, on any initial part of the sequence. */
  lemma {:induction false} WordSequenceAt(block: seq<byte>, n: nat, t: nat)
    requires |block| == 64 && t < n
    ensures var w := WordSequence(block, n);
      w[t] == if t < 16 then Pack(block[4 * t], block[4 * t + 1], block[4 * t + 2], block[4 * t + 3])
              else Expand(w[t - 3], w[t - 8], w[t - 14], w[t - 16])
  {
    hide Pack, Expand;
    if t < n - 1 { WordSequenceAt(block, n - 1, t); }
  }

  function Temp(t: nat, a: Word, b: Word, c: Word, d: Word, e: Word, w: Word): Word {
    Plus(Plus(Plus(Plus(S5(a), F(t, b, c, d)), e), w), K(t))
  }

  function Round(t: nat, r: Regs, w: Word): Regs {
    Regs(Temp(t, r.a, r.b, r.c, r.d, r.e, w), r.a, S30(r.b), r.c, r.d)
  }

  function Rounds(w: seq<Word>, h: Regs, t: nat): Regs
    requires t <= |w|
  {
    if t == 0 then h else Round(t - 1, Rounds(w, h, t - 1), w[t - 1])
  }

  function Compress(h: Regs, block: seq<byte>): Regs
    requires |block| == 64
  {
    var r := Rounds(WordSequence(block, 80), h, 80);
    Regs(Plus(h.a, r.a), Plus(h.b, r.b), Plus(h.c, r.c), Plus(h.d, r.d), Plus(h.e, r.e))
  }

  /** The chaining value after the whole blocks of `m`. */
  function Chain(m: seq<byte>): Regs
    decreases |m|
  {
    if |m| < 64 then H0
    else
      var q := 64 * (|m| / 64);
      Compress(Chain(m[..q - 64]), m[q - 64..q])
  }

  function Sha1(m: seq<byte>): Regs { Chain(Pad(m)) }

  /** Octets beyond the last whole block do not matter. */
  lemma ChainIgnoresRest(m: seq<byte>, n: seq<byte>)
    requires m <= n && |m| / 64 == |n| / 64
    ensures Chain(m) == Chain(n)
  {
    var q := 64 * (|m| / 64);
    if q > 0 {
      assert m[..q - 64] == n[..q - 64] && m[q - 64..q] == n[q - 64..q];
    }
  }

  /** One more whole block after whole blocks is one more compression. */
  lemma {:induction false} ChainBlock(m: seq<byte>, block: seq<byte>)
    requires |m| % 64 == 0 && |block| == 64
    ensures Chain(m + block) == Compress(Chain(m), block)
  {
    hide Compress;
    var n := m + block;
    assert 64 * (|n| / 64) == |n|;
    assert n[..|n| - 64] == m && n[|n| - 64..|n|] == block;
  }

  // ----- properties of the padding -------------------------------------------------------

  /** Whole blocks, at most two after the last full one; section 4's congruence. */
  lemma PadShape(m: seq<byte>)
    ensures |Pad(m)| % 64 == 0
    ensures |Pad(m)| == 64 * (|m| / 64) + if |m| % 64 <= 55 then 64 else 128
    ensures m <= Pad(m)
  {
  }

  /** The whole blocks of a message, and what is left of it. */
  ghost function Whole(m: seq<byte>): (r: seq<byte>)
    ensures |r| % 64 == 0 && r <= m && |r| / 64 == |m| / 64
  {
    m[..64 * (|m| / 64)]
  }

  ghost function Rest(m: seq<byte>): (r: seq<byte>)
    ensures |r| == |m| % 64 && m == Whole(m) + r
  {
    m[64 * (|m| / 64)..]
  }

  lemma PadZerosCases(n: nat)
    ensures n % 64 <= 55 ==> PadZeros(n) == 55 - n % 64
    ensures n % 64 > 55 ==> PadZeros(n) == (63 - n % 64) + 56
  {
  }

  lemma Regroup(w: seq<byte>, r: seq<byte>, a: seq<byte>, z: seq<byte>, l: seq<byte>)
    ensures (w + r) + a + z + l == w + (r + a + z + l)
  {
  }

  lemma RegroupTwo(w: seq<byte>, r: seq<byte>, a: seq<byte>, y: seq<byte>, z: seq<byte>, l: seq<byte>)
    ensures (w + r) + a + (y + z) + l == w + (r + a + y) + (z + l)
  {
  }

  /** With at most 55 octets in the last block, padding and length fit in it. */
  lemma PadInOneBlock(m: seq<byte>, l: seq<byte>)
    requires |m| % 64 <= 55
    ensures PadWith(m, l) == Whole(m) + (Rest(m) + [0x80] + Zeros(55 - |m| % 64) + l)
  {
    PadZerosCases(|m|);
    assert m == Whole(m) + Rest(m);
    Regroup(Whole(m), Rest(m), [0x80], Zeros(55 - |m| % 64), l);
  }

  /** Otherwise the zeros fill that block and 56 octets of another. */
  lemma PadInTwoBlocks(m: seq<byte>, l: seq<byte>)
    requires |m| % 64 > 55
    ensures PadWith(m, l) == Whole(m) + (Rest(m) + [0x80] + Zeros(63 - |m| % 64)) + (Zeros(56) + l)
  {
    PadZerosCases(|m|);
    assert m == Whole(m) + Rest(m);
    assert Zeros(PadZeros(|m|)) == Zeros(63 - |m| % 64) + Zeros(56);
    RegroupTwo(Whole(m), Rest(m), [0x80], Zeros(63 - |m| % 64), Zeros(56), l);
  }

  lemma ChainPaddedInOne(m: seq<byte>, l: seq<byte>)
    requires |m| % 64 <= 55 && |l| == 8
    ensures Chain(PadWith(m, l)) == Compress(Chain(m), Rest(m) + [0x80] + Zeros(55 - |m| % 64) + l)
  {
    hide Chain, Compress, Whole, Rest, PadWith;
    PadInOneBlock(m, l);
    ChainBlock(Whole(m), Rest(m) + [0x80] + Zeros(55 - |m| % 64) + l);
    ChainIgnoresRest(Whole(m), m);
  }

  lemma ChainPaddedInTwo(m: seq<byte>, l: seq<byte>)
    requires |m| % 64 > 55 && |l| == 8
    ensures Chain(PadWith(m, l))
         == Compress(Compress(Chain(m), Rest(m) + [0x80] + Zeros(63 - |m| % 64)), Zeros(56) + l)
  {
    hide Chain, Compress, Whole, Rest, PadWith;
    PadInTwoBlocks(m, l);
    ChainBlock(Whole(m), Rest(m) + [0x80] + Zeros(63 - |m| % 64));
    ChainBlock(Whole(m) + (Rest(m) + [0x80] + Zeros(63 - |m| % 64)), Zeros(56) + l);
    ChainIgnoresRest(Whole(m), m);
  }

  lemma RestGrows(m: seq<byte>, b: byte)
    ensures |Rest(m)| < 63 ==> |m + [b]| / 64 == |m| / 64 && Rest(m + [b]) == Rest(m) + [b]
    ensures |Rest(m)| == 63 ==> Rest(m + [b]) == [] && m + [b] == Whole(m) + (Rest(m) + [b])
  {
    assert m + [b] == Whole(m) + (Rest(m) + [b]);
    if |Rest(m)| < 63 {
      assert |m + [b]| / 64 == |m| / 64;
    }
  }

  /** One more octet: either the rest grows, or it becomes a whole block. */
  lemma OneMoreOctet(m: seq<byte>, b: byte)
    ensures |Rest(m)| < 63 ==> Rest(m + [b]) == Rest(m) + [b] && Chain(m + [b]) == Chain(m)
    ensures |Rest(m)| == 63 ==> Rest(m + [b]) == [] && Chain(m + [b]) == Compress(Chain(m), Rest(m) + [b])
  {
    RestGrows(m, b);
    hide Chain, Compress, Whole, Rest;
    if |Rest(m)| < 63 {
      ChainIgnoresRest(m, m + [b]);
    } else {
      ChainBlock(Whole(m), Rest(m) + [b]);
      ChainIgnoresRest(Whole(m), m);
    }
  }

  ghost function Pow256(n: nat): nat { if n == 0 then 1 else 256 * Pow256(n - 1) }

  lemma {:induction false} BigEndianInjective(x: nat, y: nat, n: nat)
    requires x < Pow256(n) && y < Pow256(n) && BigEndian(x, n) == BigEndian(y, n)
    ensures x == y
  {
    if n > 0 {
      assert BigEndian(x, n)[..n - 1] == BigEndian(x / 256, n - 1);
      assert BigEndian(y, n)[..n - 1] == BigEndian(y / 256, n - 1);
      assert BigEndian(x, n)[n - 1] == x % 256 && BigEndian(y, n)[n - 1] == y % 256;
      BigEndianInjective(x / 256, y / 256, n - 1);
    }
  }

  lemma Times256(h: nat, x: nat)
    ensures h * (256 * x) == 256 * (h * x)
  {
  }

  lemma LowOctet(p: nat, l: nat)
    ensures (256 * p + l) / 256 == p + l / 256 && (256 * p + l) % 256 == l % 256
  {
  }

  /** A 64-bit value is written as its high word followed by its low word. */
  lemma {:induction false} BigEndianSplit(h: nat, l: nat, k: nat)
    requires l < Pow256(k)
    ensures BigEndian(h * Pow256(k) + l, 4 + k) == BigEndian(h, 4) + BigEndian(l, k)
  {
    if k > 0 {
      var p := h * Pow256(k - 1);
      Times256(h, Pow256(k - 1));
      LowOctet(p, l);
      assert l / 256 < Pow256(k - 1);
      BigEndianSplit(h, l / 256, k - 1);
      assert BigEndian(h, 4) + BigEndian(l, k) == BigEndian(h, 4) + BigEndian(l / 256, k - 1) + [l % 256];
    }
  }

  /** Distinct messages have distinct padded streams. */
  lemma PadInjective(m: seq<byte>, n: seq<byte>)
    requires 8 * |m| < 0x1_0000_0000_0000_0000 && 8 * |n| < 0x1_0000_0000_0000_0000
    requires Pad(m) == Pad(n)
    ensures m == n
  {
    var p := Pad(m);
    assert p[|p| - 8..] == BigEndian(8 * |m|, 8);
    assert p[|p| - 8..] == BigEndian(8 * |n|, 8);
    assert Pow256(8) == 0x1_0000_0000_0000_0000 by {
      assert Pow256(2) == 0x10000;
      assert Pow256(4) == 0x1_0000_0000;
      assert Pow256(6) == 0x1_0000_0000_0000;
    }
    BigEndianInjective(8 * |m|, 8 * |n|, 8);
    assert p[..|m|] == m && p[..|n|] == n;
  }

  // ----- what the definitions compute, bit by bit ----------------------------------------

  /** Where a bit of `b` is set the bit of `c` is chosen, elsewhere that of `d`. */
  lemma ChooseBits(b: bv32, c: bv32, d: bv32)
    ensures b & Choose(Word(b), Word(c), Word(d)).bits == b & c
    ensures !b & Choose(Word(b), Word(c), Word(d)).bits == !b & d
  {
  }

  /** Where two of the three bits agree the result agrees with them. */
  lemma MajorityBits(b: bv32, c: bv32, d: bv32)
    ensures var m := Majority(Word(b), Word(c), Word(d)).bits;
      !(b ^ c) & (m ^ b) == 0 && !(b ^ d) & (m ^ b) == 0 && !(c ^ d) & (m ^ c) == 0
  {
    AgreeingPair(b, c, d);
    AgreeingPair(b, d, c);
    AgreeingPair(c, d, b);
    MajorityIsSymmetric(b, c, d);
    MajorityIsSymmetric(c, d, b);
  }

  lemma AgreeingPair(x: bv32, y: bv32, z: bv32)
    ensures !(x ^ y) & (((x & y) | (x & z) | (y & z)) ^ x) == 0
  {
  }

  lemma MajorityIsSymmetric(b: bv32, c: bv32, d: bv32)
    ensures (b & c) | (b & d) | (c & d) == (b & d) | (b & c) | (d & c)
    ensures (b & c) | (b & d) | (c & d) == (c & d) | (c & b) | (d & b)
  {
  }

  /** Two equal arguments cancel, and the order of the three does not matter. */
  lemma ParityCancels(b: bv32, c: bv32)
    ensures Parity(Word(b), Word(c), Word(c)).bits == b
  {
  }

  lemma ParityCommutes(b: bv32, c: bv32, d: bv32)
    ensures Parity(Word(b), Word(c), Word(d)).bits == Parity(Word(c), Word(b), Word(d)).bits
  {
  }

  lemma ParityRotates(b: bv32, c: bv32, d: bv32)
    ensures Parity(Word(b), Word(c), Word(d)).bits == Parity(Word(c), Word(d), Word(b)).bits
  {
  }

  /** One place to the left, the top bit coming in at the bottom. */
  lemma RotationBits(x: bv32)
    ensures S1(Word(x)).bits & 1 == x >> 31
    ensures S1(Word(x)).bits >> 1 == x & 0x7FFF_FFFF
  {
  }

  /** Five places to the left, and thirty: two short of all the way round. */
  lemma RotationFive(x: bv32)
    ensures S5(Word(x)).bits & 0x1F == x >> 27 && S5(Word(x)).bits >> 5 == x & 0x07FF_FFFF
  {
  }

  lemma RotationThirty(x: bv32)
    ensures S30(S1(S1(Word(x)))) == Word(x)
  {
  }

  /** Addition is commutative, has 0, and doubles by a shift. */
  lemma PlusCommutes(x: bv32, y: bv32)
    ensures Plus(Word(x), Word(y)).bits == Plus(Word(y), Word(x)).bits
  {
  }

  lemma PlusDoubles(x: bv32)
    ensures Plus(Word(x), Word(0)).bits == x && Plus(Word(x), Word(x)).bits == x << 1
  {
  }

  /** The four octets of a word come back by shifts. */
  lemma PackBits(b0: byte, b1: byte, b2: byte, b3: byte)
    ensures Pack(b0, b1, b2, b3).bits >> 24 == b0 as bv32
    ensures (Pack(b0, b1, b2, b3).bits >> 16) & 0xFF == b1 as bv32
    ensures (Pack(b0, b1, b2, b3).bits >> 8) & 0xFF == b2 as bv32
    ensures Pack(b0, b1, b2, b3).bits & 0xFF == b3 as bv32
  {
    OctetFits(b0);
    OctetFits(b1);
    OctetFits(b2);
    OctetFits(b3);
  }

  lemma OctetFits(b: byte)
    ensures b as bv32 & 0xFF == b as bv32
  {
    assert b as bv32 < 256;
  }

  // ----- section 7, step by step ---------------------------------------------------------

  /** A step takes registers `r` to `n` with word `w`, round function value `f` and constant `k`. */
  predicate IsStep(r: Regs, n: Regs, w: Word, f: Word, k: Word) {
    && n.a == Plus(Plus(Plus(Plus(S5(r.a), f), r.e), w), k)
    && n.b == r.a && n.c == S30(r.b) && n.d == r.c && n.e == r.d
  }

  /** Step `t`, with the function and the constant of sections 5 and 6. */
  predicate IsStepAt(t: nat, r: Regs, n: Regs, w: Word) {
    if t < 20 then IsStep(r, n, w, Choose(r.b, r.c, r.d), Word(0x5A827999))
    else if t < 40 then IsStep(r, n, w, Parity(r.b, r.c, r.d), Word(0x6ED9EBA1))
    else if t < 60 then IsStep(r, n, w, Majority(r.b, r.c, r.d), Word(0x8F1BBCDC))
    else IsStep(r, n, w, Parity(r.b, r.c, r.d), Word(0xCA62C1D6))
  }

  function XorOf(a: Word, b: Word, c: Word, d: Word): Word { Word(a.bits ^ b.bits ^ c.bits ^ d.bits) }

  /** Word `t` of the block's sequence. */
  predicate IsWordAt(block: seq<byte>, w: seq<Word>, t: nat)
    requires |block| == 64 && t < |w|
  {
    w[t] == if t < 16 then Pack(block[4 * t], block[4 * t + 1], block[4 * t + 2], block[4 * t + 3])
            else S1(XorOf(w[t - 3], w[t - 8], w[t - 14], w[t - 16]))
  }

  /** Compressing a block is section 7, items a to e: 80 words, 80 steps, then the registers are added in. */
  lemma SectionSeven(h: Regs, block: seq<byte>) returns (w: seq<Word>, r: seq<Regs>)
    requires |block| == 64
    ensures |w| == 80 && forall t :: 0 <= t < 80 ==> IsWordAt(block, w, t)
    ensures |r| == 81 && r[0] == h && forall t :: 0 <= t < 80 ==> IsStepAt(t, r[t], r[t + 1], w[t])
    ensures Compress(h, block) == Regs(Plus(h.a, r[80].a), Plus(h.b, r[80].b), Plus(h.c, r[80].c),
                                       Plus(h.d, r[80].d), Plus(h.e, r[80].e))
  {
    hide Plus, S1, S5, S30, Choose, Parity, Majority, Pack, XorOf, Expand, IsWordAt, IsStepAt, Round;
    w := WordSequence(block, 80);
    var v := w;
    r := seq(81, t requires 0 <= t < 81 => Rounds(v, h, t));
    forall t | 0 <= t < 80 ensures IsWordAt(block, v, t) && IsStepAt(t, r[t], r[t + 1], v[t]) {
      WordIsScheduled(block, t);
      assert r[t + 1] == Round(t, r[t], v[t]);
      RoundIsStep(t, r[t], v[t]);
    }
  }

  lemma WordIsScheduled(block: seq<byte>, t: nat)
    requires |block| == 64 && t < 80
    ensures IsWordAt(block, WordSequence(block, 80), t)
  {
    WordSequenceAt(block, 80, t);
    hide WordSequence, Pack, S1;
  }

  lemma RoundIsStep(t: nat, r: Regs, w: Word)
    requires t < 80
    ensures IsStepAt(t, r, Round(t, r, w), w)
  {
    hide Plus, S5, S30, Choose, Parity, Majority;
  }

  /** The initial registers of section 7, and one more block after whole blocks. */
  lemma ChainStarts()
    ensures Chain([]) == Regs(Word(0x67452301), Word(0xEFCDAB89), Word(0x98BADCFE), Word(0x10325476), Word(0xC3D2E1F0))
  {
  }

  /** The first step of the example in Appendix A, the message "abc". */
  lemma AppendixAFirstStep()
    ensures Pack(0x61, 0x62, 0x63, 0x80) == Word(0x61626380)
    ensures Round(0, Chain([]), Word(0x61626380))
         == Regs(Word(0x0116FC33), Word(0x67452301), Word(0x7BF36AE2), Word(0x98BADCFE), Word(0x10325476))
  {
    ChainStarts();
    FirstWord();
    FirstRotations();
    FirstChoice();
    FirstSum();
    hide S5, S30, Choose, Plus, Pack, Chain;
  }

  lemma FirstWord()
    ensures Pack(0x61, 0x62, 0x63, 0x80) == Word(0x61626380)
  {
  }

  lemma FirstRotations()
    ensures S5(Word(0x67452301)) == Word(0xE8A4602C) && S30(Word(0xEFCDAB89)) == Word(0x7BF36AE2)
  {
  }

  lemma FirstChoice()
    ensures Choose(Word(0xEFCDAB89), Word(0x98BADCFE), Word(0x10325476)) == Word(0x98BADCFE)
  {
  }

  lemma FirstSum()
    ensures Plus(Word(0xE8A4602C), Word(0x98BADCFE)) == Word(0x815F3D2A)
    ensures Plus(Word(0x815F3D2A), Word(0xC3D2E1F0)) == Word(0x45321F1A)
    ensures Plus(Word(0x45321F1A), Word(0x61626380)) == Word(0xA694829A)
    ensures Plus(Word(0xA694829A), Word(0x5A827999)) == Word(0x0116FC33)
  {
  }

  /** The padding octet by octet: the message, one bit, zeros, and the length in bits in 64 bits. */
  lemma PadOctets(m: seq<byte>)
    requires 8 * |m| < 0x1_0000_0000_0000_0000
    ensures var p := Pad(m);
      && |p| >= |m| + 9 && p[|m|] == 0x80 && (forall i :: |m| < i < |p| - 8 ==> p[i] == 0)
      && 8 * |m| == ValueOf(p[|p| - 8..])
  {
    var p := Pad(m);
    assert p[|p| - 8..] == BigEndian(8 * |m|, 8);
    BigEndianValue(8 * |m|, 8);
  }

  /** The number that octets stand for, most significant first. */
  function ValueOf(s: seq<byte>): nat { if s == [] then 0 else 256 * ValueOf(s[..|s| - 1]) + s[|s| - 1] }

  lemma {:induction false} BigEndianValue(x: nat, n: nat)
    requires x < Pow256(n)
    ensures ValueOf(BigEndian(x, n)) == x
  {
    if n > 0 {
      BigEndianValue(x / 256, n - 1);
      assert BigEndian(x, n)[..n - 1] == BigEndian(x / 256, n - 1);
    }
  }
}
