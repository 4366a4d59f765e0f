/** The streaming hash of sha1.c: a context updated in place, refining the one-shot digest. */
module Sha1 {
  import opened Words
  import opened Sha1Spec

  lemma FirstPass(t: nat, a: Word, b: Word, c: Word, d: Word, e: Word, w: Word)
    requires 0 <= t < 20
    ensures Temp(t, a, b, c, d, e, w) == Plus(Plus(Plus(Plus(S5(a), Choose(b, c, d)), e), w), Word(0x5A827999))
  {
  }

  lemma SecondPass(t: nat, a: Word, b: Word, c: Word, d: Word, e: Word, w: Word)
    requires 20 <= t < 40
    ensures Temp(t, a, b, c, d, e, w) == Plus(Plus(Plus(Plus(S5(a), Parity(b, c, d)), e), w), Word(0x6ED9EBA1))
  {
  }

  lemma ThirdPass(t: nat, a: Word, b: Word, c: Word, d: Word, e: Word, w: Word)
    requires 40 <= t < 60
    ensures Temp(t, a, b, c, d, e, w) == Plus(Plus(Plus(Plus(S5(a), Majority(b, c, d)), e), w), Word(0x8F1BBCDC))
  {
  }

  lemma FourthPass(t: nat, a: Word, b: Word, c: Word, d: Word, e: Word, w: Word)
    requires 60 <= t < 80
    ensures Temp(t, a, b, c, d, e, w) == Plus(Plus(Plus(Plus(S5(a), Parity(b, c, d)), e), w), Word(0xCA62C1D6))
  {
  }

  const LIMIT: nat := 0x2000_0000_0000_0000   // 2^61 octets are 2^64 bits

  class Sha1Context {
    const messageDigest: array<Word>
    const messageBlock: array<byte>
    var lengthLow: nat
    var lengthHigh: nat
    var messageBlockIndex: nat
    var computed: bool
    var corrupted: bool
    ghost var msg: seq<byte>    // everything passed to Input since Reset

    ghost predicate Shape()
      reads this
    {
      messageDigest.Length == 5 && messageBlock.Length == 64
    }

    ghost function Digest(): Regs
      requires Shape()
      reads this, messageDigest
    {
      Regs(messageDigest[0], messageDigest[1], messageDigest[2], messageDigest[3], messageDigest[4])
    }

    /** The context has absorbed exactly `m`. */
    ghost predicate Absorbed(m: seq<byte>)
      requires Shape()
      reads this, messageDigest, messageBlock
    {
      && messageBlockIndex == |m| % 64
      && Digest() == Chain(m)
      && messageBlock[..messageBlockIndex] == Rest(m)
      && 0 <= lengthLow < 0x1_0000_0000 && 0 <= lengthHigh < 0x1_0000_0000
      && lengthHigh * 0x1_0000_0000 + lengthLow == 8 * |m| % 0x1_0000_0000_0000_0000
    }

    ghost predicate Valid()
      reads this, messageDigest, messageBlock
    {
      && Shape()
      && (!computed && !corrupted ==> |msg| < LIMIT && Absorbed(msg))
      && (!computed && corrupted ==> |msg| >= LIMIT)
      && (computed && !corrupted ==> |msg| < LIMIT && Digest() == Sha1Spec.Sha1(msg))
    }

    constructor ()
      ensures Shape() && fresh(messageDigest) && fresh(messageBlock)
    {
      messageDigest := new Word[5];
      messageBlock := new byte[64];
      lengthLow, lengthHigh, messageBlockIndex := 0, 0, 0;
    }

    method Reset()
      requires Shape()
      modifies this, messageDigest
      ensures Valid() && msg == [] && !computed && !corrupted
    {
      lengthLow, lengthHigh, messageBlockIndex := 0, 0, 0;
      messageDigest[0] := Word(0x67452301);
      messageDigest[1] := Word(0xEFCDAB89);
      messageDigest[2] := Word(0x98BADCFE);
      messageDigest[3] := Word(0x10325476);
      messageDigest[4] := Word(0xC3D2E1F0);
      computed, corrupted := false, false;
      msg := [];
    }

    method ProcessMessageBlock()
      requires Shape()
      modifies this`messageBlockIndex, messageDigest
      ensures Digest() == Compress(old(Digest()), messageBlock[..])
      ensures messageBlockIndex == 0
    {
      ghost var block, h := messageBlock[..], Digest();
      var w := Schedule();
      ghost var ws := WordSequence(block, 80);
      var A, B, C, D, E := messageDigest[0], messageDigest[1], messageDigest[2], messageDigest[3], messageDigest[4];
      var t := 0;
      while t < 20
        invariant 0 <= t <= 20 && Regs(A, B, C, D, E) == Rounds(ws, h, t)
        invariant Digest() == h && forall j :: 0 <= j < 80 ==> w[j] == ws[j]
      {
        FirstPass(t, A, B, C, D, E, w[t]);
        var temp := Plus(Plus(Plus(Plus(S5(A), Choose(B, C, D)), E), w[t]), Word(0x5A827999));
        A, B, C, D, E := temp, A, S30(B), C, D;
        t := t + 1;
      }
      while t < 40
        invariant 20 <= t <= 40 && Regs(A, B, C, D, E) == Rounds(ws, h, t)
        invariant Digest() == h && forall j :: 0 <= j < 80 ==> w[j] == ws[j]
      {
        SecondPass(t, A, B, C, D, E, w[t]);
        var temp := Plus(Plus(Plus(Plus(S5(A), Parity(B, C, D)), E), w[t]), Word(0x6ED9EBA1));
        A, B, C, D, E := temp, A, S30(B), C, D;
        t := t + 1;
      }
      while t < 60
        invariant 40 <= t <= 60 && Regs(A, B, C, D, E) == Rounds(ws, h, t)
        invariant Digest() == h && forall j :: 0 <= j < 80 ==> w[j] == ws[j]
      {
        ThirdPass(t, A, B, C, D, E, w[t]);
        var temp := Plus(Plus(Plus(Plus(S5(A), Majority(B, C, D)), E), w[t]), Word(0x8F1BBCDC));
        A, B, C, D, E := temp, A, S30(B), C, D;
        t := t + 1;
      }
      while t < 80
        invariant 60 <= t <= 80 && Regs(A, B, C, D, E) == Rounds(ws, h, t)
        invariant Digest() == h && forall j :: 0 <= j < 80 ==> w[j] == ws[j]
      {
        FourthPass(t, A, B, C, D, E, w[t]);
        var temp := Plus(Plus(Plus(Plus(S5(A), Parity(B, C, D)), E), w[t]), Word(0xCA62C1D6));
        A, B, C, D, E := temp, A, S30(B), C, D;
        t := t + 1;
      }
      ghost var r := Regs(A, B, C, D, E);
      assert r == Rounds(WordSequence(block, 80), h, 80);
      messageDigest[0] := Plus(messageDigest[0], A);
      messageDigest[1] := Plus(messageDigest[1], B);
      messageDigest[2] := Plus(messageDigest[2], C);
      messageDigest[3] := Plus(messageDigest[3], D);
      messageDigest[4] := Plus(messageDigest[4], E);
      messageBlockIndex := 0;
      assert messageBlock[..] == block;
    }

    /** The word sequence of the current block. */
    method Schedule() returns (w: array<Word>)
      requires Shape()
      ensures fresh(w) && w.Length == 80
      ensures forall t :: 0 <= t < 80 ==> w[t] == WordSequence(messageBlock[..], 80)[t]
    {
      w := new Word[80];
      ghost var block := messageBlock[..];
      ghost var ws := WordSequence(block, 80);
      var t := 0;
      while t < 16
        invariant 0 <= t <= 16
        invariant forall j :: 0 <= j < t ==> w[j] == ws[j]
      {
        w[t] := Pack(messageBlock[t * 4], messageBlock[t * 4 + 1], messageBlock[t * 4 + 2], messageBlock[t * 4 + 3]);
        WordSequenceAt(block, 80, t);
        t := t + 1;
      }
      while t < 80
        invariant 16 <= t <= 80
        invariant forall j :: 0 <= j < t ==> w[j] == ws[j]
      {
        w[t] := Expand(w[t - 3], w[t - 8], w[t - 14], w[t - 16]);
        WordSequenceAt(block, 80, t);
        t := t + 1;
      }
    }

    /** Absorbs the next portion of the message; corrupted exactly when 2^61 octets are reached. */
    method Input(message: seq<byte>)
      requires Valid()
      modifies this, messageDigest, messageBlock
      ensures Valid() && computed == old(computed)
      ensures message == [] ==> msg == old(msg) && corrupted == old(corrupted)
      ensures message != [] && (old(computed) || old(corrupted)) ==> corrupted && msg == old(msg)
      ensures message != [] && !old(computed) && !old(corrupted) ==>
                msg == old(msg) + message && (corrupted <==> |msg| >= LIMIT)
    {
      if |message| == 0 { return; }
      if computed || corrupted {
        corrupted := true;
        return;
      }
      hide Chain, Rest, Sha1Spec.Sha1;
      ghost var cur := AbsorbAll(message);
      msg := msg + message;
    }

    /** The input loop; `cur` is the part of the message absorbed. */
    method AbsorbAll(message: seq<byte>) returns (ghost cur: seq<byte>)
      requires Valid() && !computed && !corrupted
      modifies this`messageBlockIndex, this`lengthLow, this`lengthHigh, this`corrupted, messageDigest, messageBlock
      ensures Shape() && cur <= msg + message && |cur| <= LIMIT && Absorbed(cur)
      ensures if corrupted then |cur| == LIMIT else cur == msg + message && |cur| < LIMIT
    {
      cur := msg;
      hide Chain, Rest, Absorbed, Sha1Spec.Sha1;
      var i := 0;
      while i < |message| && !corrupted
        invariant 0 <= i <= |message| && Shape()
        invariant cur == msg + message[..i]
        invariant |cur| <= LIMIT && Absorbed(cur) && (corrupted <==> |cur| == LIMIT)
        decreases |message| - i
      {
        AbsorbOctet(message[i], cur);
        cur := cur + [message[i]];
        i := i + 1;
      }
    }

    /** The body of the input loop: one octet into the block, the counter up, a full block compressed. */
    method AbsorbOctet(octet: byte, ghost cur: seq<byte>)
      requires Shape() && Absorbed(cur) && |cur| < LIMIT && !corrupted
      modifies this`messageBlockIndex, this`lengthLow, this`lengthHigh, this`corrupted, messageDigest, messageBlock
      ensures Absorbed(cur + [octet]) && (corrupted <==> |cur| + 1 == LIMIT)
    {
      hide Chain, Compress, Whole, Rest;
      CountOctet(lengthHigh, lengthLow, |cur|);
      OneMoreOctet(cur, octet);
      messageBlock[messageBlockIndex] := octet;
      messageBlockIndex := messageBlockIndex + 1;
      lengthLow := (lengthLow + 8) % 0x1_0000_0000;
      if lengthLow == 0 {
        lengthHigh := (lengthHigh + 1) % 0x1_0000_0000;
        if lengthHigh == 0 { corrupted := true; }
      }
      assert messageBlock[..messageBlockIndex] == Rest(cur) + [octet];
      if messageBlockIndex == 64 {
        assert messageBlock[..] == messageBlock[..64];
        ProcessMessageBlock();
      }
    }

    /** The three zero-filling loops of the padding. */
    method ZeroFill(until: nat)
      requires Shape() && messageBlockIndex <= until <= 64
      modifies this`messageBlockIndex, messageBlock
      ensures messageBlockIndex == until
      ensures messageBlock[..until] == old(messageBlock[..messageBlockIndex]) + Zeros(until - old(messageBlockIndex))
    {
      ghost var start, before := messageBlockIndex, messageBlock[..messageBlockIndex];
      while messageBlockIndex < until
        invariant start <= messageBlockIndex <= until
        invariant messageBlock[..messageBlockIndex] == before + Zeros(messageBlockIndex - start)
      {
        messageBlock[messageBlockIndex] := 0;
        messageBlockIndex := messageBlockIndex + 1;
      }
    }

    /** Both padding branches end with exactly the padded stream compressed. */
    method PadMessage()
      requires Shape() && Absorbed(msg) && |msg| < LIMIT
      modifies this`messageBlockIndex, messageDigest, messageBlock
      ensures Digest() == Sha1Spec.Sha1(msg)
    {
      hide Chain, Compress, BigEndian, Whole, Rest;
      ghost var r := |msg| % 64;
      ghost var first := Rest(msg) + [0x80] + Zeros(63 - r);
      if messageBlockIndex > 55 {
        messageBlock[messageBlockIndex] := 0x80;
        messageBlockIndex := messageBlockIndex + 1;
        assert messageBlock[..messageBlockIndex] == Rest(msg) + [0x80];
        ZeroFill(64);
        assert messageBlock[..] == messageBlock[..64] == first;
        ProcessMessageBlock();
        ZeroFill(56);
        assert messageBlock[..56] == Zeros(56);
      } else {
        messageBlock[messageBlockIndex] := 0x80;
        messageBlockIndex := messageBlockIndex + 1;
        assert messageBlock[..messageBlockIndex] == Rest(msg) + [0x80];
        ZeroFill(56);
      }
      StoreLength();
      ghost var l := messageBlock[56..];
      assert messageBlock[..] == messageBlock[..56] + l;
      if r > 55 { ChainPaddedInTwo(msg, l); } else { ChainPaddedInOne(msg, l); }
      ProcessMessageBlock();
    }

    method StoreLength()
      requires Shape() && lengthLow < 0x1_0000_0000 && lengthHigh < 0x1_0000_0000
      modifies messageBlock
      ensures messageBlock[..56] == old(messageBlock[..56])
      ensures messageBlock[56..] == BigEndian(lengthHigh * 0x1_0000_0000 + lengthLow, 8)
    {
      messageBlock[56] := lengthHigh / 0x100_0000 % 256;
      messageBlock[57] := lengthHigh / 0x1_0000 % 256;
      messageBlock[58] := lengthHigh / 0x100 % 256;
      messageBlock[59] := lengthHigh % 256;
      messageBlock[60] := lengthLow / 0x100_0000 % 256;
      messageBlock[61] := lengthLow / 0x1_0000 % 256;
      messageBlock[62] := lengthLow / 0x100 % 256;
      messageBlock[63] := lengthLow % 256;
      FourOctets(lengthHigh);
      FourOctets(lengthLow);
      assert Pow256(4) == 0x1_0000_0000 by { assert Pow256(2) == 0x10000; }
      BigEndianSplit(lengthHigh, lengthLow, 4);
    }

    /** Returns 1 (true) and leaves the digest exactly when the message was not too long and not extended late. */
    method Result() returns (ok: bool)
      requires Valid()
      modifies this, messageDigest, messageBlock
      ensures Valid() && msg == old(msg) && corrupted == old(corrupted)
      ensures ok <==> !old(corrupted)
      ensures ok ==> computed && Digest() == Sha1Spec.Sha1(msg)
    {
      if corrupted { return false; }
      if !computed {
        PadMessage();
        computed := true;
      }
      return true;
    }
  }

  function Flatten(chunks: seq<seq<byte>>): seq<byte> {
    if chunks == [] then [] else Flatten(chunks[..|chunks| - 1]) + chunks[|chunks| - 1]
  }

  /** Reset, any number of Inputs, Result: the digest of the concatenation, however it was cut. */
  method HashChunks(context: Sha1Context, chunks: seq<seq<byte>>) returns (ok: bool)
    requires context.Shape()
    modifies context, context.messageDigest, context.messageBlock
    ensures context.Valid()
    ensures ok <==> |Flatten(chunks)| < LIMIT
    ensures ok ==> context.Digest() == Sha1Spec.Sha1(Flatten(chunks))
  {
    hide Sha1Spec.Sha1;
    context.Reset();
    var i := 0;
    while i < |chunks|
      invariant 0 <= i <= |chunks| && context.Valid() && !context.computed
      invariant context.corrupted ==> |Flatten(chunks[..i])| >= LIMIT
      invariant !context.corrupted ==> context.msg == Flatten(chunks[..i])
    {
      assert chunks[..i + 1][..i] == chunks[..i];
      context.Input(chunks[i]);
      i := i + 1;
    }
    assert chunks[..i] == chunks;
    ok := context.Result();
  }

  lemma FourOctets(x: nat)
    ensures BigEndian(x, 4) == [x / 0x100_0000 % 256, x / 0x1_0000 % 256, x / 0x100 % 256, x % 256]
  {
    assert x / 256 / 256 == x / 0x1_0000;
    assert x / 0x1_0000 / 256 == x / 0x100_0000;
    assert BigEndian(x / 0x100_0000, 1) == [x / 0x100_0000 % 256];
    assert BigEndian(x / 0x1_0000, 2) == [x / 0x100_0000 % 256, x / 0x1_0000 % 256];
    assert BigEndian(x / 0x100, 3) == [x / 0x100_0000 % 256, x / 0x1_0000 % 256, x / 0x100 % 256];
  }

  /** The split 64-bit counter: the high word wraps to 0 exactly at 2^61 octets. */
  lemma CountOctet(high: nat, low: nat, n: nat)
    requires n < LIMIT && low < 0x1_0000_0000 && high < 0x1_0000_0000
    requires high * 0x1_0000_0000 + low == 8 * n % 0x1_0000_0000_0000_0000
    ensures var low' := (low + 8) % 0x1_0000_0000;
      var high' := if low' == 0 then (high + 1) % 0x1_0000_0000 else high;
      && high' * 0x1_0000_0000 + low' == 8 * (n + 1) % 0x1_0000_0000_0000_0000
      && (low' == 0 && high' == 0 <==> n + 1 == LIMIT)
  {
    assert high * 0x1_0000_0000 + low == 8 * n;
    assert low == 8 * (n - high * 0x2000_0000);
    if low + 8 == 0x1_0000_0000 {
      assert (high + 1) * 0x1_0000_0000 == 8 * (n + 1);
    }
  }
}
