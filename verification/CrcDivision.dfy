/** Modulo-2 division, one bit at a time: the reference every CRC engine is proved against.
    A register of n bits holds the remainder (bit i is the coefficient of x^i); `poly` holds
    the n low coefficients of the divisor, whose x^n coefficient is always 1. */
module CrcDivision {
  import opened BitWords

  // ----- The two one-bit steps

  /** Unaugmented step: the register moves up by one; the divisor is taken out when the bit
      that leaves differs from the bit that comes in. */
  function Step(poly: Word, r: Word, bit: bool): (r': Word)
    requires |poly| == |r| > 0
    ensures |r'| == |r|
    ensures forall i {:trigger r'[i]} :: 0 <= i < |r| ==>
              r'[i] == ((i > 0 && r[i - 1]) != (poly[i] && r[|r| - 1] != bit))
  {
    seq(|r|, i requires 0 <= i < |r| => (i > 0 && r[i - 1]) != (poly[i] && r[|r| - 1] != bit))
  }

  /** Augmented step: the incoming bit enters at the low end. */
  function AugStep(poly: Word, r: Word, bit: bool): (r': Word)
    requires |poly| == |r| > 0
    ensures |r'| == |r|
    ensures forall i {:trigger r'[i]} :: 0 <= i < |r| ==>
              r'[i] == ((if i > 0 then r[i - 1] else bit) != (poly[i] && r[|r| - 1]))
  {
    seq(|r|, i requires 0 <= i < |r| => (if i > 0 then r[i - 1] else bit) != (poly[i] && r[|r| - 1]))
  }

  function Feed(poly: Word, r: Word, bits: seq<bool>): (r': Word)
    requires |poly| == |r| > 0
    ensures |r'| == |r|
    decreases |bits|
  {
    if |bits| == 0 then r
    else Step(poly, Feed(poly, r, bits[..|bits| - 1]), bits[|bits| - 1])
  }

  function AugFeed(poly: Word, r: Word, bits: seq<bool>): (r': Word)
    requires |poly| == |r| > 0
    ensures |r'| == |r|
    decreases |bits|
  {
    if |bits| == 0 then r
    else AugStep(poly, AugFeed(poly, r, bits[..|bits| - 1]), bits[|bits| - 1])
  }

  // ----- Runs compose

  lemma FeedSnoc(poly: Word, r: Word, bits: seq<bool>, bit: bool)
    requires |poly| == |r| > 0
    ensures Feed(poly, r, bits + [bit]) == Step(poly, Feed(poly, r, bits), bit)
  {
    assert (bits + [bit])[..|bits|] == bits;
  }

  lemma AugFeedSnoc(poly: Word, r: Word, bits: seq<bool>, bit: bool)
    requires |poly| == |r| > 0
    ensures AugFeed(poly, r, bits + [bit]) == AugStep(poly, AugFeed(poly, r, bits), bit)
  {
    assert (bits + [bit])[..|bits|] == bits;
  }

  /** The same, along the prefixes of one message: the form a loop needs. */
  lemma FeedPrefix(poly: Word, r: Word, bits: seq<bool>, k: nat)
    requires |poly| == |r| > 0 && k <= |bits|
    ensures Feed(poly, r, bits[..0]) == r
    ensures k < |bits| ==> Feed(poly, r, bits[..k + 1]) == Step(poly, Feed(poly, r, bits[..k]), bits[k])
    ensures bits[..|bits|] == bits
  {
    if k < |bits| {
      assert bits[..k + 1] == bits[..k] + [bits[k]];
      FeedSnoc(poly, r, bits[..k], bits[k]);
    }
  }

  lemma AugFeedPrefix(poly: Word, r: Word, bits: seq<bool>, k: nat)
    requires |poly| == |r| > 0 && k <= |bits|
    ensures AugFeed(poly, r, bits[..0]) == r
    ensures k < |bits| ==> AugFeed(poly, r, bits[..k + 1]) == AugStep(poly, AugFeed(poly, r, bits[..k]), bits[k])
    ensures bits[..|bits|] == bits
  {
    if k < |bits| {
      assert bits[..k + 1] == bits[..k] + [bits[k]];
      AugFeedSnoc(poly, r, bits[..k], bits[k]);
    }
  }

  lemma {:induction false} FeedConcat(poly: Word, r: Word, a: seq<bool>, b: seq<bool>)
    requires |poly| == |r| > 0
    ensures Feed(poly, r, a + b) == Feed(poly, Feed(poly, r, a), b)
    decreases |b|
  {
    if |b| == 0 {
      assert a + b == a;
    } else {
      var front := b[..|b| - 1];
      assert a + b == a + front + [b[|b| - 1]];
      FeedSnoc(poly, r, a + front, b[|b| - 1]);
      FeedConcat(poly, r, a, front);
    }
  }

  lemma {:induction false} AugFeedConcat(poly: Word, r: Word, a: seq<bool>, b: seq<bool>)
    requires |poly| == |r| > 0
    ensures AugFeed(poly, r, a + b) == AugFeed(poly, AugFeed(poly, r, a), b)
    decreases |b|
  {
    if |b| == 0 {
      assert a + b == a;
    } else {
      var front := b[..|b| - 1];
      assert a + b == a + front + [b[|b| - 1]];
      AugFeedSnoc(poly, r, a + front, b[|b| - 1]);
      AugFeedConcat(poly, r, a, front);
    }
  }

  // ----- Linearity

  lemma StepLinear(poly: Word, r: Word, s: Word, a: bool, b: bool)
    requires |poly| == |r| == |s| > 0
    ensures Step(poly, Xor(r, s), a != b) == Xor(Step(poly, r, a), Step(poly, s, b))
  {
  }

  /** The whole run is linear in the pair (register, message). */
  lemma {:induction false} FeedLinear(poly: Word, r: Word, s: Word, a: seq<bool>, b: seq<bool>)
    requires |poly| == |r| == |s| > 0
    requires |a| == |b|
    ensures Feed(poly, Xor(r, s), Xor(a, b)) == Xor(Feed(poly, r, a), Feed(poly, s, b))
    decreases |a|
  {
    if |a| > 0 {
      var k := |a| - 1;
      assert Xor(a, b)[..k] == Xor(a[..k], b[..k]);
      FeedLinear(poly, r, s, a[..k], b[..k]);
      StepLinear(poly, Feed(poly, r, a[..k]), Feed(poly, s, b[..k]), a[k], b[k]);
    }
  }

  // ----- Several bits at once

  predicate TopClear(r: Word, k: nat)
    requires k <= |r|
  {
    forall i :: |r| - k <= i < |r| ==> !r[i]
  }

  lemma StepPlainShift(poly: Word, r: Word, k: nat)
    requires |poly| == |r| > k
    requires TopClear(r, k + 1)
    ensures Step(poly, Shl(r, k), false) == Shl(r, k + 1)
  {
  }

  /** Shifting zeros through a register whose top bits are clear is a plain shift. */
  lemma {:induction false} FeedPlainShift(poly: Word, r: Word, k: nat)
    requires |poly| == |r| > 0
    requires k <= |r| && TopClear(r, k)
    ensures Feed(poly, r, Zeros(k)) == Shl(r, k)
    decreases k
  {
    hide Xor, Step, Zeros, Shl;
    if k == 0 {
      assert Shl(r, 0) == r;
    } else {
      FeedPlainShift(poly, r, k - 1);
      StepPlainShift(poly, r, k - 1);
      assert Zeros(k)[..k - 1] == Zeros(k - 1);
    }
  }

  /** A short message written into the top of a register, first bit highest. */
  function AtTop(width: nat, bits: seq<bool>): (w: Word)
    requires |bits| <= width
    ensures |w| == width
    ensures forall i {:trigger w[i]} :: 0 <= i < width ==>
              w[i] == (width - 1 - i < |bits| && bits[width - 1 - i])
  {
    seq(width, i requires 0 <= i < width => width - 1 - i < |bits| && bits[width - 1 - i])
  }

  lemma AtTopSnoc(width: nat, bits: seq<bool>)
    requires 0 < |bits| <= width
    ensures AtTop(width, bits)
         == Xor(AtTop(width, bits[..|bits| - 1]), OneBit(width, width - |bits|, bits[|bits| - 1]))
  {
  }

  /** A bit placed k places below the top reaches the top after k zeros, undisturbed, and
      there it does what an incoming bit does. */
  lemma StepMeetsTop(poly: Word, r: Word, bit: bool)
    requires |poly| == |r| > 0
    ensures Step(poly, Xor(r, OneBit(|r|, |r| - 1, bit)), false) == Step(poly, r, bit)
  {
  }

  lemma OneBitShifts(width: nat, k: nat, bit: bool)
    requires k < width
    ensures TopClear(OneBit(width, width - 1 - k, bit), k)
    ensures Shl(OneBit(width, width - 1 - k, bit), k) == OneBit(width, width - 1, bit)
  {
  }

  /** Up to n bits may be combined with the top of the register before any shift is made. */
  lemma {:induction false} FeedAtTop(poly: Word, r: Word, bits: seq<bool>)
    requires |poly| == |r| > 0
    requires |bits| <= |r|
    ensures Feed(poly, r, bits) == Feed(poly, Xor(r, AtTop(|r|, bits)), Zeros(|bits|))
    decreases |bits|
  {
    hide Xor, Step, Zeros, OneBit, AtTop, Shl;
    var n, k := |r|, |bits|;
    if k == 0 {
      assert Xor(r, AtTop(n, bits)) == r;
    } else {
      var front, last := bits[..k - 1], bits[k - 1];
      var r', one := Xor(r, AtTop(n, front)), OneBit(n, n - k, last);
      calc {
        Feed(poly, Xor(r, AtTop(n, bits)), Zeros(k));
        { assert Zeros(k)[..k - 1] == Zeros(k - 1); }
        Step(poly, Feed(poly, Xor(r, AtTop(n, bits)), Zeros(k - 1)), false);
        { AtTopSnoc(n, bits); XorAssociative(r, AtTop(n, front), one); XorZeros(Zeros(k - 1)); }
        Step(poly, Feed(poly, Xor(r', one), Xor(Zeros(k - 1), Zeros(k - 1))), false);
        { FeedLinear(poly, r', one, Zeros(k - 1), Zeros(k - 1)); }
        Step(poly, Xor(Feed(poly, r', Zeros(k - 1)), Feed(poly, one, Zeros(k - 1))), false);
        { OneBitShifts(n, k - 1, last); FeedPlainShift(poly, one, k - 1); FeedAtTop(poly, r, front); }
        Step(poly, Xor(Feed(poly, r, front), OneBit(n, n - 1, last)), false);
        { StepMeetsTop(poly, Feed(poly, r, front), last); }
        Step(poly, Feed(poly, r, front), last);
      }
    }
  }

  /** The k bits about to leave the register, in the order they leave. */
  function Leaving(r: Word, k: nat): (bits: seq<bool>)
    requires k <= |r|
    ensures |bits| == k
    ensures forall i {:trigger bits[i]} :: 0 <= i < k ==> bits[i] == r[|r| - 1 - i]
  {
    seq(k, i requires 0 <= i < k => r[|r| - 1 - i])
  }

  /** Clears the k highest bits. */
  function WithoutTop(r: Word, k: nat): (w: Word)
    requires k <= |r|
    ensures |w| == |r|
    ensures forall i {:trigger w[i]} :: 0 <= i < |r| ==> w[i] == (i < |r| - k && r[i])
  {
    seq(|r|, i requires 0 <= i < |r| => i < |r| - k && r[i])
  }

  lemma SplitAtTop(r: Word, k: nat)
    requires k <= |r|
    ensures r == Xor(WithoutTop(r, k), AtTop(|r|, Leaving(r, k)))
    ensures Shl(WithoutTop(r, k), k) == Shl(r, k)
    ensures TopClear(WithoutTop(r, k), k)
  {
  }

  lemma AtTopXor(width: nat, a: seq<bool>, b: seq<bool>)
    requires |a| == |b| <= width
    ensures AtTop(width, Xor(a, b)) == Xor(AtTop(width, a), AtTop(width, b))
  {
  }

  /** Feeding into a register that holds only `held` at its top is feeding the combination. */
  lemma FeedHeld(poly: Word, held: seq<bool>, bits: seq<bool>)
    requires |poly| >= |bits| == |held|
    requires |poly| > 0
    ensures Feed(poly, AtTop(|poly|, held), bits) == Feed(poly, Zeros(|poly|), Xor(held, bits))
  {
    FeedAtTop(poly, AtTop(|poly|, held), bits);
    FeedAtTop(poly, Zeros(|poly|), Xor(held, bits));
    AtTopXor(|poly|, held, bits);
    XorZeros(AtTop(|poly|, Xor(held, bits)));
  }

  /** One look-up, one shift and one exclusive-or do the work of k bit-steps: the partial
      product depends only on the leaving bits combined with the incoming ones. */
  lemma {:induction false} FeedByLookup(poly: Word, r: Word, bits: seq<bool>)
    requires |poly| == |r| > 0
    requires |bits| <= |r|
    ensures Feed(poly, r, bits)
         == Xor(Shl(r, |bits|), Feed(poly, Zeros(|r|), Xor(Leaving(r, |bits|), bits)))
  {
    var n, k := |r|, |bits|;
    var low, high := WithoutTop(r, k), AtTop(n, Leaving(r, k));
    calc {
      Feed(poly, r, bits);
      { SplitAtTop(r, k); XorZeros(bits); }
      Feed(poly, Xor(low, high), Xor(Zeros(k), bits));
      { FeedLinear(poly, low, high, Zeros(k), bits); }
      Xor(Feed(poly, low, Zeros(k)), Feed(poly, high, bits));
      { SplitAtTop(r, k); FeedPlainShift(poly, low, k); }
      Xor(Shl(r, k), Feed(poly, high, bits));
      { FeedHeld(poly, Leaving(r, k), bits); }
      Xor(Shl(r, k), Feed(poly, Zeros(n), Xor(Leaving(r, k), bits)));
    }
  }

  // ----- The augmented run in terms of the unaugmented one

  /** Bits that entered at the low end wait there, unmixed, until they reach the top. */
  lemma AugStepWaiting(poly: Word, r: Word, waiting: Word, bit: bool)
    requires |poly| == |r| == |waiting| > 0
    requires !waiting[|r| - 1]
    ensures AugStep(poly, Xor(r, waiting), bit)
         == Xor(Step(poly, r, false), Xor(Shl(waiting, 1), OneBit(|r|, 0, bit)))
  {
  }

  lemma {:induction false} AugFeedSplit(poly: Word, r: Word, bits: seq<bool>)
    requires |poly| == |r| > 0
    requires |bits| <= |r|
    ensures AugFeed(poly, r, bits)
         == Xor(Feed(poly, r, Zeros(|bits|)), Resize(Reversed(bits), |r|))
    decreases |bits|
  {
    hide Xor, Step, AugStep, Zeros, Reversed, Resize, Shl;
    var n, k := |r|, |bits|;
    if k == 0 {
      assert Xor(r, Resize(Reversed(bits), n)) == r;
    } else {
      var front, last := bits[..k - 1], bits[k - 1];
      var waiting := Resize(Reversed(front), n);
      AugFeedSplit(poly, r, front);
      AugStepWaiting(poly, Feed(poly, r, Zeros(k - 1)), waiting, last);
      assert Zeros(k)[..k - 1] == Zeros(k - 1);
      assert Xor(Shl(waiting, 1), OneBit(n, 0, last)) == Resize(Reversed(bits), n);
    }
  }

  // ----- Messages of bytes

  /** The bits of a byte in the order they are read. */
  function ByteBits(lowFirst: bool, b: Byte): (bits: seq<bool>)
    ensures |bits| == CHAR_BIT
  {
    if lowFirst then b else Reversed(b)
  }

  function MessageBits(lowFirst: bool, message: seq<Byte>): (bits: seq<bool>)
    ensures |bits| == CHAR_BIT * |message|
    decreases |message|
  {
    if |message| == 0 then []
    else MessageBits(lowFirst, message[..|message| - 1]) + ByteBits(lowFirst, message[|message| - 1])
  }

  lemma {:induction false} MessageBitsConcat(lowFirst: bool, a: seq<Byte>, b: seq<Byte>)
    ensures MessageBits(lowFirst, a + b) == MessageBits(lowFirst, a) + MessageBits(lowFirst, b)
    decreases |b|
  {
    if |b| == 0 {
      assert a + b == a;
    } else {
      var front := b[..|b| - 1];
      assert (a + b)[..|a + b| - 1] == a + front;
      MessageBitsConcat(lowFirst, a, front);
    }
  }

  lemma MessageBitsSplit(lowFirst: bool, a: seq<Byte>, b: seq<Byte>)
    requires |a| == |b| > 0
    requires MessageBits(lowFirst, a) == MessageBits(lowFirst, b)
    ensures MessageBits(lowFirst, a[..|a| - 1]) == MessageBits(lowFirst, b[..|a| - 1])
    ensures a[|a| - 1] == b[|a| - 1]
  {
    hide Reversed;
    var k := |a| - 1;
    AppendInjective(MessageBits(lowFirst, a[..k]), ByteBits(lowFirst, a[k]),
                    MessageBits(lowFirst, b[..k]), ByteBits(lowFirst, b[k]));
    if !lowFirst {
      ReversedInjective(a[k], b[k]);
    }
  }

  lemma {:induction false} MessageBitsInjective(lowFirst: bool, a: seq<Byte>, b: seq<Byte>)
    requires |a| == |b|
    requires MessageBits(lowFirst, a) == MessageBits(lowFirst, b)
    ensures a == b
    decreases |a|
  {
    hide ByteBits;
    if |a| > 0 {
      var k := |a| - 1;
      MessageBitsSplit(lowFirst, a, b);
      MessageBitsInjective(lowFirst, a[..k], b[..k]);
      assert a == a[..k] + [a[k]] && b == b[..k] + [b[k]];
    }
  }

  function ZeroBytes(count: nat): (z: seq<Byte>)
    ensures |z| == count
  {
    seq(count, i => Zeros(CHAR_BIT))
  }

  lemma {:induction false} ZeroBytesAreZeros(count: nat)
    ensures MessageBits(false, ZeroBytes(count)) == Zeros(CHAR_BIT * count)
    decreases count
  {
    if count > 0 {
      ZeroBytesAreZeros(count - 1);
      assert ZeroBytes(count)[..count - 1] == ZeroBytes(count - 1);
      assert ByteBits(false, Zeros(8)) == Zeros(8);
      assert Zeros(8 * (count - 1)) + Zeros(8) == Zeros(8 * count);
    }
  }

  /** The message with the bits of every byte in the opposite order. */
  function MirroredBytes(message: seq<Byte>): (m: seq<Byte>)
    ensures |m| == |message|
  {
    seq(|message|, i requires 0 <= i < |message| => Reversed(message[i]))
  }

  lemma {:induction false} MirroredBytesReadOtherWay(message: seq<Byte>)
    ensures MessageBits(false, MirroredBytes(message)) == MessageBits(true, message)
    decreases |message|
  {
    hide Reversed;
    if |message| > 0 {
      var k := |message| - 1;
      MirroredBytesReadOtherWay(message[..k]);
      assert MirroredBytes(message)[..k] == MirroredBytes(message[..k]);
      ReversedTwice(message[k]);
    }
  }

  lemma AppendInjective(a: seq<bool>, b: seq<bool>, c: seq<bool>, d: seq<bool>)
    requires |a| == |c| && a + b == c + d
    ensures a == c && b == d
  {
    assert a == (a + b)[..|a|] && b == (a + b)[|a|..];
    assert c == (c + d)[..|a|] && d == (c + d)[|a|..];
  }

  /** Every bit string whose length is a multiple of 8 is read from some message. */
  lemma {:induction false} MessageOf(lowFirst: bool, bits: seq<bool>, count: nat) returns (message: seq<Byte>)
    requires |bits| == CHAR_BIT * count
    ensures |message| == count && MessageBits(lowFirst, message) == bits
    decreases count
  {
    if count == 0 {
      message := [];
    } else {
      var front, last := bits[..|bits| - 8], bits[|bits| - 8..];
      var m := MessageOf(lowFirst, front, count - 1);
      ReversedTwice(last);
      message := m + [if lowFirst then last else Reversed(last)];
      assert message[..count - 1] == m;
      assert front + last == bits;
    }
  }
}
