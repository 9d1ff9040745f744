/** Which errors a checksum cannot miss: two messages of equal length that differ only inside
    n consecutive bits leave different registers, exactly when the divisor's constant
    coefficient is 1. */
module CrcBurst {
  import opened BitWords
  import opened CrcDivision

  /** With a constant coefficient of 1, shifting zeros loses nothing. */
  lemma ZeroStepKeepsNonZero(poly: Word, r: Word)
    requires |poly| == |r| > 0 && poly[0]
    requires Step(poly, r, false) == Zeros(|r|)
    ensures r == Zeros(|r|)
  {
    var s := Step(poly, r, false);
    assert !s[0];
    forall i | 0 <= i < |r| ensures !r[i] {
      assert i + 1 < |r| ==> !s[i + 1];
    }
  }

  lemma {:induction false} ZerosKeepNonZero(poly: Word, r: Word, k: nat)
    requires |poly| == |r| > 0 && poly[0]
    requires Feed(poly, r, Zeros(k)) == Zeros(|r|)
    ensures r == Zeros(|r|)
    decreases k
  {
    if k > 0 {
      assert Zeros(k)[..k - 1] == Zeros(k - 1);
      ZeroStepKeepsNonZero(poly, Feed(poly, r, Zeros(k - 1)));
      ZerosKeepNonZero(poly, r, k - 1);
    }
  }

  lemma {:induction false} ZerosStayZero(poly: Word, k: nat)
    requires |poly| > 0
    ensures Feed(poly, Zeros(|poly|), Zeros(k)) == Zeros(|poly|)
    decreases k
  {
    if k > 0 {
      ZerosStayZero(poly, k - 1);
      assert Zeros(k)[..k - 1] == Zeros(k - 1);
      assert Step(poly, Zeros(|poly|), false) == Zeros(|poly|);
    }
  }

  /** An error pattern alone: silence, at most n arbitrary bits, silence. */
  function Burst(before: nat, error: seq<bool>, after: nat): (bits: seq<bool>) {
    Zeros(before) + error + Zeros(after)
  }

  /** Its register is what the error, written at the top, becomes while zeros are shifted in. */
  lemma FeedBurst(poly: Word, before: nat, error: seq<bool>, after: nat)
    requires |poly| > 0 && |error| <= |poly|
    ensures Feed(poly, Zeros(|poly|), Burst(before, error, after))
         == Feed(poly, AtTop(|poly|, error), Zeros(|error| + after))
  {
    hide Zeros, Xor, AtTop, Step, Feed;
    var z := Zeros(|poly|);
    FeedConcat(poly, z, Zeros(before) + error, Zeros(after));
    FeedConcat(poly, z, Zeros(before), error);
    ZerosStayZero(poly, before);
    FeedAtTop(poly, z, error);
    XorZeros(AtTop(|poly|, error));
    assert Zeros(|error| + after) == Zeros(|error|) + Zeros(after);
    FeedConcat(poly, AtTop(|poly|, error), Zeros(|error|), Zeros(after));
  }

  predicate DifferOnlyWithin(a: seq<bool>, b: seq<bool>, from: nat, length: nat)
    requires |a| == |b|
  {
    forall i :: 0 <= i < |a| && !(from <= i < from + length) ==> a[i] == b[i]
  }

  /** Linearity: the registers differ by the register of the error alone. */
  lemma FeedDifference(poly: Word, r: Word, a: seq<bool>, b: seq<bool>)
    requires |poly| == |r| > 0 && |a| == |b|
    ensures Xor(Feed(poly, r, a), Feed(poly, r, b)) == Feed(poly, Zeros(|r|), Xor(a, b))
  {
    FeedLinear(poly, r, r, a, b);
    XorZeros(r);
  }

  lemma BurstOfDifference(a: seq<bool>, b: seq<bool>, from: nat, length: nat)
    requires |a| == |b| && from + length <= |a|
    requires DifferOnlyWithin(a, b, from, length)
    ensures Xor(a, b) == Burst(from, Xor(a, b)[from..from + length], |a| - from - length)
  {
  }

  lemma {:induction false} BurstIsDetected(poly: Word, r: Word, a: seq<bool>, b: seq<bool>, from: nat, length: nat)
    requires |poly| == |r| > 0 && poly[0]
    requires |a| == |b| && from + length <= |a| && length <= |poly|
    requires DifferOnlyWithin(a, b, from, length)
    requires a != b
    ensures Feed(poly, r, a) != Feed(poly, r, b)
  {
    hide Feed, Zeros, Burst, AtTop, Xor;
    if Feed(poly, r, a) == Feed(poly, r, b) {
      var error := Xor(a, b)[from..from + length];
      XorZeros(Feed(poly, r, a));
      FeedDifference(poly, r, a, b);
      BurstOfDifference(a, b, from, length);
      FeedBurst(poly, from, error, |a| - from - length);
      ZerosKeepNonZero(poly, AtTop(|poly|, error), length + (|a| - from - length));
      BurstOfNothing(|poly|, from, error, |a| - from - length);
      XorCancel(a, b);
      assert false;
    }
  }

  lemma BurstOfNothing(width: nat, before: nat, error: seq<bool>, after: nat)
    requires |error| <= width
    requires AtTop(width, error) == Zeros(width)
    ensures Burst(before, error, after) == Zeros(before + |error| + after)
  {
    forall i | 0 <= i < |error| ensures !error[i] {
      assert !AtTop(width, error)[width - 1 - i];
    }
  }

  /** Without the constant coefficient there is a register that one zero step wipes out. */
  function Vanishing(poly: Word): (r: Word)
    requires |poly| > 0
    ensures |r| == |poly|
    ensures forall i {:trigger r[i]} :: 0 <= i < |r| ==> r[i] == (i + 1 == |poly| || poly[i + 1])
  {
    seq(|poly|, i requires 0 <= i < |poly| => i + 1 == |poly| || poly[i + 1])
  }

  lemma VanishingVanishes(poly: Word)
    requires |poly| > 0 && !poly[0]
    ensures Step(poly, Vanishing(poly), false) == Zeros(|poly|)
    ensures AtTop(|poly|, Leaving(Vanishing(poly), |poly|)) == Vanishing(poly)
  {
  }

  lemma {:induction false} BurstGoesUnseen(poly: Word, after: nat)
    requires |poly| > 0 && !poly[0]
    ensures Feed(poly, Zeros(|poly|), Burst(0, Leaving(Vanishing(poly), |poly|), after)) == Zeros(|poly|)
  {
    hide Zeros, Step, Leaving, AtTop, Vanishing, Burst;
    var n, v := |poly|, Vanishing(poly);
    FeedBurst(poly, 0, Leaving(v, n), after);
    VanishingVanishes(poly);
    assert Zeros(n + after) == [false] + Zeros(n + after - 1);
    FeedConcat(poly, v, [false], Zeros(n + after - 1));
    FeedSnoc(poly, v, [], false);
    assert [] + [false] == [false];
    ZerosStayZero(poly, n + after - 1);
  }

  /** No two messages of equal length that differ within n consecutive bits collide. */
  ghost predicate DetectsBursts(poly: Word, lowFirst: bool)
    requires |poly| > 0
  {
    forall r: Word, a: seq<Byte>, b: seq<Byte>, from: nat, length: nat ::
      |r| == |poly| && |a| == |b| && a != b && length <= |poly|
      && from + length <= CHAR_BIT * |a|
      && DifferOnlyWithin(MessageBits(lowFirst, a), MessageBits(lowFirst, b), from, length)
      ==> Feed(poly, r, MessageBits(lowFirst, a)) != Feed(poly, r, MessageBits(lowFirst, b))
  }

  lemma DetectsBurstsExactly(poly: Word, lowFirst: bool)
    requires |poly| > 0
    ensures DetectsBursts(poly, lowFirst) <==> poly[0]
  {
    if poly[0] {
      forall r: Word, a: seq<Byte>, b: seq<Byte>, from: nat, length: nat |
        |r| == |poly| && |a| == |b| && a != b && length <= |poly|
        && from + length <= CHAR_BIT * |a|
        && DifferOnlyWithin(MessageBits(lowFirst, a), MessageBits(lowFirst, b), from, length)
        ensures Feed(poly, r, MessageBits(lowFirst, a)) != Feed(poly, r, MessageBits(lowFirst, b))
      {
        if MessageBits(lowFirst, a) == MessageBits(lowFirst, b) {
          MessageBitsInjective(lowFirst, a, b);
        }
        BurstIsDetected(poly, r, MessageBits(lowFirst, a), MessageBits(lowFirst, b), from, length);
      }
    } else {
      var n, z := |poly|, Zeros(|poly|);
      var error := Burst(0, Leaving(Vanishing(poly), n), 7 * n);
      var a := MessageOf(lowFirst, error, n);
      var b := MessageOf(lowFirst, Zeros(8 * n), n);
      BurstGoesUnseen(poly, 7 * n);
      ZerosStayZero(poly, 8 * n);
      assert error[0] && !Zeros(8 * n)[0];
      assert DifferOnlyWithin(MessageBits(lowFirst, a), MessageBits(lowFirst, b), 0, n);
      assert Feed(poly, z, MessageBits(lowFirst, a)) == Feed(poly, z, MessageBits(lowFirst, b));
      assert !DetectsBursts(poly, lowFirst);
    }
  }
}
