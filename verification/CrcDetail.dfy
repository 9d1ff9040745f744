/** The procedures both CRC classes are built from (namespace boost::detail of crc.hpp), each
    tied to the division it performs. A register word may be wider than the `n` bits in use;
    bits above those are stray and are written out here exactly as the procedures treat them. */
module CrcDetail {
  import opened BitWords
  import opened CrcDivision

  // ----- Reflection

  /** x with the k outermost pairs of its low n bits swapped. */
  function PartlyReflected(x: Word, n: nat, k: nat): (y: Word)
    requires n <= |x|
    ensures |y| == |x|
    ensures forall i {:trigger y[i]} :: 0 <= i < |x| ==>
              y[i] == x[if i < n && (i < k || n - 1 - i < k) then n - 1 - i else i]
  {
    seq(|x|, i requires 0 <= i < |x| => x[if i < n && (i < k || n - 1 - i < k) then n - 1 - i else i])
  }

  lemma ReflectionEnds(x: Word, n: nat, k: nat)
    requires 0 < n <= |x|
    ensures PartlyReflected(x, n, 0) == x
    ensures n <= 2 * k + 1 ==> PartlyReflected(x, n, k) == Reflect(x, n)
  {
  }

  /** Both single-bit tests fail exactly when the pair is equal, and then nothing need be done. */
  lemma SwapByMask(x: Word, n: nat, lo: nat, hi: nat, y: Word, l: Word, h: Word)
    requires n <= |x| && lo < hi && lo + hi == n - 1
    requires y == PartlyReflected(x, n, lo)
    requires l == OneBit(|x|, lo, true) && h == OneBit(|x|, hi, true)
    ensures var t := And(y, Xor(h, l));
            PartlyReflected(x, n, lo + 1) == if t == h || t == l then Xor(y, Xor(h, l)) else y
  {
    var t := And(y, Xor(h, l));
    assert t[lo] == y[lo] == x[lo] && t[hi] == y[hi] == x[hi];
    assert l[lo] && !l[hi] && h[hi] && !h[lo];
    if y[lo] && !y[hi] {
      assert t == l;
    } else if y[hi] && !y[lo] {
      assert t == h;
    }
  }

  /** Swaps bits from the two ends inwards; `lo` and `hi` are the places of the single-bit
      masks l and h. */
  method ReflectUnsigned(x: Word, wordLength: nat) returns (y: Word)
    requires 0 < wordLength <= |x|
    ensures y == Reflect(x, wordLength)
  {
    hide OneBit, Xor, And, PartlyReflected, Reflect;
    y := x;
    var lo, hi := 0, wordLength - 1;
    ReflectionEnds(x, wordLength, 0);
    while hi > lo
      invariant 0 <= lo && lo + hi == wordLength - 1
      invariant y == PartlyReflected(x, wordLength, lo)
    {
      var l, h := OneBit(|x|, lo, true), OneBit(|x|, hi, true);
      var m := Xor(h, l);
      var t := And(y, m);
      SwapByMask(x, wordLength, lo, hi, y, l, h);
      if t == h || t == l {
        y := Xor(y, m);
      }
      lo, hi := lo + 1, hi - 1;
    }
    ReflectionEnds(x, wordLength, lo);
  }

  method ReflectOptionally(x: Word, reflect: bool, wordLength: nat) returns (y: Word)
    requires 0 < wordLength <= |x|
    ensures y == if reflect then Reflect(x, wordLength) else x
  {
    if reflect {
      y := ReflectUnsigned(x, wordLength);
    } else {
      y := x;
    }
  }

  function ByteOf(value: nat): (b: Byte)
    requires value < 256
    ensures ToNat(b) == value
  {
    assert Pow2(8) == 256;
    FromNat(value, 8)
  }

  lemma EveryByte(b: Byte)
    ensures ToNat(b) < 256 && ByteOf(ToNat(b)) == b
  {
    assert Pow2(8) == 256;
    FromToNat(b);
  }

  /** The counter is an unsigned char: the loop ends when it wraps to zero. */
  method MakeByteReflectionTable() returns (result: array<Byte>)
    ensures result.Length == 256
    ensures forall b: Byte :: ToNat(b) < 256 && result[ToNat(b)] == Reversed(b)
  {
    hide Reversed, Reflect, Zeros, ByteOf, ToNat;
    result := new Byte[256](i => Zeros(8));
    var i, done := 0, false;
    while !done
      invariant 0 <= i < 256 && (done ==> i == 0)
      invariant forall j :: 0 <= j < (if done then 256 else i) ==> result[j] == Reversed(ByteOf(j))
      decreases !done, 256 - i
    {
      result[i] := ReflectUnsigned(ByteOf(i), CHAR_BIT);
      ReflectAll(ByteOf(i));
      i := (i + 1) % 256;
      done := i == 0;
    }
    forall b: Byte ensures ToNat(b) < 256 && result[ToNat(b)] == Reversed(b) {
      EveryByte(b);
    }
  }

  lemma ReflectAll(x: Word)
    ensures Reflect(x, |x|) == Reversed(x)
  {
  }

  method ReflectByte(x: Byte) returns (y: Byte)
    ensures y == Reversed(x)
  {
    var table := MakeByteReflectionTable();
    y := table[ToNat(x)];
  }

  /** The low n bits in opposite order; unlike Reflect it drops the others. */
  function SubByteReflection(x: Word, n: nat): (y: Word)
    requires n <= |x|
    ensures |y| == |x|
    ensures forall i {:trigger y[i]} :: 0 <= i < |x| ==> y[i] == (i < n && x[n - 1 - i])
  {
    seq(|x|, i requires 0 <= i < |x| => i < n && x[n - 1 - i])
  }

  method ReflectSubByte(x: Byte, wordLength: nat) returns (y: Byte)
    requires 0 < wordLength <= CHAR_BIT
    ensures y == SubByteReflection(x, wordLength)
  {
    y := ReflectByte(x);
    y := Shr(y, CHAR_BIT - wordLength);
  }

  // ----- Division by whole words

  /** The low bits of a word in the order division reads them. */
  function Incoming(bits: Word, wordLength: nat, lowFirst: bool): (order: seq<bool>)
    requires wordLength <= |bits|
    ensures |order| == wordLength
    ensures forall i {:trigger order[i]} :: 0 <= i < wordLength ==>
              order[i] == bits[if lowFirst then i else wordLength - 1 - i]
  {
    seq(wordLength, i requires 0 <= i < wordLength => bits[if lowFirst then i else wordLength - 1 - i])
  }

  lemma IncomingIsPrefix(bits: Word, wordLength: nat, reflect: bool)
    requires wordLength <= |bits|
    ensures Incoming(bits, wordLength, reflect)
         == Resize(if reflect then bits else Reflect(bits, wordLength), wordLength)
  {
  }

  /** The unaugmented shift-and-subtract on a wide register is one Step of its low bits. */
  lemma WideStep(n: nat, rem: Word, divisor: Word, bit: bool, met: Word)
    requires 0 < n <= |rem| == |divisor|
    requires met == Xor(rem, OneBit(|rem|, n - 1, bit))
    ensures Resize(if met[n - 1] then Xor(Shl(met, 1), divisor) else Shl(met, 1), n)
         == Step(Resize(divisor, n), Resize(rem, n), bit)
  {
    assert met[n - 1] == (Resize(rem, n)[n - 1] != bit);
  }

  lemma WideAugStep(n: nat, rem: Word, divisor: Word, bit: bool, shifted: Word)
    requires 0 < n <= |rem| == |divisor|
    requires shifted == Or(Shl(rem, 1), OneBit(|rem|, 0, bit))
    ensures Resize(if rem[n - 1] then Xor(shifted, divisor) else shifted, n)
         == AugStep(Resize(divisor, n), Resize(rem, n), bit)
  {
    assert Resize(rem, n)[n - 1] == rem[n - 1];
  }

  lemma ShrOnce(x: Word, k: nat)
    requires k < |x|
    ensures Shr(x, k)[0] == x[k]
    ensures Shr(Shr(x, k), 1) == Shr(x, k + 1)
    ensures Shr(x, 0) == x
  {
  }

  method CrcModuloWordUpdate(registerLength: nat, remainder: Word, newDividendBits: Word,
                             truncatedDivisor: Word, wordLength: nat, reflect: bool)
    returns (rem: Word)
    requires 0 < registerLength <= |remainder| == |truncatedDivisor|
    requires 0 < wordLength <= |newDividendBits|
    ensures |rem| == |remainder|
    ensures rem == Resize(Feed(Resize(truncatedDivisor, registerLength), Resize(remainder, registerLength),
                               Incoming(newDividendBits, wordLength, reflect)), |remainder|)
  {
    hide Resize, Reflect, Shr, Shl, Xor, OneBit, Incoming, Step, LowBits, Feed;
    var n, width := registerLength, |remainder|;
    ghost var poly := Resize(truncatedDivisor, n);
    ghost var incoming := Incoming(newDividendBits, wordLength, reflect);
    var bits := ReflectOptionally(newDividendBits, !reflect, wordLength);
    IncomingIsPrefix(newDividendBits, wordLength, reflect);
    ghost var all := bits;
    rem := remainder;
    var i := wordLength;
    ShrOnce(all, 0);
    FeedPrefix(poly, Resize(remainder, n), incoming, 0);
    while i > 0
      invariant 0 <= i <= wordLength
      invariant |rem| == width && |bits| == |all|
      invariant bits == Shr(all, wordLength - i)
      invariant Resize(rem, n) == Feed(poly, Resize(remainder, n), incoming[..wordLength - i])
    {
      ghost var k, before := wordLength - i, rem;
      ShrOnce(all, k);
      FeedPrefix(poly, Resize(remainder, n), incoming, k);
      rem := Xor(rem, OneBit(width, n - 1, bits[0]));
      WideStep(n, before, truncatedDivisor, bits[0], rem);
      var quotient := rem[n - 1];
      rem := Shl(rem, 1);
      if quotient {
        rem := Xor(rem, truncatedDivisor);
      }
      i, bits := i - 1, Shr(bits, 1);
    }
    LowBitsOfResize(rem, n);
    rem := LowBits(rem, n);
  }

  /** `x & (2^n - 1)`. */
  function LowBits(x: Word, n: nat): (y: Word)
    requires n <= |x|
    ensures |y| == |x|
    ensures forall i {:trigger y[i]} :: 0 <= i < |x| ==> y[i] == (i < n && x[i])
  {
    seq(|x|, i requires 0 <= i < |x| => i < n && x[i])
  }

  lemma LowBitsOfResize(x: Word, n: nat)
    requires n <= |x|
    ensures LowBits(x, n) == Resize(Resize(x, n), |x|)
  {
  }

  /** Straight-up division; the overflowed bits are not cleared. */
  method AugmentedCrcModuloWordUpdate(registerLength: nat, remainder: Word, newDividendBits: Word,
                                      truncatedDivisor: Word, wordLength: nat, reflect: bool)
    returns (rem: Word)
    requires 0 < registerLength <= |remainder| == |truncatedDivisor|
    requires 0 < wordLength <= |newDividendBits|
    ensures |rem| == |remainder|
    ensures Resize(rem, registerLength)
         == AugFeed(Resize(truncatedDivisor, registerLength), Resize(remainder, registerLength),
                    Incoming(newDividendBits, wordLength, reflect))
  {
    hide Resize, Reflect, Shr, Shl, Xor, Or, OneBit, Incoming, AugStep, AugFeed;
    var n, width := registerLength, |remainder|;
    ghost var poly := Resize(truncatedDivisor, n);
    ghost var incoming := Incoming(newDividendBits, wordLength, reflect);
    var bits := ReflectOptionally(newDividendBits, !reflect, wordLength);
    IncomingIsPrefix(newDividendBits, wordLength, reflect);
    ghost var all := bits;
    rem := remainder;
    var i := wordLength;
    ShrOnce(all, 0);
    AugFeedPrefix(poly, Resize(remainder, n), incoming, 0);
    while i > 0
      invariant 0 <= i <= wordLength
      invariant |rem| == width && |bits| == |all|
      invariant bits == Shr(all, wordLength - i)
      invariant Resize(rem, n) == AugFeed(poly, Resize(remainder, n), incoming[..wordLength - i])
    {
      ghost var k, before := wordLength - i, rem;
      ShrOnce(all, k);
      AugFeedPrefix(poly, Resize(remainder, n), incoming, k);
      var quotient := rem[n - 1];
      rem := Shl(rem, 1);
      rem := Or(rem, OneBit(width, 0, bits[0]));
      WideAugStep(n, before, truncatedDivisor, bits[0], rem);
      if quotient {
        rem := Xor(rem, truncatedDivisor);
      }
      i, bits := i - 1, Shr(bits, 1);
    }
  }
}
