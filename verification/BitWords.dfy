/** Unsigned machine words as bit sequences: bit i of a word is the coefficient of 2^i.
    Every operation is defined bit by bit. */
module BitWords {

  type Word = seq<bool>

  const CHAR_BIT: nat := 8

  type Byte = b: Word | |b| == CHAR_BIT witness Zeros(8)

  function Zeros(n: nat): (z: Word)
    ensures |z| == n
    ensures forall i {:trigger z[i]} :: 0 <= i < n ==> !z[i]
  {
    seq(n, i => false)
  }

  /** The word whose only possibly set bit is bit k. */
  function OneBit(width: nat, k: nat, value: bool): (y: Word)
    ensures |y| == width
    ensures forall i {:trigger y[i]} :: 0 <= i < width ==> y[i] == (i == k && value)
  {
    seq(width, i => i == k && value)
  }

  function Xor(a: Word, b: Word): (x: Word)
    requires |a| == |b|
    ensures |x| == |a|
    ensures forall i {:trigger x[i]} :: 0 <= i < |a| ==> x[i] == (a[i] != b[i])
  {
    seq(|a|, i requires 0 <= i < |a| => a[i] != b[i])
  }

  function And(a: Word, b: Word): (x: Word)
    requires |a| == |b|
    ensures |x| == |a|
    ensures forall i {:trigger x[i]} :: 0 <= i < |a| ==> x[i] == (a[i] && b[i])
  {
    seq(|a|, i requires 0 <= i < |a| => a[i] && b[i])
  }

  function Or(a: Word, b: Word): (x: Word)
    requires |a| == |b|
    ensures |x| == |a|
    ensures forall i {:trigger x[i]} :: 0 <= i < |a| ==> x[i] == (a[i] || b[i])
  {
    seq(|a|, i requires 0 <= i < |a| => a[i] || b[i])
  }

  function Reversed(a: Word): (r: Word)
    ensures |r| == |a|
    ensures forall i {:trigger r[i]} :: 0 <= i < |a| ==> r[i] == a[|a| - 1 - i]
  {
    seq(|a|, i requires 0 <= i < |a| => a[|a| - 1 - i])
  }

  /** `x << k`, overflow dropped. */
  function Shl(x: Word, k: nat): (y: Word)
    ensures |y| == |x|
    ensures forall i {:trigger y[i]} :: 0 <= i < |x| ==> y[i] == (i >= k && x[i - k])
  {
    seq(|x|, i requires 0 <= i < |x| => i >= k && x[i - k])
  }

  /** `x >> k`. */
  function Shr(x: Word, k: nat): (y: Word)
    ensures |y| == |x|
    ensures forall i {:trigger y[i]} :: 0 <= i < |x| ==> y[i] == (i + k < |x| && x[i + k])
  {
    seq(|x|, i requires 0 <= i < |x| => i + k < |x| && x[i + k])
  }

  /** The low bits of x in a word of the given width: widens with zeros, or truncates. */
  function Resize(x: Word, width: nat): (y: Word)
    ensures |y| == width
    ensures forall i {:trigger y[i]} :: 0 <= i < width ==> y[i] == (i < |x| && x[i])
  {
    seq(width, i requires 0 <= i < width => i < |x| && x[i])
  }

  /** The low n bits in opposite order, the others left alone. */
  function Reflect(x: Word, n: nat): (y: Word)
    requires n <= |x|
    ensures |y| == |x|
    ensures forall i {:trigger y[i]} :: 0 <= i < |x| ==> y[i] == x[if i < n then n - 1 - i else i]
  {
    seq(|x|, i requires 0 <= i < |x| => x[if i < n then n - 1 - i else i])
  }

  /** Bits lo..lo+k of x, bit lo lowest. */
  function Field(x: Word, lo: nat, k: nat): (y: Word)
    requires lo + k <= |x|
    ensures |y| == k
    ensures forall i {:trigger y[i]} :: 0 <= i < k ==> y[i] == x[lo + i]
  {
    seq(k, i requires 0 <= i < k => x[lo + i])
  }

  function Pow2(n: nat): (p: nat)
    ensures p >= 1
  {
    if n == 0 then 1 else 2 * Pow2(n - 1)
  }

  function ToNat(x: Word): (n: nat)
    ensures n < Pow2(|x|)
  {
    if |x| == 0 then 0 else (if x[0] then 1 else 0) + 2 * ToNat(x[1..])
  }

  function FromNat(n: nat, width: nat): (x: Word)
    requires n < Pow2(width)
    ensures |x| == width
    ensures ToNat(x) == n
  {
    if width == 0 then [] else [n % 2 == 1] + FromNat(n / 2, width - 1)
  }

  lemma {:induction false} FromToNat(x: Word)
    ensures FromNat(ToNat(x), |x|) == x
  {
    if |x| > 0 {
      FromToNat(x[1..]);
      assert x == [x[0]] + x[1..];
    }
  }

  lemma ReversedTwice(x: Word)
    ensures Reversed(Reversed(x)) == x
  {
  }

  lemma ReversedInjective(a: Word, b: Word)
    requires |a| == |b|
    requires Reversed(a) == Reversed(b)
    ensures a == b
  {
    forall i | 0 <= i < |a| ensures a[i] == b[i] {
      assert Reversed(a)[|a| - 1 - i] == Reversed(b)[|a| - 1 - i];
    }
  }

  lemma ReversedXor(a: Word, b: Word)
    requires |a| == |b|
    ensures Reversed(Xor(a, b)) == Xor(Reversed(a), Reversed(b))
  {
  }

  lemma XorZeros(a: Word)
    ensures Xor(a, Zeros(|a|)) == a == Xor(Zeros(|a|), a)
    ensures Xor(a, a) == Zeros(|a|)
  {
  }

  lemma XorAssociative(a: Word, b: Word, c: Word)
    requires |a| == |b| == |c|
    ensures Xor(Xor(a, b), c) == Xor(a, Xor(b, c))
  {
  }

  /** Words differ exactly when their exclusive-or has a set bit. */
  lemma XorCancel(a: Word, b: Word)
    requires |a| == |b|
    ensures Xor(a, b) == Zeros(|a|) <==> a == b
    ensures Xor(a, Xor(a, b)) == b
  {
    if Xor(a, b) == Zeros(|a|) {
      forall i | 0 <= i < |a| ensures a[i] == b[i] {
        assert !Xor(a, b)[i];
      }
    }
    assert Xor(a, Xor(a, b)) == b;
  }
}
