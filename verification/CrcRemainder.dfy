/** What the bit-steps compute: the remainder of polynomial division over GF(2).
    A polynomial is a word (bit i is the coefficient of x^i); a quotient is listed highest
    coefficient first, in the order division finds it. */
module CrcRemainder {
  import opened BitWords
  import opened CrcDivision

  function TimesX(a: Word): (p: Word)
    ensures |p| == |a| + 1
    ensures forall i {:trigger p[i]} :: 0 <= i <= |a| ==> p[i] == (i > 0 && a[i - 1])
  {
    seq(|a| + 1, i requires 0 <= i <= |a| => i > 0 && a[i - 1])
  }

  /** The full divisor x^n + poly, or zero, in a word of the given width. */
  function Divisor(poly: Word, coefficient: bool, width: nat): (p: Word)
    ensures |p| == width
    ensures forall i {:trigger p[i]} :: 0 <= i < width ==>
              p[i] == (coefficient && (i == |poly| || (i < |poly| && poly[i])))
  {
    seq(width, i requires 0 <= i < width => coefficient && (i == |poly| || (i < |poly| && poly[i])))
  }

  /** quotient * (x^n + poly) */
  function Product(quotient: seq<bool>, poly: Word): (p: Word)
    ensures |p| == |quotient| + |poly|
    decreases |quotient|
  {
    var k := |quotient|;
    if k == 0 then Zeros(|poly|)
    else Xor(TimesX(Product(quotient[..k - 1], poly)), Divisor(poly, quotient[k - 1], k + |poly|))
  }

  /** r is what is left of `dividend` after taking out a multiple of the divisor. */
  ghost predicate IsRemainder(poly: Word, dividend: Word, r: Word) {
    |r| == |poly| <= |dividend| &&
    exists quotient: seq<bool> :: IsDivision(poly, dividend, quotient, r)
  }

  ghost predicate IsDivision(poly: Word, dividend: Word, quotient: seq<bool>, r: Word) {
    && |dividend| == |quotient| + |poly|
    && dividend == Xor(Product(quotient, poly), Resize(r, |dividend|))
  }

  // ----- A remainder is unique

  lemma {:induction false} ProductOfNonZero(quotient: seq<bool>, poly: Word, j: nat) returns (i: nat)
    requires j < |quotient| && quotient[j]
    ensures |poly| <= i < |quotient| + |poly| && Product(quotient, poly)[i]
    decreases |quotient|
  {
    var k := |quotient|;
    if j' :| 0 <= j' < k - 1 && quotient[j'] {
      i := ProductOfNonZero(quotient[..k - 1], poly, j');
      i := i + 1;
    } else {
      ProductOfZero(quotient[..k - 1], poly);
      i := |poly|;
    }
  }

  lemma {:induction false} ProductOfZero(quotient: seq<bool>, poly: Word)
    requires forall j :: 0 <= j < |quotient| ==> !quotient[j]
    ensures Product(quotient, poly) == Zeros(|quotient| + |poly|)
    decreases |quotient|
  {
    if |quotient| > 0 {
      ProductOfZero(quotient[..|quotient| - 1], poly);
    }
  }

  /** No non-zero multiple of the divisor is of lower degree than the divisor. */
  lemma OnlyZeroIsShort(quotient: seq<bool>, poly: Word)
    requires forall i :: |poly| <= i < |quotient| + |poly| ==> !Product(quotient, poly)[i]
    ensures forall j :: 0 <= j < |quotient| ==> !quotient[j]
  {
    if j :| 0 <= j < |quotient| && quotient[j] {
      var i := ProductOfNonZero(quotient, poly, j);
      assert false;
    }
  }

  lemma {:induction false} ProductLinear(a: seq<bool>, b: seq<bool>, poly: Word)
    requires |a| == |b|
    ensures Product(Xor(a, b), poly) == Xor(Product(a, poly), Product(b, poly))
    decreases |a|
  {
    if |a| == 0 {
      XorZeros(Zeros(|poly|));
    } else {
      var k := |a| - 1;
      assert Xor(a, b)[..k] == Xor(a[..k], b[..k]);
      ProductLinear(a[..k], b[..k], poly);
      TermsAdd(Product(a[..k], poly), Product(b[..k], poly), poly, a[k], b[k]);
    }
  }

  lemma TermsAdd(p: Word, q: Word, poly: Word, a: bool, b: bool)
    requires |p| == |q|
    ensures Xor(TimesX(Xor(p, q)), Divisor(poly, a != b, |p| + 1))
         == Xor(Xor(TimesX(p), Divisor(poly, a, |p| + 1)), Xor(TimesX(q), Divisor(poly, b, |p| + 1)))
  {
  }

  lemma DivisionUnique(poly: Word, dividend: Word, q: seq<bool>, r: Word, q': seq<bool>, r': Word)
    requires |r| == |r'| == |poly|
    requires IsDivision(poly, dividend, q, r) && IsDivision(poly, dividend, q', r')
    ensures q == q' && r == r'
  {
    var d := Xor(q, q');
    var high, low := Product(d, poly), Xor(Resize(r, |dividend|), Resize(r', |dividend|));
    assert high == low by {
      ProductLinear(q, q', poly);
      DivisionsDiffer(dividend, Product(q, poly), Resize(r, |dividend|), Product(q', poly), Resize(r', |dividend|));
    }
    OnlyZeroIsShort(d, poly);
    ProductOfZero(d, poly);
    assert d == Zeros(|q|) && low == Zeros(|dividend|);
    XorCancel(q, q');
    XorCancel(Resize(r, |dividend|), Resize(r', |dividend|));
    forall i | 0 <= i < |poly| ensures r[i] == r'[i] {
      assert Resize(r, |dividend|)[i] == Resize(r', |dividend|)[i];
    }
  }

  lemma DivisionsDiffer(d: Word, p: Word, r: Word, p': Word, r': Word)
    requires |d| == |p| == |p'| == |r| == |r'|
    requires d == Xor(p, r) == Xor(p', r')
    ensures Xor(p, p') == Xor(r, r')
  {
    forall i | 0 <= i < |d| ensures Xor(p, p')[i] == Xor(r, r')[i] {
      assert d[i] == (p[i] != r[i]) == (p'[i] != r'[i]);
    }
  }

  // ----- The unaugmented run divides r * x^k + message * x^n

  function Dividend(r: Word, bits: seq<bool>): (d: Word)
    ensures |d| == |r| + |bits|
    ensures forall i {:trigger d[i]} :: 0 <= i < |d| ==>
              d[i] == ((i >= |bits| && r[i - |bits|]) != (i >= |r| && bits[|d| - 1 - i]))
  {
    var width := |r| + |bits|;
    seq(width, i requires 0 <= i < width =>
      (i >= |bits| && r[i - |bits|]) != (i >= |r| && bits[width - 1 - i]))
  }

  function Quotient(poly: Word, r: Word, bits: seq<bool>): (q: seq<bool>)
    requires |poly| == |r| > 0
    ensures |q| == |bits|
    decreases |bits|
  {
    var k := |bits| - 1;
    if |bits| == 0 then []
    else Quotient(poly, r, bits[..k]) + [Feed(poly, r, bits[..k])[|r| - 1] != bits[k]]
  }

  lemma DividendSnoc(r: Word, bits: seq<bool>)
    requires |bits| > 0
    ensures Dividend(r, bits)
         == Xor(TimesX(Dividend(r, bits[..|bits| - 1])), OneBit(|r| + |bits|, |r|, bits[|bits| - 1]))
  {
  }

  /** One step of division: x * (P + R) + b * x^n == (x * P + q * divisor) + R'. */
  lemma DivideOneStep(poly: Word, p: Word, r: Word, bit: bool)
    requires |poly| == |r| > 0
    requires |p| >= |r|
    ensures Xor(TimesX(Xor(p, Resize(r, |p|))), OneBit(|p| + 1, |r|, bit))
         == Xor(Xor(TimesX(p), Divisor(poly, r[|r| - 1] != bit, |p| + 1)),
                Resize(Step(poly, r, bit), |p| + 1))
  {
  }

  lemma DivisionExtends(poly: Word, d: Word, q: seq<bool>, r: Word, bit: bool)
    requires |poly| == |r| > 0 && IsDivision(poly, d, q, r)
    ensures IsDivision(poly, Xor(TimesX(d), OneBit(|d| + 1, |r|, bit)), q + [r[|r| - 1] != bit], Step(poly, r, bit))
  {
    hide Xor, Step, OneBit, Resize, TimesX, Divisor;
    DivideOneStep(poly, Product(q, poly), r, bit);
    assert (q + [r[|r| - 1] != bit])[..|q|] == q;
  }

  lemma {:induction false} FeedDivides(poly: Word, r: Word, bits: seq<bool>)
    requires |poly| == |r| > 0
    ensures IsDivision(poly, Dividend(r, bits), Quotient(poly, r, bits), Feed(poly, r, bits))
    decreases |bits|
  {
    if |bits| == 0 {
      EmptyDivision(r);
    } else {
      hide Xor, Step, OneBit, Resize, TimesX, Dividend, IsDivision;
      var k := |bits| - 1;
      FeedDivides(poly, r, bits[..k]);
      DividendSnoc(r, bits);
      DivisionExtends(poly, Dividend(r, bits[..k]), Quotient(poly, r, bits[..k]), Feed(poly, r, bits[..k]), bits[k]);
    }
  }

  lemma EmptyDivision(r: Word)
    ensures Dividend(r, []) == r == Xor(Zeros(|r|), Resize(r, |r|))
  {
  }

  /** The register is the remainder, and nothing else is. */
  lemma FeedIsTheRemainder(poly: Word, r: Word, bits: seq<bool>, x: Word)
    requires |poly| == |r| > 0
    ensures IsRemainder(poly, Dividend(r, bits), x) <==> x == Feed(poly, r, bits)
  {
    FeedDivides(poly, r, bits);
    if IsRemainder(poly, Dividend(r, bits), x) {
      var q :| IsDivision(poly, Dividend(r, bits), q, x);
      DivisionUnique(poly, Dividend(r, bits), q, x, Quotient(poly, r, bits), Feed(poly, r, bits));
    }
  }

  // ----- The augmented run divides r * x^k + message

  function AugDividend(r: Word, bits: seq<bool>): (d: Word)
    ensures |d| == |r| + |bits|
    ensures forall i {:trigger d[i]} :: 0 <= i < |d| ==>
              d[i] == if i >= |bits| then r[i - |bits|] else bits[|bits| - 1 - i]
  {
    seq(|r| + |bits|, i requires 0 <= i < |r| + |bits| =>
      if i >= |bits| then r[i - |bits|] else bits[|bits| - 1 - i])
  }

  function AugQuotient(poly: Word, r: Word, bits: seq<bool>): (q: seq<bool>)
    requires |poly| == |r| > 0
    ensures |q| == |bits|
    decreases |bits|
  {
    var k := |bits| - 1;
    if |bits| == 0 then []
    else AugQuotient(poly, r, bits[..k]) + [AugFeed(poly, r, bits[..k])[|r| - 1]]
  }

  lemma AugDividendSnoc(r: Word, bits: seq<bool>)
    requires |bits| > 0
    ensures AugDividend(r, bits)
         == Xor(TimesX(AugDividend(r, bits[..|bits| - 1])), OneBit(|r| + |bits|, 0, bits[|bits| - 1]))
  {
  }

  /** x * (P + R) + b == (x * P + q * divisor) + R'. */
  lemma AugDivideOneStep(poly: Word, p: Word, r: Word, bit: bool)
    requires |poly| == |r| > 0
    requires |p| >= |r|
    ensures Xor(TimesX(Xor(p, Resize(r, |p|))), OneBit(|p| + 1, 0, bit))
         == Xor(Xor(TimesX(p), Divisor(poly, r[|r| - 1], |p| + 1)),
                Resize(AugStep(poly, r, bit), |p| + 1))
  {
  }

  lemma EmptyAugDivision(r: Word)
    ensures AugDividend(r, []) == r == Xor(Zeros(|r|), Resize(r, |r|))
  {
  }

  lemma AugDivisionExtends(poly: Word, d: Word, q: seq<bool>, r: Word, bit: bool)
    requires |poly| == |r| > 0 && IsDivision(poly, d, q, r)
    ensures IsDivision(poly, Xor(TimesX(d), OneBit(|d| + 1, 0, bit)), q + [r[|r| - 1]], AugStep(poly, r, bit))
  {
    hide Xor, AugStep, OneBit, Resize, TimesX, Divisor;
    AugDivideOneStep(poly, Product(q, poly), r, bit);
    assert (q + [r[|r| - 1]])[..|q|] == q;
  }

  lemma {:induction false} AugFeedDivides(poly: Word, r: Word, bits: seq<bool>)
    requires |poly| == |r| > 0
    ensures IsDivision(poly, AugDividend(r, bits), AugQuotient(poly, r, bits), AugFeed(poly, r, bits))
    decreases |bits|
  {
    if |bits| == 0 {
      EmptyAugDivision(r);
    } else {
      hide Xor, AugStep, OneBit, Resize, TimesX, AugDividend, IsDivision;
      var k := |bits| - 1;
      AugFeedDivides(poly, r, bits[..k]);
      AugDividendSnoc(r, bits);
      AugDivisionExtends(poly, AugDividend(r, bits[..k]), AugQuotient(poly, r, bits[..k]),
                         AugFeed(poly, r, bits[..k]), bits[k]);
    }
  }

  lemma AugFeedIsTheRemainder(poly: Word, r: Word, bits: seq<bool>, x: Word)
    requires |poly| == |r| > 0
    ensures IsRemainder(poly, AugDividend(r, bits), x) <==> x == AugFeed(poly, r, bits)
  {
    AugFeedDivides(poly, r, bits);
    if IsRemainder(poly, AugDividend(r, bits), x) {
      var q :| IsDivision(poly, AugDividend(r, bits), q, x);
      DivisionUnique(poly, AugDividend(r, bits), q, x, AugQuotient(poly, r, bits), AugFeed(poly, r, bits));
    }
  }

  // ----- The two forms agree

  lemma StepOfLowBit(poly: Word, bit: bool)
    requires |poly| > 0
    ensures Step(poly, OneBit(|poly|, |poly| - 1, bit), false) == Step(poly, Zeros(|poly|), bit)
  {
  }

  /** A bit that entered the low end takes n steps to do what an unaugmented bit does at once. */
  lemma {:induction false} LowBitDelayed(poly: Word, bit: bool)
    requires |poly| > 0
    ensures Feed(poly, OneBit(|poly|, 0, bit), Zeros(|poly|)) == Step(poly, Zeros(|poly|), bit)
  {
    hide Xor, Step, OneBit, Shl, Zeros;
    var n := |poly|;
    OneBitShifts(n, n - 1, bit);
    FeedPlainShift(poly, OneBit(n, 0, bit), n - 1);
    assert Zeros(n)[..n - 1] == Zeros(n - 1);
    StepOfLowBit(poly, bit);
  }

  lemma AugStepDelayed(poly: Word, r: Word, bit: bool)
    requires |poly| == |r| > 0
    ensures Feed(poly, AugStep(poly, r, bit), Zeros(|r|)) == Step(poly, Feed(poly, r, Zeros(|r|)), bit)
  {
    hide Xor, Step, AugStep, OneBit, Shl, Zeros, Feed;
    var n, z := |r|, Zeros(|r|);
    calc {
      Feed(poly, AugStep(poly, r, bit), z);
      { AugStepSplit(poly, r, bit); XorZeros(z); }
      Feed(poly, Xor(Step(poly, r, false), OneBit(n, 0, bit)), Xor(z, z));
      { FeedLinear(poly, Step(poly, r, false), OneBit(n, 0, bit), z, z); }
      Xor(Feed(poly, Step(poly, r, false), z), Feed(poly, OneBit(n, 0, bit), z));
      { StepThenZeros(poly, r); LowBitDelayed(poly, bit); }
      Xor(Step(poly, Feed(poly, r, z), false), Step(poly, z, bit));
      { StepLinear(poly, Feed(poly, r, z), z, false, bit); XorZeros(Feed(poly, r, z)); }
      Step(poly, Feed(poly, r, z), bit);
    }
  }

  lemma AugStepSplit(poly: Word, r: Word, bit: bool)
    requires |poly| == |r| > 0
    ensures AugStep(poly, r, bit) == Xor(Step(poly, r, false), OneBit(|r|, 0, bit))
  {
  }

  lemma {:induction false} StepThenZeros(poly: Word, r: Word)
    requires |poly| == |r| > 0
    ensures Feed(poly, Step(poly, r, false), Zeros(|r|)) == Step(poly, Feed(poly, r, Zeros(|r|)), false)
  {
    hide Step, Zeros;
    var z := Zeros(|r|);
    assert [false] + z == z + [false];
    FeedConcat(poly, r, [false], z);
    FeedSnoc(poly, r, z, false);
    FeedSnoc(poly, r, [], false);
    assert [] + [false] == [false];
  }

  /** The start value of an augmented run, converted for an unaugmented one, is that value
      followed by n zeros; augmenting the message with n zeros then gives the same register. */
  lemma {:induction false} AugmentedAgrees(poly: Word, r: Word, bits: seq<bool>)
    requires |poly| == |r| > 0
    ensures AugFeed(poly, r, bits + Zeros(|r|)) == Feed(poly, Feed(poly, r, Zeros(|r|)), bits)
  {
    hide Zeros, Reversed, Resize, Xor;
    AugFeedConcat(poly, r, bits, Zeros(|r|));
    AugFeedSplit(poly, AugFeed(poly, r, bits), Zeros(|r|));
    ReversedZeros(|r|);
    XorZeros(Feed(poly, AugFeed(poly, r, bits), Zeros(|r|)));
    AugFeedDelayed(poly, r, bits);
  }

  lemma ReversedZeros(n: nat)
    ensures Resize(Reversed(Zeros(n)), n) == Zeros(n)
  {
  }

  lemma {:induction false} AugFeedDelayed(poly: Word, r: Word, bits: seq<bool>)
    requires |poly| == |r| > 0
    ensures Feed(poly, AugFeed(poly, r, bits), Zeros(|r|)) == Feed(poly, Feed(poly, r, Zeros(|r|)), bits)
    decreases |bits|
  {
    if |bits| > 0 {
      var k := |bits| - 1;
      AugFeedDelayed(poly, r, bits[..k]);
      AugStepDelayed(poly, AugFeed(poly, r, bits[..k]), bits[k]);
    }
  }

  /** Following the message by n bits leaves zero exactly when those bits are its checksum,
      highest coefficient first. */
  lemma {:induction false} ResidueIsZero(poly: Word, r: Word, bits: seq<bool>, check: seq<bool>)
    requires |poly| == |r| == |check| > 0
    ensures AugFeed(poly, r, bits + check) == Zeros(|r|)
       <==> Reversed(check) == Feed(poly, Feed(poly, r, Zeros(|r|)), bits)
  {
    hide Zeros, Reversed, Resize, Xor;
    AugFeedConcat(poly, r, bits, check);
    AugFeedSplit(poly, AugFeed(poly, r, bits), check);
    AugFeedDelayed(poly, r, bits);
    XorCancel(Feed(poly, AugFeed(poly, r, bits), Zeros(|r|)), Reversed(check));
    assert Resize(Reversed(check), |r|) == Reversed(check);
  }
}
