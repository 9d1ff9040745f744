/** Rational gcd and lcm, the laws of arithmetic on concrete pairs, and what happens on a
    built-in signed integer type with range [lo, -lo - 1], no narrower than int. */
module RationalBounds {
  import opened IntegerGcd
  import opened Coprime
  import opened RationalNumbers
  import opened Wrappers

  // ----- The normal-form test of the converting constructors

  /** inner_gcd works on signed arguments, with the truncated remainder. */
  function InnerGcd(a: int, b: int): (g: int)
    decreases Abs(b)
  {
    if b == 0 then a else TruncDivMod(a, b); InnerGcd(b, TruncMod(a, b))
  }

  lemma {:induction false} InnerGcdIsGcd(a: int, b: int)
    ensures Abs(InnerGcd(a, b)) == Gcd(Abs(a), Abs(b))
    decreases Abs(b)
  {
    if b != 0 {
      TruncDivMod(a, b);
      InnerGcdIsGcd(b, TruncMod(a, b));
    }
  }

  predicate IsNormalized(n: int, d: int) {
    d > 0 && (n != 0 || d == 1) && Abs(InnerGcd(n, d)) == 1
  }

  lemma IsNormalizedDecides(n: int, d: int)
    ensures IsNormalized(n, d) <==> Normalized(n, d)
  {
    InnerGcdIsGcd(n, d);
    GcdOfZero(Abs(d));
  }

  // ----- gcd and lcm of fractions

  /** lcm is the gcd's cofactor. */
  lemma LcmTimesGcd(a: int, b: int)
    ensures Lcm(a, b) * Gcd(Abs(a), Abs(b)) == Abs(a) * Abs(b)
    ensures a != 0 && b != 0 ==> Lcm(a, b) > 0
    ensures a == 0 || b == 0 ==> Lcm(a, b) == 0
  {
    hide Gcd;
    var g := Gcd(Abs(a), Abs(b));
    GcdPositive(Abs(a), Abs(b));
    if g != 0 {
      GcdDivides(Abs(a), Abs(b));
      var k :| Abs(a) == Mul(k, g);
      QuotientOfMultiple(k, g);
      assert k * Abs(b) * g == (k * g) * Abs(b);
      if a != 0 && b != 0 {
        PositiveFactor(k, g);
        PositiveProduct(k, Abs(b));
      }
    }
  }

  lemma QuotientOfMultiple(k: int, g: int)
    requires g > 0
    ensures k * g / g == k
  {
    DivisionUnique(k * g, g, k, 0);
  }

  lemma CoprimeToGcd(a: int, b: int, c: int)
    requires AreCoprime(a, b)
    ensures AreCoprime(Gcd(Abs(a), Abs(c)), b)
    ensures AreCoprime(a, Gcd(Abs(b), Abs(c)))
  {
    hide Gcd, AreCoprime;
    GcdDivides(Abs(a), Abs(c));
    var a' := SignedFactor(a, Gcd(Abs(a), Abs(c)));
    CoprimeFactorOf(a, Gcd(Abs(a), Abs(c)), a', b);
    GcdDivides(Abs(b), Abs(c));
    var b' := SignedFactor(b, Gcd(Abs(b), Abs(c)));
    assert b == Gcd(Abs(b), Abs(c)) * b';
    CoprimeLeft(a, Gcd(Abs(b), Abs(c)), b');
  }

  /** What gcd_evaluator hands to the constructor is already in lowest terms. */
  lemma {:induction false} GcdAlreadyReduced(a: int, b: int, c: int, d: int)
    requires Normalized(a, b) && Normalized(c, d)
    ensures Normalized(Gcd(Abs(a), Abs(c)), Lcm(b, d))
  {
    hide Gcd, AreCoprime, Lcm;
    var g, l := Gcd(Abs(a), Abs(c)), Lcm(b, d);
    CoprimeIsGcdOne(a, b);
    CoprimeIsGcdOne(c, d);
    CoprimeToGcd(a, b, c);
    CoprimeToGcd(c, d, a);
    GcdSymmetric(Abs(a), Abs(c));
    LcmTimesGcd(b, d);
    CoprimeProduct(g, b, d);
    CoprimeLeft(g, l, Gcd(Abs(b), Abs(d)));
    CoprimeIsGcdOne(g, l);
  }

  lemma {:induction false} LcmAlreadyReduced(a: int, b: int, c: int, d: int)
    requires Normalized(a, b) && Normalized(c, d)
    ensures Normalized(Lcm(a, c), Gcd(Abs(b), Abs(d)))
  {
    hide Gcd, AreCoprime, Lcm;
    var m, g := Lcm(a, c), Gcd(Abs(b), Abs(d));
    CoprimeIsGcdOne(a, b);
    CoprimeIsGcdOne(c, d);
    CoprimeToGcd(a, b, d);
    CoprimeToGcd(c, d, b);
    GcdSymmetric(Abs(b), Abs(d));
    GcdPositive(Abs(b), Abs(d));
    CoprimeOfAbs(a, g);
    CoprimeOfAbs(c, g);
    ProductCoprime(Abs(a), Abs(c), g);
    LcmTimesGcd(a, c);
    if Gcd(Abs(a), Abs(c)) != 0 {
      CoprimeFactorOf(Abs(a) * Abs(c), m, Gcd(Abs(a), Abs(c)), g);
    } else {
      GcdPositive(Abs(a), Abs(c));
    }
    CoprimeIsGcdOne(m, g);
  }

  lemma CoprimeOfAbs(a: int, b: int)
    requires AreCoprime(a, b)
    ensures AreCoprime(Abs(a), b)
  {
    CoprimeIsGcdOne(a, b);
    CoprimeIsGcdOne(Abs(a), b);
  }

  /** Each argument is an integer multiple of the gcd. */
  lemma {:induction false} GcdMeasures(a: int, b: int, c: int, d: int) returns (k: int)
    requires b > 0 && d > 0 && (a != 0 || c != 0)
    ensures Lcm(b, d) > 0
    ensures Quotient(a, b) == k as real * Quotient(Gcd(Abs(a), Abs(c)), Lcm(b, d))
  {
    hide Gcd, Quotient, Lcm;
    var g, l, h := Gcd(Abs(a), Abs(c)), Lcm(b, d), Gcd(Abs(b), Abs(d));
    GcdDivides(Abs(a), Abs(c));
    GcdPositive(Abs(a), Abs(c));
    GcdDivides(Abs(b), Abs(d));
    LcmTimesGcd(b, d);
    var a' := SignedFactor(a, g);
    var d' := SignedFactor(d, h);
    assert l == b * d' by {
      GcdPositive(Abs(b), Abs(d));
      assert l * h == (b * d') * h;
      CancelFactor(l, b * d', h);
    }
    k := a' * d';
    assert a * l == (k * g) * b by {
      assert a * l == (a' * g) * (b * d');
    }
    QuotientEqual(a, b, k * g, l);
    QuotientOfInteger(k);
    QuotientProduct(k, 1, g, l);
  }

  lemma QuotientOfInteger(k: int)
    ensures Quotient(k, 1) == k as real
  {
  }

  /** gcd times lcm is the absolute product. */
  lemma GcdTimesLcm(a: int, b: int, c: int, d: int)
    requires b > 0 && d > 0
    ensures Lcm(b, d) > 0 && Gcd(Abs(b), Abs(d)) > 0
    ensures Quotient(Gcd(Abs(a), Abs(c)), Lcm(b, d)) * Quotient(Lcm(a, c), Gcd(Abs(b), Abs(d)))
         == Quotient(Abs(a), b) * Quotient(Abs(c), d)
  {
    hide Gcd, Quotient, Lcm;
    LcmTimesGcd(a, c);
    LcmTimesGcd(b, d);
    GcdPositive(Abs(b), Abs(d));
    QuotientProduct(Gcd(Abs(a), Abs(c)), Lcm(b, d), Lcm(a, c), Gcd(Abs(b), Abs(d)));
    QuotientProduct(Abs(a), b, Abs(c), d);
    assert Gcd(Abs(a), Abs(c)) * Lcm(a, c) == Abs(a) * Abs(c);
  }

  // ----- The laws hold on the pairs themselves

  method Sum(a: Rational, b: Rational) returns (t: Rational)
    requires a.Valid() && b.Valid()
    ensures fresh(t) && t.Valid() && t.Value() == a.Value() + b.Value()
  {
    t := new Rational.Unreduced(a.num, a.den);
    t.AddAssign(b);
  }

  method Product(a: Rational, b: Rational) returns (t: Rational)
    requires a.Valid() && b.Valid()
    ensures fresh(t) && t.Valid() && t.Value() == a.Value() * b.Value()
  {
    t := new Rational.Unreduced(a.num, a.den);
    t.MulAssign(b);
  }

  /** Both groupings of a sum end with the same numerator and the same denominator. */
  method SumsAgree(a: Rational, b: Rational, c: Rational) returns (s: Rational, t: Rational)
    requires a.Valid() && b.Valid() && c.Valid()
    ensures s.num == t.num && s.den == t.den
    ensures s.Valid() && s.Value() == a.Value() + b.Value() + c.Value()
  {
    hide Normalized, Quotient;
    var ab := Sum(a, b);
    var bc := Sum(b, c);
    s := Sum(ab, c);
    t := Sum(a, bc);
    NormalizedUnique(s.num, s.den, t.num, t.den);
  }

  /** So do both groupings of a product. */
  method ProductsAgree(a: Rational, b: Rational, c: Rational) returns (s: Rational, t: Rational)
    requires a.Valid() && b.Valid() && c.Valid()
    ensures s.num == t.num && s.den == t.den
    ensures s.Valid() && s.Value() == a.Value() * b.Value() * c.Value()
  {
    hide Normalized, Quotient;
    var ab := Product(a, b);
    var bc := Product(b, c);
    s := Product(ab, c);
    t := Product(a, bc);
    NormalizedUnique(s.num, s.den, t.num, t.den);
  }

  /** And both sides of the distributive law. */
  method ProductDistributes(a: Rational, b: Rational, c: Rational) returns (s: Rational, t: Rational)
    requires a.Valid() && b.Valid() && c.Valid()
    ensures s.num == t.num && s.den == t.den
    ensures s.Valid() && s.Value() == a.Value() * (b.Value() + c.Value())
  {
    hide Normalized, Quotient;
    var bc := Sum(b, c);
    s := Product(a, bc);
    var ab := Product(a, b);
    var ac := Product(a, c);
    t := Sum(ab, ac);
    NormalizedUnique(s.num, s.den, t.num, t.den);
  }

  // ----- Arithmetic on a bounded type

  /** An operation either yields a pair, or throws, or has an undefined result on the way:
      a value out of range, or a gcd that is not defined. Dividing by a positive gcd always
      stays in range. */
  datatype Outcome = Constructed(n: int, d: int) | Threw | Undefined

  lemma FactorIsSmaller(a: int, g: int)
    requires g > 0
    ensures Abs(TruncDiv(a, g)) <= Abs(a)
    ensures a >= 0 ==> TruncDiv(a, g) >= 0
  {
    var n: int, q: int := Abs(a), Abs(a) / g;
    assert Abs(g) == g && n == g * q + n % g;
    assert q >= 0;
    MulMonotone(1, g, q);
    assert Abs(TruncDiv(a, g)) == q;
  }

  lemma GcdFits(lo: int, a: int, b: int)
    requires lo < 0 && InRange(lo, a) && InRange(lo, b) && b > 0
    ensures GcdOf(lo, a, b) == Some(Gcd(Abs(a), Abs(b)))
    ensures 0 < Gcd(Abs(a), Abs(b)) <= b && InRange(lo, Gcd(Abs(a), Abs(b)))
  {
    hide Gcd, GcdOf;
    GcdOfExact(lo, a, b);
    GcdPositive(Abs(a), Abs(b));
    GcdDivides(Abs(a), Abs(b));
    DivisorIsSmaller(Gcd(Abs(a), Abs(b)), Abs(b));
  }

  /** operator+= and operator-=. */
  function CombineBounded(lo: int, a: int, b: int, c: int, d: int, minus: bool): (o: Outcome)
    requires lo < 0 && InRange(lo, a) && InRange(lo, b) && InRange(lo, c) && InRange(lo, d)
    requires b > 0 && d > 0
  {
    GcdFits(lo, b, d);
    match GcdOf(lo, b, d)
    case None => Undefined
    case Some(g) =>
      var b1 := TruncDiv(b, g);
      var x, y := a * TruncDiv(d, g), c * b1;
      var t := if minus then x - y else x + y;
      if !InRange(lo, x) || !InRange(lo, y) || !InRange(lo, t) then Undefined
      else
        GcdFits(lo, t, g);
        match GcdOf(lo, t, g)
        case None => Undefined
        case Some(h) =>
          var e := b1 * TruncDiv(d, h);
          if InRange(lo, e) then Constructed(TruncDiv(t, h), e) else Undefined
  }

  /** The numerator before it is reduced. */
  function Cross(a: int, b: int, c: int, d: int, minus: bool): int
    requires b > 0 && d > 0
  {
    GcdPositive(Abs(b), Abs(d));
    var g := Gcd(Abs(b), Abs(d));
    if minus then a * TruncDiv(d, g) - c * TruncDiv(b, g) else a * TruncDiv(d, g) + c * TruncDiv(b, g)
  }

  /** The two cross products, their sum or difference, and the reduced denominator fit. */
  predicate CombineFits(lo: int, a: int, b: int, c: int, d: int, minus: bool, q: int)
    requires b > 0 && d > 0
  {
    GcdPositive(Abs(b), Abs(d));
    var g := Gcd(Abs(b), Abs(d));
    && InRange(lo, a * TruncDiv(d, g)) && InRange(lo, c * TruncDiv(b, g))
    && InRange(lo, Cross(a, b, c, d, minus)) && InRange(lo, q)
  }

  lemma CombineReduces(a: int, b: int, c: int, d: int, minus: bool, p: int, q: int)
    requires Normalized(a, b) && Normalized(c, d) && Normalized(p, q)
    requires Quotient(p, q) == if minus then Quotient(a, b) - Quotient(c, d) else Quotient(a, b) + Quotient(c, d)
    ensures var g := Gcd(Abs(b), Abs(d));
      var h := Gcd(Abs(Cross(a, b, c, d, minus)), Abs(g));
      && g > 0 && h > 0
      && TruncDiv(Cross(a, b, c, d, minus), h) == p && TruncDiv(b, g) * TruncDiv(d, h) == q
  {
    hide Gcd, Quotient, TruncDiv, AreCoprime, Abs;
    var c' := if minus then -c else c;
    var g, b1, d1 := DivideOut(b, d);
    var t := a * d1 + c' * b1;
    assert t == Cross(a, b, c, d, minus) by {
      assert (-c) * b1 == -(c * b1);
    }
    var h, t2, g3 := DivideOut(t, g);
    assert TruncDiv(d, h) == d1 * g3 by {
      assert d == (d1 * g3) * h;
      TruncDivExact(d1 * g3, h);
    }
    Negated(c, d);
    CoprimeIsGcdOne(a, b);
    CoprimeIsGcdOne(c', d);
    SumStaysNormal(a, b1, c', d1, g, t, t2, h, g3);
    SumIsExact(a, b1, c', d1, g, t, t2, h, g3);
    CoprimeIsGcdOne(t2, b1 * (d1 * g3));
    NormalizedUnique(t2, b1 * (d1 * g3), p, q);
  }

  /** operator+= and operator-= give the reduced result exactly when everything they form fits,
      and otherwise their result is undefined. */
  lemma {:induction false} CombineExact(lo: int, a: int, b: int, c: int, d: int, minus: bool, p: int, q: int)
    requires lo < 0 && InRange(lo, a) && InRange(lo, b) && InRange(lo, c) && InRange(lo, d)
    requires Normalized(a, b) && Normalized(c, d) && Normalized(p, q)
    requires Quotient(p, q) == if minus then Quotient(a, b) - Quotient(c, d) else Quotient(a, b) + Quotient(c, d)
    ensures CombineBounded(lo, a, b, c, d, minus)
         == if CombineFits(lo, a, b, c, d, minus, q) then Constructed(p, q) else Undefined
  {
    hide Gcd, GcdOf, Quotient, TruncDiv, Normalized, InRange;
    PositiveDenominator(a, b);
    PositiveDenominator(c, d);
    CombineReduces(a, b, c, d, minus, p, q);
    GcdFits(lo, b, d);
    if InRange(lo, Cross(a, b, c, d, minus)) {
      GcdFits(lo, Cross(a, b, c, d, minus), Gcd(Abs(b), Abs(d)));
    }
  }

  /** Swapping the operands of a sum changes nothing, not even whether it is defined. */
  lemma {:induction false} SumSwaps(lo: int, a: int, b: int, c: int, d: int)
    requires lo < 0 && InRange(lo, a) && InRange(lo, b) && InRange(lo, c) && InRange(lo, d)
    requires b > 0 && d > 0
    ensures CombineBounded(lo, a, b, c, d, false) == CombineBounded(lo, c, d, a, b, false)
  {
    hide Gcd, GcdOf, TruncDiv, InRange;
    GcdSymmetric(Abs(b), Abs(d));
    GcdFits(lo, b, d);
    GcdFits(lo, d, b);
    var g := Gcd(Abs(b), Abs(d));
    var t := a * TruncDiv(d, g) + c * TruncDiv(b, g);
    if InRange(lo, t) {
      GcdFits(lo, t, g);
      DenominatorSwaps(b, d, t);
    }
  }

  lemma DenominatorSwaps(b: int, d: int, t: int)
    requires b > 0 && d > 0
    ensures var g := Gcd(Abs(b), Abs(d)); var h := Gcd(Abs(t), Abs(g));
      && g > 0 && h > 0
      && TruncDiv(b, g) * TruncDiv(d, h) == TruncDiv(d, g) * TruncDiv(b, h)
  {
    hide Gcd, TruncDiv, AreCoprime, Abs;
    var g, b1, d1 := DivideOut(b, d);
    var h, t1, g1 := DivideOut(t, g);
    assert b == (b1 * g1) * h && d == (d1 * g1) * h;
    TruncDivExact(b1 * g1, h);
    TruncDivExact(d1 * g1, h);
    assert b1 * (d1 * g1) == d1 * (b1 * g1);
  }

  /** Subtracting is adding the opposite, unless one of the two products is at the very end of
      the range and its opposite outside. */
  lemma {:induction false} DifferenceIsSum(lo: int, a: int, b: int, c: int, d: int)
    requires lo < 0 && InRange(lo, a) && InRange(lo, b) && InRange(lo, c) && InRange(lo, -c) && InRange(lo, d)
    requires b > 0 && d > 0
    requires Gcd(Abs(b), Abs(d)) > 0 ==> Abs(c * TruncDiv(b, Gcd(Abs(b), Abs(d)))) != -lo
    ensures CombineBounded(lo, a, b, c, d, true) == CombineBounded(lo, a, b, -c, d, false)
  {
    hide Gcd, GcdOf, TruncDiv;
    GcdFits(lo, b, d);
    var b1 := TruncDiv(b, Gcd(Abs(b), Abs(d)));
    assert (-c) * b1 == -(c * b1);
  }

  lemma PositiveDenominator(n: int, d: int)
    requires Normalized(n, d)
    ensures d > 0
  {
  }

  /** operator+= promises less: on every such type half of -lo and (lo + 1)/2 add up to 1/2, but
      the first product it forms, half of -lo times 2, is out of range. */
  lemma SumMayOverflowMidway(lo: int)
    requires lo < -2 && lo % 2 == 0
    ensures var half := -lo / 2;
      && InRange(lo, half) && InRange(lo, lo + 1) && InRange(lo, 1) && InRange(lo, 2)
      && Normalized(half, 1) && Normalized(lo + 1, 2) && Normalized(1, 2)
      && Quotient(half, 1) + Quotient(lo + 1, 2) == Quotient(1, 2)
      && !InRange(lo, half * TruncDiv(2, Gcd(1, 2)))
      && CombineBounded(lo, half, 1, lo + 1, 2, false) == Undefined
  {
    var half, odd := -lo / 2, Abs(lo + 1);
    GcdOfOne(Abs(half));
    GcdOfOne(2);
    GcdSymmetric(1, 2);
    GcdMod(odd, 2);
    QuotientSum(half, 1, lo + 1, 2);
  }

  /** operator*=. */
  function MulBounded(lo: int, a: int, b: int, c: int, d: int): (o: Outcome)
    requires lo < 0 && InRange(lo, a) && InRange(lo, b) && InRange(lo, c) && InRange(lo, d)
    requires b > 0 && d > 0
  {
    GcdFits(lo, a, d);
    GcdFits(lo, c, b);
    match (GcdOf(lo, a, d), GcdOf(lo, c, b))
    case (Some(g1), Some(g2)) =>
      var n, e := TruncDiv(a, g1) * TruncDiv(c, g2), TruncDiv(b, g2) * TruncDiv(d, g1);
      if InRange(lo, n) && InRange(lo, e) then Constructed(n, e) else Undefined
    case _ => Undefined
  }

  /** operator*= forms no product but the two fields of the reduced result, from factors no
      larger than its operands: on a bounded type it overflows only if that result does. */
  lemma {:induction false} ProductFormsOnlyTheResult(a: int, b: int, c: int, d: int, p: int, q: int)
    requires Normalized(a, b) && Normalized(c, d) && Normalized(p, q)
    requires Quotient(p, q) == Quotient(a, b) * Quotient(c, d)
    ensures var g1, g2 := Gcd(Abs(a), Abs(d)), Gcd(Abs(c), Abs(b));
      && g1 > 0 && g2 > 0
      && TruncDiv(a, g1) * TruncDiv(c, g2) == p
      && TruncDiv(b, g2) * TruncDiv(d, g1) == q
      && Abs(TruncDiv(a, g1)) <= Abs(a) && Abs(TruncDiv(c, g2)) <= Abs(c)
      && Abs(TruncDiv(b, g2)) <= Abs(b) && Abs(TruncDiv(d, g1)) <= Abs(d)
  {
    hide Gcd, TruncDiv, AreCoprime, Quotient, Abs;
    CoprimeIsGcdOne(a, b);
    CoprimeIsGcdOne(c, d);
    var g1, a1, d1 := DivideOut(a, d);
    var g2, c2, b2 := DivideOut(c, b);
    PositiveFactor(b2, g2);
    PositiveFactor(d1, g1);
    PositiveProduct(b2, d1);
    ProductStaysNormal(a1, c2, b2, d1, g1, g2);
    ProductIsExact(a1, c2, b2, d1, g1, g2);
    CoprimeIsGcdOne(a1 * c2, b2 * d1);
    NormalizedUnique(a1 * c2, b2 * d1, p, q);
    FactorIsSmaller(a, g1);
    FactorIsSmaller(c, g2);
    FactorIsSmaller(b, g2);
    FactorIsSmaller(d, g1);
  }

  lemma {:induction false} MulExact(lo: int, a: int, b: int, c: int, d: int, p: int, q: int)
    requires lo < 0 && InRange(lo, a) && InRange(lo, b) && InRange(lo, c) && InRange(lo, d)
    requires Normalized(a, b) && Normalized(c, d) && Normalized(p, q)
    requires Quotient(p, q) == Quotient(a, b) * Quotient(c, d)
    ensures MulBounded(lo, a, b, c, d) == if InRange(lo, p) && InRange(lo, q) then Constructed(p, q) else Undefined
  {
    hide Gcd, GcdOf, Quotient, TruncDiv, Normalized, InRange;
    PositiveDenominator(a, b);
    PositiveDenominator(c, d);
    GcdFits(lo, a, d);
    GcdFits(lo, c, b);
    ProductFormsOnlyTheResult(a, b, c, d, p, q);
  }

  /** operator/=. */
  function DivBounded(lo: int, a: int, b: int, c: int, d: int): (o: Outcome)
    requires lo < 0 && InRange(lo, a) && InRange(lo, b) && InRange(lo, c) && InRange(lo, d)
    requires b > 0 && d > 0
  {
    if c == 0 then Threw
    else if a == 0 then Constructed(a, b)
    else
      GcdOfExact(lo, a, c);
      GcdPositive(Abs(a), Abs(c));
      GcdFits(lo, d, b);
      match (GcdOf(lo, a, c), GcdOf(lo, d, b))
      case (Some(g1), Some(g2)) =>
        var n, e := TruncDiv(a, g1) * TruncDiv(d, g2), TruncDiv(b, g2) * TruncDiv(c, g1);
        if !InRange(lo, n) || !InRange(lo, e) then Undefined
        else if e >= 0 then Constructed(n, e)
        else if InRange(lo, -n) && InRange(lo, -e) then Constructed(-n, -e)
        else Undefined
      case _ => Undefined
  }

  lemma {:induction false} QuotientFormsTheResult(a: int, b: int, c: int, d: int, p: int, q: int)
    requires a != 0 && c != 0
    requires Normalized(a, b) && Normalized(c, d) && Normalized(p, q)
    requires Quotient(p, q) == Quotient(a, b) / Quotient(c, d)
    ensures var g1, g2 := Gcd(Abs(a), Abs(c)), Gcd(Abs(d), Abs(b));
      && g1 > 0 && g2 > 0
      && TruncDiv(a, g1) * TruncDiv(d, g2) == (if c < 0 then -p else p)
      && TruncDiv(b, g2) * TruncDiv(c, g1) == (if c < 0 then -q else q)
  {
    hide Gcd, TruncDiv, AreCoprime, Quotient, Abs;
    CoprimeIsGcdOne(a, b);
    CoprimeIsGcdOne(c, d);
    CoprimeSymmetric(c, d);
    var g1, a1, c1 := DivideOut(a, c);
    var g2, d2, b2 := DivideOut(d, b);
    PositiveFactor(b2, g2);
    ProductStaysNormal(a1, d2, b2, c1, g1, g2);
    QuotientIsExact(a1, d2, b2, c1, g1, g2);
    var n, e := a1 * d2, b2 * c1;
    SignOfFactor(c1, g1);
    SignOfFactor(c1, b2);
    FlipSigns(n, e);
    CoprimeIsGcdOne(n, e);
    if c < 0 {
      NormalizedUnique(-n, -e, p, q);
    } else {
      NormalizedUnique(n, e, p, q);
    }
  }

  lemma SignOfFactor(x: int, g: int)
    requires g > 0
    ensures (x * g < 0 <==> x < 0) && (g * x < 0 <==> x < 0)
  {
  }

  /** operator/= gives the reduced result exactly when it fits, except where the minimum has no
      gcd and where the minimum as a numerator would have to change its sign. */
  lemma {:induction false} DivExact(lo: int, a: int, b: int, c: int, d: int, p: int, q: int)
    requires lo < 0 && InRange(lo, a) && InRange(lo, b) && InRange(lo, c) && InRange(lo, d)
    requires c != 0
    requires Normalized(a, b) && Normalized(c, d) && Normalized(p, q)
    requires Quotient(c, d) != 0.0 && Quotient(p, q) == Quotient(a, b) / Quotient(c, d)
    ensures var fits := InRange(lo, p) && InRange(lo, q);
      DivBounded(lo, a, b, c, d)
      == if a != 0 && (!fits || MinimumMeets(lo, a, c) || (c < 0 && p == lo)) then Undefined else Constructed(p, q)
  {
    hide Gcd, GcdOf, Quotient, TruncDiv, Normalized, MinimumMeets;
    PositiveDenominator(a, b);
    PositiveDenominator(c, d);
    PositiveDenominator(p, q);
    if a == 0 {
      ZeroOverAnything(b, c, d, p, q);
    } else {
      GcdOfExact(lo, a, c);
      GcdFits(lo, d, b);
      QuotientFormsTheResult(a, b, c, d, p, q);
    }
  }

  lemma ZeroOverAnything(b: int, c: int, d: int, p: int, q: int)
    requires Normalized(0, b) && Normalized(p, q) && d > 0
    requires Quotient(c, d) != 0.0 && Quotient(p, q) == Quotient(0, b) / Quotient(c, d)
    ensures p == 0 && q == b
  {
    hide Quotient, Gcd;
    QuotientZero(0, b);
    NormalizedUnique(p, q, 0, b);
  }

  // ----- Integer operands on a bounded type

  function AddIntBounded(lo: int, a: int, b: int, i: int, minus: bool): (o: Outcome)
  {
    var y := i * b;
    var t := if minus then a - y else a + y;
    if InRange(lo, y) && InRange(lo, t) then Constructed(t, b) else Undefined
  }

  function MulIntBounded(lo: int, a: int, b: int, i: int): (o: Outcome)
    requires lo < 0 && InRange(lo, b) && InRange(lo, i) && b > 0
  {
    GcdFits(lo, i, b);
    match GcdOf(lo, i, b)
    case None => Undefined
    case Some(g) =>
      var n := a * TruncDiv(i, g);
      if InRange(lo, n) then Constructed(n, TruncDiv(b, g)) else Undefined
  }

  function DivIntBounded(lo: int, a: int, b: int, i: int): (o: Outcome)
    requires lo < 0 && InRange(lo, a) && InRange(lo, b) && InRange(lo, i)
  {
    if i == 0 then Threw
    else if a == 0 then Constructed(a, b)
    else
      GcdOfExact(lo, a, i);
      GcdPositive(Abs(a), Abs(i));
      match GcdOf(lo, a, i)
      case None => Undefined
      case Some(g) =>
        var n, e := TruncDiv(a, g), b * TruncDiv(i, g);
        if !InRange(lo, e) then Undefined
        else if e >= 0 then Constructed(n, e)
        else if InRange(lo, -n) && InRange(lo, -e) then Constructed(-n, -e)
        else Undefined
  }

  lemma DivideByOne(x: int)
    ensures TruncDiv(x, 1) == x
  {
    TruncDivExact(x, 1);
  }

  lemma GcdWithOne(lo: int, x: int)
    requires lo < -1 && InRange(lo, x)
    ensures Gcd(Abs(x), Abs(1)) == 1 == Gcd(Abs(1), Abs(x))
    ensures GcdOf(lo, x, 1) == Some(1) == GcdOf(lo, 1, x)
  {
    hide GcdOf, Gcd;
    AbsOfOne();
    GcdOfOne(Abs(x));
    GcdSymmetric(Abs(x), 1);
    GcdOfExact(lo, x, 1);
    GcdOfExact(lo, 1, x);
  }

  /** An integer operand does, step by step, what the fraction i/1 would do: the same results
      from the same conditions. */
  lemma AddIntLikeFraction(lo: int, a: int, b: int, i: int, minus: bool)
    requires lo < -1 && InRange(lo, a) && InRange(lo, b) && InRange(lo, i) && b > 0
    ensures AddIntBounded(lo, a, b, i, minus) == CombineBounded(lo, a, b, i, 1, minus)
  {
    hide GcdOf, Gcd, TruncDiv;
    GcdWithOne(lo, b);
    DivideByOne(b);
    DivideByOne(1);
    var t := if minus then a - i * b else a + i * b;
    DivideByOne(t);
    if InRange(lo, t) {
      GcdWithOne(lo, t);
    }
  }

  lemma {:induction false} MulIntLikeFraction(lo: int, a: int, b: int, i: int)
    requires lo < -1 && InRange(lo, a) && InRange(lo, b) && InRange(lo, i) && b > 0
    ensures MulIntBounded(lo, a, b, i) == MulBounded(lo, a, b, i, 1)
  {
    hide GcdOf, Gcd, TruncDiv, Abs;
    GcdWithOne(lo, a);
    DivideByOne(a);
    DivideByOne(1);
    GcdFits(lo, i, b);
    AbsOfPositive(b);
    FactorIsSmaller(b, Gcd(Abs(i), Abs(b)));
    AbsOfPositive(TruncDiv(b, Gcd(Abs(i), Abs(b))));
  }

  lemma AbsOfPositive(x: int)
    requires x >= 0
    ensures Abs(x) == x
  {
  }

  lemma QuotientStays(lo: int, a: int, g: int)
    requires lo <= 0 && InRange(lo, a) && g > 0
    ensures InRange(lo, TruncDiv(a, g))
  {
    var k, r := QuotientSize(Abs(a), g);
  }

  lemma {:induction false} DivIntLikeFraction(lo: int, a: int, b: int, i: int)
    requires lo < -1 && InRange(lo, a) && InRange(lo, b) && InRange(lo, i) && b > 0
    ensures DivIntBounded(lo, a, b, i) == DivBounded(lo, a, b, i, 1)
  {
    hide GcdOf, Gcd, TruncDiv;
    GcdWithOne(lo, b);
    DivideByOne(b);
    DivideByOne(1);
    if i != 0 && a != 0 {
      GcdOfExact(lo, a, i);
      GcdPositive(Abs(a), Abs(i));
      if GcdOf(lo, a, i).Some? {
        QuotientStays(lo, a, GcdOf(lo, a, i).value);
      }
    }
  }

  // ----- Construction on a bounded type

  /** normalize(), with every operation checked against the range of the type. */
  function NormalizeBounded(lo: int, num: int, den: int): (o: Outcome)
    requires lo < 0 && InRange(lo, num) && InRange(lo, den)
  {
    if den == 0 then Threw
    else if num == 0 then Constructed(0, 1)
    else match GcdOf(lo, num, den)
         case None => Undefined
         case Some(g) =>
           if g == 0 then Undefined
           else
             var n, d := TruncDiv(num, g), TruncDiv(den, g);
             if d < -(-lo - 1) then Threw
             else if d >= 0 then Constructed(n, d)
             else if n == lo then Undefined
             else Constructed(-n, -d)
  }

  lemma ReducedExtremes(lo: int, x: int, x': int, g: int)
    requires lo < 0 && InRange(lo, x) && x == x' * g && g > 0
    ensures InRange(lo, x') && (x' == lo <==> x == lo && g == 1)
    ensures (x < 0 <==> x' < 0) && (x == 0 <==> x' == 0)
  {
    if x' > 0 {
      MulMonotone(1, g, x');
    } else if x' < 0 {
      MulMonotone(1, g, -x');
      if x' == lo && g > 1 {
        MulMonotone(2, g, -x');
      }
    }
  }

  lemma ZeroConstructed(d: int)
    requires d != 0
    ensures Normalized(0, 1) && Quotient(0, 1) == Quotient(0, d)
  {
    QuotientEqual(0, 1, 0, d);
  }

  /** The zero denominator, and the minimum as a reduced denominator, throw. The minimum against
      0, -1 or itself has no gcd, and the minimum as a reduced numerator over a negative
      denominator cannot change sign: both are undefined. Everything else is constructed, in
      normal form and with the value asked for. */
  lemma {:induction false} ConstructionExact(lo: int, num: int, den: int)
    requires lo < -1 && InRange(lo, num) && InRange(lo, den)
    ensures var o := NormalizeBounded(lo, num, den);
      var reduced := Gcd(Abs(num), Abs(den)) == 1;
      var meets := num != 0 && den != 0 && MinimumMeets(lo, num, den);
      && (o.Threw? <==> den == 0 || (num != 0 && den == lo && reduced && !meets))
      && (o.Undefined? <==> meets || (num == lo && den < 0 && den != lo && reduced))
      && (o.Constructed? ==> Normalized(o.n, o.d) && InRange(lo, o.n) && InRange(lo, o.d)
                             && Quotient(o.n, o.d) == Quotient(num, den))
  {
    hide Gcd, TruncDiv, AreCoprime, Abs, MinimumMeets, Quotient;
    if den != 0 {
      if num == 0 {
        ZeroConstructed(den);
      } else {
        GcdOfExact(lo, num, den);
        if !MinimumMeets(lo, num, den) {
          var g, n, d := DivideOut(num, den);
          ReducedExtremes(lo, num, n, g);
          ReducedExtremes(lo, den, d, g);
          CoprimeIsGcdOne(n, d);
          FlipSigns(n, d);
          assert n * den == num * d by { assert n * (d * g) == (n * g) * d; }
          QuotientEqual(n, d, num, den);
        }
      }
    }
  }
}
