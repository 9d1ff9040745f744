/** Fractions kept in lowest terms (libs/boost/rational.hpp), over integers of unlimited range.
    Every operation is proved to give the exact real result in normal form. */
module RationalNumbers {
  import opened IntegerGcd
  import opened Coprime

  /** The normalized form: gcd(num, den) == 1 and den > 0. */
  ghost predicate Normalized(n: int, d: int) {
    d > 0 && Gcd(Abs(n), Abs(d)) == 1
  }

  /** Normal form is canonical: equal values have equal fields. */
  lemma NormalizedUnique(n: int, d: int, m: int, e: int)
    requires Normalized(n, d) && Normalized(m, e)
    ensures Quotient(n, d) == Quotient(m, e) <==> n == m && d == e
  {
    hide Gcd;
    QuotientEqual(n, d, m, e);
    if n * e == m * d {
      CoprimeIsGcdOne(n, d);
      CoprimeIsGcdOne(m, e);
      CoprimeSymmetric(n, d);
      CoprimeSymmetric(m, e);
      assert n * e == Mul(m, d) && m * d == Mul(n, e);
      CoprimeDivides(d, n, e);
      CoprimeDivides(e, m, d);
      DividesAntisymmetric(d, e);
      CancelFactor(n, m, d);
    }
  }

  /** Lowest terms of a sum without reducing it: only the gcd g of the denominators can still
      share a factor with the numerator. */
  lemma SumStaysNormal(a: int, b1: int, c: int, d1: int, g: int, t: int, t2: int, g2: int, g3: int)
    requires AreCoprime(a, b1 * g) && AreCoprime(c, d1 * g) && AreCoprime(b1, d1)
    requires t == a * d1 + c * b1 == t2 * g2 && g == g3 * g2
    requires AreCoprime(t2, g3)
    ensures AreCoprime(t2, b1 * (d1 * g3))
  {
    hide AreCoprime;
    assert AreCoprime(t2, b1) by {
      CoprimeLeft(a, b1, g);
      CoprimeSymmetric(b1, d1);
      ProductCoprime(a, d1, b1);
      CoprimeShift(a * d1, c, b1);
      CoprimeFactorOf(t, t2, g2, b1);
    }
    assert AreCoprime(t2, d1) by {
      CoprimeLeft(c, d1, g);
      ProductCoprime(c, b1, d1);
      CoprimeShift(c * b1, a, d1);
      CoprimeFactorOf(t, t2, g2, d1);
    }
    CoprimeProduct(t2, d1, g3);
    CoprimeProduct(t2, b1, d1 * g3);
  }

  lemma CoprimeFactorOf(t: int, t2: int, g2: int, b: int)
    requires t == t2 * g2 && AreCoprime(t, b)
    ensures AreCoprime(t2, b)
  {
    assert g2 * t2 == t;
    CoprimeFactor(t2, g2, b);
  }

  lemma SumIsExact(a: int, b1: int, c: int, d1: int, g: int, t: int, t2: int, g2: int, g3: int)
    requires t == a * d1 + c * b1 == t2 * g2 && g == g3 * g2
    requires b1 * g > 0 && d1 * g > 0 && g > 0 && g2 > 0
    ensures b1 * (d1 * g3) > 0
    ensures Quotient(t2, b1 * (d1 * g3)) == Quotient(a, b1 * g) + Quotient(c, d1 * g)
  {
    var b, d, e := b1 * g, d1 * g, b1 * (d1 * g3);
    PositiveFactor(b1, g);
    PositiveFactor(d1, g);
    PositiveFactor(g3, g2);
    PositiveProduct(d1, g3);
    PositiveProduct(b1, d1 * g3);
    PositiveProduct(b, d);
    QuotientSum(a, b, c, d);
    assert a * d + c * b == t * g;
    assert e * (g2 * g) == b * d;
    assert t2 * (b * d) == (t2 * g2) * g * e == (a * d + c * b) * e;
    QuotientEqual(t2, e, a * d + c * b, b * d);
  }

  lemma PositiveFactor(x: int, y: int)
    requires x * y > 0 && y > 0
    ensures x > 0
  {
  }

  lemma PositiveProduct(x: int, y: int)
    requires x > 0 && y > 0
    ensures x * y > 0
  {
  }

  /** Lowest terms of a product: crosswise reduction is enough. */
  lemma ProductStaysNormal(a1: int, c2: int, b2: int, d1: int, g1: int, g2: int)
    requires AreCoprime(a1 * g1, b2 * g2) && AreCoprime(c2 * g2, d1 * g1)
    requires AreCoprime(a1, d1) && AreCoprime(c2, b2)
    ensures AreCoprime(a1 * c2, b2 * d1)
  {
    hide AreCoprime;
    CoprimeLeft(a1 * g1, b2, g2);
    CoprimeFactorOf(a1 * g1, a1, g1, b2);
    CoprimeLeft(c2 * g2, d1, g1);
    CoprimeFactorOf(c2 * g2, c2, g2, d1);
    CoprimeProduct(a1, b2, d1);
    CoprimeProduct(c2, b2, d1);
    ProductCoprime(a1, c2, b2 * d1);
  }

  lemma ProductIsExact(a1: int, c2: int, b2: int, d1: int, g1: int, g2: int)
    requires g1 != 0 && g2 != 0 && b2 != 0 && d1 != 0
    ensures b2 * d1 != 0 && b2 * g2 != 0 && d1 * g1 != 0
    ensures Quotient(a1 * c2, b2 * d1) == Quotient(a1 * g1, b2 * g2) * Quotient(c2 * g2, d1 * g1)
  {
    hide Quotient;
    NonZeroProduct(b2, d1);
    NonZeroProduct(b2, g2);
    NonZeroProduct(d1, g1);
    QuotientProduct(a1 * g1, b2 * g2, c2 * g2, d1 * g1);
    var p, q := a1 * g1 * (c2 * g2), b2 * g2 * (d1 * g1);
    assert p == (a1 * c2) * (g1 * g2) && q == (b2 * d1) * (g1 * g2);
    assert (a1 * c2) * q == p * (b2 * d1);
    QuotientEqual(a1 * c2, b2 * d1, p, q);
  }

  lemma FlipSigns(n: int, d: int)
    requires d != 0
    ensures Quotient(-n, -d) == Quotient(n, d)
    ensures Abs(-n) == Abs(n) && Abs(-d) == Abs(d)
  {
    QuotientEqual(-n, -d, n, d);
  }

  method IntGcd(a: int, b: int) returns (g: int)
    ensures g == Gcd(Abs(a), Abs(b))
  {
    g := MixedBinaryGcd(Abs(a), Abs(b));
  }

  class Rational {
    var num: int
    var den: int

    ghost predicate Valid()
      reads this
    {
      Normalized(num, den)
    }

    ghost function Value(): real
      requires den != 0
      reads this
    {
      Quotient(num, den)
    }

    constructor FromInteger(n: int)
      ensures Valid() && Value() == n as real
    {
      num, den := n, 1;
      new;
      GcdOfOne(Abs(n));
    }

    constructor Unreduced(n: int, d: int)
      ensures num == n && den == d
    {
      num, den := n, d;
    }

    /** bad_rational is reported as null. */
    static method Create(n: int, d: int) returns (r: Rational?)
      ensures r == null <==> d == 0
      ensures r != null ==> fresh(r) && r.Valid() && r.Value() == Quotient(n, d)
    {
      var candidate := new Rational.Unreduced(n, d);
      var ok := candidate.Normalize();
      r := if ok then candidate else null;
    }

    method Normalize() returns (ok: bool)
      modifies this
      ensures ok <==> old(den) != 0
      ensures ok ==> Valid() && Value() == Quotient(old(num), old(den))
      ensures !ok ==> num == old(num) && den == old(den)
    {
      hide Gcd, Quotient, TruncDiv, AreCoprime, Abs;
      ghost var n, d := num, den;
      if den == 0 {
        return false;
      }
      if num == 0 {
        den := 1;
        GcdOfOne(Abs(num));
        assert Abs(1) == 1 by { AbsOfOne(); }
        QuotientEqual(0, 1, 0, d);
        return true;
      }
      var g := IntGcd(num, den);
      ghost var g', n', d' := DivideOut(n, d);
      num := TruncDiv(num, g);
      den := TruncDiv(den, g);
      CoprimeIsGcdOne(n', d');
      assert n' * d == n * d' by { assert n' * (d' * g) == (n' * g) * d'; }
      QuotientEqual(n', d', n, d);
      FlipSigns(n', d');
      if den < 0 {
        num := -num;
        den := -den;
      }
      return true;
    }

    /** The operand may be this very object: its fields are copied first. */
    method AddAssign(r: Rational)
      requires Valid() && r.Valid()
      modifies this
      ensures Valid() && Value() == old(Value()) + old(r.Value())
    {
      hide Gcd, Quotient, TruncDiv, AreCoprime, Abs;
      ghost var a, b := num, den;
      var rNum, rDen := r.num, r.den;
      var g := IntGcd(den, rDen);
      ghost var g1, b1, d1 := DivideOut(den, rDen);
      den := TruncDiv(den, g);
      num := num * TruncDiv(rDen, g) + rNum * den;
      ghost var t := num;
      ghost var g2, t2, g3 := DivideOut(num, g);
      g := IntGcd(num, g);
      num := TruncDiv(num, g);
      den := den * TruncDiv(rDen, g);
      assert TruncDiv(rDen, g) == d1 * g3 by {
        assert rDen == (d1 * g3) * g2;
        TruncDivExact(d1 * g3, g2);
      }
      CoprimeIsGcdOne(a, b);
      CoprimeIsGcdOne(rNum, rDen);
      SumStaysNormal(a, b1, rNum, d1, g1, t, t2, g2, g3);
      SumIsExact(a, b1, rNum, d1, g1, t, t2, g2, g3);
      CoprimeIsGcdOne(num, den);
    }

    method SubAssign(r: Rational)
      requires Valid() && r.Valid()
      modifies this
      ensures Valid() && Value() == old(Value()) - old(r.Value())
    {
      hide Gcd, Quotient, TruncDiv, AreCoprime, Abs;
      ghost var a, b := num, den;
      var rNum, rDen := r.num, r.den;
      var g := IntGcd(den, rDen);
      ghost var g1, b1, d1 := DivideOut(den, rDen);
      den := TruncDiv(den, g);
      num := num * TruncDiv(rDen, g) - rNum * den;
      ghost var t := num;
      ghost var g2, t2, g3 := DivideOut(num, g);
      g := IntGcd(num, g);
      num := TruncDiv(num, g);
      den := den * TruncDiv(rDen, g);
      assert TruncDiv(rDen, g) == d1 * g3 by {
        assert rDen == (d1 * g3) * g2;
        TruncDivExact(d1 * g3, g2);
      }
      CoprimeIsGcdOne(a, b);
      Negated(rNum, rDen);
      CoprimeIsGcdOne(-rNum, rDen);
      assert t == a * d1 + (-rNum) * b1;
      SumStaysNormal(a, b1, -rNum, d1, g1, t, t2, g2, g3);
      SumIsExact(a, b1, -rNum, d1, g1, t, t2, g2, g3);
      CoprimeIsGcdOne(num, den);
    }

    method MulAssign(r: Rational)
      requires Valid() && r.Valid()
      modifies this
      ensures Valid() && Value() == old(Value()) * old(r.Value())
    {
      hide Gcd, Quotient, TruncDiv, AreCoprime, Abs;
      CoprimeIsGcdOne(num, den);
      var rNum, rDen := r.num, r.den;
      CoprimeIsGcdOne(rNum, rDen);
      ghost var g1, a1, d1 := DivideOut(num, rDen);
      ghost var g2, c2, b2 := DivideOut(rNum, den);
      var gcd1 := IntGcd(num, rDen);
      var gcd2 := IntGcd(rNum, den);
      num := TruncDiv(num, gcd1) * TruncDiv(rNum, gcd2);
      den := TruncDiv(den, gcd2) * TruncDiv(rDen, gcd1);
      PositiveFactor(b2, g2);
      PositiveFactor(d1, g1);
      PositiveProduct(b2, d1);
      ProductStaysNormal(a1, c2, b2, d1, g1, g2);
      ProductIsExact(a1, c2, b2, d1, g1, g2);
      CoprimeIsGcdOne(num, den);
    }

    /** Division by zero throws and leaves the object alone. */
    method DivAssign(r: Rational) returns (ok: bool)
      requires Valid() && r.Valid()
      modifies this
      ensures ok <==> old(r.Value()) != 0.0
      ensures ok ==> Valid() && Value() == old(Value()) / old(r.Value())
      ensures !ok ==> num == old(num) && den == old(den)
    {
      hide Gcd, Quotient, TruncDiv, AreCoprime, Abs;
      var rNum, rDen := r.num, r.den;
      QuotientZero(rNum, rDen);
      QuotientZero(num, den);
      if rNum == 0 {
        return false;
      }
      if num == 0 {
        return true;
      }
      CoprimeIsGcdOne(num, den);
      CoprimeIsGcdOne(rNum, rDen);
      CoprimeSymmetric(rNum, rDen);
      // the reciprocal of r takes the place of r in the product
      ghost var g1, a1, d1 := DivideOut(num, rNum);
      ghost var g2, c2, b2 := DivideOut(rDen, den);
      var gcd1 := IntGcd(num, rNum);
      var gcd2 := IntGcd(rDen, den);
      num := TruncDiv(num, gcd1) * TruncDiv(rDen, gcd2);
      den := TruncDiv(den, gcd2) * TruncDiv(rNum, gcd1);
      ProductStaysNormal(a1, c2, b2, d1, g1, g2);
      QuotientIsExact(a1, c2, b2, d1, g1, g2);
      CoprimeIsGcdOne(num, den);
      FlipSigns(num, den);
      if den < 0 {
        num := -num;
        den := -den;
      }
      return true;
    }

    // ----- Integer operands

    method AddInt(i: int)
      requires Valid()
      modifies this
      ensures Valid() && Value() == old(Value()) + i as real
    {
      hide Gcd, Quotient, AreCoprime, Abs;
      CoprimeIsGcdOne(num, den);
      CoprimeShift(num, i, den);
      IntegerSum(num, den, i);
      num := num + i * den;
      CoprimeIsGcdOne(num, den);
    }

    method SubInt(i: int)
      requires Valid()
      modifies this
      ensures Valid() && Value() == old(Value()) - i as real
    {
      hide Gcd, Quotient, AreCoprime, Abs;
      CoprimeIsGcdOne(num, den);
      CoprimeShift(num, -i, den);
      IntegerSum(num, den, -i);
      num := num - i * den;
      CoprimeIsGcdOne(num, den);
    }

    method MulInt(i: int)
      requires Valid()
      modifies this
      ensures Valid() && Value() == old(Value()) * i as real
    {
      hide Gcd, TruncDiv, AreCoprime, Abs;
      CoprimeIsGcdOne(num, den);
      ghost var g2, c2, b2 := DivideOut(i, den);
      var gcd := IntGcd(i, den);
      ghost var a := num;
      num := num * TruncDiv(i, gcd);
      den := TruncDiv(den, gcd);
      PositiveFactor(b2, g2);
      CoprimeLeft(a, b2, g2);
      ProductCoprime(a, c2, b2);
      ProductIsExact(a, c2, b2, 1, 1, g2);
      CoprimeIsGcdOne(num, den);
    }

    method DivInt(i: int) returns (ok: bool)
      requires Valid()
      modifies this
      ensures ok <==> i != 0
      ensures ok ==> Valid() && Value() == old(Value()) / i as real
      ensures !ok ==> num == old(num) && den == old(den)
    {
      hide Gcd, TruncDiv, AreCoprime, Abs;
      if i == 0 {
        return false;
      }
      if num == 0 {
        return true;
      }
      CoprimeIsGcdOne(num, den);
      ghost var g1, a1, d1 := DivideOut(num, i);
      var gcd := IntGcd(num, i);
      ghost var a, b := num, den;
      num := TruncDiv(num, gcd);
      den := den * TruncDiv(i, gcd);
      CoprimeFactorOf(a, a1, g1, b);
      CoprimeProduct(a1, b, d1);
      ProductIsExact(a1, 1, b, d1, g1, 1);
      QuotientReciprocal(i, 1);
      TimesReciprocal(Quotient(a, b), Quotient(i, 1), Quotient(1, i));
      CoprimeIsGcdOne(num, den);
      FlipSigns(num, den);
      if den < 0 {
        num := -num;
        den := -den;
      }
      return true;
    }

    // ----- Comparison

    method Equals(r: Rational) returns (b: bool)
      requires Valid() && r.Valid()
      ensures b <==> Value() == r.Value()
    {
      NormalizedUnique(num, den, r.num, r.den);
      b := num == r.num && den == r.den;
    }

    /** Walks the two continued fractions in lockstep; the sense of the comparison reverses at
        every reciprocal. `lo` is the least value of the integer type, 0 if it has none: every
        quotient, remainder and sum is computed through Fits. */
    method Less(r: Rational, ghost lo: int) returns (b: bool)
      requires Valid() && r.Valid()
      requires lo <= 0 && InRange(lo, num) && InRange(lo, den) && InRange(lo, r.num) && InRange(lo, r.den)
      ensures b <==> Value() < r.Value()
    {
      hide Gcd, Quotient, TruncDiv, TruncMod;
      QuotientLess(num, den, r.num, r.den);
      ghost var answer := num * r.den < r.num * den;
      FloorFits(lo, num, den);
      FloorFits(lo, r.num, r.den);
      var tn, td, tq, tr := num, den, Fits(lo, TruncDiv(num, den)), Fits(lo, TruncMod(num, den));
      var rn, rd, rq, rr := r.num, r.den, Fits(lo, TruncDiv(r.num, r.den)), Fits(lo, TruncMod(r.num, r.den));
      var reverse := false;
      TruncDivMod(tn, td);
      TruncDivMod(rn, rd);
      while tr < 0
        invariant tn == tq * td + tr && -td < tr < td
        invariant tr < 0 ==> InRange(lo, tr + td) && InRange(lo, tq - 1)
        decreases -tr
      {
        assert (tq - 1) * td == tq * td - td;
        tr, tq := Fits(lo, tr + td), Fits(lo, tq - 1);
      }
      while rr < 0
        invariant rn == rq * rd + rr && -rd < rr < rd
        invariant rr < 0 ==> InRange(lo, rr + rd) && InRange(lo, rq - 1)
        decreases -rr
      {
        assert (rq - 1) * rd == rq * rd - rd;
        rr, rq := Fits(lo, rr + rd), Fits(lo, rq - 1);
      }
      while true
        invariant InCycle(tn, td, tq, tr) && InCycle(rn, rd, rq, rr)
        invariant InRange(lo, td) && InRange(lo, rd)
        invariant answer == if reverse then rn * td < tn * rd else tn * rd < rn * td
        decreases td
      {
        CompareCycles(tn, td, tq, tr, rn, rd, rq, rr);
        CompareCycles(rn, rd, rq, rr, tn, td, tq, tr);
        if tq != rq {
          return if reverse then tq > rq else tq < rq;
        }
        reverse := !reverse;
        if tr == 0 || rr == 0 {
          break;
        }
        tn, td := td, tr;
        FloorFits(lo, tn, td);
        tq, tr := Fits(lo, TruncDiv(tn, td)), Fits(lo, TruncMod(tn, td));
        rn, rd := rd, rr;
        FloorFits(lo, rn, rd);
        rq, rr := Fits(lo, TruncDiv(rn, rd)), Fits(lo, TruncMod(rn, rd));
        NextCycle(tn, td);
        NextCycle(rn, rd);
      }
      if tr == rr {
        return false;
      }
      return (tr != 0) != reverse;
    }

    method LessThanInt(i: int, ghost lo: int) returns (b: bool)
      requires Valid()
      requires lo <= 0 && InRange(lo, num) && InRange(lo, den)
      ensures b <==> Value() < i as real
    {
      hide Gcd, Quotient, TruncDiv, TruncMod;
      IntegerLess(num, den, i);
      FloorFits(lo, num, den);
      var q, r := Fits(lo, TruncDiv(num, den)), Fits(lo, TruncMod(num, den));
      TruncDivMod(num, den);
      while r < 0
        invariant num == q * den + r && -den < r < den
        invariant r < 0 ==> InRange(lo, r + den) && InRange(lo, q - 1)
        decreases -r
      {
        assert (q - 1) * den == q * den - den;
        r, q := Fits(lo, r + den), Fits(lo, q - 1);
      }
      FloorDecides(num, den, q, r, i);
      b := q < i;
    }
  }

  /** A result that the integer type with least value lo can hold. */
  function Fits(ghost lo: int, x: int): (y: int)
    requires InRange(lo, x)
    ensures y == x
  {
    x
  }

  lemma QuotientSize(m: nat, d: nat) returns (k: nat, r: nat)
    requires d > 0
    ensures k == m / d && r == m % d
    ensures k + r <= m && r < d && (k == m ==> r == 0)
  {
    k, r := m / d, m % d;
    var whole := d * k;
    assert m == whole + r;
    MulMonotone(1, d, k);
  }

  /** Breaking a value into whole part and remainder never leaves the range of the type. */
  lemma FloorFits(lo: int, n: int, d: int)
    requires lo <= 0 && d > 0 && InRange(lo, n) && InRange(lo, d)
    ensures InRange(lo, TruncDiv(n, d)) && InRange(lo, TruncMod(n, d))
    ensures TruncMod(n, d) < 0 ==> InRange(lo, TruncDiv(n, d) - 1) && InRange(lo, TruncMod(n, d) + d)
  {
    var k, r := QuotientSize(Abs(n), d);
  }

  lemma AbsOfOne()
    ensures Abs(1) == 1
  {
  }

  lemma Negated(n: int, d: int)
    requires d != 0
    ensures Abs(-n) == Abs(n) && Quotient(-n, d) == -Quotient(n, d)
  {
  }

  lemma QuotientZero(n: int, d: int)
    requires d != 0
    ensures Quotient(n, d) == 0.0 <==> n == 0
  {
    QuotientEqual(n, d, 0, 1);
  }

  lemma QuotientReciprocal(n: int, d: int)
    requires n != 0 && d != 0
    ensures Quotient(n, d) * Quotient(d, n) == 1.0
  {
    QuotientProduct(n, d, d, n);
    QuotientEqual(n * d, d * n, 1, 1);
  }

  lemma TimesReciprocal(x: real, y: real, z: real)
    requires y != 0.0 && y * z == 1.0
    ensures x * z == x / y
  {
    assert (x / y) * y == x;
    assert (x / y) * (y * z) == ((x / y) * y) * z;
  }

  /** Dividing by a fraction is the crosswise reduced product with its reciprocal. */
  lemma QuotientIsExact(a1: int, c2: int, b2: int, d1: int, g1: int, g2: int)
    requires g1 != 0 && g2 != 0 && b2 != 0 && d1 != 0 && c2 != 0
    ensures b2 * d1 != 0 && b2 * g2 != 0 && c2 * g2 != 0
    ensures Quotient(d1 * g1, c2 * g2) != 0.0
    ensures Quotient(a1 * c2, b2 * d1) == Quotient(a1 * g1, b2 * g2) / Quotient(d1 * g1, c2 * g2)
  {
    hide Quotient;
    ProductIsExact(a1, c2, b2, d1, g1, g2);
    NonZeroProduct(c2, g2);
    NonZeroProduct(d1, g1);
    QuotientZero(d1 * g1, c2 * g2);
    QuotientReciprocal(d1 * g1, c2 * g2);
    TimesReciprocal(Quotient(a1 * g1, b2 * g2), Quotient(d1 * g1, c2 * g2), Quotient(c2 * g2, d1 * g1));
  }

  lemma IntegerSum(n: int, d: int, i: int)
    requires d != 0
    ensures Quotient(n + i * d, d) == Quotient(n, d) + i as real
  {
    QuotientSum(n, d, i, 1);
  }

  // ----- Continued fractions

  /** n / d == q + r / d with 0 <= r < d. */
  predicate InCycle(n: int, d: int, q: int, r: int) {
    n == q * d + r && 0 <= r < d
  }

  lemma NextCycle(n: int, d: int)
    requires n > 0 && d > 0
    ensures InCycle(n, d, TruncDiv(n, d), TruncMod(n, d))
  {
    TruncDivMod(n, d);
  }

  lemma ScaleCycle(n: int, d: int, q: int, r: int, e: int)
    requires InCycle(n, d, q, r) && e > 0
    ensures InCycle(n * e, d * e, q, r * e)
    ensures r * e == 0 <==> r == 0
  {
    assert n * e == q * (d * e) + r * e;
    MulMonotone(0, r, e);
    MulMonotone(r + 1, d, e);
    if r > 0 {
      PositiveProduct(r, e);
    }
  }

  /** Over a common denominator, the smaller whole part is the smaller number. */
  lemma WholePartDecides(x: int, y: int, d: int, q: int, p: int, r: int, s: int)
    requires InCycle(x, d, q, r) && InCycle(y, d, p, s)
    requires q < p
    ensures x < y
  {
    MulMonotone(q + 1, p, d);
  }

  /** Different whole parts decide; equal ones leave the remainders to decide, and comparing
      r / d with s / e is comparing e / s with d / r the other way round. */
  lemma {:induction false} CompareCycles(n: int, d: int, q: int, r: int, m: int, e: int, p: int, s: int)
    requires InCycle(n, d, q, r) && InCycle(m, e, p, s)
    ensures q != p ==> (n * e < m * d <==> q < p)
    ensures q == p ==> (n * e < m * d <==> r * e < s * d)
    ensures q == p && (r == 0 || s == 0) ==> (n * e < m * d <==> r == 0 && s != 0)
  {
    ScaleCycle(n, d, q, r, e);
    ScaleCycle(m, e, p, s, d);
    assert d * e == e * d;
    if q < p {
      WholePartDecides(n * e, m * d, d * e, q, p, r * e, s * d);
    } else if p < q {
      WholePartDecides(m * d, n * e, d * e, p, q, s * d, r * e);
    }
  }

  lemma IntegerLess(n: int, d: int, i: int)
    requires d > 0
    ensures Quotient(n, d) < i as real <==> n < i * d
  {
    QuotientLess(n, d, i, 1);
  }

  lemma {:induction false} FloorDecides(n: int, d: int, q: int, r: int, i: int)
    requires InCycle(n, d, q, r)
    ensures n < i * d <==> q < i
  {
    if q < i {
      MulMonotone(q + 1, i, d);
    } else {
      MulMonotone(i, q, d);
    }
  }
}
