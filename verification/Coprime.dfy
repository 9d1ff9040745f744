/** Coprimality through Bezout coefficients, and fractions as real numbers. */
module Coprime {
  import opened IntegerGcd

  ghost predicate AreCoprime(a: int, b: int) {
    exists x, y :: Mul(a, x) + Mul(b, y) == 1
  }

  function Signed(a: int, x: int): int {
    if a < 0 then -x else x
  }

  lemma SignedMul(a: int, x: int)
    ensures a * Signed(a, x) == Abs(a) * x
    ensures a * x == Abs(a) * Signed(a, x)
  {
  }

  lemma CoprimeGivesGcdOne(a: int, b: int)
    requires AreCoprime(a, b)
    ensures Gcd(Abs(a), Abs(b)) == 1
  {
    hide Gcd, Signed, Abs;
    var x, y :| Mul(a, x) + Mul(b, y) == 1;
    var g := Gcd(Abs(a), Abs(b));
    GcdDivides(Abs(a), Abs(b));
    SignedMul(a, x);
    SignedMul(b, y);
    DividesCombination(g, Abs(a), Abs(b), Signed(a, x), Signed(b, y));
    DivisorIsSmaller(g, 1);
  }

  lemma GcdOneGivesCoprime(a: int, b: int)
    requires Gcd(Abs(a), Abs(b)) == 1
    ensures AreCoprime(a, b)
  {
    hide Gcd, Signed, Abs;
    var x, y := Bezout(Abs(a), Abs(b));
    SignedMul(a, x);
    SignedMul(b, y);
    assert Mul(a, Signed(a, x)) + Mul(b, Signed(b, y)) == 1;
  }

  lemma CoprimeIsGcdOne(a: int, b: int)
    ensures AreCoprime(a, b) <==> Gcd(Abs(a), Abs(b)) == 1
  {
    if AreCoprime(a, b) {
      CoprimeGivesGcdOne(a, b);
    }
    if Gcd(Abs(a), Abs(b)) == 1 {
      GcdOneGivesCoprime(a, b);
    }
  }

  lemma CoprimeSymmetric(a: int, b: int)
    requires AreCoprime(a, b)
    ensures AreCoprime(b, a)
  {
    var x, y :| Mul(a, x) + Mul(b, y) == 1;
    assert Mul(b, y) + Mul(a, x) == 1;
  }

  lemma CoprimeProduct(a: int, b: int, c: int)
    requires AreCoprime(a, b) && AreCoprime(a, c)
    ensures AreCoprime(a, b * c)
  {
    var x, y :| Mul(a, x) + Mul(b, y) == 1;
    var s, t :| Mul(a, s) + Mul(c, t) == 1;
    calc {
      1;
      (a * x + b * y) * (a * s + c * t);
      a * (x * (a * s + c * t) + b * y * s) + (b * c) * (y * t);
    }
    assert Mul(a, x * (a * s + c * t) + b * y * s) + Mul(b * c, y * t) == 1;
  }

  lemma CoprimeFactor(a: int, k: int, b: int)
    requires AreCoprime(k * a, b)
    ensures AreCoprime(a, b)
  {
    var x, y :| Mul(k * a, x) + Mul(b, y) == 1;
    assert (k * a) * x == a * (k * x);
    assert Mul(a, k * x) + Mul(b, y) == 1;
  }

  lemma ProductCoprime(a: int, c: int, b: int)
    requires AreCoprime(a, b) && AreCoprime(c, b)
    ensures AreCoprime(a * c, b)
  {
    CoprimeSymmetric(a, b);
    CoprimeSymmetric(c, b);
    CoprimeProduct(b, a, c);
    CoprimeSymmetric(b, a * c);
  }

  lemma CoprimeLeft(a: int, b: int, k: int)
    requires AreCoprime(a, b * k)
    ensures AreCoprime(a, b)
  {
    var x, y :| Mul(a, x) + Mul(b * k, y) == 1;
    assert (b * k) * y == b * (k * y);
    assert Mul(a, x) + Mul(b, k * y) == 1;
  }

  lemma CoprimeShift(a: int, k: int, b: int)
    requires AreCoprime(a, b)
    ensures AreCoprime(a + k * b, b)
  {
    var x, y :| Mul(a, x) + Mul(b, y) == 1;
    assert (a + k * b) * x + b * (y - k * x) == a * x + b * y;
    assert Mul(a + k * b, x) + Mul(b, y - k * x) == 1;
  }

  lemma SignedFactor(a: int, g: nat) returns (a': int)
    requires Divides(g, Abs(a))
    ensures a == a' * g
  {
    var k :| Abs(a) == Mul(k, g);
    a' := Signed(a, k);
    assert (-k) * g == -(k * g);
  }

  lemma CombinationOfMultiples(k: int, l: int, g: int, x: int, y: int)
    requires g != 0 && (k * g) * x + (l * g) * y == g
    ensures k * x + l * y == 1
  {
    assert (k * x + l * y) * g == 1 * g;
    CancelFactor(k * x + l * y, 1, g);
  }

  /** Dividing both by their gcd leaves them coprime. */
  lemma DivideOut(a: int, b: int) returns (g: int, a': int, b': int)
    requires a != 0 || b != 0
    ensures g == Gcd(Abs(a), Abs(b)) > 0
    ensures a == a' * g && b == b' * g
    ensures TruncDiv(a, g) == a' && TruncDiv(b, g) == b'
    ensures AreCoprime(a', b')
  {
    hide Gcd, Signed, TruncDiv;
    g := Gcd(Abs(a), Abs(b));
    GcdPositive(Abs(a), Abs(b));
    GcdDivides(Abs(a), Abs(b));
    a' := SignedFactor(a, g);
    b' := SignedFactor(b, g);
    TruncDivExact(a', g);
    TruncDivExact(b', g);
    var x, y := Bezout(Abs(a), Abs(b));
    SignedMul(a, x);
    SignedMul(b, y);
    CombinationOfMultiples(a', b', g, Signed(a, x), Signed(b, y));
    assert Mul(a', Signed(a, x)) + Mul(b', Signed(b, y)) == 1;
  }

  lemma CancelFactor(x: int, y: int, d: int)
    requires d != 0 && x * d == y * d
    ensures x == y
  {
  }

  lemma CoprimeDivides(a: int, b: int, c: int)
    requires AreCoprime(a, b) && Divides(a, b * c)
    ensures Divides(a, c)
  {
    var x, y :| Mul(a, x) + Mul(b, y) == 1;
    var k :| b * c == Mul(k, a);
    assert c == c * (a * x + b * y) == a * (c * x) + (b * c) * y == (c * x + k * y) * a;
    assert c == Mul(c * x + k * y, a);
  }

  // ----- Fractions

  ghost function Quotient(n: int, d: int): real
    requires d != 0
  {
    n as real / d as real
  }

  /** Equal cross products, equal values. */
  lemma QuotientEqual(n: int, d: int, m: int, e: int)
    requires d != 0 && e != 0
    ensures Quotient(n, d) == Quotient(m, e) <==> n * e == m * d
  {
    var x, y := Quotient(n, d), Quotient(m, e);
    assert x * d as real == n as real && y * e as real == m as real;
    assert x * (d as real * e as real) == (n * e) as real;
    assert y * (d as real * e as real) == (m * d) as real;
    assert d as real * e as real != 0.0;
  }

  lemma QuotientLess(n: int, d: int, m: int, e: int)
    requires d > 0 && e > 0
    ensures Quotient(n, d) < Quotient(m, e) <==> n * e < m * d
  {
    var x, y, de := Quotient(n, d), Quotient(m, e), d as real * e as real;
    assert x * d as real == n as real && y * e as real == m as real;
    assert x * de == (n * e) as real;
    assert y * de == (m * d) as real;
    assert de > 0.0;
    RealOrder(x, y, de);
  }

  lemma RealOrder(x: real, y: real, d: real)
    requires d > 0.0
    ensures x < y <==> x * d < y * d
  {
    if x < y {
      assert (y - x) * d > 0.0;
    } else {
      assert (x - y) * d >= 0.0;
    }
  }

  lemma QuotientTimes(n: int, d: int)
    requires d != 0
    ensures Quotient(n, d) * d as real == n as real
  {
  }

  lemma QuotientUnique(x: real, n: int, d: int)
    requires d != 0 && x * d as real == n as real
    ensures x == Quotient(n, d)
  {
  }

  lemma NonZeroProduct(b: int, d: int)
    requires b != 0 && d != 0
    ensures b * d != 0
  {
  }

  lemma QuotientSum(a: int, b: int, c: int, d: int)
    requires b != 0 && d != 0
    ensures b * d != 0
    ensures Quotient(a, b) + Quotient(c, d) == Quotient(a * d + c * b, b * d)
    ensures Quotient(a, b) - Quotient(c, d) == Quotient(a * d - c * b, b * d)
  {
    hide Quotient;
    var x, y, p, q := Quotient(a, b), Quotient(c, d), b as real, d as real;
    QuotientTimes(a, b);
    QuotientTimes(c, d);
    NonZeroProduct(b, d);
    assert (x + y) * (p * q) == (x * p) * q + (y * q) * p;
    assert (x - y) * (p * q) == (x * p) * q - (y * q) * p;
    QuotientUnique(x + y, a * d + c * b, b * d);
    QuotientUnique(x - y, a * d - c * b, b * d);
  }

  lemma QuotientProduct(a: int, b: int, c: int, d: int)
    requires b != 0 && d != 0
    ensures b * d != 0
    ensures Quotient(a, b) * Quotient(c, d) == Quotient(a * c, b * d)
  {
    hide Quotient;
    var x, y, p, q := Quotient(a, b), Quotient(c, d), b as real, d as real;
    QuotientTimes(a, b);
    QuotientTimes(c, d);
    NonZeroProduct(b, d);
    assert (x * y) * (p * q) == (x * p) * (y * q);
    QuotientUnique(x * y, a * c, b * d);
  }
}
