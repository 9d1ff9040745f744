/** Greatest common divisors: what they are, and the mixed binary algorithm that computes
    them (libs/boost/integer/common_factor_rt.hpp). */
module IntegerGcd {
  import BitWords
  import opened Wrappers

  function Abs(x: int): nat {
    if x < 0 then -x else x
  }

  function Mul(x: int, y: int): int {
    x * y
  }

  ghost predicate Divides(d: int, a: int) {
    exists k :: a == Mul(k, d)
  }

  /** Euclid's recursion, as rational::inner_gcd on non-negative arguments. */
  function Gcd(a: nat, b: nat): (g: nat)
    decreases b
  {
    if b == 0 then a else Gcd(b, a % b)
  }

  // ----- Meaning

  lemma {:induction false} Bezout(a: nat, b: nat) returns (x: int, y: int)
    ensures a * x + b * y == Gcd(a, b)
    decreases b
  {
    if b == 0 {
      x, y := 1, 0;
    } else {
      var q, r := a / b, a % b;
      var s, t := Bezout(b, r);
      x, y := t, s - q * t;
      assert a * x + b * y == b * s + (a - b * q) * t;
    }
  }

  lemma DividesCombination(d: int, a: int, b: int, x: int, y: int)
    requires Divides(d, a) && Divides(d, b)
    ensures Divides(d, a * x + b * y)
  {
    var k, l :| a == Mul(k, d) && b == Mul(l, d);
    assert a * x + b * y == Mul(k * x + l * y, d) by {
      assert (k * x + l * y) * d == (k * d) * x + (l * d) * y;
    }
  }

  lemma {:induction false} GcdDivides(a: nat, b: nat)
    ensures Divides(Gcd(a, b), a) && Divides(Gcd(a, b), b)
    decreases b
  {
    var g := Gcd(a, b);
    if b == 0 {
      assert a == Mul(1, g) && b == Mul(0, g);
    } else {
      var q, r := a / b, a % b;
      GcdDivides(b, r);
      DividesCombination(g, b, r, q, 1);
      assert b * q + r * 1 == a;
    }
  }

  lemma GcdGreatest(a: nat, b: nat, d: int)
    requires Divides(d, a) && Divides(d, b)
    ensures Divides(d, Gcd(a, b))
  {
    var x, y := Bezout(a, b);
    DividesCombination(d, a, b, x, y);
  }

  lemma MulMonotone(x: int, y: int, d: int)
    requires x <= y && d >= 0
    ensures x * d <= y * d
  {
  }

  lemma DivisorIsSmaller(d: nat, a: nat)
    requires Divides(d, a)
    ensures a > 0 ==> 0 < d <= a
  {
    var k :| a == Mul(k, d);
    if k <= 0 {
      MulMonotone(k, 0, d);
    } else {
      MulMonotone(1, k, d);
    }
  }

  lemma DividesAntisymmetric(a: nat, b: nat)
    requires Divides(a, b) && Divides(b, a)
    ensures a == b
  {
    DivisorIsSmaller(a, b);
    DivisorIsSmaller(b, a);
  }

  /** A gcd is fixed by the common divisors it has. */
  lemma SameDivisorsSameGcd(a: nat, b: nat, c: nat, d: nat)
    requires forall k: int :: Divides(k, a) && Divides(k, b) <==> Divides(k, c) && Divides(k, d)
    ensures Gcd(a, b) == Gcd(c, d)
  {
    var g, h := Gcd(a, b), Gcd(c, d);
    GcdDivides(a, b);
    GcdDivides(c, d);
    GcdGreatest(c, d, g);
    GcdGreatest(a, b, h);
    DividesAntisymmetric(g, h);
  }

  lemma GcdSymmetric(a: nat, b: nat)
    ensures Gcd(a, b) == Gcd(b, a)
  {
    SameDivisorsSameGcd(a, b, b, a);
  }

  lemma {:induction false} GcdPositive(a: nat, b: nat)
    ensures Gcd(a, b) > 0 <==> a > 0 || b > 0
  {
    GcdDivides(a, b);
    var k, l :| a == Mul(k, Gcd(a, b)) && b == Mul(l, Gcd(a, b));
  }

  // ----- The steps of the binary algorithm

  lemma GcdSubtract(u: nat, v: nat)
    requires u <= v
    ensures Gcd(u, v - u) == Gcd(u, v)
  {
    forall k: int
      ensures Divides(k, u) && Divides(k, v - u) <==> Divides(k, u) && Divides(k, v)
    {
      if Divides(k, u) && Divides(k, v - u) {
        DividesCombination(k, u, v - u, 1, 1);
      }
      if Divides(k, u) && Divides(k, v) {
        DividesCombination(k, v, u, 1, -1);
      }
    }
    SameDivisorsSameGcd(u, v - u, u, v);
  }

  /** A common factor of two cannot come from one side only. */
  lemma GcdHalve(u: nat, v: nat)
    requires v % 2 == 1
    ensures Gcd(2 * u, v) == Gcd(u, v)
  {
    forall k: int
      ensures Divides(k, 2 * u) && Divides(k, v) <==> Divides(k, u) && Divides(k, v)
    {
      if Divides(k, u) && Divides(k, v) {
        DividesCombination(k, u, u, 1, 1);
      }
      if Divides(k, 2 * u) && Divides(k, v) {
        // v == 2 m + 1, so u == v * u - m * (2 u)
        var m := v / 2;
        DividesCombination(k, v, 2 * u, u, -m);
        assert v * u + (2 * u) * -m == u;
      }
    }
    SameDivisorsSameGcd(2 * u, v, u, v);
  }

  lemma ModOfMultiples(c: nat, a: nat, b: nat)
    requires c > 0 && b > 0
    ensures (c * a) % (c * b) == c * (a % b)
  {
    var q, r := a / b, a % b;
    assert c * a == (c * b) * q + c * r;
    assert 0 <= c * r < c * b;
    DivisionUnique(c * a, c * b, q, c * r);
  }

  lemma DivisionUnique(n: int, d: int, q: int, r: int)
    requires d > 0 && n == d * q + r && 0 <= r < d
    ensures q == n / d && r == n % d
  {
    var e := n / d - q;
    assert e * d == r - n % d;
    if e >= 1 {
      MulMonotone(1, e, d);
    } else if e <= -1 {
      MulMonotone(e, -1, d);
    }
  }

  lemma {:induction false} GcdScale(c: nat, a: nat, b: nat)
    ensures Gcd(c * a, c * b) == c * Gcd(a, b)
    decreases b
  {
    if c == 0 {
    } else if b == 0 {
    } else {
      ModOfMultiples(c, a, b);
      GcdScale(c, b, a % b);
    }
  }

  /** `x << k`. */
  function Shifted(x: nat, k: nat): (y: nat)
  {
    MulMonotone(0, x, BitWords.Pow2(k));
    x * BitWords.Pow2(k)
  }

  lemma ShiftedOnce(x: nat, k: nat)
    ensures Shifted(x, 0) == x
    ensures Shifted(x, k + 1) == 2 * Shifted(x, k) == Shifted(2 * x, k)
  {
    var p := BitWords.Pow2(k);
    assert x * (2 * p) == 2 * (x * p) == (2 * x) * p;
  }

  /** Factors of two of one side alone do not matter to the other, odd, side. */
  lemma {:induction false} GcdStrip(u: nat, i: nat, v: nat)
    requires v % 2 == 1
    ensures Gcd(Shifted(u, i), v) == Gcd(u, v)
    decreases i
  {
    hide Shifted, Gcd;
    ShiftedOnce(u, 0);
    if i > 0 {
      ShiftedOnce(u, i - 1);
      GcdHalve(Shifted(u, i - 1), v);
      GcdStrip(u, i - 1, v);
    }
  }

  function Min(a: nat, b: nat): nat {
    if a < b then a else b
  }

  /** Only the factors of two that both sides have are in the gcd. */
  lemma {:induction false} GcdShared(u: nat, i: nat, v: nat, j: nat)
    requires u % 2 == 1 && v % 2 == 1
    ensures Gcd(Shifted(u, i), Shifted(v, j)) == Shifted(Gcd(u, v), Min(i, j))
    decreases i
  {
    hide Shifted, Gcd;
    ShiftedOnce(Gcd(u, v), 0);
    ShiftedOnce(u, 0);
    ShiftedOnce(v, 0);
    if i == 0 {
      GcdSymmetric(u, Shifted(v, j));
      GcdStrip(v, j, u);
      GcdSymmetric(v, u);
    } else if j == 0 {
      GcdStrip(u, i, v);
    } else {
      GcdShared(u, i - 1, v, j - 1);
      ShiftedOnce(u, i - 1);
      ShiftedOnce(v, j - 1);
      GcdScale(2, Shifted(u, i - 1), Shifted(v, j - 1));
      ShiftedOnce(Gcd(u, v), Min(i - 1, j - 1));
    }
  }

  // ----- The algorithm

  /** Shifts out the factors of two. */
  method MakeOdd(val: nat) returns (odd: nat, r: nat)
    requires val > 0
    ensures odd % 2 == 1 && val == Shifted(odd, r)
    ensures odd <= val
  {
    hide Shifted;
    odd, r := val, 0;
    ShiftedOnce(val, 0);
    while odd % 2 == 0
      invariant 0 < odd <= val && val == Shifted(odd, r)
      decreases odd
    {
      ShiftedOnce(odd / 2, r);
      odd, r := odd / 2, r + 1;
    }
  }

  /** One round: u %= v, v -= u. The pair keeps its gcd and exactly one side becomes even. */
  lemma {:induction false} ReduceKeepsGcd(u: nat, v: nat)
    requires u % 2 == 1 && v % 2 == 1 && v > 1
    ensures u % v < v && Gcd(u % v, v - u % v) == Gcd(u, v)
    ensures u % v == 0 ==> Gcd(u, v) == v
    ensures u % v % 2 != (v - u % v) % 2
  {
    hide Gcd;
    var r := u % v;
    GcdMod(u, v);
    GcdSubtract(r, v);
    GcdSymmetric(r, v);
    GcdOfZero(v);
  }

  lemma GcdMod(u: nat, v: nat)
    requires v > 0
    ensures Gcd(u, v) == Gcd(v, u % v)
  {
  }

  /** Stripping both sides of a pair that is odd on one side changes nothing. */
  lemma {:induction false} OneSideStripped(u: nat, i: nat, v: nat, j: nat)
    requires u % 2 == 1 && v % 2 == 1
    ensures Shifted(u, i) % 2 != Shifted(v, j) % 2 ==> Gcd(Shifted(u, i), Shifted(v, j)) == Gcd(u, v)
  {
    hide Gcd, Shifted;
    GcdShared(u, i, v, j);
    ShiftedOnce(Gcd(u, v), 0);
    if i > 0 && j > 0 {
      ShiftedOnce(u, i - 1);
      ShiftedOnce(v, j - 1);
    }
  }

  method MixedBinaryGcd(a: nat, b: nat) returns (g: nat)
    ensures g == Gcd(a, b)
  {
    hide Gcd, Shifted;
    var u: nat, v: nat := a, b;
    GcdSymmetric(a, b);
    GcdOfZero(v);
    GcdOfZero(u);
    if u < v {
      u, v := v, u;
    }
    if u == 0 {
      return v;
    }
    if v == 0 {
      return u;
    }
    var i: nat, j: nat;
    u, i := MakeOdd(u);
    v, j := MakeOdd(v);
    var shifts := Min(i, j);
    GcdShared(u, i, v, j);
    ghost var core := Gcd(u, v);
    while 1 < v
      invariant u % 2 == 1 && v % 2 == 1
      invariant Gcd(u, v) == core
      decreases u + v
    {
      ReduceKeepsGcd(u, v);
      u := u % v;
      v := v - u;
      if u == 0 {
        return Shifted(v, shifts);
      }
      if v == 0 {
        assert false;
      }
      u, i := MakeOdd(u);
      v, j := MakeOdd(v);
      OneSideStripped(u, i, v, j);
      GcdSymmetric(u, v);
      if u < v {
        u, v := v, u;
      }
    }
    GcdOfOne(u);
    if v != 1 {
      assert false;
    }
    g := Shifted(v, shifts);
  }

  lemma GcdOfZero(u: nat)
    ensures Gcd(u, 0) == u == Gcd(0, u)
  {
    GcdSymmetric(u, 0);
  }

  lemma GcdOfOne(u: nat)
    ensures Gcd(u, 1) == 1
  {
    assert Gcd(1, 0) == 1;
  }

  // ----- integer::gcd and integer::lcm on a built-in type

  /** C++ division truncates toward zero, and the remainder follows the dividend. */
  function TruncDiv(a: int, b: int): int
    requires b != 0
  {
    if (a < 0) == (b < 0) then Abs(a) / Abs(b) else -(Abs(a) / Abs(b))
  }

  function TruncMod(a: int, b: int): int
    requires b != 0
  {
    if a < 0 then -(Abs(a) % Abs(b)) else Abs(a) % Abs(b)
  }

  lemma TruncDivMod(a: int, b: int)
    requires b != 0
    ensures a == TruncDiv(a, b) * b + TruncMod(a, b)
    ensures Abs(TruncMod(a, b)) == Abs(a) % Abs(b) < Abs(b)
  {
    var n: int, d: int := Abs(a), Abs(b);
    assert n == d * (n / d) + n % d;
    assert d * (n / d) == (n / d) * d == (-(n / d)) * (-d);
    assert (n / d) * (-d) == -((n / d) * d) == (-(n / d)) * d;
  }

  lemma TruncDivExact(k: int, d: int)
    requires d != 0
    ensures TruncDiv(k * d, d) == k && TruncMod(k * d, d) == 0
  {
    assert Abs(k * d) == Abs(k) * Abs(d) by {
      assert k * d == (-k) * (-d) && (-k) * d == -(k * d) == k * (-d);
      MulMonotone(0, Abs(k), Abs(d));
    }
    DivisionUnique(Abs(k * d), Abs(d), Abs(k), 0);
    if k > 0 {
      MulMonotone(1, k, Abs(d));
    } else if k < 0 {
      MulMonotone(k, -1, Abs(d));
    }
  }

  /** lo is numeric_limits<Integer>::min(); 0 for an unsigned or unbounded type. The type's range
      is [lo, -lo - 1] when lo is negative, and it is no narrower than int: narrower ones compute
      in int. None stands for an undefined operation: dividing by zero, or a quotient that does
      not fit, which lo / -1 is. */
  function BoundedMod(lo: int, a: int, b: int): Option<int>
    requires lo <= 0
  {
    if b == 0 || (lo < 0 && a == lo && b == -1) then None else Some(TruncMod(a, b))
  }

  predicate InRange(lo: int, x: int) {
    lo == 0 || lo <= x < -lo
  }

  /** integer::gcd, whose final case runs MixedBinaryGcd on the absolute values. */
  function GcdOf(lo: int, a: int, b: int): (g: Option<int>)
    requires lo <= 0 && InRange(lo, a) && InRange(lo, b)
    decreases Abs(a) + Abs(b)
  {
    if a == lo then
      if a == 0 then Some(Abs(b))
      else match BoundedMod(lo, a, b)
           case None => None
           case Some(m) => TruncDivMod(a, b); GcdOf(lo, m, b)
    else if b == lo then
      if b == 0 then Some(Abs(a))
      else match BoundedMod(lo, b, a)
           case None => None
           case Some(m) => TruncDivMod(b, a); GcdOf(lo, a, m)
    else Some(Gcd(Abs(a), Abs(b)))
  }

  /** One argument is the type's minimum and the other is one it has no remainder for. */
  predicate MinimumMeets(lo: int, a: int, b: int) {
    lo < 0 && ((a == lo && b in {0, -1, lo}) || (b == lo && a in {0, -1, lo}))
  }

  lemma GcdOfMod(a: nat, b: nat)
    requires b > 0
    ensures Gcd(a % b, b) == Gcd(a, b)
  {
    GcdMod(a, b);
    GcdSymmetric(a % b, b);
  }

  /** integer::gcd is the gcd, and is defined exactly when the minimum is not met that way. */
  lemma {:induction false} GcdOfExact(lo: int, a: int, b: int)
    requires lo <= 0 && InRange(lo, a) && InRange(lo, b)
    ensures GcdOf(lo, a, b) == if MinimumMeets(lo, a, b) then None else Some(Gcd(Abs(a), Abs(b)))
    decreases Abs(a) + Abs(b)
  {
    hide Gcd, TruncMod;
    GcdOfZero(Abs(a));
    GcdOfZero(Abs(b));
    if lo < 0 && a == lo && b != 0 && b != -1 {
      TruncDivMod(a, b);
      GcdOfMod(Abs(a), Abs(b));
      GcdOfExact(lo, TruncMod(a, b), b);
      RemainderOfMinimum(lo, b);
    } else if lo < 0 && b == lo && a != lo && a != 0 && a != -1 {
      TruncDivMod(b, a);
      GcdSymmetric(Abs(a), Abs(b));
      GcdOfMod(Abs(b), Abs(a));
      GcdSymmetric(Abs(TruncMod(b, a)), Abs(a));
      GcdOfExact(lo, a, TruncMod(b, a));
      RemainderOfMinimum(lo, a);
    }
  }

  lemma RemainderOfMinimum(lo: int, x: int)
    requires lo < 0 && InRange(lo, x) && x != 0
    ensures TruncMod(lo, x) != lo
    ensures x == lo ==> TruncMod(lo, x) == 0
  {
    TruncDivMod(lo, x);
    if x == lo {
      TruncDivExact(1, lo);
    }
  }

  /** integer::lcm. */
  function Lcm(a: int, b: int): (m: int) {
    var g := Gcd(Abs(a), Abs(b));
    if g != 0 then Abs(a) / g * Abs(b) else 0
  }
}
