/**
 The few pieces of Java arithmetic whose behaviour the model depends on:
 integer division and remainder, which truncate toward zero (Java Language
 Specification, section 15.17), the narrowing conversion from a floating-point
 value to `int` (section 5.1.3), and 32-bit wrap-around of `int` addition.
 Floating-point values are idealised as exact `real`s.
 */
module JavaNumerics {

  const MinInt: int := -0x8000_0000
  const MaxInt: int := 0x7fff_ffff
  const IntRange: int := 0x1_0000_0000

  predicate IsInt32(x: int) {
    MinInt <= x <= MaxInt
  }

  function Abs(x: int): nat {
    if x < 0 then -x else x
  }

  /**
   Java's `a % b` on `int`: the remainder takes the sign of the dividend and
   is smaller in magnitude than the divisor.
   */
  function Rem(a: int, b: int): (r: int)
    requires b != 0
    ensures Abs(r) < Abs(b)
    ensures r > 0 ==> a > 0
    ensures r < 0 ==> a < 0
  {
    var e := Abs(a) % Abs(b);
    assert a == 0 ==> e == 0 by {
      if a == 0 { DivModUnique(0, Abs(b), 0, 0); }
    }
    if a < 0 then -e else e
  }

  /**
   Java's `a / b` on `int`: the exact quotient rounded toward zero. With the
   remainder it recomposes the dividend (Java Language Specification, section
   15.17.2), which together with the remainder's sign and magnitude fixes the
   quotient uniquely.
   */
  function Quot(a: int, b: int): (q: int)
    requires b != 0
    ensures q * b + Rem(a, b) == a
  {
    var A: int := Abs(a);
    var B: int := Abs(b);
    var m := A / B;
    var q := if (a < 0) == (b < 0) then m else -m;
    SignedRecompose(a, b, m, A % B);
    q
  }

  /**
   Restoring the signs: from `|a| == m * |b| + e`, the quotient `m`, negated
   when the signs differ, and the remainder `e`, taking the sign of `a`,
   recompose `a`.
   */
  lemma SignedRecompose(a: int, b: int, m: int, e: int)
    requires b != 0 && Abs(a) == m * Abs(b) + e
    ensures (if (a < 0) == (b < 0) then m else -m) * b + (if a < 0 then -e else e) == a
  {
    if a >= 0 && b < 0 {
      assert (-m) * b == m * (-b);
    } else if a < 0 && b > 0 {
      assert (-m) * b == -(m * b);
    } else if a < 0 {
      assert m * b == -(m * (-b));
    }
  }

  /** On a non-negative dividend and a positive divisor Java agrees with Dafny. */
  lemma QuotRemNonNegative(a: int, b: int)
    requires a >= 0 && b > 0
    ensures Quot(a, b) == a / b && Rem(a, b) == a % b
  {
  }

  /** Euclidean division is determined by the quotient-remainder equation. */
  lemma DivModUnique(x: int, b: int, q: int, m: int)
    requires b > 0 && 0 <= m < b && x == b * q + m
    ensures x / b == q && x % b == m
  {
    var q', m' := x / b, x % b;
    assert b * (q - q') == m' - m;
    if q - q' >= 1 {
      MulAtLeast(b, q - q');
      assert false;
    } else if q' - q >= 1 {
      MulAtLeast(b, q' - q);
      assert false;
    }
  }

  lemma MulAtLeast(b: int, d: int)
    requires b > 0 && d >= 1
    ensures b * d >= b
  {
  }

  /** Dividing an exact multiple of `c` by `c` gives the multiplier back. */
  lemma QuotOfMultiple(m: int, c: int)
    requires c != 0
    ensures Quot(m * c, c) == m
  {
    var a := m * c;
    if m == 0 {
      assert a == 0;
    } else if m > 0 && c > 0 {
      assert a > 0;
      DivModUnique(a, c, m, 0);
    } else if m > 0 {
      assert -a == (-c) * m && -a > 0;
      DivModUnique(-a, -c, m, 0);
    } else if c > 0 {
      assert -a == c * (-m) && -a > 0;
      DivModUnique(-a, c, -m, 0);
    } else {
      assert a == (-c) * (-m) && a > 0;
      DivModUnique(a, -c, -m, 0);
    }
  }

  /** Rounding toward zero, the first step of Java's `(int)` cast of a double. */
  function Truncate(x: real): (n: int)
    ensures x >= 0.0 ==> n >= 0 && n as real <= x < n as real + 1.0
    ensures x < 0.0 ==> n <= 0 && n as real - 1.0 < x <= n as real
  {
    if x >= 0.0 then x.Floor else -((-x).Floor)
  }

  /**
   Java's `(int) x` for a finite double `x`: truncation toward zero, saturated
   at the bounds of `int`.
   */
  function Narrow(x: real): (n: int)
    ensures IsInt32(n)
    ensures IsInt32(Truncate(x)) ==> n == Truncate(x)
    ensures Truncate(x) > MaxInt ==> n == MaxInt
    ensures Truncate(x) < MinInt ==> n == MinInt
  {
    var t := Truncate(x);
    if t < MinInt then MinInt else if t > MaxInt then MaxInt else t
  }

  /** Java's `a + b` on `int`: the sum, wrapped into 32 bits. */
  function AddInt(a: int, b: int): (r: int)
    requires IsInt32(a) && IsInt32(b)
    ensures IsInt32(r)
    ensures IsInt32(a + b) ==> r == a + b
    ensures (a + b - r) % IntRange == 0
  {
    var s := a + b;
    if s > MaxInt then s - IntRange else if s < MinInt then s + IntRange else s
  }
}
