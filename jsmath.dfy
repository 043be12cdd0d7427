/** JavaScript's numeric operators that the widgets rely on, stated over
    Dafny's exact `int` and `real`. JavaScript's `%` truncates toward zero (the
    remainder takes the sign of the dividend) while Dafny's `%` is Euclidean;
    `Math.floor` rounds toward negative infinity, as Dafny's `.Floor` does. */
module JsMath {

  /** Rounding toward zero, the quotient JavaScript's `%` is defined by. */
  function Trunc(x: real): (r: int)
    ensures 0.0 <= x ==> r as real <= x < r as real + 1.0
    ensures x < 0.0 ==> r as real - 1.0 < x <= r as real
  {
    if 0.0 <= x then x.Floor else -((-x).Floor)
  }

  /** JavaScript's `%` on numbers: `x - m * q` with `q` the quotient rounded toward zero. */
  function RealRem(x: real, m: real): (r: real)
    requires m != 0.0
  {
    x - m * (Trunc(x / m) as real)
  }

  /** For a negative dividend the remainder takes the dividend's sign and stays
      above `-m`. */
  lemma RemainderOfNegative(x: real, m: real)
    requires x < 0.0 < m
    ensures -m < RealRem(x, m) <= 0.0
  {
    var q := x / m;
    assert q < 0.0;
    var t := Trunc(q) as real;
    var f := q - t;
    assert -1.0 < f <= 0.0;
    assert x == m * q;
    assert RealRem(x, m) == m * f;
    assert m * (f + 1.0) > 0.0;
    assert m * f <= 0.0;
  }

  /** JavaScript's `%` on integral operands. */
  function IntRem(a: int, b: int): (r: int)
    requires b != 0
    ensures 0 <= a ==> 0 <= r < if b < 0 then -b else b
    ensures a < 0 ==> r <= 0
  {
    if 0 <= a then a % b else -((-a) % b)
  }

  /** Dividing two integers in exact arithmetic and flooring gives Dafny's
      integer division whenever the divisor is positive. */
  lemma FloorOfQuotient(n: int, d: int)
    requires 0 < d
    ensures (n as real / d as real).Floor == n / d
  {
    var q, r := n / d, n % d;
    assert n == d * q + r;
    assert n as real == (d as real) * (q as real) + r as real;
    assert 0.0 <= r as real / d as real < 1.0;
    assert n as real / d as real == q as real + r as real / d as real;
  }

  /** Flooring after subtracting an integer subtracts it from the floor. */
  lemma FloorMinusInt(x: real, k: int)
    ensures (x - k as real).Floor == x.Floor - k
  {
  }

  /** Dividing twice by positive integers divides once by their product. */
  lemma NestedDivision(n: int, a: int, b: int)
    requires 0 <= n && 0 < a && 0 < b
    ensures n / a / b == n / (a * b)
  {
    var q1, r1 := n / a, n % a;
    var q2, r2 := q1 / b, q1 % b;
    Regroup(a, b, q2, r2);
    assert n == (a * b) * q2 + (a * r2 + r1);
    RemainderBound(a, b, r2, r1);
    DivisionUnique(n, a * b, q2, a * r2 + r1);
  }

  lemma Regroup(a: int, b: int, q: int, r: int)
    ensures a * (b * q + r) == (a * b) * q + a * r
  {
  }

  lemma RemainderBound(a: int, b: int, r2: int, r1: int)
    requires 0 < a && 0 <= r2 < b && 0 <= r1 < a
    ensures 0 <= a * r2 + r1 < a * b
  {
    assert a * b == a * (b - 1) + a;
    assert a * r2 <= a * (b - 1) by {
      assert a * (b - 1) - a * r2 == a * (b - 1 - r2);
    }
  }

  /** The quotient and remainder of a Euclidean division are unique. */
  lemma DivisionUnique(n: int, d: int, q: int, r: int)
    requires 0 < d && n == d * q + r && 0 <= r < d
    ensures n / d == q && n % d == r
  {
    var q', r' := n / d, n % d;
    assert n == d * q' + r';
    if q' < q {
      MultipleAtLeast(d, q - q');
    } else if q < q' {
      MultipleAtLeast(d, q' - q);
    }
  }

  lemma MultipleAtLeast(d: int, x: int)
    requires 0 < d && 1 <= x
    ensures d <= d * x
  {
    assert d * x == d * (x - 1) + d;
    assert 0 <= d * (x - 1);
  }

  /** For non-negative `n`, JavaScript's `Math.floor((n / k) % m)` on numbers is
      integer `(n / k) % m`. */
  lemma FloorOfRemainder(n: int, k: int, m: int)
    requires 0 <= n && 0 < k && 0 < m
    ensures RealRem(n as real / k as real, m as real).Floor == n / k % m
  {
    var x := n as real / k as real;
    assert x / m as real == n as real / (k * m) as real;
    FloorOfQuotient(n, k * m);
    NestedDivision(n, k, m);
    var q := n / k / m;
    assert 0.0 <= x;
    assert x / m as real >= 0.0;
    assert Trunc(x / m as real) == q;
    FloorMinusInt(x, m * q);
    FloorOfQuotient(n, k);
    assert RealRem(x, m as real) == x - (m * q) as real;
  }
}
