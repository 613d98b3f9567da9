/**
 The Python built-ins the colour conversions rely on, stated over exact reals:
 the float remainder `x % m`, `round`, `max`/`min` of three values and the
 clamp `max(0, min(x, 1))`.
 */
module PyNumeric {

  /** `x` is a whole number. */
  predicate IsWhole(x: real) {
    x.Floor as real == x
  }

  /** The fractional part of y: what is left after taking away the whole
      part below it. */
  function Frac(y: real): (r: real)
    ensures 0.0 <= r < 1.0
    ensures IsWhole(y - r)
  {
    y - y.Floor as real
  }

  /** Frac's contract leaves no choice. */
  lemma FracUnique(y: real, r: real)
    requires 0.0 <= r < 1.0
    requires IsWhole(y - r)
    ensures Frac(y) == r
  {
    var k := (y - r).Floor;
    assert y.Floor == k;
  }

  /** Python's `x % m` for a positive divisor: the remainder takes the sign of
      the divisor, so it lies in [0, m) and differs from `x` by a whole
      multiple of `m`. */
  function FloatMod(x: real, m: real): (r: real)
    requires m > 0.0
    ensures 0.0 <= r < m
    ensures IsWhole((x - r) / m)
  {
    var f := Frac(x / m);
    ScaleUnit(m, f);
    DivOfDifference(x, m, f);
    m * f
  }

  /** (x - m * f) / m == x / m - f */
  lemma DivOfDifference(x: real, m: real, f: real)
    requires m > 0.0
    ensures (x - m * f) / m == x / m - f
  {
  }

  /** Scaling a value of [0, 1) by m lands in [0, m). */
  lemma ScaleUnit(m: real, f: real)
    requires m > 0.0
    requires 0.0 <= f < 1.0
    ensures 0.0 <= m * f < m
  {
    MulLe(m, 0.0, f);
    MulLt(m, f, 1.0);
  }

  /** Dividing a value of [0, m) by m lands in [0, 1). */
  lemma UnscaleUnit(m: real, r: real)
    requires m > 0.0
    requires 0.0 <= r < m
    ensures 0.0 <= r / m < 1.0
  {
    assert r == m * (r / m);
    if r / m >= 1.0 {
      MulLe(m, 1.0, r / m);
    }
  }

  /** A whole number moved by a whole amount stays whole. */
  lemma WholeShift(w: real, k: int)
    requires IsWhole(w)
    ensures IsWhole(w + k as real)
  {
    assert (w + k as real).Floor == w.Floor + k;
  }

  /** (a + k * m) / m == a / m + k */
  lemma DivOfShift(a: real, m: real, k: int)
    requires m > 0.0
    ensures (a + k as real * m) / m == a / m + k as real
  {
  }

  /** The two properties of FloatMod's contract pin the remainder down. */
  lemma FloatModUnique(x: real, m: real, r: real)
    requires m > 0.0
    requires 0.0 <= r < m
    requires IsWhole((x - r) / m)
    ensures FloatMod(x, m) == r
  {
    var f := r / m;
    assert r == m * f;
    UnscaleUnit(m, r);
    DivOfDifference(x, m, f);
    FracUnique(x / m, f);
  }

  /** A value already in [0, m) is its own remainder. */
  lemma FloatModOfInRange(x: real, m: real)
    requires m > 0.0
    requires 0.0 <= x < m
    ensures FloatMod(x, m) == x
  {
    assert (x - x) / m == 0.0;
    FloatModUnique(x, m, x);
  }

  /** A value in [-m, 0) wraps round once. */
  lemma FloatModOfNegative(x: real, m: real)
    requires m > 0.0
    requires -m <= x < 0.0
    ensures FloatMod(x, m) == x + m
  {
    assert (x - (x + m)) / m == -1.0;
    FloatModUnique(x, m, x + m);
  }

  /** Adding a whole multiple of the divisor does not change the remainder. */
  lemma FloatModShift(x: real, m: real, k: int)
    requires m > 0.0
    ensures FloatMod(x + k as real * m, m) == FloatMod(x, m)
  {
    var r := FloatMod(x, m);
    var w := (x - r) / m;
    DivOfShift(x - r, m, k);
    assert x + k as real * m - r == (x - r) + k as real * m;
    assert (x + k as real * m - r) / m == w + k as real;
    WholeShift(w, k);
    FloatModUnique(x + k as real * m, m, r);
  }

  /** Multiplying by a non-negative factor keeps the order. */
  lemma MulLe(c: real, a: real, b: real)
    requires c >= 0.0
    requires a <= b
    ensures c * a <= c * b
  {
    assert c * b - c * a == c * (b - a);
  }

  /** A fraction of a non-negative value lies between 0 and that value. */
  lemma ScaleDown(c: real, a: real)
    requires c >= 0.0
    requires 0.0 <= a <= 1.0
    ensures 0.0 <= c * a <= c
  {
    assert c - c * a == c * (1.0 - a);
  }

  /** Multiplying by a positive factor keeps the strict order. */
  lemma MulLt(c: real, a: real, b: real)
    requires c > 0.0
    requires a < b
    ensures c * a < c * b
  {
    assert c * b - c * a == c * (b - a);
  }

  /** A value no larger in size than a positive c, divided by c, lies in
      [-1, 1]. */
  lemma RatioWithin(a: real, c: real)
    requires c > 0.0
    ensures -c <= a <= c ==> -1.0 <= a / c <= 1.0
  {
    var q := a / c;
    assert c * q == a;
    if q > 1.0 {
      MulLt(c, 1.0, q);
    }
    if q < -1.0 {
      MulLt(c, q, -1.0);
    }
  }

  /** Python 3's `round(x)`: the nearest integer, ties going to the even one. */
  function Round(x: real): (n: int)
    ensures -0.5 <= n as real - x <= 0.5
    ensures (n as real - x == 0.5 || x - n as real == 0.5) ==> n % 2 == 0
  {
    var f := x.Floor;
    var frac := x - f as real;
    if frac < 0.5 then f
    else if frac > 0.5 then f + 1
    else if f % 2 == 0 then f
    else f + 1
  }

  /** Round's contract leaves no choice: any integer meeting it is Round(x). */
  lemma RoundUnique(x: real, n: int)
    requires -0.5 <= n as real - x <= 0.5
    requires (n as real - x == 0.5 || x - n as real == 0.5) ==> n % 2 == 0
    ensures Round(x) == n
  {
  }

  /** A whole number rounds to itself. */
  lemma RoundOfInt(k: int)
    ensures Round(k as real) == k
  {
    RoundUnique(k as real, k);
  }

  /** Python's `max(a, b, c)`. */
  function Max3(a: real, b: real, c: real): (r: real)
    ensures r >= a && r >= b && r >= c
    ensures r == a || r == b || r == c
  {
    if a >= b && a >= c then a else if b >= c then b else c
  }

  /** Python's `min(a, b, c)`. */
  function Min3(a: real, b: real, c: real): (r: real)
    ensures r <= a && r <= b && r <= c
    ensures r == a || r == b || r == c
  {
    if a <= b && a <= c then a else if b <= c then b else c
  }

  /** `max(0, min(x, 1))`: the point of [0, 1] nearest to x. */
  function Clamp01(x: real): (r: real)
    ensures 0.0 <= r <= 1.0
    ensures 0.0 <= x <= 1.0 ==> r == x
    ensures x < 0.0 ==> r == 0.0
    ensures x > 1.0 ==> r == 1.0
  {
    var upper := if x <= 1.0 then x else 1.0;
    if 0.0 >= upper then 0.0 else upper
  }

  /** Python's `abs` on a float. */
  function Abs(x: real): (r: real)
    ensures r >= 0.0
    ensures r == x || r == -x
  {
    if x < 0.0 then -x else x
  }
}
