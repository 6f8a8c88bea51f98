/** The two helpers of the engine's Mathf class that the camera uses:
    the integer overload of Wrap (built on C#'s truncating remainder) and
    the unclamped linear interpolation Lerp. Integers are unbounded here;
    the one call site only ever wraps values in [-1, 2]. */
module Mathf {

  function Abs(x: int): (r: int)
    ensures r >= 0 && (r == x || r == -x)
  {
    if x < 0 then -x else x
  }

  /** C#'s `a / b` on int: the quotient truncated toward zero. */
  function TruncQuot(a: int, b: int): (q: int)
    requires b != 0
  {
    var magnitude := Abs(a) / Abs(b);
    if (a >= 0) == (b > 0) then magnitude else -magnitude
  }

  /** C#'s `a % b`: the remainder of division truncated toward zero. Its sign
      follows the dividend and its magnitude is below that of the divisor. */
  function TruncRem(a: int, b: int): (r: int)
    requires b != 0
    ensures -Abs(b) < r < Abs(b)
    ensures a >= 0 ==> r >= 0
    ensures a <= 0 ==> r <= 0
  {
    if a >= 0 then a % Abs(b) else -((-a) % Abs(b))
  }

  /** The remainder is what the truncated quotient leaves of the dividend:
      a == (a / b) * b + a % b, as C# defines its two operators. */
  lemma TruncRemCompletesQuotient(a: int, b: int)
    requires b != 0
    ensures a == TruncQuot(a, b) * b + TruncRem(a, b)
  {
    var n, d := Abs(a), Abs(b);
    var q := n / d;
    assert n == q * d + n % d;
    if b < 0 {
      assert q * d == (-q) * b;
    }
  }

  /** Mathf.Wrap(int value, int min, int max) of the engine's C# API:
      maps `v` into the range between `lo` and `hi`, the bound `lo` included
      and the bound `hi` excluded, and answers `lo` for an empty range. */
  function Wrap(v: int, lo: int, hi: int): (r: int)
    ensures lo < hi ==> lo <= r < hi
    ensures hi < lo ==> hi < r <= lo
    ensures lo == hi ==> r == lo
  {
    var range := hi - lo;
    if range == 0 then lo
    else lo + TruncRem(TruncRem(v - lo, range) + range, range)
  }

  /** k * m is at least m when k is a positive count. */
  lemma {:induction false} MulAtLeast(k: int, m: int)
    requires k >= 1 && m > 0
    ensures k * m >= m
    decreases k
  {
    if k > 1 {
      MulAtLeast(k - 1, m);
      assert k * m == (k - 1) * m + m;
    }
  }

  /** The Euclidean remainder is the unique r in [0, m) with a == q * m + r. */
  lemma ModUnique(a: int, m: int, q: int, r: int)
    requires m > 0 && 0 <= r < m && a == q * m + r
    ensures a % m == r
  {
    var q', r' := a / m, a % m;
    assert a == q' * m + r';
    assert (q - q') * m == r' - r;
    if q - q' >= 1 {
      MulAtLeast(q - q', m);
      assert false;
    } else if q' - q >= 1 {
      MulAtLeast(q' - q, m);
      assert false;
    }
  }

  /** For a positive range, Wrap agrees with the Euclidean remainder. */
  lemma WrapIsEuclidean(v: int, lo: int, hi: int)
    requires lo < hi
    ensures Wrap(v, lo, hi) == lo + (v - lo) % (hi - lo)
  {
    var m := hi - lo;
    var x := v - lo;
    var inner := TruncRem(x, m);
    if x >= 0 {
      assert inner == x % m;
      ModUnique(inner + m, m, 1, inner);
    } else {
      var y := -x;
      var s := y % m;
      assert y == (y / m) * m + s;
      assert inner == -s;
      if s == 0 {
        ModUnique(m, m, 1, 0);
        ModUnique(x, m, -(y / m), 0);
      } else {
        ModUnique(m - s, m, 0, m - s);
        ModUnique(x, m, -(y / m) - 1, m - s);
      }
    }
  }

  /** A value already inside [lo, hi) is its own wrap. */
  lemma WrapIdempotent(v: int, lo: int, hi: int)
    requires lo <= v < hi
    ensures Wrap(v, lo, hi) == v
  {
    WrapIsEuclidean(v, lo, hi);
    ModUnique(v - lo, hi - lo, 0, v - lo);
  }

  /** Wrapping an intermediate result does not change a later wrap of a
      shifted value: only the residue of the sum matters. */
  lemma WrapOfShiftedWrap(v: int, k: int, lo: int, hi: int)
    requires lo < hi
    ensures Wrap(Wrap(v, lo, hi) + k, lo, hi) == Wrap(v + k, lo, hi)
  {
    var m := hi - lo;
    WrapIsEuclidean(v, lo, hi);
    WrapIsEuclidean(Wrap(v, lo, hi) + k, lo, hi);
    WrapIsEuclidean(v + k, lo, hi);
    ModOfModPlus(v - lo, k, m);
  }

  lemma ModOfModPlus(x: int, k: int, m: int)
    requires m > 0
    ensures (x % m + k) % m == (x + k) % m
  {
    var s, q := x % m, x / m;
    assert x == q * m + s;
    var t, p := (s + k) % m, (s + k) / m;
    assert s + k == p * m + t;
    assert x + k == (q + p) * m + t;
    ModUnique(x + k, m, q + p, t);
  }

  /** Mathf.Lerp(float from, float to, float weight) of the engine's C# API:
      `weight` is not clamped, so weights above 1 overshoot the target. */
  function Lerp(a: real, b: real, t: real): (r: real)
    ensures t == 0.0 ==> r == a
    ensures t == 1.0 ==> r == b
    ensures a == b ==> r == a
  {
    a + (b - a) * t
  }

  lemma MulNonneg(x: real, y: real)
    requires x >= 0.0 && y >= 0.0
    ensures x * y >= 0.0
  {
  }

  /** Lerp hits its endpoints at weights 0 and 1 and stays between them for
      weights in [0, 1]. */
  lemma LerpBetween(a: real, b: real, t: real)
    requires 0.0 <= t <= 1.0
    ensures t == 0.0 ==> Lerp(a, b, t) == a
    ensures t == 1.0 ==> Lerp(a, b, t) == b
    ensures a <= b ==> a <= Lerp(a, b, t) <= b
    ensures b <= a ==> b <= Lerp(a, b, t) <= a
  {
    if a <= b {
      MulNonneg(b - a, t);
      MulNonneg(b - a, 1.0 - t);
    } else {
      MulNonneg(a - b, t);
      MulNonneg(a - b, 1.0 - t);
    }
  }
}
