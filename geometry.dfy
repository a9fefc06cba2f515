/** Integer screen points and the exact-arithmetic stand-ins for the float
    interpolation the rasteriser performs.

    The source computes interpolation parameters as `float` (`t`, `alpha`,
    `beta`) and converts the interpolated value back to `int`, which in C++
    truncates toward zero. Here every such value is the exact rational
    `n / d` (with `d > 0`) followed by truncation toward zero: `TruncDiv`. */
module Geometry {

  /** `Vec2i`: an integer screen coordinate pair. */
  datatype Point = Point(x: int, y: int)

  function Abs(n: int): (r: nat)
    ensures r == n || r == -n
  {
    if n < 0 then -n else n
  }

  function Min(a: int, b: int): (r: int)
    ensures r <= a && r <= b && (r == a || r == b)
  {
    if a <= b then a else b
  }

  function Max(a: int, b: int): (r: int)
    ensures r >= a && r >= b && (r == a || r == b)
  {
    if a <= b then b else a
  }

  /** The C++ conversion `(int)(n / (double)d)` of the exact quotient: Dafny's
      `/` on `int` rounds toward negative infinity, C++ truncates toward zero,
      so negative numerators are handled by symmetry. */
  function TruncDiv(n: int, d: int): int
    requires d > 0
  {
    if n >= 0 then n / d else -((-n) / d)
  }

  /** `from + (to - from) * (k / n)` for `Vec2i` operands, x component only:
      `Vec2i * float` truncates each scaled component to `int` before the
      integer addition. */
  function EdgeX(from: Point, to: Point, k: int, n: int): (x: int)
    requires n > 0 && 0 <= k <= n
    ensures Min(from.x, to.x) <= x <= Max(from.x, to.x)
    ensures k == 0 ==> x == from.x
    ensures k == n ==> x == to.x
  {
    var dx := to.x - from.x;
    MulBetween(dx, k, n);
    TruncDivBetween(dx * k, n, Min(0, dx), Max(0, dx));
    TruncDivExact(dx, n);
    from.x + TruncDiv(dx * k, n)
  }

  // ---- arithmetic facts about truncating division ----

  /** The truncated quotient is the integer next to `n / d` on the side of
      zero, and carries the sign of `n`. */
  lemma TruncDivBounds(n: int, d: int)
    requires d > 0
    ensures var q := TruncDiv(n, d);
      (n >= 0 ==> q >= 0 && q * d <= n < q * d + d) &&
      (n < 0 ==> q <= 0 && q * d - d < n <= q * d)
  {
  }

  lemma MulLeftMonotone(a: int, b: int, d: int)
    requires d > 0 && a <= b
    ensures a * d <= b * d
  {
    assert b * d - a * d == (b - a) * d;
  }

  lemma MulShift(c: int, m: int)
    ensures c * (m + 1) == c * m + c
  {
  }

  /** Scaling by a non-negative factor `d` is strictly monotone in reverse:
      `a * d < b * d` forces `a < b`. */
  lemma MulLessCancel(a: int, b: int, d: int)
    requires d > 0 && a * d < b * d
    ensures a < b
  {
    if a >= b { MulLeftMonotone(b, a, d); }
  }

  /** `dx * k` lies between `0` and `dx * n` when `0 <= k <= n`. */
  lemma MulBetween(dx: int, k: int, n: int)
    requires n > 0 && 0 <= k <= n
    ensures Min(0, dx) * n <= dx * k <= Max(0, dx) * n
  {
    if dx >= 0 {
      assert dx * k <= dx * n by {
        assert dx * n - dx * k == dx * (n - k);
      }
      assert 0 <= dx * k;
    } else {
      assert dx * k >= dx * n by {
        assert dx * k - dx * n == (-dx) * (n - k);
      }
      assert dx * k <= 0 by {
        assert -(dx * k) == (-dx) * k;
      }
    }
  }

  /** A truncated quotient of a numerator lying between `lo * d` and `hi * d`
      lies between `lo` and `hi`. */
  lemma TruncDivBetween(n: int, d: int, lo: int, hi: int)
    requires d > 0 && lo * d <= n <= hi * d
    ensures lo <= TruncDiv(n, d) <= hi
  {
    var q := TruncDiv(n, d);
    TruncDivBounds(n, d);
    if n >= 0 {
      MulLessCancel(lo, q + 1, d);
      if q > hi {
        MulLeftMonotone(hi + 1, q, d);
      }
    } else {
      MulLessCancel(q - 1, hi, d);
      if q < lo {
        MulLeftMonotone(q, lo - 1, d);
      }
    }
  }

  /** Exact quotients survive the truncation. */
  lemma TruncDivExact(y: int, d: int)
    requires d > 0
    ensures TruncDiv(y * d, d) == y
  {
    TruncDivBetween(y * d, d, y, y);
  }

  lemma MulSub(a: int, b: int, d: int)
    ensures (a - b) * d == a * d - b * d
  {
  }

  /** Numerators at most `d` apart have truncated quotients at most one apart,
      in the same order. */
  lemma TruncDivStep(n1: int, n2: int, d: int)
    requires d > 0 && n1 <= n2 <= n1 + d
    ensures TruncDiv(n1, d) <= TruncDiv(n2, d) <= TruncDiv(n1, d) + 1
  {
    var q1, q2 := TruncDiv(n1, d), TruncDiv(n2, d);
    var k := q2 - q1;
    TruncDivBounds(n1, d);
    TruncDivBounds(n2, d);
    MulSub(q2, q1, d);
    // both remainders n - q * d lie in (-d, d), on the side of their sign
    assert k * d < 2 * d;
    MulLessCancel(k, 2, d);
    if n1 >= 0 || n2 < 0 {
      assert -1 * d < k * d;
      MulLessCancel(-1, k, d);
    }
  }
}
