/** Absolute value and small facts of integer multiplication and Euclidean division that the
    solver does not find on its own. */
module NonLinear {

  /** |x|: the distance of x from 0. */
  function Abs(x: int): nat { if x < 0 then -x else x }

  lemma MulBound(k: int, m: int)
    requires m > 0
    ensures k >= 1 ==> k * m >= m
    ensures k <= -1 ==> k * m <= -m
  {
  }

  lemma MulLe(a: int, b: int, c: int)
    requires a <= b && c >= 0
    ensures a * c <= b * c
  {
  }

  lemma SmallMultipleIsZero(k: int, m: int, d: int)
    requires m > 0 && d == k * m && -m < d < m
    ensures d == 0
  {
    MulBound(k, m);
  }

  /** A multiple of m leaves no remainder. */
  lemma ModMultiple(k: int, m: int)
    requires m > 0
    ensures (k * m) % m == 0
  {
    var q, r := (k * m) / m, (k * m) % m;
    assert r == (k - q) * m;
    SmallMultipleIsZero(k - q, m, r);
  }

  /** Adding r < m to a multiple of m leaves remainder r. */
  lemma ModOffset(j: int, m: int, r: int)
    requires m > 0 && j % m == 0 && 0 <= r < m
    ensures (j + r) % m == r
  {
    var q, s := (j + r) / m, (j + r) % m;
    var t := j / m;
    assert j == t * m;
    assert s - r == (t - q) * m;
    SmallMultipleIsZero(t - q, m, s - r);
  }

  /** For non-negative a and b, a * a < b * b exactly when a < b. */
  lemma SquareLess(a: int, b: int)
    requires a >= 0 && b >= 0
    ensures a < b <==> a * a < b * b
  {
    if a < b {
      MulLe(a, b, a);
      MulLe(a, b, b);
      assert a * a <= a * b;
      assert a * b < b * b by { MulLe(a + 1, b, b); }
    } else {
      MulLe(b, a, b);
      MulLe(b, a, a);
    }
  }

  /** Numbers whose difference is a multiple of m are both multiples of m or neither. */
  lemma ModDifference(x: int, y: int, m: int)
    requires m > 0 && (x - y) % m == 0
    ensures x % m == 0 <==> y % m == 0
  {
    var k := (x - y) / m;
    assert x - y == k * m;
    if x % m == 0 {
      var i := x / m;
      assert y == (i - k) * m;
      ModMultiple(i - k, m);
    }
    if y % m == 0 {
      var j := y / m;
      assert x == (k + j) * m;
      ModMultiple(k + j, m);
    }
  }

  /** The overflow-free loop guard: for i > 0, i <= n / i exactly when i * i <= n. */
  lemma DivGuard(i: int, n: int)
    requires i > 0
    ensures i <= n / i <==> i * i <= n
  {
    var q := n / i;
    assert n == q * i + n % i;
    if i <= q {
      MulLe(i, q, i);
    } else {
      MulLe(q + 1, i, i);
    }
  }

  /** 3 (m + 1) m - 3 m (m - 1) = 6 m. */
  lemma QuadraticStep(m: int)
    ensures 3 * (m + 1) * m == 3 * m * (m - 1) + 6 * m
  {
    var p, q := (m + 1) * m, m * (m - 1);
    assert p == m * m + m;
    assert q == m * m - m;
    assert 3 * (m + 1) * m == 3 * p;
    assert 3 * m * (m - 1) == 3 * q;
  }
}
