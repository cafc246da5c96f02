/** Euclid's algorithm on int32 as written in Go: `gcd` of bench/wasm/gcd_bench.go,
    identical to `gcd` of test/wasm/src/go_math.go, and the `gcd_bench` driver that
    sums it over shifted inputs. */
module Euclid {

  import opened NonLinear
  import opened FixedWidth
  import opened Primes

  /** Go's `a % b`: the remainder of the quotient truncated toward zero, so it takes
      the sign of a (Dafny's `%` is Euclidean and never negative). For the int32
      operands -2^31 % -1 Go defines the result as 0, which this gives too. */
  function GoRem(a: int, b: int): (r: int)
    requires b != 0
    ensures Abs(r) < Abs(b)
    ensures a >= 0 ==> r >= 0
    ensures a < 0 ==> r <= 0
    ensures a == 0 ==> r == 0
  {
    var m := Abs(a) % Abs(b);
    ModMultiple(0, Abs(b));
    if a >= 0 then m else -m
  }

  /** a and a % b differ by a multiple of b (of |b|, equivalently). */
  lemma GoRemResidue(a: int, b: int)
    requires b != 0
    ensures (a - GoRem(a, b)) % Abs(b) == 0
  {
    var x: int, y: int := Abs(a), Abs(b);
    var q: int, m: int := x / y, x % y;
    assert x == q * y + m;
    assert GoRem(a, b) == if a >= 0 then m else -m;
    if a >= 0 {
      assert a - GoRem(a, b) == q * y;
      ModMultiple(q, y);
    } else {
      assert a - GoRem(a, b) == (-q) * y;
      ModMultiple(-q, y);
    }
  }

  /** What the loop computes: `a, b = b, a%b` until b is 0, then a. The remainder
      shrinks |b|, which is why the loop ends. */
  function EuclidGcd(a: int, b: int): (r: int)
    ensures b == 0 ==> r == a
    ensures a == 0 ==> r == b
    ensures a >= 0 && b >= 0 ==> r >= 0
    decreases Abs(b)
  {
    if b == 0 then a else EuclidGcd(b, GoRem(a, b))
  }

  /** One step keeps the common divisors: with b != 0, d divides a and b exactly when
      it divides b and a % b. */
  lemma StepKeepsDivisors(a: int, b: int, d: int)
    requires b != 0 && d > 0
    ensures Divides(d, a) && Divides(d, b) <==> Divides(d, b) && Divides(d, GoRem(a, b))
  {
    var r := GoRem(a, b);
    if Divides(d, b) {
      // d divides |b|, and |b| divides a - r
      assert Divides(d, Abs(b)) by {
        var k := b / d;
        assert b == k * d;
        assert Abs(b) == (if b < 0 then -k else k) * d;
        ModMultiple(if b < 0 then -k else k, d);
      }
      GoRemResidue(a, b);
      DividesTrans(d, Abs(b), a - r);
      ModDifference(a, r, d);
    }
  }

  /** The divisors of the result are exactly the common divisors of the inputs, for
      inputs of any sign. */
  lemma {:induction false} EuclidGcdDivisors(a: int, b: int)
    ensures forall d :: d > 0 ==> (Divides(d, EuclidGcd(a, b)) <==> Divides(d, a) && Divides(d, b))
    decreases Abs(b)
  {
    if b == 0 {
      forall d | d > 0
        ensures Divides(d, 0)
      {
        ModMultiple(0, d);
      }
    } else {
      EuclidGcdDivisors(b, GoRem(a, b));
      forall d | d > 0
        ensures Divides(d, EuclidGcd(a, b)) <==> Divides(d, a) && Divides(d, b)
      {
        StepKeepsDivisors(a, b, d);
      }
    }
  }

  /** For a, b >= 0, not both 0, the result is the greatest common divisor: a
      positive common divisor that every common divisor divides and so does not
      exceed. */
  lemma EuclidGcdIsGreatest(a: int, b: int)
    requires a >= 0 && b >= 0 && (a != 0 || b != 0)
    ensures EuclidGcd(a, b) > 0
    ensures Divides(EuclidGcd(a, b), a) && Divides(EuclidGcd(a, b), b)
    ensures forall d :: Divides(d, a) && Divides(d, b) ==> Divides(d, EuclidGcd(a, b)) && d <= EuclidGcd(a, b)
  {
    var g := EuclidGcd(a, b);
    EuclidGcdDivisors(a, b);
    // were g 0, a + b + 1 would divide both a and b, which are smaller
    ModMultiple(0, a + b + 1);
    ModOffset(0, a + b + 1, a);
    ModOffset(0, a + b + 1, b);
    assert Divides(a + b + 1, g) <==> Divides(a + b + 1, a) && Divides(a + b + 1, b);
    assert g != 0;
    assert Divides(g, g) by {
      ModMultiple(1, g);
    }
    forall d | Divides(d, a) && Divides(d, b)
      ensures d <= g
    {
      var k := g / d;
      assert g == k * d;
      MulBound(k, d);
    }
  }

  /** `gcd(a, b)` on int32: the loop ends, stays in int32, and returns EuclidGcd. */
  method Gcd(a: int, b: int) returns (r: int)
    requires IsInt32(a) && IsInt32(b)
    ensures r == EuclidGcd(a, b) && IsInt32(r)
  {
    var x, y := a, b;
    while y != 0
      invariant IsInt32(x) && IsInt32(y)
      invariant EuclidGcd(x, y) == EuclidGcd(a, b)
      decreases Abs(y)
    {
      x, y := y, GoRem(x, y);
    }
    r := x;
  }

  /** The exact sum of gcd(a + i, b + i) over 0 <= i < k, each operand wrapped to
      int32 as `a+i` and `b+i` are in the source. */
  function GcdTotal(a: int, b: int, k: nat): int
  {
    if k == 0 then 0 else GcdTotal(a, b, k - 1) + EuclidGcd(Wrap32(a + (k - 1)), Wrap32(b + (k - 1)))
  }

  /** What `gcd_bench` returns after k rounds: the running int32 sum, wrapping at
      every addition. */
  function GcdRounds(a: int, b: int, k: nat): (r: int)
    ensures IsInt32(r)
    ensures k == 0 ==> r == 0
  {
    if k == 0 then 0 else Wrap32(GcdRounds(a, b, k - 1) + EuclidGcd(Wrap32(a + (k - 1)), Wrap32(b + (k - 1))))
  }

  /** Wrapping after every addition is the same as wrapping the exact total once. */
  lemma {:induction false} GcdRoundsWrapTotal(a: int, b: int, k: nat)
    ensures GcdRounds(a, b, k) == Wrap32(GcdTotal(a, b, k))
  {
    if k == 0 {
      WrapInRange(0, TWO_31);
    } else {
      GcdRoundsWrapTotal(a, b, k - 1);
      var g := EuclidGcd(Wrap32(a + (k - 1)), Wrap32(b + (k - 1)));
      Int32GcdFits(Wrap32(a + (k - 1)), Wrap32(b + (k - 1)));
      WrapInRange(g, TWO_31);
      WrapAdd(GcdTotal(a, b, k - 1), g, TWO_31);
    }
  }

  /** EuclidGcd of int32 operands is an int32 (the loop in Gcd never leaves int32). */
  lemma {:induction false} Int32GcdFits(a: int, b: int)
    requires IsInt32(a) && IsInt32(b)
    ensures IsInt32(EuclidGcd(a, b))
    decreases Abs(b)
  {
    if b != 0 {
      Int32GcdFits(b, GoRem(a, b));
    }
  }

  /** `gcd_bench(a, b, iterations)`: 0 when iterations <= 0. */
  method GcdBench(a: int, b: int, iterations: int) returns (sum: int)
    requires IsInt32(a) && IsInt32(b) && IsInt32(iterations)
    ensures sum == GcdRounds(a, b, if iterations <= 0 then 0 else iterations)
  {
    sum := 0;
    var i := 0;
    while i < iterations
      invariant 0 <= i && (iterations <= 0 ==> i == 0) && (iterations > 0 ==> i <= iterations)
      invariant sum == GcdRounds(a, b, i)
    {
      var x, y := Wrap32(a + i), Wrap32(b + i);
      assert GcdRounds(a, b, i + 1) == Wrap32(sum + EuclidGcd(x, y));
      var g := Gcd(x, y);
      sum := Wrap32(sum + g);
      i := i + 1;
    }
  }
}
