/** The arithmetic-series loop of bench/wasm/arith_bench.go: `arith_loop` adds the
    int32 counter, widened to int64, into an int64 sum; `arith_bench` feeds the low
    bit of each result back into the next argument. */
module ArithSeries {

  import opened NonLinear
  import opened FixedWidth

  /** 0 + 1 + ... + (n - 1), and 0 when n <= 0: twice it is n * (n - 1). */
  function SumBelow(n: int): (r: int)
    ensures n <= 0 ==> r == 0
    ensures n >= 0 ==> 2 * r == n * (n - 1)
    decreases n
  {
    if n <= 0 then 0 else SumBelow(n - 1) + (n - 1)
  }

  /** The sum for any int32 n stays far inside int64: below 2^61. */
  lemma SumBelowFits(n: int)
    requires IsInt32(n)
    ensures 0 <= SumBelow(n) < TWO_63
  {
    if n > 0 {
      var p := (n - 1) * n;
      assert 2 * SumBelow(n) == p by {
        assert n * (n - 1) == p;
      }
      MulLe(0, n - 1, n);
      MulLe(n - 1, TWO_31, n);
      MulLe(n, TWO_31, TWO_31);
      assert TWO_31 * n == n * TWO_31;
      assert 0 <= p <= TWO_31 * TWO_31;
    }
  }

  /** `arith_loop(n)`: the int64 sum of i for 0 <= i < n, which never wraps. */
  method ArithLoop(n: int) returns (sum: int)
    requires IsInt32(n)
    ensures sum == SumBelow(n) && IsInt64(sum)
  {
    sum := 0;
    var i := 0;
    while i < n
      invariant 0 <= i && (n <= 0 ==> i == 0) && (n > 0 ==> i <= n)
      invariant sum == SumBelow(i)
    {
      SumBelowFits(i + 1);
      sum := sum + i;
      i := i + 1;
    }
    SumBelowFits(n);
  }

  /** What `arith_bench(n, iterations)` returns after k rounds: arith_loop of n plus
      the low bit of the previous result (`result & 1`, the Euclidean `result % 2`),
      the int32 sum wrapping. */
  function ArithRounds(n: int, k: nat): (r: int)
    ensures k == 0 ==> r == 0
  {
    if k == 0 then 0 else SumBelow(Wrap32(n + ArithRounds(n, k - 1) % 2))
  }

  /** The first round sums below n, and every round below n or n + 1 (wrapped). */
  lemma ArithRoundsInputs(n: int, k: nat)
    requires IsInt32(n)
    ensures k == 1 ==> ArithRounds(n, k) == SumBelow(n)
    ensures k >= 1 ==> ArithRounds(n, k) == SumBelow(n) || ArithRounds(n, k) == SumBelow(Wrap32(n + 1))
  {
    if k >= 1 {
      var bit := ArithRounds(n, k - 1) % 2;
      assert ArithRounds(n, k) == SumBelow(Wrap32(n + bit));
      if bit == 0 {
        WrapInRange(n, TWO_31);
        assert Wrap32(n + bit) == n;
      } else {
        assert n + bit == n + 1;
      }
    }
  }

  /** `arith_bench(n, iterations)`: 0 when iterations <= 0. */
  method ArithBench(n: int, iterations: int) returns (result: int)
    requires IsInt32(n) && IsInt32(iterations)
    ensures result == ArithRounds(n, if iterations <= 0 then 0 else iterations)
  {
    result := 0;
    var i := 0;
    while i < iterations
      invariant 0 <= i && (iterations <= 0 ==> i == 0) && (iterations > 0 ==> i <= iterations)
      invariant result == ArithRounds(n, i)
    {
      var arg := Wrap32(n + result % 2);
      assert ArithRounds(n, i + 1) == SumBelow(arg);
      result := ArithLoop(arg);
      i := i + 1;
    }
  }
}
