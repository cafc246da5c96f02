/** bench/benchmarks/14_transduce in C and Go: for i in [0, n) take v = 3 i and add
    it to a long sum when v is even, the fused form of map (* 3), filter even? and
    reduce +. The benchmark fixes n = 10000. */
module Transduce {

  import opened NonLinear
  import opened FixedWidth

  /** What the loop adds up to over [0, n): v = 3 i for every i with v even. */
  function TripleEvenSum(n: int): (r: int)
    ensures r >= 0
    decreases n
  {
    if n <= 0 then 0 else TripleEvenSum(n - 1) + (if (3 * (n - 1)) % 2 == 0 then 3 * (n - 1) else 0)
  }

  /** 3 i is even exactly when i is. */
  lemma TripleParity(i: int)
    ensures (3 * i) % 2 == 0 <==> i % 2 == 0
  {
    var k := i / 2;
    if i % 2 == 0 {
      assert 3 * i == (3 * k) * 2;
      ModMultiple(3 * k, 2);
    } else {
      assert 3 * i == (3 * k + 1) * 2 + 1;
      ModMultiple(3 * k + 1, 2);
      ModOffset((3 * k + 1) * 2, 2, 1);
    }
  }

  /** Two indices at a time: below 2 m the even i are 0, 2, ..., 2 (m - 1), and the
      odd index 2 m - 1 adds nothing. */
  lemma {:induction false} TripleEvenSumPairs(m: nat)
    ensures TripleEvenSum(2 * m) == 3 * m * (m - 1)
    ensures TripleEvenSum(2 * m + 1) == 3 * (m + 1) * m
    decreases m
  {
    if m > 0 {
      TripleEvenSumPairs(m - 1);
      ModMultiple(m - 1, 2);
      ModOffset((m - 1) * 2, 2, 1);
      TripleParity(2 * m - 1);
      assert TripleEvenSum(2 * m) == TripleEvenSum(2 * m - 1);
      ModMultiple(m, 2);
      TripleParity(2 * m);
      assert TripleEvenSum(2 * m + 1) == TripleEvenSum(2 * m) + 6 * m;
      QuadraticStep(m);
    }
  }

  /** The sum is 3 i over the even i below n, which is 3 m (m - 1) for the
      m = ceil(n / 2) even numbers 0, 2, ..., 2 (m - 1). */
  lemma TripleEvenSumClosedForm(n: int)
    requires n >= 0
    ensures TripleEvenSum(n) == 3 * ((n + 1) / 2) * ((n + 1) / 2 - 1)
  {
    var m := n / 2;
    TripleEvenSumPairs(m);
    if n % 2 == 0 {
      assert n == 2 * m && (n + 1) / 2 == m;
    } else {
      assert n == 2 * m + 1 && (n + 1) / 2 == m + 1;
    }
  }

  /** The sum never decreases as n grows. */
  lemma {:induction false} TripleEvenSumMonotone(m: int, n: int)
    requires m <= n
    ensures TripleEvenSum(m) <= TripleEvenSum(n)
    decreases n - m
  {
    if m < n {
      TripleEvenSumMonotone(m, n - 1);
    }
  }

  /** At the benchmark's n = 10000 the sum is 74985000, far inside a long. */
  lemma BenchmarkValue(n: int)
    requires n == 10000
    ensures TripleEvenSum(n) == 74985000 && IsInt64(TripleEvenSum(n))
  {
    TripleEvenSumClosedForm(n);
    assert (n + 1) / 2 == 5000;
    assert 3 * 5000 * 4999 == 74985000;
  }

  /** The loop of `main`: every round adds 0 or v, so the sum never decreases and
      never goes negative. */
  method TransduceLoop(n: int) returns (sum: int)
    ensures sum == TripleEvenSum(n)
  {
    sum := 0;
    var i := 0;
    while i < n
      invariant 0 <= i && (n <= 0 ==> i == 0) && (n > 0 ==> i <= n)
      invariant sum == TripleEvenSum(i) && sum >= 0
    {
      var v := 3 * i;
      ghost var before := sum;
      if v % 2 == 0 {
        sum := sum + v;
      }
      assert sum == before || sum == before + v;
      i := i + 1;
    }
  }
}
