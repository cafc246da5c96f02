/** Fibonacci kernels: the recursive `fib` of bench/wasm/fib_bench.go (int32) and
    bench/benchmarks/01_fib_recursive/bench.c (long), the iterative `fib_loop` of
    bench/wasm/fib_loop_bench.go (int32) and `fib` of
    bench/benchmarks/02_fib_loop/Bench.java (long), and the two wasm `*_bench`
    drivers. Sums wrap around as Go's and Java's fixed-width types do; C's long has no
    defined result past F(92), where the wrap is the model's choice. */
module Fibonacci {

  import opened NonLinear
  import opened FixedWidth

  /** The Fibonacci numbers F(0) = 0, F(1) = 1, F(n) = F(n - 1) + F(n - 2). */
  function Fib(n: nat): nat
  {
    if n <= 1 then n else Fib(n - 1) + Fib(n - 2)
  }

  /** Fibonacci numbers never decrease. */
  lemma {:induction false} FibMonotone(m: nat, n: nat)
    requires m <= n
    ensures Fib(m) <= Fib(n)
    decreases n - m
  {
    if m < n {
      FibMonotone(m + 1, n);
      assert Fib(m) <= Fib(m + 1);
    }
  }

  /** Ten steps of the recurrence at once; the coefficients are Fibonacci numbers. */
  lemma FibSkip(n: nat)
    ensures Fib(n + 10) == 34 * Fib(n) + 55 * Fib(n + 1)
    ensures Fib(n + 11) == 55 * Fib(n) + 89 * Fib(n + 1)
  {
    var a, b := Fib(n), Fib(n + 1);
    assert Fib(n + 2) == a + b;
    assert Fib(n + 3) == a + 2 * b;
    assert Fib(n + 4) == 2 * a + 3 * b;
    assert Fib(n + 5) == 3 * a + 5 * b;
    assert Fib(n + 6) == 5 * a + 8 * b;
    assert Fib(n + 7) == 8 * a + 13 * b;
    assert Fib(n + 8) == 13 * a + 21 * b;
    assert Fib(n + 9) == 21 * a + 34 * b;
  }

  // The values of F around 2^31 and 2^63, walked up ten indices at a time. The
  // offset b (always 0) keeps the indices symbolic, so the verifier does not try to
  // evaluate F at large literal arguments.

  lemma FibStart(b: nat)
    requires b == 0
    ensures Fib(b + 2) == 1 && Fib(b + 3) == 2 && Fib(b + 6) == 8 && Fib(b + 7) == 13
  {
    assert Fib(b) == 0 && Fib(b + 1) == 1;
    assert Fib(b + 4) == 3 && Fib(b + 5) == 5;
  }

  lemma FibAt36(b: nat)
    requires b == 0
    ensures Fib(b + 36) == 14930352 && Fib(b + 37) == 24157817
  {
    FibStart(b);
    FibSkip(b + 6);
    FibSkip(b + 16);
    FibSkip(b + 26);
  }

  lemma FibAt46(b: nat)
    requires b == 0
    ensures Fib(b + 46) == 1836311903 && Fib(b + 47) == 2971215073
  {
    FibAt36(b);
    FibSkip(b + 36);
  }

  lemma FibAt32(b: nat)
    requires b == 0
    ensures Fib(b + 32) == 2178309 && Fib(b + 33) == 3524578
  {
    FibStart(b);
    FibSkip(b + 2);
    FibSkip(b + 12);
    FibSkip(b + 22);
  }

  lemma FibAt62(b: nat)
    requires b == 0
    ensures Fib(b + 62) == 4052739537881 && Fib(b + 63) == 6557470319842
  {
    FibAt32(b);
    FibSkip(b + 32);
    FibSkip(b + 42);
    FibSkip(b + 52);
  }

  lemma FibAt92(b: nat)
    requires b == 0
    ensures Fib(b + 92) == 7540113804746346429 && Fib(b + 93) == 12200160415121876738
  {
    FibAt62(b);
    FibSkip(b + 62);
    FibSkip(b + 72);
    FibSkip(b + 82);
  }

  /** The value `main` prints in 01_fib_recursive/bench.c and 02_fib_loop/Bench.java:
      fib(25) = 75025, by the long recursion and by the long loop alike. */
  lemma PrintedFib(b: nat)
    requires b == 0
    ensures FibRec(b + 25, TWO_63) == 75025
    ensures FibLoopResult(b + 25, TWO_63) == 75025
  {
    FibStart(b);
    FibSkip(b + 2);
    FibSkip(b + 12);
    assert Fib(b + 22) == 17711 && Fib(b + 23) == 28657;
    assert Fib(b + 24) == 46368;
    assert Fib(b + 25) == 75025;
    FibRecIsWrappedFib(b + 25, TWO_63);
    WrapInRange(75025, TWO_63);
  }

  /** F(n) fits in int32 exactly up to n = 46. */
  lemma FibInt32(n: nat)
    ensures Fib(n) < TWO_31 <==> n <= 46
  {
    FibAt46(n - n);
    if n <= 46 {
      FibMonotone(n, 46);
    } else {
      FibMonotone(47, n);
    }
  }

  /** F(n) fits in int64 (long) exactly up to n = 92. */
  lemma FibInt64(n: nat)
    ensures Fib(n) < TWO_63 <==> n <= 92
  {
    FibAt92(n - n);
    if n <= 92 {
      FibMonotone(n, 92);
    } else {
      FibMonotone(93, n);
    }
  }

  /** `fib(n)` of fib_bench.go (half = 2^31, int32) and of 01_fib_recursive/bench.c
      (half = 2^63, long): n itself for n <= 1, negative n included; otherwise the
      wrapped sum of the two recursive calls. For C the wrap stands in for an
      overflow that has no defined result, reached only for n > 92. Recursion is on n - 1 and n - 2, so it
      terminates, and the function has no effects. */
  function FibRec(n: int, half: int): (r: int)
    requires half > 0 && -half <= n < half
    ensures -half <= r < half
    ensures n <= 1 ==> r == n
    decreases n
  {
    if n <= 1 then n
    else Wrap(FibRec(n - 1, half) + FibRec(n - 2, half), half)
  }

  /** For n >= 0, fib(n) is F(n) reduced into the type. */
  lemma {:induction false} FibRecIsWrappedFib(n: int, half: int)
    requires half > 0 && 0 <= n < half
    ensures FibRec(n, half) == Wrap(Fib(n), half)
    decreases n
  {
    if n <= 1 {
      WrapInRange(n, half);
    } else {
      FibRecIsWrappedFib(n - 1, half);
      FibRecIsWrappedFib(n - 2, half);
      WrapAdd(Fib(n - 1), Fib(n - 2), half);
    }
  }

  /** The recursive fib is exact, with no wrap-around, exactly up to n = 46 in int32
      and up to n = 92 in long; in particular fib(n) >= 0 there. */
  lemma FibRecExact(n: int, half: int)
    requires half == TWO_31 || half == TWO_63
    requires 0 <= n < half
    ensures half == TWO_31 ==> (FibRec(n, half) == Fib(n) <==> n <= 46)
    ensures half == TWO_63 ==> (FibRec(n, half) == Fib(n) <==> n <= 92)
  {
    FibRecIsWrappedFib(n, half);
    FibInt32(n);
    FibInt64(n);
    if Fib(n) < half {
      WrapInRange(Fib(n), half);
    }
  }

  /** The result of `fib_bench(n, iterations)` after k rounds: each round computes fib
      of n plus the low bit of the previous result (`result & 1` is the Euclidean
      `result % 2`), the int32 sum wrapping, starting from result 0. */
  function FibRounds(n: int, k: nat): (r: int)
    requires IsInt32(n)
    ensures IsInt32(r)
    ensures k == 0 ==> r == 0
  {
    if k == 0 then 0 else FibRec(Wrap32(n + FibRounds(n, k - 1) % 2), TWO_31)
  }

  /** The first round computes fib(n), and every round fib(n) or fib(n + 1). */
  lemma FibRoundsInputs(n: int, k: nat)
    requires IsInt32(n)
    ensures k == 1 ==> FibRounds(n, k) == FibRec(n, TWO_31)
    ensures k >= 1 ==> FibRounds(n, k) == FibRec(n, TWO_31) || FibRounds(n, k) == FibRec(Wrap32(n + 1), TWO_31)
  {
    if k >= 1 {
      var bit := FibRounds(n, k - 1) % 2;
      assert FibRounds(n, k) == FibRec(Wrap32(n + bit), TWO_31);
      if bit == 0 {
        assert n + bit == n;
        WrapInRange(n, TWO_31);
        assert Wrap32(n + bit) == n;
      } else {
        assert n + bit == n + 1;
      }
    }
  }

  /** `fib_bench(n, iterations)`: 0 when iterations <= 0. */
  method FibBench(n: int, iterations: int) returns (result: int)
    requires IsInt32(n) && IsInt32(iterations)
    ensures result == FibRounds(n, if iterations <= 0 then 0 else iterations)
  {
    result := 0;
    var i := 0;
    while i < iterations
      invariant 0 <= i && (iterations <= 0 ==> i == 0) && (iterations > 0 ==> i <= iterations)
      invariant result == FibRounds(n, i)
    {
      var arg := Wrap32(n + result % 2);
      assert FibRounds(n, i + 1) == FibRec(arg, TWO_31);
      result := FibRec(arg, TWO_31);
      i := i + 1;
    }
  }

  /** What the iterative versions return: F(n) reduced into the type for n >= 0 and 0
      for every n <= 0, where the loop body never runs (unlike FibRec, which returns
      negative n unchanged). */
  function FibLoopResult(n: int, half: int): (r: int)
    requires half > 0
    ensures -half <= r < half
    ensures n <= 0 ==> r == 0
  {
    if n <= 0 then 0 else Wrap(Fib(n), half)
  }

  /** `fib_loop(n)` of fib_loop_bench.go: `a, b = b, a+b` n times from (0, 1), in int32. */
  method FibLoop(n: int) returns (a: int)
    requires IsInt32(n)
    ensures a == FibLoopResult(n, TWO_31)
  {
    var b;
    a, b := 0, 1;
    WrapInRange(0, TWO_31);
    WrapInRange(1, TWO_31);
    var i := 0;
    while i < n
      invariant 0 <= i && (n <= 0 ==> i == 0) && (n > 0 ==> i <= n)
      invariant a == Wrap32(Fib(i)) && b == Wrap32(Fib(i + 1))
    {
      WrapAdd(Fib(i), Fib(i + 1), TWO_31);
      a, b := b, Wrap32(a + b);
      i := i + 1;
    }
  }

  /** The result of `fib_loop_bench(n, iterations)` after k rounds. */
  function FibLoopRounds(n: int, k: nat): (r: int)
    requires IsInt32(n)
    ensures IsInt32(r)
    ensures k == 0 ==> r == 0
  {
    if k == 0 then 0 else FibLoopResult(Wrap32(n + FibLoopRounds(n, k - 1) % 2), TWO_31)
  }

  /** The first round computes fib_loop(n), and every round fib_loop(n) or fib_loop(n + 1). */
  lemma FibLoopRoundsInputs(n: int, k: nat)
    requires IsInt32(n)
    ensures k == 1 ==> FibLoopRounds(n, k) == FibLoopResult(n, TWO_31)
    ensures k >= 1 ==>
      FibLoopRounds(n, k) == FibLoopResult(n, TWO_31) || FibLoopRounds(n, k) == FibLoopResult(Wrap32(n + 1), TWO_31)
  {
    if k >= 1 {
      var bit := FibLoopRounds(n, k - 1) % 2;
      assert FibLoopRounds(n, k) == FibLoopResult(Wrap32(n + bit), TWO_31);
      if bit == 0 {
        assert n + bit == n;
        WrapInRange(n, TWO_31);
        assert Wrap32(n + bit) == n;
      } else {
        assert n + bit == n + 1;
      }
    }
  }

  /** One more round of `fib_loop_bench` calls fib_loop on n plus the low bit of the
      previous result. */
  lemma FibLoopRoundsStep(n: int, k: nat, result: int)
    requires IsInt32(n) && result == FibLoopRounds(n, k)
    ensures FibLoopRounds(n, k + 1) == FibLoopResult(Wrap32(n + result % 2), TWO_31)
  {
  }

  /** `fib_loop_bench(n, iterations)`: 0 when iterations <= 0. */
  method FibLoopBench(n: int, iterations: int) returns (result: int)
    requires IsInt32(n) && IsInt32(iterations)
    ensures result == FibLoopRounds(n, if iterations <= 0 then 0 else iterations)
  {
    result := 0;
    var i := 0;
    while i < iterations
      invariant 0 <= i && (iterations <= 0 ==> i == 0) && (iterations > 0 ==> i <= iterations)
      invariant result == FibLoopRounds(n, i)
    {
      var arg := Wrap32(n + result % 2);
      FibLoopRoundsStep(n, i, result);
      result := FibLoop(arg);
      i := i + 1;
    }
  }

  /** `fib(n)` of 02_fib_loop/Bench.java: the long sum goes through t, so the pair
      (a, b) shifts to (b, a + b) without losing a value. */
  method FibLoopLong(n: int) returns (a: int)
    requires IsInt64(n)
    ensures a == FibLoopResult(n, TWO_63)
  {
    var b;
    a, b := 0, 1;
    WrapInRange(0, TWO_63);
    WrapInRange(1, TWO_63);
    var i := 0;
    while i < n
      invariant 0 <= i && (n <= 0 ==> i == 0) && (n > 0 ==> i <= n)
      invariant a == Wrap64(Fib(i)) && b == Wrap64(Fib(i + 1))
    {
      WrapAdd(Fib(i), Fib(i + 1), TWO_63);
      var t := Wrap64(a + b);
      a := b;
      b := t;
      i := i + 1;
    }
  }

  /** The iterative versions agree with the recursive ones on every n >= 0, so
      FibRecExact bounds their exactness too. */
  lemma LoopMatchesRecursion(n: int, half: int)
    requires half > 0 && 0 <= n < half
    ensures FibLoopResult(n, half) == FibRec(n, half)
  {
    WrapInRange(0, half);
    FibRecIsWrappedFib(n, half);
  }
}
