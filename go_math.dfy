/** The int32 functions exported by test/wasm/src/go_math.go. Every operation wraps
    modulo 2^32 as Go's int32 does; `gcd` is the same function as in gcd_bench.go and
    is modelled once, as Euclid.Gcd. */
module GoMath {

  import opened NonLinear
  import opened FixedWidth
  import opened Primes
  import opened FibSpec = Fibonacci

  /** `add(a, b)`: congruent to a + b modulo 2^32, and equal to it exactly when the
      sum fits in int32. */
  function Add(a: int, b: int): (r: int)
    requires IsInt32(a) && IsInt32(b)
    ensures IsInt32(r)
    ensures (a + b - r) % (2 * TWO_31) == 0
    ensures r == a + b <==> IsInt32(a + b)
  {
    WrapResidue(a + b, TWO_31);
    WrapExact(a + b, TWO_31);
    Wrap32(a + b)
  }

  /** `multiply(a, b)`: congruent to a * b modulo 2^32, and equal to it exactly when
      the product fits in int32. */
  function Multiply(a: int, b: int): (r: int)
    requires IsInt32(a) && IsInt32(b)
    ensures IsInt32(r)
    ensures (a * b - r) % (2 * TWO_31) == 0
    ensures r == a * b <==> IsInt32(a * b)
  {
    WrapResidue(a * b, TWO_31);
    WrapExact(a * b, TWO_31);
    Wrap32(a * b)
  }

  /** `fibonacci(n)`: n itself for n <= 1 (negative n included); otherwise b after
      the loop `for i := 2; i <= n; i++ { a, b = b, a+b }` from (0, 1), which is F(n)
      in int32, exact precisely up to n = 46. */
  method Fibonacci(n: int) returns (r: int)
    requires IsInt32(n) && n < TWO_31 - 1
    ensures n <= 1 ==> r == n
    ensures n >= 0 ==> r == Wrap32(Fib(n))
    ensures n >= 0 ==> (r == Fib(n) <==> n <= 46)
  {
    if n <= 1 {
      r := n;
      if n >= 0 {
        WrapInRange(n, TWO_31);
      }
      return;
    }
    var a, b := 0, 1;
    WrapInRange(0, TWO_31);
    WrapInRange(1, TWO_31);
    var i := 2;
    while i <= n
      invariant 2 <= i <= n + 1
      invariant a == Wrap32(Fib(i - 2)) && b == Wrap32(Fib(i - 1))
    {
      assert Fib(i) == Fib(i - 2) + Fib(i - 1);
      WrapAdd(Fib(i - 2), Fib(i - 1), TWO_31);
      a, b := b, Wrap32(a + b);
      i := i + 1;
    }
    assert i == n + 1;
    r := b;
    FibInt32(n);
    WrapExact(Fib(n), TWO_31);
  }

  /** n! for n >= 0, and 1 for every n <= 1 as the loop below gives. */
  function Fact(n: int): (r: int)
    ensures r >= 1
    decreases n
  {
    if n <= 1 then 1 else MulLe(1, n, Fact(n - 1)); n * Fact(n - 1)
  }

  /** n! only grows with n. */
  lemma {:induction false} FactMonotone(m: int, n: int)
    requires m <= n
    ensures Fact(m) <= Fact(n)
    decreases n - m
  {
    if m < n {
      FactMonotone(m, n - 1);
      if n > 1 {
        MulLe(1, n, Fact(n - 1));
      }
    }
  }

  /** n! fits in int32 exactly up to n = 12. */
  lemma FactInt32(n: int)
    ensures Fact(n) < TWO_31 <==> n <= 12
  {
    assert Fact(12) == 479001600;
    assert Fact(13) == 6227020800;
    if n <= 12 {
      FactMonotone(n, 12);
    } else {
      FactMonotone(13, n);
    }
  }

  /** `factorial(n)`: `result *= i` for i = 2..n from 1, in int32: n! wrapped, 1 for
      n <= 1, and exact precisely up to n = 12. */
  method Factorial(n: int) returns (result: int)
    requires IsInt32(n) && n < TWO_31 - 1
    ensures result == Wrap32(Fact(n))
    ensures n <= 1 ==> result == 1
    ensures result == Fact(n) <==> n <= 12
  {
    result := 1;
    WrapInRange(1, TWO_31);
    var i := 2;
    while i <= n
      invariant 2 <= i && (i <= n + 1 || i == 2)
      invariant result == Wrap32(Fact(i - 1))
    {
      ghost var f := Fact(i - 1);
      assert Fact(i) == f * i;
      WrapMul(f, i, TWO_31);
      result := Wrap32(result * i);
      i := i + 1;
    }
    FactInt32(n);
    WrapExact(Fact(n), TWO_31);
  }

  /** The largest i whose square fits in int32: 46340^2 < 2^31 <= 46341^2. */
  const ROOT_BOUND: int := 46340

  /** 46340^2, the least n for which the guard `i*i <= n` can meet a wrapped square. */
  const ROOT_SQUARE: int := 2147395600

  /** `is_prime(n)` as written: the guard `i*i <= n` squares in int32. The answer is
      right whenever it is 1, and for every n below 46340^2, where the square cannot
      wrap. For n = 2^31 - 1 no int32 value exceeds n, so the guard never fails and
      the loop runs to i = n and returns 0. */
  method IsPrimeAsWritten(n: int) returns (r: int)
    requires IsInt32(n)
    ensures r == 0 || r == 1
    ensures r == 1 ==> IsPrime(n)
    ensures n < ROOT_SQUARE ==> (r == 1 <==> IsPrime(n))
    ensures n == TWO_31 - 1 ==> r == 0
  {
    if n < 2 {
      return 0;
    }
    var i := 2;
    while Wrap32(i * i) <= n
      invariant 2 <= i <= n
      invariant NoFactorBelow(n, i)
      invariant n < ROOT_SQUARE ==> i <= ROOT_BOUND
      decreases n - i
    {
      if n % i == 0 {
        GuardedDivisor(i, n);
        return 0;
      }
      GuardedStep(i, n);
      i := i + 1;
    }
    GuardFailed(i, n);
    r := 1;
  }

  /** A divisor i found under a passing guard shows n composite when n < 46340^2,
      where the guard's square is exact. */
  lemma GuardedDivisor(i: int, n: int)
    requires 2 <= i <= n && n % i == 0 && Wrap32(i * i) <= n
    requires n < ROOT_SQUARE ==> i <= ROOT_BOUND
    ensures n < ROOT_SQUARE ==> !IsPrime(n)
  {
    if n < ROOT_SQUARE {
      SquareFits(i, n);
      assert Divides(i, n);
    }
  }

  /** A passing guard and a non-divisor i keep the loop's invariant for i + 1. */
  lemma GuardedStep(i: int, n: int)
    requires 2 <= i <= n && n % i != 0 && Wrap32(i * i) <= n
    requires n < ROOT_SQUARE ==> i <= ROOT_BOUND
    ensures i + 1 <= n
    ensures n < ROOT_SQUARE ==> i + 1 <= ROOT_BOUND
  {
    assert i != n by {
      ModMultiple(1, n);
    }
    if n < ROOT_SQUARE {
      SquareFits(i, n);
    }
  }

  /** A failing guard means the exact square exceeds n too (no int32 n exceeds a
      square that wrapped), so trial division up to i has shown n prime; and n is
      not 2^31 - 1, which no int32 exceeds. */
  lemma GuardFailed(i: int, n: int)
    requires 2 <= i <= n && IsInt32(n) && NoFactorBelow(n, i) && Wrap32(i * i) > n
    ensures IsPrime(n) && n != TWO_31 - 1
  {
    WrapExact(i * i, TWO_31);
    UncrossedIsPrime(n, i);
  }

  /** Below 46340^2 the guard's square does not wrap, so a passing guard means
      i * i <= n, hence i < n and i < 46340. */
  lemma SquareFits(i: int, n: int)
    requires 2 <= i <= ROOT_BOUND && Wrap32(i * i) <= n < ROOT_SQUARE
    ensures i * i <= n && i < n && i < ROOT_BOUND
  {
    MulLe(i, ROOT_BOUND, i);
    MulLe(i, ROOT_BOUND, ROOT_BOUND);
    WrapInRange(i * i, TWO_31);
    MulLe(2, i, i);
    SquareLess(i, ROOT_BOUND);
  }

  /** `is_prime(n)` with the guard written `i <= n / i`, which cannot overflow: 1
      exactly for the primes, 0 otherwise, for every int32 n. */
  method IsPrimeCorrected(n: int) returns (r: int)
    requires IsInt32(n)
    ensures r == 0 || r == 1
    ensures r == 1 <==> IsPrime(n)
  {
    if n < 2 {
      return 0;
    }
    var i := 2;
    while i <= n / i
      invariant 2 <= i <= n
      invariant NoFactorBelow(n, i)
      decreases n - i
    {
      DivGuard(i, n);
      MulLe(2, i, i);
      if n % i == 0 {
        assert Divides(i, n);
        return 0;
      }
      i := i + 1;
    }
    DivGuard(i, n);
    UncrossedIsPrime(n, i);
    r := 1;
  }
}
