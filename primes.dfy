/** Divisibility, primality and prime counting: the reference definitions every
    sieve and the trial-division test are proved against. */
module Primes {

  import opened NonLinear

  /** d is a positive divisor of x. */
  predicate Divides(d: int, x: int) { d > 0 && x % d == 0 }

  /** x has no divisor in [2, b). */
  predicate NoFactorBelow(x: int, b: int) { forall d :: 2 <= d < b ==> !Divides(d, x) }

  predicate IsPrime(n: int) { n >= 2 && NoFactorBelow(n, n) }

  /** The number of primes p with 2 <= p < n. */
  function PrimesBelow(n: int): (c: nat)
    ensures n <= 2 ==> c == 0
    ensures n > 2 ==> c <= n - 2
    decreases n
  {
    if n <= 2 then 0 else PrimesBelow(n - 1) + (if IsPrime(n - 1) then 1 else 0)
  }

  /** A range without primes does not change the count. */
  lemma {:induction false} NoPrimesBetween(lo: int, hi: int)
    requires lo <= hi
    requires forall y :: lo <= y < hi ==> !IsPrime(y)
    ensures PrimesBelow(hi) == PrimesBelow(lo)
    decreases hi - lo
  {
    if lo < hi {
      NoPrimesBetween(lo, hi - 1);
    }
  }

  /** Divisibility is transitive. */
  lemma DividesTrans(e: int, d: int, x: int)
    requires Divides(e, d) && Divides(d, x)
    ensures Divides(e, x)
  {
    var a, b := d / e, x / d;
    assert d == a * e;
    assert x == b * d;
    assert x == (a * b) * e;
    ModMultiple(a * b, e);
  }

  /** A composite number has a divisor d >= 2 with d * d <= k. */
  lemma CompositeHasSmallFactor(k: int) returns (d: int)
    requires k >= 2 && !IsPrime(k)
    ensures 2 <= d && d * d <= k && Divides(d, k)
  {
    var e :| 2 <= e < k && Divides(e, k);
    var f := k / e;
    assert k == f * e;
    MulBound(f - 1, e);
    assert f >= 2;
    ModMultiple(e, f);
    assert Divides(f, k);
    if e <= f {
      d := e;
      MulLe(e, f, e);
    } else {
      d := f;
      MulLe(f, e, f);
    }
  }

  /** k survives crossing off by every d in [2, i): no such d with d * d <= k divides k.
      This is what an Eratosthenes buffer records once the rounds below i are done. */
  predicate Uncrossed(k: int, i: int) { forall d :: 2 <= d < i && d * d <= k ==> !Divides(d, k) }

  /** Once i * i exceeds k, surviving every round below i is primality. */
  lemma UncrossedIsPrime(k: int, i: int)
    requires 2 <= k && 0 <= i && k < i * i
    ensures Uncrossed(k, i) <==> IsPrime(k)
  {
    if IsPrime(k) {
      forall d | 2 <= d < i && d * d <= k
        ensures !Divides(d, k)
      {
        MulLe(2, d, d);
      }
    } else {
      var d := CompositeHasSmallFactor(k);
      SquareLess(d, i);
    }
  }

  /** Round i crosses off the multiples k of i with i * i <= k. */
  lemma UncrossedNext(k: int, i: int)
    requires i >= 2
    ensures Uncrossed(k, i + 1) <==> Uncrossed(k, i) && !(i * i <= k && Divides(i, k))
  {
    if Uncrossed(k, i) && !(i * i <= k && Divides(i, k)) {
      forall d | 2 <= d < i + 1 && d * d <= k
        ensures !Divides(d, k)
      {
        if d == i {
          assert !(i * i <= k && Divides(i, k));
        }
      }
    }
  }

  /** A round for a crossed-off i crosses off nothing new: every multiple k >= i * i
      of i was already crossed off by a divisor of i. */
  lemma CrossedRoundIsIdle(k: int, i: int)
    requires i >= 2 && !Uncrossed(i, i)
    ensures Uncrossed(k, i + 1) <==> Uncrossed(k, i)
  {
    if Uncrossed(k, i) && i * i <= k && Divides(i, k) {
      var d :| 2 <= d < i && d * d <= i && Divides(d, i);
      DividesTrans(d, i, k);
      MulLe(1, i, i);
    }
  }
}
