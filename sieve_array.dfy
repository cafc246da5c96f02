/** The bool-array Sieve of Eratosthenes of bench/benchmarks/09_sieve/bench.c: the
    kernel of `main` with its fixed limit 1000 and `bool sieve[1001]` turned into
    parameters, and `printf` dropped. */
module ArraySieve {

  import opened NonLinear
  import opened Primes

  /** The limit the benchmark runs with. */
  const LIMIT: int := 1000

  /** Sets sieve[0..limit] to true and sieve[0], sieve[1] to false, crosses off the
      multiples j >= i * i of every surviving i with i * i <= limit, and counts the
      entries left true among 2..limit. */
  method SieveUpTo(sieve: array<bool>, limit: int) returns (count: int)
    requires 1 <= limit && sieve.Length == limit + 1
    modifies sieve
    ensures forall k :: 0 <= k <= limit ==> sieve[k] == IsPrime(k)
    ensures count == PrimesBelow(limit + 1)
  {
    var i := 0;
    while i <= limit
      invariant 0 <= i <= limit + 1
      invariant forall k :: 0 <= k < i ==> sieve[k]
    {
      sieve[i] := true;
      i := i + 1;
    }
    sieve[0], sieve[1] := false, false;
    forall k | 2 <= k <= limit
      ensures sieve[k] == Uncrossed(k, 2)
    {
    }
    CrossOffComposites(sieve, limit);

    count := 0;
    i := 2;
    while i <= limit
      invariant 2 <= i <= limit + 1
      invariant count == PrimesBelow(i)
    {
      if sieve[i] {
        count := count + 1;
      }
      i := i + 1;
    }
  }

  /** The nested loops: for i = 2, 3, ... while i * i <= limit, clear every j = i * i,
      i * i + i, ... up to limit whenever sieve[i] is still true. */
  method CrossOffComposites(sieve: array<bool>, limit: int)
    requires 1 <= limit && sieve.Length == limit + 1
    requires !sieve[0] && !sieve[1]
    requires forall k :: 2 <= k <= limit ==> sieve[k] == Uncrossed(k, 2)
    modifies sieve
    ensures !sieve[0] && !sieve[1]
    ensures forall k :: 2 <= k <= limit ==> sieve[k] == IsPrime(k)
  {
    var i := 2;
    while i * i <= limit
      invariant 2 <= i
      invariant !sieve[0] && !sieve[1]
      invariant forall k :: 2 <= k <= limit ==> sieve[k] == Uncrossed(k, i)
    {
      MulLe(2, i, i);
      if sieve[i] {
        var j := i * i;
        assert j % i == 0 by {
          ModMultiple(i, i);
        }
        while j <= limit
          invariant i * i <= j && j % i == 0
          invariant !sieve[0] && !sieve[1]
          invariant forall k :: 2 <= k <= limit ==>
            sieve[k] == (Uncrossed(k, i) && !(i * i <= k < j && Divides(i, k)))
        {
          sieve[j] := false;
          forall k | j < k < j + i
            ensures !Divides(i, k)
          {
            ModOffset(j, i, k - j);
          }
          assert (j + i) % i == 0 by {
            assert j + i == (j / i + 1) * i;
            ModMultiple(j / i + 1, i);
          }
          j := j + i;
        }
        forall k | 2 <= k <= limit
          ensures Uncrossed(k, i + 1) <==> Uncrossed(k, i) && !(i * i <= k && Divides(i, k))
        {
          UncrossedNext(k, i);
        }
      } else {
        forall k | 2 <= k <= limit
          ensures Uncrossed(k, i + 1) <==> Uncrossed(k, i)
        {
          CrossedRoundIsIdle(k, i);
        }
      }
      i := i + 1;
    }
    forall k | 2 <= k <= limit
      ensures Uncrossed(k, i) <==> IsPrime(k)
    {
      UncrossedIsPrime(k, i);
    }
  }

  /** The benchmark as it runs: the 1001-entry array and limit 1000. */
  method Run() returns (count: int)
    ensures count == PrimesBelow(LIMIT + 1)
  {
    var sieve := new bool[LIMIT + 1];
    count := SieveUpTo(sieve, LIMIT);
  }
}
