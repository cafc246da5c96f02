/** The byte-buffer Sieve of Eratosthenes exported to WebAssembly
    (bench/wasm/sieve_bench.go). The source writes through an unsafe address into linear
    memory at offset 1024; here that scratch memory is the array `mem`, indexed
    from the offset. */
module WasmSieve {

  import opened NonLinear
  import opened FixedWidth
  import opened Primes

  newtype byte = x: int | 0 <= x < 256

  /** Largest n for which i * i and j + i stay inside int32 while sieving. */
  const MAX_N: int := 46340 * 46340

  /** Sets bytes 2..n-1 to 1, clears bytes 0 and 1, crosses off the multiples of every
      surviving i with i * i < n, and counts the bytes left set. */
  method Sieve(mem: array<byte>, n: int) returns (count: int)
    requires IsInt32(n) && n <= MAX_N
    requires mem.Length >= n && mem.Length >= 2
    modifies mem
    ensures count == PrimesBelow(n)
    ensures mem[0] == 0 && mem[1] == 0
    ensures forall k :: 2 <= k < n ==> mem[k] == (if IsPrime(k) then 1 else 0)
    ensures forall k :: 2 <= k < mem.Length && n <= k ==> mem[k] == old(mem[k])
  {
    var i := 2;
    while i < n
      invariant 2 <= i <= mem.Length && (i <= n || i == 2)
      invariant forall k :: 2 <= k < i ==> mem[k] == 1
      invariant forall k :: i <= k < mem.Length ==> mem[k] == old(mem[k])
    {
      mem[i] := 1;
      i := i + 1;
    }
    assert forall k :: 2 <= k < mem.Length && n <= k ==> mem[k] == old(mem[k]);
    mem[0] := 0;
    mem[1] := 0;
    forall k | 2 <= k < n
      ensures mem[k] == (if Uncrossed(k, 2) then 1 else 0)
    {
    }
    CrossOffComposites(mem, n);
    count := CountSet(mem, n);
  }

  /** The marking phase: for i = 2, 3, ... while i * i < n, crosses off the multiples
      of i from i * i on whenever byte i is still set. Afterwards byte k, for
      2 <= k < n, is set exactly when k is prime. */
  method CrossOffComposites(mem: array<byte>, n: int)
    requires n <= MAX_N && n <= mem.Length
    requires forall k :: 2 <= k < n ==> mem[k] == (if Uncrossed(k, 2) then 1 else 0)
    modifies mem
    ensures forall k :: 2 <= k < n ==> mem[k] == (if IsPrime(k) then 1 else 0)
    ensures forall k :: 0 <= k < mem.Length && !(2 <= k < n) ==> mem[k] == old(mem[k])
  {
    var i := 2;
    while i * i < n
      invariant 2 <= i <= 46340
      invariant forall k :: 2 <= k < n ==> mem[k] == (if Uncrossed(k, i) then 1 else 0)
      invariant forall k :: 0 <= k < mem.Length && !(2 <= k < n) ==> mem[k] == old(mem[k])
    {
      MulLe(2, i, i);
      if mem[i] != 0 {
        CrossOffMultiples(mem, n, i);
      } else {
        forall k | 2 <= k < n
          ensures Uncrossed(k, i + 1) <==> Uncrossed(k, i)
        {
          CrossedRoundIsIdle(k, i);
        }
      }
      NextSquareFits(i, n);
      i := i + 1;
    }
    forall k | 2 <= k < n
      ensures Uncrossed(k, i) <==> IsPrime(k)
    {
      UncrossedIsPrime(k, i);
    }
  }

  /** The counting phase: the number of set bytes among 2..n-1. */
  method CountSet(mem: array<byte>, n: int) returns (count: int)
    requires n <= mem.Length
    requires forall k :: 2 <= k < n ==> mem[k] == (if IsPrime(k) then 1 else 0)
    ensures count == PrimesBelow(n)
  {
    count := 0;
    var i := 2;
    while i < n
      invariant 2 <= i && (i <= n || i == 2)
      invariant count == PrimesBelow(i)
    {
      assert PrimesBelow(i + 1) == PrimesBelow(i) + (if IsPrime(i) then 1 else 0);
      if mem[i] != 0 {
        count := count + 1;
      }
      i := i + 1;
    }
  }

  /** The inner loop of the marking phase for a surviving i: clears bytes
      i * i, i * i + i, ... below n, which completes round i. */
  method CrossOffMultiples(mem: array<byte>, n: int, i: int)
    requires 2 <= i <= 46340 && i * i < n <= MAX_N && n <= mem.Length
    requires forall k :: 2 <= k < n ==> mem[k] == (if Uncrossed(k, i) then 1 else 0)
    modifies mem
    ensures forall k :: 2 <= k < n ==> mem[k] == (if Uncrossed(k, i + 1) then 1 else 0)
    ensures forall k :: 0 <= k < mem.Length && !(2 <= k < n) ==> mem[k] == old(mem[k])
  {
    MulLe(2, i, i);
    var j := i * i;
    assert j % i == 0 by {
      ModMultiple(i, i);
    }
    while j < n
      invariant i * i <= j < n + i && j % i == 0
      invariant forall k :: 2 <= k < n ==>
        mem[k] == (if Uncrossed(k, i) && !(i * i <= k < j && Divides(i, k)) then 1 else 0)
      invariant forall k :: 0 <= k < mem.Length && !(2 <= k < n) ==> mem[k] == old(mem[k])
    {
      mem[j] := 0;
      forall k | j < k < j + i
        ensures !Divides(i, k)
      {
        ModOffset(j, i, k - j);
      }
      assert (j + i) % i == 0 by {
        assert j + i == (j / i + 1) * i;
        ModMultiple(j / i + 1, i);
      }
      assert IsInt32(j + i);
      j := j + i;
    }
    forall k | 2 <= k < n
      ensures Uncrossed(k, i + 1) <==> Uncrossed(k, i) && !(i * i <= k && Divides(i, k))
    {
      UncrossedNext(k, i);
    }
  }

  /** The outer guard i * i < n never overflows: i + 1 <= 46340 while i * i < n <= MAX_N. */
  lemma NextSquareFits(i: int, n: int)
    requires 2 <= i && i * i < n <= MAX_N
    ensures i + 1 <= 46340 && IsInt32((i + 1) * (i + 1))
  {
    SquareLess(i, 46340);
    MulLe(i + 1, 46340, i + 1);
    MulLe(i + 1, 46340, 46340);
  }

  /** What `sieve_bench` returns after k rounds: each round sieves n plus the low bit
      of the previous count (`result & 1`, which for any int32 is the Euclidean
      `result % 2`), starting from 0. */
  function SieveRounds(n: int, k: nat): (r: int)
    ensures k == 0 ==> r == 0
    ensures k >= 1 ==> r == PrimesBelow(n) || r == PrimesBelow(n + 1)
    ensures k == 1 ==> r == PrimesBelow(n)
  {
    if k == 0 then 0 else PrimesBelow(n + SieveRounds(n, k - 1) % 2)
  }

  /** Runs Sieve `iterations` times on n plus the low bit of the previous count and
      returns the last count; 0 when iterations <= 0. With no round the buffer is
      untouched; after a round bytes 0 and 1 are clear, [2, n) holds the prime pattern
      (both possible arguments agree there), and no byte from n + 1 on changes. */
  method SieveBench(mem: array<byte>, n: int, iterations: int) returns (result: int)
    requires IsInt32(n) && IsInt32(iterations) && n + 1 <= MAX_N
    requires mem.Length >= n + 1 && mem.Length >= 2
    modifies mem
    ensures result == SieveRounds(n, if iterations <= 0 then 0 else iterations)
    ensures iterations <= 0 ==> mem[..] == old(mem[..])
    ensures iterations > 0 ==> mem[0] == 0 && mem[1] == 0
    ensures iterations > 0 ==> forall k :: 2 <= k < n ==> mem[k] == (if IsPrime(k) then 1 else 0)
    ensures forall k :: 2 <= k < mem.Length && n + 1 <= k ==> mem[k] == old(mem[k])
  {
    result := 0;
    var i := 0;
    while i < iterations
      invariant 0 <= i && (iterations <= 0 ==> i == 0) && (iterations > 0 ==> i <= iterations)
      invariant result == SieveRounds(n, i)
      invariant i == 0 ==> mem[..] == old(mem[..])
      invariant i > 0 ==> mem[0] == 0 && mem[1] == 0
      invariant i > 0 ==> forall k :: 2 <= k < n ==> mem[k] == (if IsPrime(k) then 1 else 0)
      invariant forall k :: 2 <= k < mem.Length && n + 1 <= k ==> mem[k] == old(mem[k])
    {
      var arg := n + result % 2;
      assert n <= arg <= n + 1;
      assert SieveRounds(n, i + 1) == PrimesBelow(arg);
      result := Sieve(mem, arg);
      i := i + 1;
    }
  }
}
