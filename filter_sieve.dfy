/** The "take the head, drop its multiples" sieve of bench/benchmarks/09_sieve in its
    three ports: Go (bench.go) reuses the slice's backing array, Java (Bench.java)
    mutates an ArrayList with remove(0) and removeIf, Python (bench.py) rebuilds the
    list with a comprehension. All three count the heads they take. */
module FilterSieve {

  import opened NonLinear
  import opened Primes


  predicate Ascending(s: seq<int>) { forall i, j :: 0 <= i < j < |s| ==> s[i] < s[j] }

  /** The list lo, lo + 1, ..., hi - 1 (empty when hi <= lo). */
  function Range(lo: int, hi: int): (r: seq<int>)
    ensures |r| == if hi <= lo then 0 else hi - lo
    ensures forall k :: 0 <= k < |r| ==> r[k] == lo + k
  {
    if hi <= lo then [] else seq(hi - lo, k => lo + k)
  }

  /** The elements of s that p does not divide, in their original order. Whether
      x % p is zero does not depend on how the language rounds the quotient, so this
      is Python's comprehension, Java's removeIf and Go's copy loop alike. */
  function DropMultiples(s: seq<int>, p: int): (r: seq<int>)
    requires p != 0
    ensures |r| <= |s|
    ensures forall x :: x in r <==> x in s && x % p != 0
  {
    if s == [] then [] else (if s[0] % p != 0 then [s[0]] else []) + DropMultiples(s[1..], p)
  }

  /** Filtering is done element by element from the left: appending x to the input
      appends x to the output exactly when p does not divide it. */
  lemma {:induction false} DropMultiplesSnoc(s: seq<int>, x: int, p: int)
    requires p != 0
    ensures DropMultiples(s + [x], p) == DropMultiples(s, p) + (if x % p != 0 then [x] else [])
  {
    if s != [] {
      assert (s + [x])[1..] == s[1..] + [x];
      DropMultiplesSnoc(s[1..], x, p);
    }
  }

  /** Dropping elements keeps the survivors in ascending order. */
  lemma {:induction false} DropMultiplesAscending(s: seq<int>, p: int)
    requires p != 0 && Ascending(s)
    ensures Ascending(DropMultiples(s, p))
  {
    if s != [] {
      DropMultiplesAscending(s[1..], p);
      var rest := DropMultiples(s[1..], p);
      forall y | y in rest
        ensures s[0] < y
      {
        var k :| 0 <= k < |s[1..]| && s[1..][k] == y;
        assert s[k + 1] == y;
      }
      if s[0] % p != 0 {
        var r := [s[0]] + rest;
        forall i, j | 0 <= i < j < |r|
          ensures r[i] < r[j]
        {
          assert r[j] == rest[j - 1] && r[j] in rest;
          if i > 0 {
            assert r[i] == rest[i - 1];
          }
        }
      }
    }
  }

  /** The loop invariant shared by the three ports: the list is strictly ascending and
      holds exactly the numbers in [2, limit] with no divisor in [2, b), where b is one
      past the last head taken (2 before the first). */
  ghost predicate Candidates(cand: seq<int>, limit: int, b: int)
  {
    && Ascending(cand)
    && forall x :: x in cand <==> 2 <= x <= limit && NoFactorBelow(x, b)
  }

  /** The initial list 2..limit satisfies the invariant for b = 2. */
  lemma InitialCandidates(limit: int)
    ensures Candidates(Range(2, limit + 1), limit, 2)
  {
    var r := Range(2, limit + 1);
    forall x | 2 <= x <= limit
      ensures x in r
    {
      assert r[x - 2] == x;
    }
  }

  /** One round: the head p of the list is the least prime not yet counted, and
      dropping it and its multiples re-establishes the invariant for b = p + 1. */
  lemma SieveRound(cand: seq<int>, limit: int, b: int)
    requires Candidates(cand, limit, b) && cand != [] && b >= 2
    ensures b <= cand[0] <= limit && IsPrime(cand[0])
    ensures Candidates(DropMultiples(cand[1..], cand[0]), limit, cand[0] + 1)
    ensures PrimesBelow(cand[0] + 1) == PrimesBelow(b) + 1
  {
    var p := cand[0];
    assert p in cand;
    assert Divides(p, p) by {
      ModMultiple(1, p);
    }
    // every candidate is at least the head
    forall x | x in cand
      ensures p <= x
    {
      var k :| 0 <= k < |cand| && cand[k] == x;
    }
    // no d in [b, p) divides a number without divisors below b
    forall x, d | 2 <= x && NoFactorBelow(x, b) && b <= d < p
      ensures !Divides(d, x)
    {
      assert d !in cand;
      var e :| 2 <= e < b && Divides(e, d);
      if Divides(d, x) {
        DividesTrans(e, d, x);
      }
    }
    assert IsPrime(p);
    var next := DropMultiples(cand[1..], p);
    DropMultiplesAscending(cand[1..], p);
    forall x
      ensures x in next <==> 2 <= x <= limit && NoFactorBelow(x, p + 1)
    {
      // membership in the tail is membership in the list minus its head
      if x in cand[1..] {
        var k :| 0 <= k < |cand[1..]| && cand[1..][k] == x;
        assert cand[k + 1] == x;
        assert x != p;
      }
      if x in cand && x != p {
        var k :| 0 <= k < |cand| && cand[k] == x;
        assert cand[1..][k - 1] == x;
      }
      if x in next {
        assert x in cand && x % p != 0;
        assert NoFactorBelow(x, b);
        assert !Divides(p, x);
      }
      if 2 <= x <= limit && NoFactorBelow(x, p + 1) {
        assert NoFactorBelow(x, b);
        assert !Divides(p, x);
        assert x in cand && x != p;
      }
    }
    forall y | b <= y < p
      ensures !IsPrime(y)
    {
      assert IsPrime(y) ==> NoFactorBelow(y, b) && y in cand;
    }
    NoPrimesBetween(b, p);
  }

  /** When the list runs empty no prime is left uncounted up to limit. */
  lemma SieveFinished(limit: int, b: int)
    requires Candidates([], limit, b) && 2 <= b && (b <= limit + 1 || b == 2)
    ensures PrimesBelow(b) == PrimesBelow(limit + 1)
  {
    if b <= limit + 1 {
      forall y | b <= y < limit + 1
        ensures !IsPrime(y)
      {
        assert IsPrime(y) ==> NoFactorBelow(y, b);
      }
      NoPrimesBetween(b, limit + 1);
    }
  }

  // ---------------------------------------------------------------------------
  // Python: the list is rebound to a comprehension over its tail.

  /** `sieve(limit)` of bench.py. */
  method SieveComprehension(limit: int) returns (count: int)
    ensures count == PrimesBelow(limit + 1)
  {
    var candidates := Range(2, limit + 1);
    InitialCandidates(limit);
    ghost var b := 2;
    count := 0;
    while candidates != []
      invariant Candidates(candidates, limit, b)
      invariant 2 <= b && (b <= limit + 1 || b == 2)
      invariant count == PrimesBelow(b)
      decreases |candidates|
    {
      var p := candidates[0];
      count := count + 1;
      SieveRound(candidates, limit, b);
      candidates := DropMultiples(candidates[1..], p);
      b := p + 1;
    }
    SieveFinished(limit, b);
  }

  // ---------------------------------------------------------------------------
  // Java: an ArrayList<Integer> mutated in place.

  /** The part of java.util.ArrayList<Integer> the benchmark uses. */
  class IntArrayList {
    var elements: seq<int>

    constructor ()
      ensures elements == []
    {
      elements := [];
    }

    method Add(x: int)
      modifies this
      ensures elements == old(elements) + [x]
    {
      elements := elements + [x];
    }

    method IsEmpty() returns (empty: bool)
      ensures empty <==> elements == []
    {
      empty := elements == [];
    }

    /** `remove(0)`: Java throws IndexOutOfBoundsException on an empty list; the
        benchmark only calls it after checking isEmpty(). */
    method RemoveFirst() returns (x: int)
      requires elements != []
      modifies this
      ensures x == old(elements)[0] && elements == old(elements)[1..]
    {
      x := elements[0];
      elements := elements[1..];
    }

    /** `removeIf(x -> x % p == 0)`: removes the multiples of p and keeps the order
        of the rest. p == 0 would throw ArithmeticException. */
    method RemoveMultiplesOf(p: int)
      requires p != 0
      modifies this
      ensures elements == DropMultiples(old(elements), p)
    {
      elements := DropMultiples(elements, p);
    }
  }

  /** The kernel of `main` in Bench.java with the limit as a parameter. */
  method SieveArrayList(limit: int) returns (count: int)
    ensures count == PrimesBelow(limit + 1)
  {
    var candidates := new IntArrayList();
    var i := 2;
    while i <= limit
      invariant 2 <= i && (i <= limit + 1 || i == 2)
      invariant candidates.elements == Range(2, i)
    {
      candidates.Add(i);
      i := i + 1;
    }
    InitialCandidates(limit);
    ghost var b := 2;
    count := 0;
    var empty := candidates.IsEmpty();
    while !empty
      invariant empty <==> candidates.elements == []
      invariant Candidates(candidates.elements, limit, b)
      invariant 2 <= b && (b <= limit + 1 || b == 2)
      invariant count == PrimesBelow(b)
      decreases |candidates.elements|
    {
      SieveRound(candidates.elements, limit, b);
      var p := candidates.RemoveFirst();
      count := count + 1;
      candidates.RemoveMultiplesOf(p);
      b := p + 1;
      empty := candidates.IsEmpty();
    }
    SieveFinished(limit, b);
  }

  // ---------------------------------------------------------------------------
  // Go: `next := cand[:0]` shares cand's backing array, so survivors are copied
  // down over the entries already read.

  /** The round body of bench.go: reads cand[1..len) in order and appends each
      value p does not divide to `next`, which starts at the same address. The
      write position stays strictly behind the read position, so every read sees
      the value from before the round. Returns the length of `next`. */
  method CompactSurvivors(a: array<int>, len: int, p: int) returns (newLen: int)
    requires 1 <= len <= a.Length && p != 0
    modifies a
    ensures 0 <= newLen < len
    ensures a[..newLen] == DropMultiples(old(a[1..len]), p)
    ensures a[len..] == old(a[len..])
  {
    newLen := 0;
    var r := 1;
    while r < len
      invariant 1 <= r <= len
      invariant 0 <= newLen < r
      invariant a[..newLen] == DropMultiples(old(a[1..r]), p)
      invariant a[r..] == old(a[r..])
    {
      var v := a[r];
      ghost var kept := a[..newLen];
      assert old(a[1..r + 1]) == old(a[1..r]) + [v];
      DropMultiplesSnoc(old(a[1..r]), v, p);
      if v % p != 0 {
        a[newLen] := v;
        assert a[..newLen + 1] == kept + [v];
        newLen := newLen + 1;
      }
      assert a[r + 1..] == old(a[r + 1..]);
      r := r + 1;
    }
  }

  /** The kernel of `main` in bench.go with the limit as a parameter:
      `make([]int, 0, limit)` is an array of `limit` entries and a length. */
  method SieveSlice(limit: int) returns (count: int)
    requires limit >= 0
    ensures count == PrimesBelow(limit + 1)
  {
    var backing := new int[limit];
    var len := 0;
    var i := 2;
    while i <= limit
      invariant 2 <= i && (i <= limit + 1 || i == 2)
      invariant len == i - 2 && len <= backing.Length
      invariant backing[..len] == Range(2, i)
    {
      backing[len] := i;
      len := len + 1;
      i := i + 1;
    }
    InitialCandidates(limit);
    ghost var b := 2;
    count := 0;
    while len > 0
      invariant 0 <= len <= backing.Length
      invariant Candidates(backing[..len], limit, b)
      invariant 2 <= b && (b <= limit + 1 || b == 2)
      invariant count == PrimesBelow(b)
      decreases len
    {
      var p := backing[0];
      count := count + 1;
      SieveRound(backing[..len], limit, b);
      assert backing[..len][1..] == backing[1..len];
      len := CompactSurvivors(backing, len, p);
      b := p + 1;
    }
    SieveFinished(limit, b);
  }
}
