/** bench/benchmarks/05_map_filter_reduce: fill an array of n longs with 0..n-1,
    square every entry in place, and sum the even entries (C, Go, Java); Python does
    the same with map, filter and reduce on lists. The benchmark fixes n = 10000. */
module MapFilterReduce {

  import opened NonLinear
  import opened FixedWidth

  /** 0, 1, ..., n - 1; empty for n <= 0. */
  function Indices(n: int): (s: seq<int>)
    ensures |s| == if n <= 0 then 0 else n
    ensures forall k :: 0 <= k < |s| ==> s[k] == k
  {
    if n <= 0 then [] else seq(n, k => k)
  }

  /** `map(lambda x: x * x, xs)`: every element squared, same length and order. */
  function Squares(s: seq<int>): (r: seq<int>)
    ensures |r| == |s|
    ensures forall k :: 0 <= k < |s| ==> r[k] == s[k] * s[k]
  {
    seq(|s|, k requires 0 <= k < |s| => s[k] * s[k])
  }

  /** `filter(lambda x: x % 2 == 0, xs)`: the even elements, in order. */
  function Evens(s: seq<int>): (r: seq<int>)
    ensures |r| <= |s|
    ensures forall x :: x in r <==> x in s && x % 2 == 0
  {
    if s == [] then []
    else Evens(s[..|s| - 1]) + (if s[|s| - 1] % 2 == 0 then [s[|s| - 1]] else [])
  }

  /** `reduce(lambda a, b: a + b, xs, 0)`: the left fold of + from 0. */
  function Sum(s: seq<int>): (r: int)
    ensures s == [] ==> r == 0
    ensures |s| == 1 ==> r == s[0]
  {
    if s == [] then 0 else Sum(s[..|s| - 1]) + s[|s| - 1]
  }

  /** A sum of non-negative elements is non-negative. */
  lemma {:induction false} SumNonNegative(s: seq<int>)
    requires forall i :: 0 <= i < |s| ==> s[i] >= 0
    ensures Sum(s) >= 0
  {
    if s != [] {
      SumNonNegative(s[..|s| - 1]);
    }
  }

  /** The sum of i * i over the even i in [0, n): the reference the kernels meet. */
  function EvenSquareSum(n: int): (r: int)
    ensures r >= 0
    decreases n
  {
    if n <= 0 then 0 else EvenSquareSum(n - 1) + (if (n - 1) % 2 == 0 then (n - 1) * (n - 1) else 0)
  }

  /** A square is even exactly when its root is. */
  lemma SquareParity(i: int)
    ensures (i * i) % 2 == 0 <==> i % 2 == 0
  {
    var k := i / 2;
    var h := 2 * k * k;
    if i % 2 == 0 {
      assert i == 2 * k;
      assert i * i == (2 * h) by {
        assert i * i == (2 * k) * (2 * k);
      }
      ModMultiple(h, 2);
    } else {
      assert i == 2 * k + 1;
      assert i * i == (h + 2 * k) * 2 + 1 by {
        assert i * i == (2 * k + 1) * (2 * k + 1);
      }
      ModMultiple(h + 2 * k, 2);
      ModOffset((h + 2 * k) * 2, 2, 1);
    }
  }

  /** filter on one more element appends it when it is even. */
  lemma EvensSnoc(s: seq<int>, x: int)
    ensures Evens(s + [x]) == Evens(s) + (if x % 2 == 0 then [x] else [])
  {
    assert (s + [x])[..|s|] == s;
  }

  /** reduce on one more element adds it. */
  lemma SumSnoc(s: seq<int>, x: int)
    ensures Sum(s + [x]) == Sum(s) + x
  {
    assert (s + [x])[..|s|] == s;
  }

  /** The squares of range(n) are those of range(n - 1) followed by (n - 1)^2. */
  lemma SquaresSnoc(n: int)
    requires n > 0
    ensures Squares(Indices(n)) == Squares(Indices(n - 1)) + [(n - 1) * (n - 1)]
  {
  }

  /** Filtering and summing one more element adds it exactly when it is even. */
  lemma EvenSumSnoc(p: seq<int>, t: seq<int>, x: int)
    requires p == t + [x]
    ensures Sum(Evens(p)) == Sum(Evens(t)) + (if x % 2 == 0 then x else 0)
  {
    EvensSnoc(t, x);
    if x % 2 == 0 {
      SumSnoc(Evens(t), x);
    } else {
      assert Evens(t) + [] == Evens(t);
    }
  }

  /** One more index adds its square to the reference sum exactly when the square is
      even. */
  lemma EvenSquareSumStep(n: int)
    requires n > 0
    ensures EvenSquareSum(n) == EvenSquareSum(n - 1) +
      (if ((n - 1) * (n - 1)) % 2 == 0 then (n - 1) * (n - 1) else 0)
  {
    SquareParity(n - 1);
  }

  /** The Python pipeline on range(n) computes the reference sum. */
  lemma {:induction false} PipelineSum(n: int)
    ensures Sum(Evens(Squares(Indices(n)))) == EvenSquareSum(n)
    decreases n
  {
    if n > 0 {
      SquaresSnoc(n);
      PipelineSum(n - 1);
      EvenSumSnoc(Squares(Indices(n)), Squares(Indices(n - 1)), (n - 1) * (n - 1));
      EvenSquareSumStep(n);
    }
  }

  /** `main` of bench.py with the length of the range as a parameter. */
  function Pipeline(n: int): (result: int)
    ensures result == EvenSquareSum(n)
  {
    PipelineSum(n);
    Sum(Evens(Squares(Indices(n))))
  }

  /** Two indices at a time: the even i below 2 m are 0, 2, ..., 2 (m - 1), and the
      odd index 2 m - 1 adds nothing. */
  lemma {:induction false} EvenSquareSumPairs(m: nat)
    ensures 3 * EvenSquareSum(2 * m) == 2 * m * (m - 1) * (2 * m - 1)
    ensures 3 * EvenSquareSum(2 * m + 1) == 2 * (m + 1) * m * (2 * m + 1)
    decreases m
  {
    if m > 0 {
      EvenSquareSumPairs(m - 1);
      ModMultiple(m - 1, 2);
      ModOffset((m - 1) * 2, 2, 1);
      assert EvenSquareSum(2 * m) == EvenSquareSum(2 * m - 1);
      ModMultiple(m, 2);
      assert EvenSquareSum(2 * m + 1) == EvenSquareSum(2 * m) + (2 * m) * (2 * m);
      CubicSum(m, EvenSquareSum(2 * m));
    }
  }

  /** Adding the square of 2 m to a sum that meets the closed form for 2 m meets it
      for 2 m + 1. */
  lemma CubicSum(m: int, a: int)
    requires 3 * a == 2 * m * (m - 1) * (2 * m - 1)
    ensures 3 * (a + (2 * m) * (2 * m)) == 2 * (m + 1) * m * (2 * m + 1)
  {
    assert (2 * m) * (2 * m) == 4 * m * m;
    CubicStep(m);
  }

  /** Closed form: with m = ceil(n / 2) even numbers below n, three times the sum is
      2 m (m - 1) (2 m - 1), i.e. the sum is 4 (0^2 + ... + (m - 1)^2). */
  lemma EvenSquareSumClosedForm(n: int)
    requires n >= 0
    ensures 3 * EvenSquareSum(n) == 2 * ((n + 1) / 2) * ((n + 1) / 2 - 1) * (2 * ((n + 1) / 2) - 1)
  {
    var m := n / 2;
    EvenSquareSumPairs(m);
    if n % 2 == 0 {
      assert n == 2 * m && (n + 1) / 2 == m;
    } else {
      assert n == 2 * m + 1 && (n + 1) / 2 == m + 1;
    }
  }

  /** The step of the closed form: 2 (j + 1) j (2 j + 1) - 2 j (j - 1) (2 j - 1) = 12 j^2. */
  lemma CubicStep(j: int)
    ensures 2 * (j + 1) * j * (2 * j + 1) == 2 * j * (j - 1) * (2 * j - 1) + 12 * j * j
  {
    var p, q := (j + 1) * (2 * j + 1), (j - 1) * (2 * j - 1);
    assert p == 2 * j * j + 3 * j + 1;
    assert q == 2 * j * j - 3 * j + 1;
    assert 2 * (j + 1) * j * (2 * j + 1) == 2 * j * p;
    assert 2 * j * (j - 1) * (2 * j - 1) == 2 * j * q;
  }

  /** The sum only grows with n. */
  lemma {:induction false} EvenSquareSumMonotone(m: int, n: int)
    requires m <= n
    ensures EvenSquareSum(m) <= EvenSquareSum(n)
    decreases n - m
  {
    if m < n {
      EvenSquareSumMonotone(m, n - 1);
    }
  }

  /** At the benchmark's n = 10000 the result is 166616670000, and every partial sum
      and every square (at most 9999^2) fits in a long. */
  lemma BenchmarkFits(n: int, i: int)
    requires n == 10000 && 0 <= i <= n
    ensures EvenSquareSum(n) == 166616670000
    ensures 0 <= EvenSquareSum(i) <= EvenSquareSum(n) < TWO_63
    ensures i < n ==> IsInt64(i * i)
  {
    EvenSquareSumClosedForm(n);
    assert 2 * 5000 * 4999 * 9999 == 3 * 166616670000;
    EvenSquareSumMonotone(i, n);
    MulLe(i, n, i);
    MulLe(i, n, n);
  }

  /** The fill loop: arr[i] = i for every index. */
  method Fill(arr: array<int>)
    modifies arr
    ensures arr[..] == Indices(arr.Length)
  {
    var i := 0;
    while i < arr.Length
      invariant 0 <= i <= arr.Length
      invariant forall k :: 0 <= k < i ==> arr[k] == k
    {
      arr[i] := i;
      i := i + 1;
    }
  }

  /** The map loop: arr[i] = arr[i] * arr[i], one index at a time. */
  method SquareInPlace(arr: array<int>)
    modifies arr
    ensures arr[..] == Squares(old(arr[..]))
  {
    var i := 0;
    while i < arr.Length
      invariant 0 <= i <= arr.Length
      invariant forall k :: 0 <= k < i ==> arr[k] == old(arr[k]) * old(arr[k])
      invariant forall k :: i <= k < arr.Length ==> arr[k] == old(arr[k])
    {
      arr[i] := arr[i] * arr[i];
      i := i + 1;
    }
  }

  /** The filter-and-reduce loop: reads arr and sums its even entries. */
  method SumEven(arr: array<int>) returns (sum: int)
    ensures sum == Sum(Evens(arr[..]))
  {
    sum := 0;
    var i := 0;
    while i < arr.Length
      invariant 0 <= i <= arr.Length
      invariant sum == Sum(Evens(arr[..i]))
    {
      var e := Evens(arr[..i]);
      assert arr[..i + 1][..i] == arr[..i];
      if arr[i] % 2 == 0 {
        assert Evens(arr[..i + 1]) == e + [arr[i]];
        assert (e + [arr[i]])[..|e|] == e;
        sum := sum + arr[i];
      } else {
        assert Evens(arr[..i + 1]) == e;
      }
      i := i + 1;
    }
    assert arr[..arr.Length] == arr[..];
  }

  /** `main` of bench.c, bench.go and Bench.java with n as a parameter. */
  method FillSquareSum(n: int) returns (sum: int)
    requires n >= 0
    ensures sum == EvenSquareSum(n)
  {
    var arr := new int[n];
    Fill(arr);
    SquareInPlace(arr);
    sum := SumEven(arr);
    PipelineSum(n);
  }
}
