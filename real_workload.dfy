/** bench/benchmarks/20_real_workload in C and Go: build n records {id, value,
    active} with value = 2 id and active when id is a multiple of 3, then sum the
    values of the active records. The benchmark fixes n = 10000. */
module RealWorkload {

  import opened NonLinear
  import opened FixedWidth

  datatype Record = Record(id: int, value: int, active: bool)

  /** The record the build loop stores at index i. */
  function RecordAt(i: int): (r: Record)
    ensures r.id == i && r.value == 2 * i && (r.active <==> i % 3 == 0)
  {
    Record(i, 2 * i, i % 3 == 0)
  }

  /** The left-to-right sum of the values of the active records. */
  function ActiveSum(s: seq<Record>): int
  {
    if s == [] then 0 else ActiveSum(s[..|s| - 1]) + (if s[|s| - 1].active then s[|s| - 1].value else 0)
  }

  /** The records the build loop leaves for indices 0..n-1. */
  function Records(n: nat): (s: seq<Record>)
    ensures |s| == n && forall i :: 0 <= i < n ==> s[i] == RecordAt(i)
  {
    seq(n, i => RecordAt(i))
  }

  /** Appending record n - 1 adds its value when it is active. */
  lemma ActiveSumStep(n: nat)
    requires n > 0
    ensures ActiveSum(Records(n)) == ActiveSum(Records(n - 1)) + (if (n - 1) % 3 == 0 then 2 * (n - 1) else 0)
  {
    assert Records(n)[..n - 1] == Records(n - 1);
  }

  /** Three indices at a time: of 3 m - 1, 3 m and 3 m + 1 only the multiple 3 m is
      active, and it adds 6 m. */
  lemma {:induction false} ActiveSumTriples(m: nat)
    ensures ActiveSum(Records(3 * m)) == 3 * m * (m - 1)
    ensures ActiveSum(Records(3 * m + 1)) == 3 * (m + 1) * m
    ensures ActiveSum(Records(3 * m + 2)) == 3 * (m + 1) * m
    decreases m
  {
    ModMultiple(m, 3);
    ModOffset(m * 3, 3, 1);
    ActiveSumStep(3 * m + 1);
    ActiveSumStep(3 * m + 2);
    if m > 0 {
      ActiveSumTriples(m - 1);
      ModMultiple(m - 1, 3);
      ModOffset((m - 1) * 3, 3, 2);
      ActiveSumStep(3 * m);
      QuadraticStep(m);
    }
  }

  /** The active sum of the built records is 2 i over the multiples i of 3 below n,
      which is 3 m (m - 1) for the m = ceil(n / 3) multiples 0, 3, ..., 3 (m - 1). */
  lemma ActiveSumClosedForm(n: nat)
    ensures ActiveSum(Records(n)) == 3 * ((n + 2) / 3) * ((n + 2) / 3 - 1)
  {
    var m := n / 3;
    ActiveSumTriples(m);
    if n % 3 == 0 {
      assert n == 3 * m && (n + 2) / 3 == m;
    } else if n % 3 == 1 {
      assert n == 3 * m + 1 && (n + 2) / 3 == m + 1;
    } else {
      assert n == 3 * m + 2 && (n + 2) / 3 == m + 1;
    }
  }

  /** The running sum never decreases as more records are summed. */
  lemma {:induction false} ActiveSumMonotone(m: nat, n: nat)
    requires m <= n
    ensures 0 <= ActiveSum(Records(m)) <= ActiveSum(Records(n))
    decreases n
  {
    if n > 0 {
      ActiveSumMonotone(if m < n then m else n - 1, n - 1);
      ActiveSumStep(n);
    } else {
      assert Records(n) == [];
    }
  }

  /** At the benchmark's n = 10000 the sum is 33336666, far inside a long. */
  lemma BenchmarkValue(n: nat)
    requires n == 10000
    ensures ActiveSum(Records(n)) == 33336666 && IsInt64(ActiveSum(Records(n)))
  {
    ActiveSumClosedForm(n);
  }

  /** The build loop: one record per index, written in place. */
  method BuildRecords(n: nat) returns (records: array<Record>)
    ensures records[..] == Records(n)
  {
    records := new Record[n](i => Record(0, 0, false));
    var i := 0;
    while i < n
      invariant 0 <= i <= n && records.Length == n
      invariant forall k :: 0 <= k < i ==> records[k] == RecordAt(k)
    {
      records[i] := Record(i, 2 * i, i % 3 == 0);
      i := i + 1;
    }
  }

  /** The summing loop: reads every record once and writes none. */
  method SumActive(records: array<Record>) returns (sum: int)
    ensures sum == ActiveSum(records[..])
  {
    sum := 0;
    var i := 0;
    while i < records.Length
      invariant 0 <= i <= records.Length
      invariant sum == ActiveSum(records[..i])
    {
      assert records[..i + 1][..i] == records[..i];
      if records[i].active {
        sum := sum + records[i].value;
      }
      i := i + 1;
    }
    assert records[..records.Length] == records[..];
  }

  /** `main` with n as a parameter. */
  method Run(n: nat) returns (sum: int)
    ensures sum == 3 * ((n + 2) / 3) * ((n + 2) / 3 - 1)
  {
    var records := BuildRecords(n);
    sum := SumActive(records);
    ActiveSumClosedForm(n);
  }
}
