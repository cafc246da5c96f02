/** N-queens backtracking (bench/benchmarks/10_nqueens). The C, Go and Java ports keep
    the board as a global column array `queens` and a global counter `solutions`,
    updated by a recursive `solve(row)` guarded by a read-only `safe(row, col)`; they
    are one class here. The Python port keeps `queens` as a list that `backtrack`
    appends to and pops from. */
module NQueens {

  import opened NonLinear

  /** The board size the benchmark runs with. */
  const N: int := 8

  /** A queen in column col on row `row` is attacked by no queen q[r], r < |q|: no
      shared column, and no shared diagonal (|q[r] - col| == row - r). */
  ghost predicate SafeAt(q: seq<int>, row: int, col: int)
  {
    forall r :: 0 <= r < |q| ==> q[r] != col && Abs(q[r] - col) != row - r
  }

  /** No two queens of the placement q (queen i in row i, column q[i]) attack each other. */
  ghost predicate NonAttacking(q: seq<int>)
  {
    forall i, j :: 0 <= i < j < |q| ==> q[i] != q[j] && Abs(q[i] - q[j]) != j - i
  }

  /** Columns within the board. */
  ghost predicate OnBoard(q: seq<int>, n: int)
  {
    forall i :: 0 <= i < |q| ==> 0 <= q[i] < n
  }

  // ---------------------------------------------------------------------------
  // What the search counts.

  /** The number of times the backtracking search reaches row n from the prefix q:
      1 for a full board, 0 past it, otherwise the sum over the columns c in [0, n)
      that are safe on row |q| of the count from q + [c]. */
  ghost function Completions(q: seq<int>, n: int): (r: nat)
    ensures |q| == n ==> r == 1
    ensures |q| > n ==> r == 0
    decreases n - |q|, n + 1
  {
    if |q| == n then 1
    else if |q| > n then 0
    else SafeCompletions(q, n, n)
  }

  /** Completions summed over the safe columns in [0, c). */
  ghost function SafeCompletions(q: seq<int>, n: int, c: int): (r: nat)
    requires |q| < n && c <= n
    decreases n - |q|, c
  {
    if c <= 0 then 0
    else
      var here := if SafeAt(q, |q|, c - 1) then Completions(q + [c - 1], n) else 0;
      SafeCompletions(q, n, c - 1) + here
  }

  /** The reference count, without pruning: the number of ways to extend q with
      columns in [0, n) to n rows such that the full placement is non-attacking. */
  ghost function Placements(q: seq<int>, n: int): (r: nat)
    decreases n - |q|, n + 1
  {
    if |q| >= n then (if NonAttacking(q) then 1 else 0)
    else AllCompletions(q, n, n)
  }

  /** Placements summed over every column in [0, c). */
  ghost function AllCompletions(q: seq<int>, n: int, c: int): (r: nat)
    requires |q| < n && c <= n
    decreases n - |q|, c
  {
    if c <= 0 then 0
    else AllCompletions(q, n, c - 1) + Placements(q + [c - 1], n)
  }

  /** Adding a queen keeps the placement non-attacking exactly when the new queen is safe. */
  lemma NonAttackingSnoc(q: seq<int>, c: int)
    ensures NonAttacking(q + [c]) <==> NonAttacking(q) && SafeAt(q, |q|, c)
  {
    var q' := q + [c];
    if NonAttacking(q') {
      forall i, j | 0 <= i < j < |q|
        ensures q[i] != q[j] && Abs(q[i] - q[j]) != j - i
      {
        assert q[i] == q'[i] && q[j] == q'[j];
      }
      forall r | 0 <= r < |q|
        ensures q[r] != c && Abs(q[r] - c) != |q| - r
      {
        assert q[r] == q'[r] && c == q'[|q|];
      }
    }
  }

  /** A placement with an attacking pair has no non-attacking extension. */
  lemma {:induction false} AttackedPrefixHasNoPlacement(q: seq<int>, n: int)
    requires !NonAttacking(q)
    ensures Placements(q, n) == 0
    decreases n - |q|, n + 1
  {
    if |q| < n {
      AttackedPrefixSumIsZero(q, n, n);
    }
  }

  lemma {:induction false} AttackedPrefixSumIsZero(q: seq<int>, n: int, c: int)
    requires !NonAttacking(q) && |q| < n && c <= n
    ensures AllCompletions(q, n, c) == 0
    decreases n - |q|, c
  {
    if c > 0 {
      AttackedPrefixSumIsZero(q, n, c - 1);
      NonAttackingSnoc(q, c - 1);
      AttackedPrefixHasNoPlacement(q + [c - 1], n);
    }
  }

  /** Pruning with `safe` loses nothing: from a non-attacking prefix of at most n rows
      the search reaches row n exactly once per non-attacking full placement
      extending it. */
  lemma {:induction false} CompletionsArePlacements(q: seq<int>, n: int)
    requires NonAttacking(q) && |q| <= n
    ensures Completions(q, n) == Placements(q, n)
    decreases n - |q|, n + 1
  {
    if |q| < n {
      SafeCompletionsArePlacements(q, n, n);
    }
  }

  lemma {:induction false} SafeCompletionsArePlacements(q: seq<int>, n: int, c: int)
    requires NonAttacking(q) && |q| < n && c <= n
    ensures SafeCompletions(q, n, c) == AllCompletions(q, n, c)
    decreases n - |q|, c
  {
    if c > 0 {
      SafeCompletionsArePlacements(q, n, c - 1);
      NonAttackingSnoc(q, c - 1);
      if SafeAt(q, |q|, c - 1) {
        CompletionsArePlacements(q + [c - 1], n);
      } else {
        AttackedPrefixHasNoPlacement(q + [c - 1], n);
      }
    }
  }

  /** The number of solutions of the n-queens puzzle. */
  ghost function Solutions(n: int): (r: nat)
  {
    Placements([], n)
  }

  /** A search started on an empty board counts the solutions of the puzzle. */
  lemma SearchCountsSolutions(n: int)
    requires n >= 0
    ensures Completions([], n) == Solutions(n)
  {
    CompletionsArePlacements([], n);
  }

  // ---------------------------------------------------------------------------
  // C, Go, Java: global column array and counter.

  /** The globals `queens` (one column per row) and `solutions`. */
  class Board {
    const n: int
    const queens: array<int>
    var solutions: int

    ghost predicate Valid()
      reads this
    {
      n >= 0 && queens.Length == n
    }

    constructor (n: int)
      requires n >= 0
      ensures Valid() && this.n == n && solutions == 0
      ensures fresh(queens)
    {
      this.n := n;
      queens := new int[n];
      solutions := 0;
    }

    /** `safe(row, col)`: the loop over r < row written as in C, Go and Java, where the
        two diagonal tests `queens[r] - col == r - row` and `col - queens[r] == r - row`
        together say |queens[r] - col| == row - r. Reads queens[0..row) only. */
    method Safe(row: int, col: int) returns (ok: bool)
      requires Valid() && 0 <= row <= n
      ensures ok <==> SafeAt(queens[..row], row, col)
    {
      var r := 0;
      while r < row
        invariant 0 <= r <= row
        invariant SafeAt(queens[..r], row, col)
      {
        if queens[r] == col || queens[r] - col == r - row || col - queens[r] == r - row {
          assert queens[..row][r] == queens[r];
          return false;
        }
        assert queens[..r + 1] == queens[..r] + [queens[r]];
        r := r + 1;
      }
      assert queens[..r] == queens[..row];
      return true;
    }

    /** `solve(row)`: counts, in `solutions`, every way to finish the board from the
        queens already on rows 0..row-1. Rows 0..row-1 are untouched, only rows row
        and below (higher indices) are written, and every column written is in [0, n). */
    method Solve(row: int)
      requires Valid() && 0 <= row <= n
      modifies this, queens
      ensures solutions == old(solutions) + Completions(old(queens[..row]), n)
      ensures queens[..row] == old(queens[..row])
      ensures OnBoard(old(queens[..]), n) ==> OnBoard(queens[..], n)
      ensures forall k :: 0 <= k < queens.Length && queens[k] != old(queens[k]) ==> 0 <= queens[k] < n
      decreases n - row
    {
      if row == n {
        solutions := solutions + 1;
        return;
      }
      ghost var prefix := queens[..row];
      var col := 0;
      while col < n
        invariant 0 <= col <= n
        invariant queens[..row] == prefix
        invariant solutions == old(solutions) + SafeCompletions(prefix, n, col)
        invariant OnBoard(old(queens[..]), n) ==> OnBoard(queens[..], n)
        invariant forall k :: 0 <= k < queens.Length && queens[k] != old(queens[k]) ==> 0 <= queens[k] < n
      {
        var ok := Safe(row, col);
        if ok {
          queens[row] := col;
          assert queens[..row + 1] == prefix + [col];
          Solve(row + 1);
          assert queens[..row] == queens[..row + 1][..row];
        }
        col := col + 1;
      }
    }
  }

  /** `solve(0)` on a fresh n-by-n board: the number of solutions of the puzzle. */
  method CountSolutions(n: int) returns (solutions: int)
    requires n >= 0
    ensures solutions == Solutions(n)
  {
    var board := new Board(n);
    board.Solve(0);
    assert board.queens[..0] == [];
    SearchCountsSolutions(n);
    solutions := board.solutions;
  }

  // ---------------------------------------------------------------------------
  // Python: the board is a list grown by append and shrunk by pop.

  /** The closure state of `solve(n)` in bench.py: `queens` and `nonlocal solutions`. */
  class Backtracker {
    const n: int
    var queens: seq<int>
    var solutions: int

    constructor (n: int)
      ensures this.n == n && queens == [] && solutions == 0
    {
      this.n := n;
      queens := [];
      solutions := 0;
    }

    /** `safe(row, col)`: no (r, qc) in enumerate(queens) shares col or a diagonal. */
    method Safe(row: int, col: int) returns (ok: bool)
      ensures ok <==> SafeAt(queens, row, col)
    {
      var r := 0;
      while r < |queens|
        invariant 0 <= r <= |queens|
        invariant SafeAt(queens[..r], row, col)
      {
        var qc := queens[r];
        if qc == col || Abs(qc - col) == row - r {
          return false;
        }
        assert queens[..r + 1] == queens[..r] + [qc];
        r := r + 1;
      }
      assert queens[..r] == queens;
      return true;
    }

    /** `backtrack(row)`: entered with len(queens) == row; each append is undone by
        the matching pop, so queens is restored on return. */
    method Backtrack(row: int)
      requires row == |queens| && (row <= n || n <= 0)
      modifies this
      ensures queens == old(queens)
      ensures solutions == old(solutions) + Completions(old(queens), n)
      decreases n - row
    {
      if row == n {
        solutions := solutions + 1;
        return;
      }
      var col := 0;
      while col < n
        invariant 0 <= col && (col <= n || n <= 0)
        invariant queens == old(queens)
        invariant solutions == old(solutions) + (if n <= 0 then 0 else SafeCompletions(queens, n, col))
      {
        var ok := Safe(row, col);
        if ok {
          queens := queens + [col];
          Backtrack(row + 1);
          queens := queens[..|queens| - 1];
        }
        col := col + 1;
      }
    }
  }

  /** `solve(n)` of bench.py. For n < 0 nothing is counted: row 0 is never n and
      range(n) is empty. */
  method SolveList(n: int) returns (solutions: int)
    ensures n >= 0 ==> solutions == Solutions(n)
    ensures n < 0 ==> solutions == 0
  {
    var b := new Backtracker(n);
    b.Backtrack(0);
    if n >= 0 {
      SearchCountsSolutions(n);
    }
    solutions := b.solutions;
  }
}
