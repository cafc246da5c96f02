# ClojureWasm benchmark kernels in Dafny

ClojureWasm's benchmark corpus compares the same small integer kernels written in C,
Go, Java, Python and Go compiled to WebAssembly. This project models those kernels and
proves what each one computes. The kernels fall into four groups:

- **Prime sieves.**
  - The in-place Sieve of Eratosthenes over the wasm byte buffer (`WasmSieve`) and over
    C's `bool sieve[1001]` (`ArraySieve`).
  - The "take the head, drop its multiples" sieve in Go, Java and Python (`FilterSieve`).
  - Every sieve is proved to return the number of primes in its range (`Primes.PrimesBelow`).
- **N-queens backtracking** (`NQueens`).
  - The C, Go and Java ports update a global column array and a counter; here they are
    the class `Board`.
  - The Python port appends to and pops from a list; here it is the class `Backtracker`.
  - Both are proved to count exactly the non-attacking placements.
- **Integer functions.**
  - Fibonacci, recursive and iterative (`Fibonacci`).
  - The int32 exports of go_math.go (`GoMath`).
  - Euclid's gcd (`Euclid`), Takeuchi's function (`Takeuchi`) and the arithmetic series
    (`ArithSeries`).
  - The wasm `*_bench` drivers, which feed the low bit of the previous result into the
    next argument.
- **Sequence loops.**
  - Linked-list prepend and count (`ListBuild`).
  - Square, keep the even values, sum them (`MapFilterReduce`).
  - The fused filter-sum of 3i (`Transduce`).
  - Build records, then sum the active ones (`RealWorkload`).

Fixed-width integers are modelled with `FixedWidth.Wrap32` and `FixedWidth.Wrap64`,
which are two's-complement reduction. Go's int32 and int64 and Java's long wrap on
overflow; signed overflow in C has no defined result. The model treats overflow in one
of four ways:

- **Wrapped.** The int32 kernels of the wasm exports and drivers (fib, fib_loop, gcd,
  tak_bench's and arith_bench's argument `x + (result & 1)`, go_math's add, multiply,
  fibonacci, factorial and the `i*i` of is_prime) and Java's long fib loop. Lemmas then
  say when the result is exact, for example F(n) in int32 exactly up to n = 46, and n!
  up to n = 12.
- **Computed exactly, with the benchmark's size shown to fit.** The int64/long sums of
  the C, Go and Java ports of map_filter_reduce, transduce and real_workload. Lemmas
  show that no overflow occurs at the benchmark's n = 10000; the model does not wrap
  them for larger n (see "Left out"). The int64 sum of arith_loop is computed exactly
  too, and is shown to fit for every int32 n. Takeuchi's `x - 1` is also computed
  exactly.
- **Exact in the source.** The Python ports (map/filter/reduce, the list sieve,
  n-queens) compute on unbounded integers, as the model does, so nothing overflows
  there.
- **Excluded by a precondition.** The wasm sieve's `i*i` and `j += i` (n <= 46340^2),
  sieve_bench's `n + (result & 1)`, and the `i <= n` counter of go_math's fibonacci
  and factorial (n < 2^31 - 1).

Go's `x & 1` on a two's-complement integer is the low bit, which is Dafny's Euclidean
`x % 2` for every integer x. Go's `%` truncates toward zero and is modelled as
`Euclid.GoRem`.

Where a kernel sits inside `main` with a fixed size (n = 10000, limit = 1000, N = 8),
the size is a parameter. A separate lemma gives the value at the benchmark's size for
map_filter_reduce, transduce, real_workload and the fib(25) that the C and Java
programs print. The printed values of the sieve, n-queens and tak are not evaluated
(see "Left out").

## Model

| member | source | states |
|---|---|---|
| Primes.PrimesBelow | bench/wasm/sieve_bench.go:26-32 | the number of primes below n is 0 for n <= 2 and at most n - 2 otherwise |
| Primes.UncrossedIsPrime | bench/benchmarks/09_sieve/bench.c:10-15 | once k < i * i, k survives every crossing-off round below i exactly when k is prime, so the marking loop may stop at i * i > limit |
| Primes.UncrossedNext | bench/wasm/sieve_bench.go:18-24 | round i of the marking loop removes exactly the multiples of i from i * i on |
| Primes.CrossedRoundIsIdle | bench/wasm/sieve_bench.go:19 | skipping a crossed-off i loses nothing: its multiples were crossed off with its prime factor |
| WasmSieve.Sieve | bench/wasm/sieve_bench.go:9-33 | returns the number of primes below n; afterwards bytes 0 and 1 are 0, byte k in [2, n) is 1 exactly when k is prime, and no byte at index n or beyond (other than 0 and 1) changes |
| WasmSieve.CrossOffComposites | bench/wasm/sieve_bench.go:18-24 | from all bytes of [2, n) set, the marking loop leaves byte k set exactly when k is prime and writes nothing outside [2, n) |
| WasmSieve.CrossOffMultiples | bench/wasm/sieve_bench.go:20-22 | clearing i * i, i * i + i, ... below n completes round i and writes nothing outside [2, n) |
| WasmSieve.NextSquareFits | bench/wasm/sieve_bench.go:18 | while i * i < n <= 46340^2 the next square (i + 1)^2 still fits in int32 |
| WasmSieve.CountSet | bench/wasm/sieve_bench.go:26-32 | counting the set bytes of [2, n) gives the number of primes below n |
| WasmSieve.SieveRounds | bench/wasm/sieve_bench.go:37-43 | the driver's result is 0 for no rounds, the count below n after the first round, and the count below n or n + 1 after every later round |
| WasmSieve.SieveBench | bench/wasm/sieve_bench.go:37-43 | the driver returns SieveRounds for max(iterations, 0) rounds; with no round the buffer is unchanged; after a round bytes 0 and 1 are 0, bytes in [2, n) mark exactly the primes, and no byte from n + 1 on changes |
| ArraySieve.SieveUpTo | bench/benchmarks/09_sieve/bench.c:6-20 | afterwards sieve[k] is true exactly for the primes k <= limit, and count is the number of primes up to limit |
| ArraySieve.CrossOffComposites | bench/benchmarks/09_sieve/bench.c:10-15 | the nested loops keep sieve[0] and sieve[1] false and leave sieve[k] true exactly for the primes in [2, limit] |
| ArraySieve.Run | bench/benchmarks/09_sieve/bench.c:5-20 | with limit 1000 and the 1001-entry array the count is the number of primes up to 1000 |
| FilterSieve.Range | bench/benchmarks/09_sieve/bench.py:2 | `range(lo, hi)` holds lo, lo + 1, ..., hi - 1 in order |
| FilterSieve.DropMultiples | bench/benchmarks/09_sieve/bench.py:7 | the comprehension keeps exactly the elements p does not divide and never grows the list |
| FilterSieve.DropMultiplesSnoc | bench/benchmarks/09_sieve/bench.go:17-21 | filtering a list with one more element appends that element when p does not divide it, and nothing otherwise |
| FilterSieve.DropMultiplesAscending | bench/benchmarks/09_sieve/bench.py:4-7 | filtering keeps a strictly ascending list strictly ascending |
| FilterSieve.InitialCandidates | bench/benchmarks/09_sieve/bench.go:7-10 | the list 2..limit is ascending and holds exactly the numbers in [2, limit] |
| FilterSieve.SieveRound | bench/benchmarks/09_sieve/bench.go:14-22 | the head of the list is the next prime, and dropping it and its multiples keeps the invariant with one more prime counted |
| FilterSieve.SieveFinished | bench/benchmarks/09_sieve/bench.go:13 | when the list is empty every prime up to limit has been counted |
| FilterSieve.SieveComprehension | bench/benchmarks/09_sieve/bench.py:1-8 | `sieve(limit)` returns the number of primes up to limit (0 for limit < 2) |
| FilterSieve.IntArrayList.constructor | bench/benchmarks/09_sieve/Bench.java:7 | a new list is empty |
| FilterSieve.IntArrayList.Add | bench/benchmarks/09_sieve/Bench.java:8 | `add` appends one element at the end |
| FilterSieve.IntArrayList.IsEmpty | bench/benchmarks/09_sieve/Bench.java:11 | true exactly when the list has no element |
| FilterSieve.IntArrayList.RemoveFirst | bench/benchmarks/09_sieve/Bench.java:12 | `remove(0)` returns the first element and shifts the rest down in order |
| FilterSieve.IntArrayList.RemoveMultiplesOf | bench/benchmarks/09_sieve/Bench.java:15 | `removeIf` drops exactly the multiples of p and keeps the order of the rest |
| FilterSieve.SieveArrayList | bench/benchmarks/09_sieve/Bench.java:6-16 | the Java loop counts the primes up to limit |
| FilterSieve.CompactSurvivors | bench/benchmarks/09_sieve/bench.go:16-22 | copying survivors down through `next := cand[:0]` yields exactly the filtered tail, strictly shorter, and leaves the storage past the old length alone |
| FilterSieve.SieveSlice | bench/benchmarks/09_sieve/bench.go:6-23 | the Go loop counts the primes up to limit |
| NQueens.Completions | bench/benchmarks/10_nqueens/bench.c:19-30 | the search from a full board counts 1, and past a full board 0 |
| NQueens.NonAttackingSnoc | bench/benchmarks/10_nqueens/bench.c:9-17 | a placement stays non-attacking after adding a queen exactly when `safe` holds for it |
| NQueens.AttackedPrefixHasNoPlacement | bench/benchmarks/10_nqueens/bench.c:24-28 | a prefix with an attacking pair has no non-attacking completion, so pruning on `safe` loses none |
| NQueens.AttackedPrefixSumIsZero | bench/benchmarks/10_nqueens/bench.c:24-28 | summed over any columns, the completions of an attacked prefix are 0 |
| NQueens.CompletionsArePlacements | bench/benchmarks/10_nqueens/bench.c:19-30 | from a non-attacking prefix the pruned search counts exactly the non-attacking full placements extending it |
| NQueens.SafeCompletionsArePlacements | bench/benchmarks/10_nqueens/bench.c:24-29 | the column loop over [0, c) counts exactly the non-attacking placements whose next queen is in [0, c) |
| NQueens.SearchCountsSolutions | bench/benchmarks/10_nqueens/bench.c:33 | `solve(0)` counts the solutions of the n-queens puzzle |
| NQueens.Board.constructor | bench/benchmarks/10_nqueens/bench.c:6-7 | the board has n rows and the counter starts at 0 |
| NQueens.Board.Safe | bench/benchmarks/10_nqueens/bench.c:9-17 | `safe(row, col)` holds exactly when no queen on rows 0..row-1 shares col or a diagonal; it only reads |
| NQueens.Board.Solve | bench/benchmarks/10_nqueens/bench.c:19-30 | `solve(row)` adds exactly the number of completions of rows 0..row-1 to the counter, leaves those rows unchanged, and every column it writes lies in [0, n) |
| NQueens.CountSolutions | bench/benchmarks/10_nqueens/bench.go:34-35 | `solve(0)` on a fresh board leaves the number of solutions in the counter |
| NQueens.Backtracker.constructor | bench/benchmarks/10_nqueens/bench.py:2-3 | `solutions` is 0 and `queens` is empty |
| NQueens.Backtracker.Safe | bench/benchmarks/10_nqueens/bench.py:5-9 | true exactly when no (r, qc) in enumerate(queens) has qc == col or abs(qc - col) == row - r |
| NQueens.Backtracker.Backtrack | bench/benchmarks/10_nqueens/bench.py:11-20 | entered with len(queens) == row, it restores queens through append/pop and adds exactly the number of completions |
| NQueens.SolveList | bench/benchmarks/10_nqueens/bench.py:1-23 | `solve(n)` returns the number of solutions for n >= 0 and 0 for negative n |
| FixedWidth.Wrap | test/wasm/src/go_math.go:5 | two's-complement reduction lands in [-half, half) |
| FixedWidth.WrapResidue | test/wasm/src/go_math.go:5 | the wrapped value differs from the exact one by a multiple of 2 * half |
| FixedWidth.WrapExact | test/wasm/src/go_math.go:5 | wrapping leaves x unchanged exactly when x is already in range |
| FixedWidth.WrapAdd | test/wasm/src/go_math.go:20 | adding wrapped values and wrapping equals wrapping the exact sum |
| FixedWidth.WrapMul | test/wasm/src/go_math.go:29 | multiplying a wrapped value and wrapping equals wrapping the exact product |
| Fibonacci.FibMonotone | bench/benchmarks/01_fib_recursive/bench.c:3-6 | F(n) never decreases with n |
| Fibonacci.FibInt32 | bench/wasm/fib_bench.go:5-10 | F(n) fits in int32 exactly for n <= 46 |
| Fibonacci.FibInt64 | bench/benchmarks/02_fib_loop/Bench.java:2-10 | F(n) fits in long exactly for n <= 92 |
| Fibonacci.FibRec | bench/wasm/fib_bench.go:5-10 | `fib(n)` returns n for n <= 1, negative n included, and always lies in the type's range |
| Fibonacci.FibRecIsWrappedFib | bench/wasm/fib_bench.go:5-10 | for n >= 0 the recursive `fib` returns F(n) reduced into the type |
| Fibonacci.PrintedFib | bench/benchmarks/01_fib_recursive/bench.c:9 | the printed fib(25) is 75025, both by the long recursion and by the long loop of 02_fib_loop/Bench.java |
| Fibonacci.FibRecExact | bench/benchmarks/01_fib_recursive/bench.c:3-6 | recursive `fib` equals F(n) exactly for n <= 46 in int32 and n <= 92 in long |
| Fibonacci.FibRounds | bench/wasm/fib_bench.go:15-22 | the driver's result is an int32 and 0 for no rounds |
| Fibonacci.FibRoundsInputs | bench/wasm/fib_bench.go:17-20 | the first round calls fib(n), and every round calls fib(n) or fib(n + 1) |
| Fibonacci.FibBench | bench/wasm/fib_bench.go:15-22 | `fib_bench` returns FibRounds for max(iterations, 0) rounds |
| Fibonacci.FibLoopResult | bench/wasm/fib_loop_bench.go:5-11 | the iterative result is 0 for every n <= 0 and lies in the type's range |
| Fibonacci.FibLoop | bench/wasm/fib_loop_bench.go:5-11 | `fib_loop(n)` keeps (a, b) = (F(i), F(i + 1)) wrapped and returns F(n) in int32 (0 for n <= 0) |
| Fibonacci.FibLoopRounds | bench/wasm/fib_loop_bench.go:16-22 | the driver's result is an int32 and 0 for no rounds |
| Fibonacci.FibLoopRoundsInputs | bench/wasm/fib_loop_bench.go:18-20 | the first round calls fib_loop(n), and every round fib_loop(n) or fib_loop(n + 1) |
| Fibonacci.FibLoopBench | bench/wasm/fib_loop_bench.go:16-22 | `fib_loop_bench` returns FibLoopRounds for max(iterations, 0) rounds |
| Fibonacci.FibLoopLong | bench/benchmarks/02_fib_loop/Bench.java:2-10 | the long loop through t returns F(n) in long (0 for n <= 0) |
| Fibonacci.LoopMatchesRecursion | bench/wasm/fib_loop_bench.go:5-11 | for n >= 0 the loop and the recursion agree, so both are exact up to the same n |
| GoMath.Add | test/wasm/src/go_math.go:4-6 | `add` is an int32 congruent to a + b modulo 2^32, and equal to a + b exactly when that fits |
| GoMath.Multiply | test/wasm/src/go_math.go:9-11 | `multiply` is an int32 congruent to a * b modulo 2^32, and equal to it exactly when that fits |
| GoMath.Fibonacci | test/wasm/src/go_math.go:14-23 | n for n <= 1, F(n) wrapped to int32 for n >= 0, exact precisely for n <= 46 |
| GoMath.Fact | test/wasm/src/go_math.go:26-32 | n! is at least 1 |
| GoMath.FactMonotone | test/wasm/src/go_math.go:26-32 | n! never decreases with n |
| GoMath.FactInt32 | test/wasm/src/go_math.go:26-32 | n! fits in int32 exactly for n <= 12 |
| GoMath.Factorial | test/wasm/src/go_math.go:26-32 | `factorial(n)` is n! wrapped to int32, 1 for n <= 1, exact precisely for n <= 12 |
| GoMath.IsPrimeAsWritten | test/wasm/src/go_math.go:43-53 | returns 0 or 1; 1 only for primes; exactly the primes below 46340^2; and 0 for n = 2^31 - 1 |
| GoMath.GuardedDivisor | test/wasm/src/go_math.go:47-49 | below 46340^2 a divisor found under the guard shows n composite |
| GoMath.GuardedStep | test/wasm/src/go_math.go:47-48 | a passing guard and a non-divisor keep 2 <= i + 1 <= n |
| GoMath.GuardFailed | test/wasm/src/go_math.go:47 | a failing guard proves n prime, and n is not 2^31 - 1 |
| GoMath.SquareFits | test/wasm/src/go_math.go:47 | below 46340^2 the guard's square does not wrap |
| GoMath.IsPrimeCorrected | test/wasm/src/go_math.go:43-53 | with the guard `i <= n / i` the result is 0 or 1, and 1 exactly for the primes, for every int32 n |
| Euclid.GoRem | test/wasm/src/go_math.go:37 | Go's `a % b` is smaller than b in magnitude, takes the sign of a, and is 0 for a = 0 |
| Euclid.GoRemResidue | bench/wasm/gcd_bench.go:7 | a and a % b differ by a multiple of b |
| Euclid.EuclidGcd | bench/wasm/gcd_bench.go:5-10 | gcd(a, 0) = a, gcd(0, b) = b, non-negative for non-negative inputs; terminates because the magnitude of b shrinks |
| Euclid.StepKeepsDivisors | bench/wasm/gcd_bench.go:7 | one step `a, b = b, a%b` keeps the common divisors |
| Euclid.EuclidGcdDivisors | bench/wasm/gcd_bench.go:5-10 | d divides the result exactly when it divides both inputs |
| Euclid.EuclidGcdIsGreatest | test/wasm/src/go_math.go:35-40 | for non-negative inputs, not both 0, the result is positive, divides both, and every common divisor divides it and is at most it |
| Euclid.Gcd | bench/wasm/gcd_bench.go:5-10 | the loop ends, stays in int32, and returns EuclidGcd |
| Euclid.GcdRounds | bench/wasm/gcd_bench.go:15-21 | the driver's int32 sum is 0 for no rounds |
| Euclid.GcdRoundsWrapTotal | bench/wasm/gcd_bench.go:16-18 | wrapping the sum after every addition equals wrapping the exact sum of gcd(a + i, b + i) once |
| Euclid.Int32GcdFits | bench/wasm/gcd_bench.go:5-10 | the gcd of int32 operands is an int32 |
| Euclid.GcdBench | bench/wasm/gcd_bench.go:15-21 | `gcd_bench` returns GcdRounds for max(iterations, 0) rounds |
| Takeuchi.Tak | bench/benchmarks/03_tak/bench.c:3-6 | `tak(x, y, z)` is z whenever x <= y |
| Takeuchi.TakFuelMonotone | bench/wasm/tak_bench.go:5-10 | a result found with some recursion depth is unchanged with more |
| Takeuchi.TakBounds | bench/benchmarks/03_tak/bench.go:5-10 | the result lies between min(y, z) and max(x, y, z) |
| Takeuchi.TakRounds | bench/wasm/tak_bench.go:15-21 | the driver's result is 0 for no rounds |
| Takeuchi.TakRoundsInputs | bench/wasm/tak_bench.go:17-19 | the first round calls tak(x, y, z), and every round tak(x, y, z) or tak(x + 1, y, z) |
| Takeuchi.TakBench | bench/wasm/tak_bench.go:15-21 | `tak_bench` returns TakRounds for max(iterations, 0) rounds |
| ArithSeries.SumBelow | bench/wasm/arith_bench.go:5-11 | 0 + 1 + ... + (n - 1) is 0 for n <= 0 and n(n - 1)/2 otherwise |
| ArithSeries.SumBelowFits | bench/wasm/arith_bench.go:6-10 | for every int32 n the sum fits in int64 |
| ArithSeries.ArithLoop | bench/wasm/arith_bench.go:5-11 | `arith_loop(n)` returns n(n - 1)/2 (0 for n <= 0) without overflowing int64 |
| ArithSeries.ArithRounds | bench/wasm/arith_bench.go:15-21 | the driver's result is 0 for no rounds |
| ArithSeries.ArithRoundsInputs | bench/wasm/arith_bench.go:17-19 | the first round sums below n, and every round below n or n + 1 |
| ArithSeries.ArithBench | bench/wasm/arith_bench.go:15-21 | `arith_bench` returns ArithRounds for max(iterations, 0) rounds |
| ListBuild.Node.constructor | bench/benchmarks/08_list_build/bench.py:3-5 | a new node holds the value and the old head, and its list is the value followed by the old list |
| ListBuild.Descending | bench/benchmarks/08_list_build/bench.go:12-15 | n - 1, n - 2, ..., 0 |
| ListBuild.Build | bench/benchmarks/08_list_build/bench.c:11-17 | after the prepend loop the list holds n - 1 down to 0, ends in null and has no cycle; the head stays null for n <= 0 |
| ListBuild.Count | bench/benchmarks/08_list_build/bench.go:16-19 | the traversal counts every node once and writes nothing |
| ListBuild.BuildAndCount | bench/benchmarks/08_list_build/bench.c:10-26 | the count is n (0 for n <= 0) |
| MapFilterReduce.Indices | bench/benchmarks/05_map_filter_reduce/bench.py:3 | `range(n)` holds 0..n-1 in order |
| MapFilterReduce.Squares | bench/benchmarks/05_map_filter_reduce/bench.py:4 | `map` squares every element, same length and order |
| MapFilterReduce.Evens | bench/benchmarks/05_map_filter_reduce/bench.py:5 | `filter` keeps exactly the even elements and never grows the list |
| MapFilterReduce.EvenSquareSum | bench/benchmarks/05_map_filter_reduce/bench.c:13-16 | the sum of i^2 over the even i below n is non-negative |
| MapFilterReduce.SquareParity | bench/benchmarks/05_map_filter_reduce/bench.go:18 | a square is even exactly when its root is |
| MapFilterReduce.Sum | bench/benchmarks/05_map_filter_reduce/bench.py:6 | `reduce(lambda a, b: a + b, xs, 0)` is the left fold of + from 0: 0 for the empty list and the element itself for one element |
| MapFilterReduce.SumNonNegative | bench/benchmarks/05_map_filter_reduce/bench.py:6 | the sum of non-negative elements is non-negative |
| MapFilterReduce.EvensSnoc | bench/benchmarks/05_map_filter_reduce/bench.py:5 | filtering one more element appends it exactly when it is even |
| MapFilterReduce.SumSnoc | bench/benchmarks/05_map_filter_reduce/bench.py:6 | `reduce` with + adds one more element to the sum |
| MapFilterReduce.SquaresSnoc | bench/benchmarks/05_map_filter_reduce/bench.py:3-4 | mapping the square over range(n) gives the squares of range(n - 1) followed by (n - 1)^2 |
| MapFilterReduce.EvenSumSnoc | bench/benchmarks/05_map_filter_reduce/bench.py:5-6 | filter then reduce on one more element adds it exactly when it is even |
| MapFilterReduce.EvenSquareSumStep | bench/benchmarks/05_map_filter_reduce/bench.py:4-5 | one more index adds its square to the reference sum exactly when the square is even |
| MapFilterReduce.PipelineSum | bench/benchmarks/05_map_filter_reduce/bench.py:3-6 | the map/filter/reduce pipeline on range(n) gives the sum of i^2 over the even i below n |
| MapFilterReduce.Pipeline | bench/benchmarks/05_map_filter_reduce/bench.py:3-6 | the script's result is the sum of i^2 over the even i below n |
| MapFilterReduce.EvenSquareSumPairs | bench/benchmarks/05_map_filter_reduce/bench.c:13-16 | the closed form, two indices at a time |
| MapFilterReduce.EvenSquareSumClosedForm | bench/benchmarks/05_map_filter_reduce/bench.c:13-16 | three times the sum is 2m(m - 1)(2m - 1) with m = ceil(n / 2) |
| MapFilterReduce.EvenSquareSumMonotone | bench/benchmarks/05_map_filter_reduce/bench.go:16-21 | the running sum never decreases |
| MapFilterReduce.BenchmarkFits | bench/benchmarks/05_map_filter_reduce/bench.c:5-16 | at n = 10000 the sum is 166616670000, and every partial sum and every square fits in a long |
| MapFilterReduce.Fill | bench/benchmarks/05_map_filter_reduce/bench.c:7 | after the fill arr[i] = i |
| MapFilterReduce.SquareInPlace | bench/benchmarks/05_map_filter_reduce/bench.c:10 | each element is replaced by its square in place |
| MapFilterReduce.SumEven | bench/benchmarks/05_map_filter_reduce/Bench.java:9-12 | the loop sums exactly the even elements, in order, and writes nothing |
| MapFilterReduce.FillSquareSum | bench/benchmarks/05_map_filter_reduce/bench.go:6-21 | the three loops give the sum of i^2 over the even i below n |
| Transduce.TripleEvenSum | bench/benchmarks/14_transduce/bench.c:6-9 | the sum of the even v = 3i over i below n is never negative |
| Transduce.TripleParity | bench/benchmarks/14_transduce/bench.c:8 | 3i is even exactly when i is |
| Transduce.TripleEvenSumPairs | bench/benchmarks/14_transduce/bench.go:8-13 | the closed form, two indices at a time |
| Transduce.TripleEvenSumClosedForm | bench/benchmarks/14_transduce/bench.c:6-9 | the sum is 3m(m - 1) with m = ceil(n / 2) |
| Transduce.TripleEvenSumMonotone | bench/benchmarks/14_transduce/bench.go:7-13 | the sum never decreases as n grows |
| Transduce.BenchmarkValue | bench/benchmarks/14_transduce/bench.c:4-9 | at n = 10000 the sum is 74985000, inside a long |
| Transduce.TransduceLoop | bench/benchmarks/14_transduce/bench.go:6-13 | each round adds 0 or v, and the loop returns the sum of 3i over the even i below n |
| RealWorkload.RecordAt | bench/benchmarks/20_real_workload/bench.c:14-16 | record i has id i, value 2i, and is active exactly when i % 3 == 0 |
| RealWorkload.Records | bench/benchmarks/20_real_workload/bench.go:13-20 | n records, record i at index i |
| RealWorkload.ActiveSumStep | bench/benchmarks/20_real_workload/bench.c:21-23 | one more record adds its value exactly when it is active |
| RealWorkload.ActiveSumTriples | bench/benchmarks/20_real_workload/bench.c:19-24 | the closed form, three indices at a time |
| RealWorkload.ActiveSumClosedForm | bench/benchmarks/20_real_workload/bench.c:19-24 | the active sum of n records is 3m(m - 1) with m = ceil(n / 3) |
| RealWorkload.ActiveSumMonotone | bench/benchmarks/20_real_workload/bench.go:22-26 | the running sum is non-negative and never decreases |
| RealWorkload.BenchmarkValue | bench/benchmarks/20_real_workload/bench.c:11-24 | at n = 10000 the sum is 33336666, inside a long |
| RealWorkload.BuildRecords | bench/benchmarks/20_real_workload/bench.c:12-17 | the build loop stores record i at index i |
| RealWorkload.SumActive | bench/benchmarks/20_real_workload/bench.go:21-26 | the summing loop adds the values of the active records and writes none |
| RealWorkload.Run | bench/benchmarks/20_real_workload/bench.c:11-24 | building and summing n records gives 3m(m - 1) with m = ceil(n / 3) |

## Left out

- The floating-point kernels of bench/simd are not part of this model.
- The benchmarks built on library maps (java.util.HashMap, Go and Python maps) are not
  part of this model.
- The runtime micro-benchmarks (atom swap, dispatch, allocation, string formatting) are
  not part of this model. Each only accumulates a constant.
- Timing, printing, `main` entry points and wasm export attributes are not modelled.
  Kernels inside `main` are methods returning the value `main` prints.
- `free` in 08_list_build/bench.c is not modelled. Dafny has no deallocation, so nothing
  says each node is freed exactly once.
- sieve_bench.go addresses linear memory directly, from offset 1024; here that memory is the array `mem`.
  No aliasing with other wasm memory is modelled.
- ArraySieve.Run: the count 168 that the sieve programs print for limit = 1000 is not
  evaluated. The model proves the count equals PrimesBelow(1001) for this limit, and the
  number of primes up to limit for every limit.
- Takeuchi.Tak: the value 7 that 03_tak prints for tak(18, 12, 6) is not
  evaluated. The recursion makes tens of thousands of calls, too many to unfold in a
  proof.
- NQueens: the value 92 for N = 8 is not evaluated. The model proves the count equals
  the number of solutions for every n.
- NQueens.Board.constructor: the C, Go and Java ports fix N = 8 at compile time; the model
  takes n as a parameter.
- Takeuchi.Tak: the recursion is not structural, so a `fuel` argument bounds its depth,
  and `None` means the fuel ran out. Termination for all inputs is not proved.
- Takeuchi.Tak: the model computes on exact integers. In the int32 wasm port, `x - 1`
  wraps at -2^31, and in Java's long at -2^63; in C's long that overflow has no defined
  result. None of these is modelled.
- Fibonacci.FibRec: with half = 2^63 it stands for C's long `fib` of
  01_fib_recursive/bench.c. There only n <= 92 is defined behaviour, since F(93)
  overflows long; the wrap modulo 2^64 beyond that is a modelling choice, not what C
  promises.
- Takeuchi.TakBench: each call gets the same fuel. The model does not bound how much
  fuel a given input needs.
- GoMath.Fibonacci: requires n < 2^31 - 1. For n = 2^31 - 1 the int32 counter `i <= n`
  never fails, so the loop never ends.
- GoMath.Factorial: requires n < 2^31 - 1, for the same reason.
- WasmSieve.Sieve: requires n <= 46340^2, so that `i*i` and `j += i` stay inside int32.
  For larger n the int32 index arithmetic would wrap; the benchmark's n is far below
  this bound.
- WasmSieve.SieveBench: requires n + 1 <= 46340^2 for the same reason.
- MapFilterReduce.FillSquareSum: the long/int64 `sum` (and the squares) are exact
  integers. Past the point where the sum leaves int64, around n = 3.8 * 10^6, Go and
  Java would wrap and C would overflow; that is not modelled. BenchmarkFits shows no
  overflow at n = 10000. The same holds for MapFilterReduce.SquareInPlace and
  MapFilterReduce.SumEven. MapFilterReduce.Pipeline models bench.py, whose integers
  never overflow, so it is exact for every n.
- Transduce.TransduceLoop: the long/int64 `sum` is an exact integer. Its overflow for
  very large n is not modelled; BenchmarkValue shows none at n = 10000.
- RealWorkload.Run: the long/int64 values and `sum` are exact integers. Their overflow
  for very large n is not modelled; BenchmarkValue shows none at n = 10000. The same
  holds for RealWorkload.BuildRecords and RealWorkload.SumActive.
- FilterSieve.SieveSlice: requires limit >= 0. In bench.go `make([]int, 0, limit)`
  panics for a negative capacity, and the benchmark's limit is 1000.
- FilterSieve.IntArrayList.RemoveFirst: requires a non-empty list. Java's `remove(0)`
  throws on an empty one, and the benchmark checks `isEmpty()` first.
- FilterSieve.IntArrayList.RemoveMultiplesOf: requires p != 0. `x % 0` throws in Java,
  and every head is at least 2.
- ArraySieve.SieveUpTo: requires limit >= 1 and an array of limit + 1 entries, as
  `bool sieve[1001]` with limit 1000 provides. Smaller arrays would make `sieve[1] =
  false` write out of bounds.
- GoMath.IsPrimeAsWritten: the intended answer for n = 2^31 - 1 is 1, because
  2^31 - 1 is prime (Euler). The model proves the loop returns 0 there but does not
  prove that primality.

## Findings

| source | as written | input that shows it | evidently intended | confidence | as-written member | corrected member |
|---|---|---|---|---|---|---|
| test/wasm/src/go_math.go:47 | the loop guard `i*i <= n` squares i in int32, so the square wraps once i exceeds 46340 | n = 2147483647 (2^31 - 1, a prime): no int32 value exceeds n, so the guard never fails; the loop runs to i = n, finds n % n == 0 and returns 0 | trial division up to the square root with a guard that cannot overflow, e.g. `i <= n / i`, returning 1 for every prime | not executed; the wrong answer 0 is proved, the primality of 2^31 - 1 is a classical result not proved here | GoMath.IsPrimeAsWritten | GoMath.IsPrimeCorrected |
