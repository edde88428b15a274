# Verified model of the py-perf-compare workload kernels

py-perf-compare times and memory-profiles a few small integer workloads under
several Python runtimes (CPython, PyPy, NumPy, pure Python). This project models
those workloads and proves what each one computes:

- **Primality and prime listing.** The 6k ± 1 trial-division test
  (`src/pure/cpu_test_python.py`), the plain trial-division test up to the
  square root (`src/cpu_test.py`, repeated word for word in
  `src/pypy_cpu_test.py`), and the NumPy Sieve of Eratosthenes, which clears a
  boolean array in place (`src/numpy/cpu_test_numpy.py`). Each
  `calculate_primes` returns exactly `Primality.PrimesUpTo(limit)`: the
  strictly increasing list of the primes in `[2, limit]`. So the three
  implementations agree for every limit.
- **Matrix multiply.** The naive triple loop of `src/memory_test.py`, repeated
  word for word in `src/pypy_memory_test.py`. The model includes the
  `ValueError` on mismatched dimensions and the `IndexError`s that Python raises
  for an empty operand or a row that is too short. On success every entry is
  the sum of products `Σ_k A[i][k]·B[k][j]`. The identity matrix is proved
  neutral on both sides.
- **Fibonacci.** The iterative two-variable loop
  (`src/pure/mixed_test_python.py`) and the recursion with a memo dictionary
  filled in place (`src/mixed_test.py`, repeated word for word in
  `src/pypy_mixed_test.py`). Both return `Fibonacci.Fib(n)` for `n >= 0` and
  `n` itself for `n <= 1`. The memo only ever holds correct entries.
- **Accumulator loops.** The sum of squares (`src/pypy_cpu_test.py`), with its
  closed form `(n-1)·n·(2n-1)/6`. The checksum over the n×n table of squares
  (`src/pypy_memory_test.py`), which equals `n · Σ_{j<n} j²`. And the
  even-add / odd-multiply fold (`src/pypy_mixed_test.py`), equal to a reference
  fold and never negative.

Layout: one module per core source file (`CpuTestPython`, `CpuTest`,
`PypyCpuTest`, `CpuTestNumpy`, `MemoryTest`, `PypyMemoryTest`,
`MixedTestPython`, `MixedTest`, `PypyMixedTest`). They share specification
modules: `Primality`, `Squares`, `Matrix` and `Fibonacci`, plus `Common` for
`Option`, `Result` and `Max0` (the length of Python's `range(n)`). A source
function that is a loop is a `method` with loop invariants, proved against
these specification functions. The memo dictionary is the `map` field of the
class `MixedTest.Memo`. The sieve is an `array<bool>` cleared in place. Python
lists that are built by appending become `seq` variables that are reassigned.
The `result` matrix of `matrix_multiply`, which the source changes cell by cell
in place, is a local `seq<seq<int>>` rebuilt by functional update at each step;
no behaviour is lost, because that list is fresh and nothing else refers to it.
Python integers are unbounded, and so is Dafny's `int`.

When a function appears word for word in two files, it is modelled once, in the
module of the first file. The other module reuses it: `PypyCpuTest` reuses
`CpuTest.IsPrime` and `CpuTest.CalculatePrimes`, `PypyMemoryTest` reuses
`MemoryTest.MatrixMultiply`, and `fibonacci_memoized` of
`src/pypy_mixed_test.py` is `MixedTest.FibonacciMemoized`.

The square-root bounds `int(n ** 0.5)` and `int(np.sqrt(n))` are modelled as
the exact integer square root `Primality.Isqrt(n)`, where
`r*r <= n < (r+1)*(r+1)`. This is an idealisation of the floating-point
computation.

## Model

| member | source | states |
|---|---|---|
| `Primality.Isqrt` | src/cpu_test.py:5 | the trial-division bound int(n ** 0.5) read over the integers: r*r <= n < (r+1)*(r+1) |
| `Primality.PrimesUpToSpec` | src/pure/cpu_test_python.py:39 | the prime list up to a limit is strictly increasing and contains p exactly when 2 <= p <= limit and p is prime |
| `Primality.PrimeBySqrt` | src/cpu_test.py:5-8 | finding no divisor in [2, i) with i*i > n proves n prime: trial division may stop at the square root |
| `Primality.PrimeIffNoSmallDivisor` | src/cpu_test.py:1-8 | for n >= 2, n is prime exactly when no d >= 2 with d*d <= n divides it, in both directions |
| `Primality.PrimesUpToTen` | src/pure/cpu_test_python.py:42-52 | the prime list up to 10 is [2, 3, 5, 7] |
| `CpuTestPython.SixStep` | src/pure/cpu_test_python.py:21-25 | one loop step preserves "no divisor below i": when 2, 3, i and i+2 do not divide n and i ≡ 5 (mod 6), nothing in [2, i+6) divides n |
| `CpuTestPython.NoDivisorBelowFive` | src/pure/cpu_test_python.py:18-21 | once 2 and 3 are excluded, the loop may start at i = 5: nothing in [2, 5) divides n |
| `CpuTestPython.IsPrime` | src/pure/cpu_test_python.py:6-26 | true exactly for primes; n <= 3 gives n > 1; n > 3 divisible by 2 or 3 gives false; the loop keeps i ≡ 5 (mod 6), i >= 5 and no divisor below i, and terminates |
| `CpuTestPython.CalculatePrimes` | src/pure/cpu_test_python.py:29-39 | returns exactly the primes in [2, limit] in strictly increasing order; empty when limit < 2 |
| `CpuTestPython.RunCpuTest` | src/pure/cpu_test_python.py:42-52 | returns calculate_primes(limit); for limit = 10 that is [2, 3, 5, 7] |
| `CpuTest.IsPrime` | src/cpu_test.py:1-8 | false below 2; trial division over range(2, isqrt(n) + 1) returns true exactly for primes (src/pypy_cpu_test.py:1-8 is the same code) |
| `CpuTest.CalculatePrimes` | src/cpu_test.py:10-12 | strictly increasing, every element in [2, limit], contains every prime <= limit, and equals the 6k ± 1 and sieve lists (src/pypy_cpu_test.py:11-13 is the same code) |
| `CpuTest.RunCpuTest` | src/cpu_test.py:14-16 | returns calculate_primes(limit) unchanged; [2, 3, 5, 7] for 10 |
| `Squares.SumSquares` | src/pypy_cpu_test.py:21-24 | the sum of i*i over range(n) is never negative and is 0 when range(n) is empty |
| `Squares.SumSquaresClosedForm` | src/pypy_cpu_test.py:16-24 | 6 · Σ_{i<n} i² == (n-1)·n·(2n-1) for n >= 0 |
| `PypyCpuTest.RunCpuTest` | src/pypy_cpu_test.py:16-24 | the accumulator loop returns Σ_{i<n} i², never negative, 0 for n <= 0, and (n-1)n(2n-1)/6 for n >= 1; the loop keeps result == Σ_{i<k} i² |
| `CpuTestNumpy.NextMultiple` | src/numpy/cpu_test_numpy.py:28 | the slice i*i::i visits consecutive multiples of i: between j and j+i there is no other multiple |
| `CpuTestNumpy.ClearedIsComposite` | src/numpy/cpu_test_numpy.py:26-28 | every index the marking step for i >= 2 clears is composite |
| `CpuTestNumpy.ClearMultiples` | src/numpy/cpu_test_numpy.py:28 | sieve[i*i::i] = False clears exactly the cells k >= i*i divisible by i, keeps every other cell, and never clears a prime cell |
| `CpuTestNumpy.CompositeStepIsIdle` | src/numpy/cpu_test_numpy.py:26-28 | when sieve[i] is already false (i has a divisor d with d*d <= i), skipping i leaves the outer invariant intact |
| `CpuTestNumpy.FinalSurvivors` | src/numpy/cpu_test_numpy.py:26-30 | after sieving with every i up to isqrt(n), cell k <= n survives exactly when k is prime |
| `CpuTestNumpy.IsPrimeArray` | src/numpy/cpu_test_numpy.py:8-30 | empty array for n < 2; otherwise length n+1, cells 0 and 1 false, and sieve[k] true exactly when k is prime; the outer loop keeps "cell k is set iff k >= 2 has no divisor d < i with d*d <= k" |
| `CpuTestNumpy.CalculatePrimes` | src/numpy/cpu_test_numpy.py:33-44 | the set indices in increasing order equal the primes in [2, limit], the same list as the pure versions |
| `CpuTestNumpy.RunCpuTest` | src/numpy/cpu_test_numpy.py:47-57 | returns calculate_primes(limit); [2, 3, 5, 7] for 10 |
| `Matrix.IdentityRowDot` | src/memory_test.py:16-19 | the sum of products of identity row i with a column of B is B[i][j] |
| `Matrix.IdentityColumnDot` | src/memory_test.py:16-19 | the sum of products of row i of A with identity column j is A[i][j] |
| `Matrix.IdentityLeft` | src/memory_test.py:4-21 | multiplying the n×n identity on the left of any rectangular n-row matrix returns it unchanged |
| `Matrix.IdentityRight` | src/memory_test.py:4-21 | multiplying any rectangular matrix with n >= 1 columns by the n×n identity on the right returns it unchanged |
| `Matrix.TwoByTwoIdentity` | src/memory_test.py:4-21 | [[1,0],[0,1]] times a 2×2 matrix returns the other operand |
| `MemoryTest.MatrixMultiply` | src/memory_test.py:4-21 | IndexError for an empty A or B; ValueError when len(A[0]) != len(B); IndexError when a row read by the loop is too short; otherwise a len(A) × len(B[0]) result with result[i][j] == Σ_{k<len(B)} A[i][k]·B[k][j]; the inner loop keeps the partial sum and leaves other cells as they were, unvisited cells stay 0 (src/pypy_memory_test.py:4-21 is the same code) |
| `MemoryTest.RunMemoryTest` | src/memory_test.py:29-33 | for matrix_size >= 1 the product of two size×size matrices is size×size; for matrix_size <= 0 the empty matrices make A[0] raise IndexError |
| `Squares.BuildSquaresTable` | src/pypy_memory_test.py:35-38 | appends max(n, 0) rows, each [0², 1², …, (n-1)²] |
| `PypyMemoryTest.RunMemoryTest` | src/pypy_memory_test.py:29-46 | the sum of all cells of the squares table is n · Σ_{j<n} j², 0 for n <= 0, never negative; the row loop keeps result == i · Σ_{j<n} j² |
| `MixedTestPython.FibonacciMemoized` | src/pure/mixed_test_python.py:7-24 | n for n <= 1, Fib(n) for n >= 0; the loop keeps a == Fib(k-2) and b == Fib(k-1); the result depends on n alone, so memo has no effect |
| `MixedTestPython.RunMixedTest` | src/pure/mixed_test_python.py:27-37 | length max(n, 0), element i is Fib(i), r[i+2] == r[i] + r[i+1], and [0, 1, 1, 2, 3, 5] for n = 6 |
| `MixedTest.Memo.constructor` | src/mixed_test.py:3-4 | a call without a memo starts from an empty, hence correct, dictionary |
| `MixedTest.FibonacciMemoized` | src/mixed_test.py:1-13 | n for n <= 1 and Fib(n) for n >= 0; a memo hit returns the stored value and changes nothing; every entry maps m to Fib(m) before and after; old entries are kept, new keys lie in [2, n], and n >= 2 is stored (src/pypy_mixed_test.py:1-13 is the same code) |
| `MixedTest.RunMixedTest` | src/mixed_test.py:16-18 | returns [Fib(0), …, Fib(n-1)], [0, 1, 1, 2, 3, 5] for n = 6 |
| `PypyMixedTest.FoldRowNonNegative` | src/pypy_mixed_test.py:30-33 | adding a non-negative cell or multiplying by cell + 1 keeps a non-negative accumulator non-negative |
| `PypyMixedTest.FoldRowsNonNegative` | src/pypy_mixed_test.py:27-35 | the row-major fold over a table of non-negative cells is never negative |
| `PypyMixedTest.RunMixedTest` | src/pypy_mixed_test.py:16-35 | builds the n×n table data[i][j] = j², then equals the reference fold that adds on even rows and multiplies by cell + 1 on odd rows in row-major order; the loops keep result equal to the fold over the cells visited; 0 for n <= 0; never negative |

## Left out

- Timing, memory profiling, progress bars, CSV files, logging, plotting, process launching and dynamic imports are out of scope. These are `benchmarks/*.py`, `run_benchmarks.py`, `setup.py` and `src/__init__.py`. They are measurement and I/O plumbing with floating-point statistics.
- `generate_matrix` (random floats) is left out. `MemoryTest.RunMemoryTest` takes the two generated matrices as parameters, and its requires states only the shape that `generate_matrix` guarantees.
- Matrix entries are `int`. The source multiplies random floats, and floating-point rounding is not modelled.
- `src/numpy/memory_test_python.py` is a thin wrapper over `np.dot` and `np.random.rand`, and is not part of this model.
- `Primality.Isqrt` is the exact integer square root. Python's `int(n ** 0.5)` and NumPy's `int(np.sqrt(n))` go through a double. For very large n (beyond 2^52) they can be off by one, and this is not modelled. Once n no longer fits in a double (about 2^1024), `int(n ** 0.5)` in `src/cpu_test.py` and `src/pypy_cpu_test.py` raises `OverflowError`; `CpuTest.IsPrime` instead answers `b <==> IsPrime(n)` for every n, so that exception is not modelled.
- The default arguments `limit=10000` (`src/cpu_test.py`, `src/numpy/cpu_test_numpy.py`) and `matrix_size=500` (`src/memory_test.py`) are not modelled: every `RunCpuTest` and `RunMemoryTest` takes its argument explicitly.
- `CpuTestNumpy.CalculatePrimes` returns plain integers. NumPy's `np.nonzero` yields `int64` indices, and their width is not modelled.
- `MixedTest.FibonacciMemoized`: requires a memo passed in by the caller to hold only correct entries (key m maps to Fib(m)). Every caller in the source passes either no memo or the memo its own recursion fills. A memo with wrong entries is not modelled.
- Recursion depth is not modelled. CPython's recursion limit bounds the n that the recursive version can reach.
- The partly filled result that exists when matrix_multiply raises `IndexError` mid-loop is not modelled. Python discards it with the exception.
- The unused `memo` argument of the iterative Fibonacci is typed `Option<map<int, int>>`, and it is never read, as in the source.
