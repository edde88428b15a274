/** The PyPy CPU workload (src/pypy_cpu_test.py). Its is_prime and
    calculate_primes are the trial-division versions of CpuTest; its
    run_cpu_test is a sum-of-squares accumulator instead. */
module PypyCpuTest {
  import opened Squares

  /** run_cpu_test(n): adds up the squares of 0, 1, ..., n - 1. */
  method RunCpuTest(n: int) returns (result: int)
    ensures result == SumSquares(n)
    ensures result >= 0
    ensures n <= 0 ==> result == 0
    ensures n >= 1 ==> 6 * result == (n - 1) * n * (2 * n - 1)
  {
    result := 0;
    var i := 0;
    while i < n
      invariant 0 <= i && (i <= n || i == 0)
      invariant result == SumSquares(i)
    {
      result := result + i * i;
      i := i + 1;
    }
    if n >= 1 {
      SumSquaresClosedForm(n);
    }
  }
}
