/** The PyPy memory workload (src/pypy_memory_test.py): build an n x n table
    of squares, then add up every cell. Its matrix_multiply is the one of
    MemoryTest. */
module PypyMemoryTest {
  import opened Common
  import opened Squares

  /** run_memory_test(n): matrix[i][j] == j * j, and result is the sum of all
      cells in row-major order, i.e. n copies of the sum of squares below n. */
  method RunMemoryTest(n: int) returns (result: int)
    ensures result == Max0(n) * SumSquares(n)
    ensures result >= 0
    ensures n <= 0 ==> result == 0
    ensures n >= 1 ==> 6 * result == n * ((n - 1) * n * (2 * n - 1))
  {
    var matrix := BuildSquaresTable(n);
    result := 0;
    var i := 0;
    while i < n
      invariant 0 <= i <= Max0(n)
      invariant result == i * SumSquares(n)
    {
      var j := 0;
      while j < n
        invariant 0 <= j <= n
        invariant result == i * SumSquares(n) + SumSquares(j)
      {
        result := result + matrix[i][j];
        j := j + 1;
      }
      i := i + 1;
    }
    if n >= 1 {
      SumSquaresClosedForm(n);
    }
  }
}
