/** The PyPy mixed workload (src/pypy_mixed_test.py): build the n x n table
    of squares, then fold it in row-major order, adding the cells of even
    rows and multiplying by cell + 1 on odd rows. Its fibonacci_memoized is
    the one of MixedTest. */
module PypyMixedTest {
  import opened Common
  import opened Squares

  /** The accumulator after visiting row[0..j] of row number i, starting from acc. */
  ghost function FoldRow(acc: int, i: int, row: seq<int>, j: nat): int
    requires j <= |row|
    decreases j
  {
    if j == 0 then acc
    else
      var before := FoldRow(acc, i, row, j - 1);
      if i % 2 == 0 then before + row[j - 1] else before * (row[j - 1] + 1)
  }

  /** The accumulator after visiting every cell of rows 0 .. i - 1, starting from 0. */
  ghost function FoldRows(data: seq<seq<int>>, i: nat): int
    requires i <= |data|
    decreases i
  {
    if i == 0 then 0 else FoldRow(FoldRows(data, i - 1), i - 1, data[i - 1], |data[i - 1]|)
  }

  ghost predicate NonNegativeCells(data: seq<seq<int>>) {
    forall i, j :: 0 <= i < |data| && 0 <= j < |data[i]| ==> data[i][j] >= 0
  }

  /** Adding a non-negative cell or multiplying by one plus it keeps a
      non-negative accumulator non-negative. */
  lemma {:induction false} FoldRowNonNegative(acc: int, i: int, row: seq<int>, j: nat)
    requires j <= |row| && acc >= 0
    requires forall k :: 0 <= k < |row| ==> row[k] >= 0
    ensures FoldRow(acc, i, row, j) >= 0
    decreases j
  {
    if j > 0 {
      FoldRowNonNegative(acc, i, row, j - 1);
      var before := FoldRow(acc, i, row, j - 1);
      assert before * (row[j - 1] + 1) >= before;
    }
  }

  /** The fold of a table of non-negative cells is non-negative. */
  lemma {:induction false} FoldRowsNonNegative(data: seq<seq<int>>, i: nat)
    requires i <= |data| && NonNegativeCells(data)
    ensures FoldRows(data, i) >= 0
    decreases i
  {
    if i > 0 {
      FoldRowsNonNegative(data, i - 1);
      FoldRowNonNegative(FoldRows(data, i - 1), i - 1, data[i - 1], |data[i - 1]|);
    }
  }

  /** run_mixed_test(n): the fold of the squares table. */
  method RunMixedTest(n: int) returns (result: int)
    ensures result == FoldRows(SquaresTable(n), Max0(n))
    ensures result >= 0
    ensures n <= 0 ==> result == 0
  {
    var data := BuildSquaresTable(n);
    result := 0;
    var i := 0;
    while i < n
      invariant 0 <= i <= Max0(n)
      invariant result == FoldRows(data, i)
    {
      var j := 0;
      while j < n
        invariant 0 <= j <= n
        invariant result == FoldRow(FoldRows(data, i), i, data[i], j)
      {
        if i % 2 == 0 {
          result := result + data[i][j];
        } else {
          result := result * (data[i][j] + 1);
        }
        j := j + 1;
      }
      i := i + 1;
    }
    FoldRowsNonNegative(data, Max0(n));
  }
}
