/** Sums of squares and the table of squares that the memory and mixed
    workloads build. */
module Squares {
  import opened Common

  /** The sum of i * i over range(n); zero when range(n) is empty. */
  function SumSquares(n: int): (r: int)
    ensures r >= 0
    ensures n <= 0 ==> r == 0
    decreases n
  {
    if n <= 0 then 0 else SumSquares(n - 1) + (n - 1) * (n - 1)
  }

  /** The closed form: 6 * (0^2 + 1^2 + ... + (n-1)^2) == (n - 1) * n * (2n - 1). */
  lemma {:induction false} SumSquaresClosedForm(n: int)
    requires n >= 0
    ensures 6 * SumSquares(n) == (n - 1) * n * (2 * n - 1)
    decreases n
  {
    if n > 0 {
      SumSquaresClosedForm(n - 1);
      ClosedFormStep(n - 1);
    }
  }

  /** The polynomial identity behind one induction step of SumSquaresClosedForm. */
  lemma ClosedFormStep(m: int)
    ensures (m - 1) * m * (2 * m - 1) + 6 * (m * m) == m * (m + 1) * (2 * m + 1)
  {
    var c := m * m * m;
    assert (m - 1) * m * (2 * m - 1) == 2 * c - 3 * (m * m) + m;
    assert m * (m + 1) * (2 * m + 1) == 2 * c + 3 * (m * m) + m;
  }

  /** The table that both builders produce: Max0(n) rows, each the list
      [0*0, 1*1, ..., (n-1)*(n-1)]. */
  ghost function SquaresTable(n: int): seq<seq<int>> {
    seq(Max0(n), _ => seq(Max0(n), j => j * j))
  }

  /** Builds the table row by row, appending Max0(n) copies of the row of squares below n. */
  method BuildSquaresTable(n: int) returns (t: seq<seq<int>>)
    ensures t == SquaresTable(n)
    ensures |t| == Max0(n)
    ensures forall i :: 0 <= i < |t| ==>
              |t[i]| == |t| && forall j :: 0 <= j < |t[i]| ==> t[i][j] == j * j
  {
    t := [];
    var i := 0;
    while i < n
      invariant 0 <= i <= Max0(n)
      invariant |t| == i
      invariant forall k :: 0 <= k < i ==> t[k] == seq(n, j => j * j)
    {
      var row := seq(n, j => j * j);
      t := t + [row];
      i := i + 1;
    }
  }
}
