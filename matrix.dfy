/** Lists-of-lists matrices and the product that matrix_multiply computes,
    including the exceptions it raises on inputs of the wrong shape. */
module Matrix {
  import opened Common

  /** IndexError: an empty operand, or a row too short for an entry the
      triple loop reads. ValueError: len(A[0]) != len(B). */
  datatype MatrixError = IndexError | ValueError

  /** m has exactly `rows` rows, each of length `cols`. */
  ghost predicate IsMatrix(m: seq<seq<int>>, rows: int, cols: int) {
    |m| == rows && forall i :: 0 <= i < |m| ==> |m[i]| == cols
  }

  /** Every entry the triple loop reads exists: each row of a has len(b)
      columns and each row of b has at least len(b[0]) columns. */
  ghost predicate RowsLongEnough(a: seq<seq<int>>, b: seq<seq<int>>)
    requires |b| > 0
  {
    && (forall i :: 0 <= i < |a| ==> |a[i]| >= |b|)
    && (forall k :: 0 <= k < |b| ==> |b[k]| >= |b[0]|)
  }

  /** The sum of a[i][k] * b[k][j] over k < m. */
  ghost function DotPrefix(a: seq<seq<int>>, b: seq<seq<int>>, i: nat, j: nat, m: nat): int
    requires i < |a| && m <= |a[i]| && m <= |b|
    requires forall k :: 0 <= k < m ==> j < |b[k]|
    decreases m
  {
    if m == 0 then 0 else DotPrefix(a, b, i, j, m - 1) + a[i][m - 1] * b[m - 1][j]
  }

  /** The product a * b as matrix_multiply returns it, or the error it raises. */
  ghost function Multiply(a: seq<seq<int>>, b: seq<seq<int>>): Result<seq<seq<int>>, MatrixError> {
    if |a| == 0 || |b| == 0 then Err(IndexError)
    else if |a[0]| != |b| then Err(ValueError)
    else if |b[0]| > 0 && !RowsLongEnough(a, b) then Err(IndexError)
    else Ok(seq(|a|, i requires 0 <= i < |a| =>
              seq(|b[0]|, j requires 0 <= j < |b[0]| => DotPrefix(a, b, i, j, |b|))))
  }

  /** The n x n identity matrix. */
  function Identity(n: nat): (m: seq<seq<int>>)
    ensures |m| == n && forall i :: 0 <= i < n ==> |m[i]| == n
  {
    seq(n, i => seq(n, j => if i == j then 1 else 0))
  }

  /** Multiplying the first m rows of a column by the identity row i picks out b[i][j]. */
  lemma {:induction false} IdentityRowDot(b: seq<seq<int>>, i: nat, j: nat, m: nat)
    requires i < |b| && m <= |b|
    requires forall k :: 0 <= k < |b| ==> j < |b[k]|
    ensures DotPrefix(Identity(|b|), b, i, j, m) == if i < m then b[i][j] else 0
    decreases m
  {
    if m > 0 {
      IdentityRowDot(b, i, j, m - 1);
    }
  }

  /** Multiplying row i of a by the first m columns of the identity picks out a[i][j]. */
  lemma {:induction false} IdentityColumnDot(a: seq<seq<int>>, n: nat, i: nat, j: nat, m: nat)
    requires i < |a| && |a[i]| == n && j < n && m <= n
    ensures DotPrefix(a, Identity(n), i, j, m) == if j < m then a[i][j] else 0
    decreases m
  {
    if m > 0 {
      IdentityColumnDot(a, n, i, j, m - 1);
    }
  }

  /** The identity on the left returns the other operand unchanged. */
  lemma IdentityLeft(b: seq<seq<int>>, cols: nat)
    requires |b| >= 1 && IsMatrix(b, |b|, cols)
    ensures Multiply(Identity(|b|), b) == Ok(b)
  {
    var p := Multiply(Identity(|b|), b);
    assert p.Ok?;
    forall i | 0 <= i < |b|
      ensures p.value[i] == b[i]
    {
      forall j | 0 <= j < cols
        ensures p.value[i][j] == b[i][j]
      {
        IdentityRowDot(b, i, j, |b|);
      }
    }
    assert p.value == b;
  }

  /** The identity on the right returns the other operand unchanged. */
  lemma IdentityRight(a: seq<seq<int>>, n: nat)
    requires |a| >= 1 && n >= 1 && IsMatrix(a, |a|, n)
    ensures Multiply(a, Identity(n)) == Ok(a)
  {
    var p := Multiply(a, Identity(n));
    assert p.Ok?;
    forall i | 0 <= i < |a|
      ensures p.value[i] == a[i]
    {
      forall j | 0 <= j < n
        ensures p.value[i][j] == a[i][j]
      {
        IdentityColumnDot(a, n, i, j, n);
      }
    }
    assert p.value == a;
  }

  /** Multiplying by the 2 x 2 identity on the left returns the other operand. */
  lemma TwoByTwoIdentity(b: seq<seq<int>>)
    requires IsMatrix(b, 2, 2)
    ensures Multiply([[1, 0], [0, 1]], b) == Ok(b)
  {
    assert Identity(2)[0] == [1, 0] && Identity(2)[1] == [0, 1];
    assert Identity(2) == [[1, 0], [0, 1]];
    IdentityLeft(b, 2);
  }
}
