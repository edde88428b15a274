/** The CPython mixed workload (src/mixed_test.py): Fibonacci by recursion
    with a memo dictionary that the recursion fills in place.
    src/pypy_mixed_test.py holds the same fibonacci_memoized. */
module MixedTest {
  import opened Common
  import opened Fibonacci

  /** The memo dictionary shared by one tree of recursive calls. */
  class Memo {
    var table: map<int, int>

    /** Every key is a natural number and every stored entry is the
        Fibonacci number of its key. */
    ghost predicate Valid()
      reads this
    {
      && (forall k :: k in table ==> k >= 0)
      && (forall k :: k in table && k >= 0 ==> table[k] == Fib(k))
    }

    /** A fresh, empty dictionary ({}). */
    constructor ()
      ensures table == map[] && Valid()
    {
      table := map[];
    }
  }

  /** fibonacci_memoized(n, memo=None): with no memo, start from an empty
      one; a stored entry is returned without recursing; n <= 1 gives n;
      otherwise the sum of the results for n - 1 and n - 2, both computed with the
      same memo, is stored under n and returned.
      Only correct entries are ever stored, and the call adds entries for
      keys in [2, n] only. */
  method FibonacciMemoized(n: int, memo: Memo?) returns (r: int)
    requires memo != null ==> memo.Valid()
    modifies memo
    ensures memo != null ==> memo.Valid()
    ensures n <= 1 ==> r == n
    ensures n >= 0 ==> r == Fib(n)
    ensures memo != null && n in old(memo.table) ==> r == old(memo.table)[n] && memo.table == old(memo.table)
    ensures memo != null ==> forall k :: k in old(memo.table) ==> k in memo.table && memo.table[k] == old(memo.table)[k]
    ensures memo != null ==> forall k :: k in memo.table && k !in old(memo.table) ==> 2 <= k <= n
    ensures memo != null && n >= 2 ==> n in memo.table
    decreases n
  {
    var m: Memo;
    if memo == null {
      m := new Memo();
    } else {
      m := memo;
    }
    if n in m.table {
      return m.table[n];
    }
    if n <= 1 {
      return n;
    }
    var x := FibonacciMemoized(n - 1, m);
    var y := FibonacciMemoized(n - 2, m);
    m.table := m.table[n := x + y];
    return m.table[n];
  }

  /** run_mixed_test(n): the Fibonacci numbers of 0, 1, ..., n - 1, in order; each
      call starts with a fresh memo. */
  method RunMixedTest(n: int) returns (r: seq<int>)
    ensures |r| == Max0(n)
    ensures forall i :: 0 <= i < |r| ==> r[i] == Fib(i)
    ensures n == 6 ==> r == [0, 1, 1, 2, 3, 5]
  {
    r := [];
    var i := 0;
    while i < n
      invariant 0 <= i <= Max0(n)
      invariant |r| == i
      invariant forall k :: 0 <= k < i ==> r[k] == Fib(k)
    {
      var f := FibonacciMemoized(i, null);
      r := r + [f];
      i := i + 1;
    }
  }
}
