/** The pure-Python mixed workload (src/pure/mixed_test_python.py): an
    iterative Fibonacci and the list of the first n Fibonacci numbers. */
module MixedTestPython {
  import opened Common
  import opened Fibonacci

  /** fibonacci_memoized(n, memo=None): n itself for n <= 1, otherwise the
      loop that shifts the pair of the last two values forward for 2, ..., n. The memo
      argument is accepted and never read, so the result depends on n alone. */
  method FibonacciMemoized(n: int, memo: Option<map<int, int>>) returns (r: int)
    ensures n <= 1 ==> r == n
    ensures n >= 0 ==> r == Fib(n)
  {
    if n <= 1 {
      return n;
    }
    var a, b := 0, 1;
    for k := 2 to n + 1
      invariant a == Fib(k - 2) && b == Fib(k - 1)
    {
      a, b := b, a + b;
    }
    return b;
  }

  /** run_mixed_test(n): the Fibonacci numbers of 0, 1, ..., n - 1, one call each, in order. */
  method RunMixedTest(n: int) returns (r: seq<int>)
    ensures |r| == Max0(n)
    ensures forall i :: 0 <= i < |r| ==> r[i] == Fib(i)
    ensures forall i :: 0 <= i < |r| - 2 ==> r[i + 2] == r[i] + r[i + 1]
    ensures n == 6 ==> r == [0, 1, 1, 2, 3, 5]
  {
    r := [];
    var i := 0;
    while i < n
      invariant 0 <= i <= Max0(n)
      invariant |r| == i
      invariant forall k :: 0 <= k < i ==> r[k] == Fib(k)
    {
      var f := FibonacciMemoized(i, None);
      r := r + [f];
      i := i + 1;
    }
  }
}
