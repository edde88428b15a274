/** The Fibonacci numbers that every mixed workload computes. */
module Fibonacci {

  /** Fib(0) == 0, Fib(1) == 1, Fib(n) == Fib(n - 1) + Fib(n - 2). */
  function Fib(n: nat): nat
    decreases n
  {
    if n < 2 then n else Fib(n - 1) + Fib(n - 2)
  }
}
