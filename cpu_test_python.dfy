/** The pure-Python prime workload: a 6k +/- 1 primality test and the list
    of primes it selects up to a limit (src/pure/cpu_test_python.py). */
module CpuTestPython {
  import opened Primality

  /** Every candidate divisor from i to i + 5 other than i and i + 2 is a
      multiple of 2 or of 3, so once n is odd, not a multiple of 3 and not
      divisible by i or i + 2, it has no divisor below i + 6 either. */
  lemma SixStep(n: int, i: int)
    requires i >= 5 && i % 6 == 5
    requires !Divides(2, n) && !Divides(3, n)
    requires !Divides(i, n) && !Divides(i + 2, n)
    requires NoDivisorIn(n, 2, i)
    ensures NoDivisorIn(n, 2, i + 6)
  {
    forall d | 2 <= d < i + 6
      ensures !Divides(d, n)
    {
      if d == i + 1 || d == i + 3 || d == i + 5 {
        DividesTransitive(2, d, n);
      } else if d == i + 4 {
        DividesTransitive(3, d, n);
      }
    }
  }

  /** Neither 4 nor any other number below 5 divides an n that 2 and 3 do not divide. */
  lemma NoDivisorBelowFive(n: int)
    requires !Divides(2, n) && !Divides(3, n)
    ensures NoDivisorIn(n, 2, 5)
  {
    DividesTransitive(2, 4, n);
  }

  /** For i >= 5, both candidates i and i + 2 lie below i * i. */
  lemma CandidatesBelowSquare(i: int)
    requires i >= 5
    ensures i + 2 < i * i
  {
    MulBounds(i, i - 5);
  }

  /** is_prime(n): small cases, then the multiples of 2 and 3, then the
      candidates i and i + 2 for i = 5, 11, 17, ... while i * i <= n. */
  method IsPrime(n: int) returns (b: bool)
    ensures b <==> Primality.IsPrime(n)
    ensures n <= 3 ==> (b <==> n > 1)
    ensures n > 3 && (n % 2 == 0 || n % 3 == 0) ==> !b
  {
    if n <= 3 {
      return n > 1;
    }
    if n % 2 == 0 || n % 3 == 0 {
      assert Divides(2, n) || Divides(3, n);
      return false;
    }
    NoDivisorBelowFive(n);
    var i := 5;
    while i * i <= n
      invariant i >= 5 && i % 6 == 5
      invariant NoDivisorIn(n, 2, i)
      decreases n - i
    {
      CandidatesBelowSquare(i);
      if n % i == 0 || n % (i + 2) == 0 {
        assert Divides(i, n) || Divides(i + 2, n);
        return false;
      }
      SixStep(n, i);
      i := i + 6;
    }
    PrimeBySqrt(n, i);
    return true;
  }

  /** calculate_primes(limit): the numbers in [2, limit] that IsPrime accepts, in increasing order. */
  method CalculatePrimes(limit: int) returns (r: seq<int>)
    ensures r == PrimesUpTo(limit)
    ensures StrictlyIncreasing(r)
    ensures forall p :: p in r <==> 2 <= p <= limit && Primality.IsPrime(p)
    ensures limit < 2 ==> r == []
  {
    r := [];
    var num := 2;
    while num <= limit
      invariant 2 <= num && (num <= limit + 1 || num == 2)
      invariant r == PrimesUpTo(num - 1)
    {
      var b := IsPrime(num);
      if b {
        r := r + [num];
      }
      num := num + 1;
    }
    PrimesUpToSpec(limit);
  }

  /** run_cpu_test(limit) returns calculate_primes(limit). */
  method RunCpuTest(limit: int) returns (r: seq<int>)
    ensures r == PrimesUpTo(limit)
    ensures limit == 10 ==> r == [2, 3, 5, 7]
  {
    r := CalculatePrimes(limit);
    PrimesUpToTen();
  }
}
