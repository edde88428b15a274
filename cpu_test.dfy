/** The CPython prime workload: plain trial division up to the square root
    (src/cpu_test.py; src/pypy_cpu_test.py holds the same is_prime and
    calculate_primes, which PypyCpuTest reuses from here). */
module CpuTest {
  import opened Primality

  /** is_prime(n): false below 2, otherwise try every divisor from 2 up to the integer square root of n. */
  method IsPrime(n: int) returns (b: bool)
    ensures b <==> Primality.IsPrime(n)
    ensures n < 2 ==> !b
  {
    if n < 2 {
      return false;
    }
    var root := Isqrt(n);
    for i := 2 to root + 1
      invariant NoDivisorIn(n, 2, i)
    {
      if n % i == 0 {
        MulMonotone(root, root, i);
        SmallDivisorIsProper(n, i);
        assert Divides(i, n);
        return false;
      }
    }
    PrimeBySqrt(n, root + 1);
    return true;
  }

  /** calculate_primes(limit): the numbers in [2, limit] that IsPrime accepts, in increasing order. */
  method CalculatePrimes(limit: int) returns (r: seq<int>)
    ensures r == PrimesUpTo(limit)
    ensures StrictlyIncreasing(r)
    ensures forall p :: p in r <==> 2 <= p <= limit && Primality.IsPrime(p)
  {
    r := [];
    var num := 2;
    while num <= limit
      invariant 2 <= num && (num <= limit + 1 || num == 2)
      invariant r == PrimesUpTo(num - 1)
    {
      var b := IsPrime(num);
      if b {
        r := r + [num];
      }
      num := num + 1;
    }
    PrimesUpToSpec(limit);
  }

  /** run_cpu_test(limit) returns calculate_primes(limit). */
  method RunCpuTest(limit: int) returns (r: seq<int>)
    ensures r == PrimesUpTo(limit)
    ensures limit == 10 ==> r == [2, 3, 5, 7]
  {
    r := CalculatePrimes(limit);
    PrimesUpToTen();
  }
}
