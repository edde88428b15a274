/** The NumPy prime workload: a Sieve of Eratosthenes over a boolean array
    that is cleared in place (src/numpy/cpu_test_numpy.py). */
module CpuTestNumpy {
  import opened Primality

  /** Cell k is still set after sieving with every i' < i: k >= 2 and no d in
      [2, i) with d * d <= k divides k. */
  ghost predicate Survives(k: int, i: int) {
    k >= 2 && forall d :: 2 <= d < i && d * d <= k ==> !Divides(d, k)
  }

  /** Between two consecutive multiples j and j + i of i there is no other multiple. */
  lemma NextMultiple(i: int, j: int)
    requires i > 0 && Divides(i, j)
    ensures Divides(i, j + i)
    ensures forall k :: j < k < j + i ==> !Divides(i, k)
  {
    var q := j / i;
    assert j == i * q;
    ModUnique(j + i, i, q + 1, 0);
    forall k | j < k < j + i
      ensures !Divides(i, k)
    {
      ModUnique(k, i, q, k - j);
    }
  }

  /** Every cell the marking step for i clears is composite: i divides it and 2 <= i < i * i <= k. */
  lemma ClearedIsComposite(i: int, k: int)
    requires i >= 2
    ensures i * i <= k && Divides(i, k) ==> !IsPrime(k)
  {
    MulBounds(i, i - 1);
  }

  /** The marking step for i: clears every cell from i * i upward whose index is
      a multiple of i, and no other; in particular no prime cell is cleared. */
  method ClearMultiples(sieve: array<bool>, i: int)
    requires i >= 2
    modifies sieve
    ensures forall k :: 0 <= k < sieve.Length ==>
              sieve[k] == (old(sieve[k]) && !(i * i <= k && Divides(i, k)))
    ensures forall k :: 0 <= k < sieve.Length && IsPrime(k) ==> sieve[k] == old(sieve[k])
  {
    var j := i * i;
    MulMod(i, i);
    while j < sieve.Length
      invariant i * i <= j && Divides(i, j)
      invariant forall k :: 0 <= k < sieve.Length ==>
                  sieve[k] == (old(sieve[k]) && !(i * i <= k < j && Divides(i, k)))
      decreases sieve.Length - j
    {
      sieve[j] := false;
      NextMultiple(i, j);
      j := j + i;
    }
    forall k | 0 <= k < sieve.Length
      ensures IsPrime(k) ==> sieve[k] == old(sieve[k])
    {
      ClearedIsComposite(i, k);
    }
  }

  /** When i < k has a divisor d >= 2 with d * d <= i, the multiples of i from
      i * i on were already cleared by d: sieving with i changes nothing. */
  lemma CompositeStepIsIdle(k: int, i: int, d: int)
    requires 2 <= d < i && d * d <= i && Divides(d, i)
    ensures Survives(k, i + 1) <==> Survives(k, i)
  {
    if Survives(k, i) && i * i <= k {
      DividesTransitive(d, i, k);
      MulBounds(i, i - 1);
    }
  }

  /** A d with d * d <= k <= n is at most the integer square root of n. */
  lemma SquareBelowBound(d: int, k: int, n: nat)
    requires d >= 0 && k <= n
    ensures d * d <= k ==> d <= Isqrt(n)
  {
    if d > Isqrt(n) {
      MulMonotone(d, d, Isqrt(n) + 1);
    }
  }

  /** After sieving with every i up to the square root of n, exactly the primes survive. */
  lemma FinalSurvivors(k: int, n: nat)
    requires 0 <= k <= n
    ensures Survives(k, Isqrt(n) + 1) <==> IsPrime(k)
  {
    if k >= 2 {
      PrimeIffNoSmallDivisor(k);
      forall d | 2 <= d
        ensures d * d <= k ==> d < Isqrt(n) + 1
      {
        SquareBelowBound(d, k, n);
      }
    }
  }

  /** is_prime_array(n): an empty array below 2, otherwise the sieve of length
      n + 1 whose cell k is set exactly when k is prime. */
  method IsPrimeArray(n: int) returns (sieve: array<bool>)
    ensures fresh(sieve)
    ensures n < 2 ==> sieve.Length == 0
    ensures n >= 2 ==> sieve.Length == n + 1 && !sieve[0] && !sieve[1]
    ensures forall k :: 0 <= k < sieve.Length ==> (sieve[k] <==> IsPrime(k))
  {
    if n < 2 {
      sieve := new bool[0];
      return;
    }
    sieve := new bool[n + 1](_ => true);
    sieve[0], sieve[1] := false, false;
    var root := Isqrt(n);
    for i := 2 to root + 1
      invariant sieve.Length == n + 1
      invariant forall k :: 0 <= k < sieve.Length ==> (sieve[k] <==> Survives(k, i))
    {
      MulMonotone(i, i, 1);
      MulMonotone(root, root, i);
      if sieve[i] {
        ClearMultiples(sieve, i);
      } else {
        var d :| 2 <= d < i && d * d <= i && Divides(d, i);
        forall k | 0 <= k < sieve.Length
          ensures Survives(k, i + 1) <==> Survives(k, i)
        {
          CompositeStepIsIdle(k, i, d);
        }
      }
    }
    forall k | 0 <= k < sieve.Length
      ensures Survives(k, root + 1) <==> IsPrime(k)
    {
      FinalSurvivors(k, n);
    }
  }

  /** calculate_primes(limit): the indices of the set cells of is_prime_array(limit), in order. */
  method CalculatePrimes(limit: int) returns (r: seq<int>)
    ensures r == PrimesUpTo(limit)
    ensures StrictlyIncreasing(r)
    ensures forall p :: p in r <==> 2 <= p <= limit && IsPrime(p)
  {
    var sieve := IsPrimeArray(limit);
    r := [];
    for k := 0 to sieve.Length
      invariant r == PrimesUpTo(k - 1)
    {
      if sieve[k] {
        r := r + [k];
      }
    }
    PrimesUpToSpec(limit);
  }

  /** run_cpu_test(limit) returns calculate_primes(limit). */
  method RunCpuTest(limit: int) returns (r: seq<int>)
    ensures r == PrimesUpTo(limit)
    ensures limit == 10 ==> r == [2, 3, 5, 7]
  {
    r := CalculatePrimes(limit);
    PrimesUpToTen();
  }
}
