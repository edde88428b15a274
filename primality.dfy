/** The mathematical side of the prime-number workloads: divisibility,
    primality, the integer square root that bounds trial division, and the
    list of primes up to a limit that every prime-listing kernel returns. */
module Primality {

  /** d divides n (zero divides nothing). */
  predicate Divides(d: int, n: int) {
    d != 0 && n % d == 0
  }

  /** No d with lo <= d < hi divides n. */
  ghost predicate NoDivisorIn(n: int, lo: int, hi: int) {
    forall d :: lo <= d < hi ==> !Divides(d, n)
  }

  /** n is prime: at least 2 and without a divisor strictly between 1 and n. */
  ghost predicate IsPrime(n: int) {
    n >= 2 && NoDivisorIn(n, 2, n)
  }

  /** Integer square root. The kernels bound their loops by int(n ** 0.5) or
      int(np.sqrt(n)); this is the exact integer reading of that bound. */
  function Isqrt(n: nat): (r: nat)
    ensures r * r <= n < (r + 1) * (r + 1)
  {
    if n == 0 then 0
    else
      var s := Isqrt(n - 1);
      if (s + 1) * (s + 1) <= n then
        assert (s + 2) * (s + 2) == (s + 1) * (s + 1) + 2 * s + 3;
        s + 1
      else s
  }

  /** The primes p with 2 <= p <= limit, in increasing order. */
  ghost function PrimesUpTo(limit: int): (r: seq<int>)
    ensures limit < 2 ==> r == []
    decreases limit
  {
    if limit < 2 then []
    else PrimesUpTo(limit - 1) + (if IsPrime(limit) then [limit] else [])
  }

  ghost predicate StrictlyIncreasing(s: seq<int>) {
    forall i, j :: 0 <= i < j < |s| ==> s[i] < s[j]
  }

  /** PrimesUpTo(limit) is strictly increasing and holds exactly the primes in [2, limit]. */
  lemma {:induction false} PrimesUpToSpec(limit: int)
    ensures StrictlyIncreasing(PrimesUpTo(limit))
    ensures forall p :: p in PrimesUpTo(limit) <==> 2 <= p <= limit && IsPrime(p)
    decreases limit
  {
    if limit >= 2 {
      PrimesUpToSpec(limit - 1);
      var s := PrimesUpTo(limit - 1);
      assert forall k :: 0 <= k < |s| ==> s[k] < limit by {
        forall k | 0 <= k < |s| ensures s[k] < limit { assert s[k] in s; }
      }
    }
  }

  // ---- arithmetic facts about divisibility ----

  /** Sign facts about m * k for positive m. */
  lemma MulBounds(m: int, k: int)
    requires m > 0
    ensures k >= 1 ==> m * k >= m
    ensures k <= 0 ==> m * k <= 0
    ensures k <= -1 ==> m * k <= -m
  {
  }

  /** Euclidean division is unique: y == s * q + r with 0 <= r < s gives y % s == r. */
  lemma ModUnique(y: int, s: int, q: int, r: int)
    requires s > 0 && y == s * q + r && 0 <= r < s
    ensures y % s == r
  {
    var q' := y / s;
    assert s * (q - q') == y % s - r;
    MulBounds(s, q - q');
  }

  lemma MulMod(m: int, x: int)
    requires m > 0
    ensures (m * x) % m == 0
  {
    var q := (m * x) / m;
    var r := (m * x) % m;
    assert m * x == m * q + r;
    assert m * (x - q) == r;
    MulBounds(m, x - q);
  }

  /** Divisibility is transitive (positive divisors): a multiple of m divides only multiples of m. */
  lemma DividesTransitive(m: int, d: int, n: int)
    requires m > 0 && d > 0 && Divides(m, d)
    ensures Divides(d, n) ==> Divides(m, n)
  {
    if Divides(d, n) {
      var p := d / m;
      var q := n / d;
      assert d == m * p;
      assert n == d * q;
      assert n == m * (p * q);
      MulMod(m, p * q);
    }
  }

  /** A product of two factors at least i is at least i * i. */
  lemma MulMonotone(d: int, e: int, i: int)
    requires 0 <= i <= d && i <= e
    ensures i * i <= d * e
  {
    assert i * i <= i * e;
    assert i * e <= d * e;
  }

  /** If d divides n with 2 <= d < n, the co-divisor n / d also divides n and is
      at least 2; when d is at least i and i * i exceeds n, it lies below i. */
  lemma CoDivisor(n: int, d: int, i: int)
    requires 2 <= d < n && 2 <= i <= d && n < i * i
    ensures Divides(d, n) ==> 2 <= n / d < i && Divides(n / d, n)
  {
    if Divides(d, n) {
      var e := n / d;
      assert n == d * e;
      MulBounds(d, e - 1);
      assert d * (e - 1) == n - d;
      MulMod(e, d);
      assert e * d == n;
      if e >= i {
        MulMonotone(d, e, i);
      }
    }
  }

  /** Trial division up to the square root decides primality: when no d in
      [2, i) divides n and i * i > n, then n is prime. */
  lemma PrimeBySqrt(n: int, i: int)
    requires n >= 2 && i >= 2 && n < i * i
    requires NoDivisorIn(n, 2, i)
    ensures IsPrime(n)
  {
    forall d | 2 <= d < n
      ensures !Divides(d, n)
    {
      if d >= i {
        CoDivisor(n, d, i);
      }
    }
  }

  /** A divisor d with 2 <= d and d * d <= n is a proper divisor of n. */
  lemma SmallDivisorIsProper(n: int, d: int)
    requires 2 <= d && d * d <= n
    ensures d < n
  {
    assert d * 2 <= d * d;
  }

  /** n is prime exactly when no d >= 2 with d * d <= n divides it. */
  lemma PrimeIffNoSmallDivisor(n: int)
    requires n >= 2
    ensures IsPrime(n) <==> forall d :: 2 <= d && d * d <= n ==> !Divides(d, n)
  {
    var r := Isqrt(n);
    if IsPrime(n) {
      forall d | 2 <= d && d * d <= n
        ensures !Divides(d, n)
      {
        SmallDivisorIsProper(n, d);
      }
    }
    if forall d :: 2 <= d && d * d <= n ==> !Divides(d, n) {
      forall d | 2 <= d < r + 1
        ensures !Divides(d, n)
      {
        MulMonotone(r, r, d);
      }
      PrimeBySqrt(n, r + 1);
    }
  }

  /** The primes up to 10. */
  lemma PrimesUpToTen()
    ensures PrimesUpTo(10) == [2, 3, 5, 7]
  {
    assert IsPrime(2);
    assert IsPrime(3);
    assert !IsPrime(4) by { assert Divides(2, 4); }
    assert IsPrime(5) by { PrimeBySqrt(5, 3); }
    assert !IsPrime(6) by { assert Divides(2, 6); }
    assert IsPrime(7) by { PrimeBySqrt(7, 3); }
    assert !IsPrime(8) by { assert Divides(2, 8); }
    assert !IsPrime(9) by { assert Divides(3, 9); }
    assert !IsPrime(10) by { assert Divides(2, 10); }
  }
}
