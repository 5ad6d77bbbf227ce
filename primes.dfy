/**
 * Divisibility, primality, the greatest common divisor and the modular inverse:
 * the mathematical meaning of GMP's mpz_gcdext, mpz_invert and mpz_nextprime.
 */
module Primes {
  import opened Wrappers
  import opened Arithmetic

  /** d is a positive divisor of n. */
  predicate Divides(d: nat, n: int) {
    d > 0 && n % d == 0
  }

  predicate IsPrime(n: nat) {
    n >= 2 && forall k :: 2 <= k < n ==> !Divides(k, n)
  }

  lemma PrimeHasNoSmallFactor(p: nat, k: nat)
    requires IsPrime(p) && 2 <= k < p
    ensures p % k != 0
  {
    assert !Divides(k, p);
  }

  /** A positive multiple of d is at least d. */
  lemma DivisorIsSmaller(d: nat, n: nat)
    requires d > 0 && n > 0 && n % d == 0
    ensures d <= n
  {
    MultipleIsProduct(n, d);
    var t := n / d;
    assert n == d * t;
    if t > 0 {
      MulLeftMonotone(d, 1, t);
    }
  }

  /** Multiples of g are closed under integer linear combinations. */
  lemma DivisibleCombination(x: int, y: int, g: int, c: int, c': int)
    requires g > 0 && x % g == 0 && y % g == 0
    ensures (x * c + y * c') % g == 0
  {
    var s, t := x / g, y / g;
    assert x == g * s && y == g * t;
    assert x * c + y * c' == g * (s * c + t * c');
    MultipleMod(s * c + t * c', g);
  }

  lemma DivisibleTransitive(k: nat, d: nat, n: int)
    requires k > 0 && d > 0 && d % k == 0 && n % d == 0
    ensures n % k == 0
  {
    var s := n / d;
    assert n == d * s;
    DivisibleCombination(d, 0, k, s, 0);
  }

  // ---------------------------------------------------------------------
  // Greatest common divisor and the extended Euclidean algorithm
  // ---------------------------------------------------------------------

  function Gcd(a: nat, b: nat): nat
    decreases b
  {
    if b == 0 then a else Gcd(b, a % b)
  }

  /** Gcd(a, b) is a positive common divisor of a and b. */
  lemma {:induction false} GcdDivides(a: nat, b: nat)
    requires a > 0 || b > 0
    ensures Gcd(a, b) > 0 && a % Gcd(a, b) == 0 && b % Gcd(a, b) == 0
    decreases b
  {
    if b > 0 {
      GcdDivides(b, a % b);
      var g := Gcd(b, a % b);
      assert a == b * (a / b) + (a % b);
      DivisibleCombination(b, a % b, g, a / b, 1);
    }
  }

  /**
   * The extended Euclidean algorithm: the gcd and a Bezout pair x and y with
   * a * x + b * y == gcd (not necessarily GMP's normalised cofactors).
   */
  function ExtGcd(a: nat, b: nat): (r: (nat, int, int))
    decreases b
    ensures r.0 == Gcd(a, b)
    ensures a * r.1 + b * r.2 == r.0
  {
    if b == 0 then (a, 1, 0)
    else
      var (g, x, y) := ExtGcd(b, a % b);
      assert a == b * (a / b) + a % b;
      assert a * y + b * (x - (a / b) * y) == b * x + (a % b) * y;
      (g, y, x - (a / b) * y)
  }

  /**
   * mpz_invert(rop, a, m): the inverse of a modulo m, or None where GMP
   * returns zero because a and m are not coprime.
   */
  function ModInverse(a: nat, m: nat): (r: Option<nat>)
    requires m > 1
    ensures r.Some? <==> Gcd(a, m) == 1
    ensures r.Some? ==> r.value < m && (a * r.value) % m == 1
  {
    var (g, x, y) := ExtGcd(a, m);
    if g == 1 then
      ModAddMultiple(a * x, y, m);
      SmallMod(1, m);
      MulMod(a, x, m);
      MulMod(a, x % m, m);
      ModOfMod(x, m);
      Some(x % m)
    else None
  }

  /** Where mpz_invert fails, no inverse exists at all. */
  lemma NoInverseUnlessCoprime(a: nat, m: nat, d: nat)
    requires m > 1 && ModInverse(a, m).None?
    ensures (a * d) % m != 1
  {
    GcdDivides(a, m);
    var g := Gcd(a, m);
    DivisorIsSmaller(g, m);
    if (a * d) % m == 1 {
      var k := (a * d) / m;
      assert a * d == m * k + 1;
      DivisibleCombination(a, m, g, d, -k);
      assert a * d + m * (-k) == 1;
      DivisorIsSmaller(g, 1);
    }
  }

  // ---------------------------------------------------------------------
  // Euclid's lemma
  // ---------------------------------------------------------------------

  /** The gcd of a prime and a number it does not divide is 1. */
  lemma {:induction false} PrimeCoprime(p: nat, r: nat)
    requires IsPrime(p) && 0 < r < p
    ensures Gcd(p, r) == 1
  {
    GcdDivides(p, r);
    var g := Gcd(p, r);
    DivisorIsSmaller(g, r);
    if g != 1 {
      PrimeHasNoSmallFactor(p, g);
    }
  }

  /** A prime that divides a product divides one of its factors. */
  lemma {:induction false} EuclidLemma(p: nat, a: int, b: int)
    requires IsPrime(p) && (a * b) % p == 0
    ensures a % p == 0 || b % p == 0
  {
    var r := a % p;
    if r != 0 {
      PrimeCoprime(p, r);
      var (g, x, y) := ExtGcd(p, r);
      assert p * x + r * y == 1;
      MulModLeft(a, b, p);
      assert (r * b) % p == 0;
      assert p % p == 0;
      DivisibleCombination(p, r * b, p, b * x, y);
      BezoutScale(p, r, b, x, y);
    }
  }

  /** Scaling a Bezout identity p*x + r*y == 1 by b. */
  lemma BezoutScale(p: int, r: int, b: int, x: int, y: int)
    requires p * x + r * y == 1
    ensures p * (b * x) + (r * b) * y == b
  {
    assert p * (b * x) + (r * b) * y == b * (p * x + r * y);
  }

  /** Two distinct primes that both divide z: their product divides z. */
  lemma DistinctPrimesDivide(p: nat, q: nat, z: int)
    requires IsPrime(p) && IsPrime(q) && p != q
    requires z % p == 0 && z % q == 0
    ensures z % (p * q) == 0
  {
    var s := z / p;
    assert z == p * s;
    EuclidLemma(q, p, s);
    if p % q == 0 {
      DivisorIsSmaller(q, p);
      PrimeHasNoSmallFactor(p, q);
    }
    var t := s / q;
    assert s == q * t;
    assert z == (p * q) * t;
    MultipleMod(t, p * q);
  }

  // ---------------------------------------------------------------------
  // The next prime: there is always one, so the search of mpz_nextprime ends
  // ---------------------------------------------------------------------

  function Factorial(n: nat): (r: nat)
    ensures r >= 1
  {
    if n == 0 then 1 else n * Factorial(n - 1)
  }

  lemma {:induction false} FactorialDivisible(n: nat, k: nat)
    requires 1 <= k <= n
    ensures Factorial(n) % k == 0
  {
    if k == n {
      MultipleMod(Factorial(n - 1), n);
    } else {
      FactorialDivisible(n - 1, k);
      DivisibleCombination(Factorial(n - 1), 0, k, n, 0);
      assert Factorial(n) == Factorial(n - 1) * n;
    }
  }

  /** The least divisor of n that is at least k. */
  function LeastDivisorFrom(n: nat, k: nat): (d: nat)
    requires 2 <= k <= n
    decreases n - k
    ensures k <= d <= n && n % d == 0
    ensures forall j :: k <= j < d ==> !Divides(j, n)
  {
    if n % k == 0 then k else LeastDivisorFrom(n, k + 1)
  }

  /** The least divisor above 1 of a number is prime. */
  lemma LeastDivisorIsPrime(n: nat)
    requires n >= 2
    ensures IsPrime(LeastDivisorFrom(n, 2))
  {
    var d := LeastDivisorFrom(n, 2);
    forall k | 2 <= k < d
      ensures !Divides(k, d)
    {
      assert !Divides(k, n);
      if d % k == 0 {
        DivisibleTransitive(k, d, n);
      }
    }
  }

  /** Euclid: a prime factor of x! + 1 exceeds x. */
  lemma PrimeAbove(x: nat)
    ensures exists p :: x < p <= Factorial(x) + 1 && IsPrime(p)
  {
    var n := Factorial(x) + 1;
    var p := LeastDivisorFrom(n, 2);
    LeastDivisorIsPrime(n);
    if p <= x {
      FactorialDivisible(x, p);
      CongruentIffDifference(n, Factorial(x), p);
      assert n - Factorial(x) == 1;
      SmallMod(1, p);
    }
  }

  function NextPrimeFrom(x: nat, c: nat): (p: nat)
    requires x < c
    requires exists p :: c <= p <= Factorial(x) + 1 && IsPrime(p)
    requires forall y :: x < y < c ==> !IsPrime(y)
    decreases Factorial(x) + 1 - c
    ensures IsPrime(p) && c <= p
    ensures forall y :: x < y < p ==> !IsPrime(y)
  {
    if IsPrime(c) then c else NextPrimeFrom(x, c + 1)
  }

  /** mpz_nextprime(rop, x): the least prime greater than x. */
  function NextPrime(x: nat): (p: nat)
    ensures IsPrime(p) && x < p
    ensures forall y :: x < y < p ==> !IsPrime(y)
  {
    PrimeAbove(x);
    NextPrimeFrom(x, x + 1)
  }
}
