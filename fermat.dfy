/**
 * Why textbook RSA decrypts what it encrypts: Fermat's little theorem, proved
 * from the binomial theorem, and the Chinese remainder step for two distinct
 * primes.
 */
module Fermat {
  import opened Arithmetic
  import opened Primes

  /** The binomial coefficient "n choose k", by Pascal's rule. */
  function Binom(n: nat, k: nat): nat {
    if k == 0 then 1 else if n == 0 then 0 else Binom(n - 1, k - 1) + Binom(n - 1, k)
  }

  lemma {:induction false} BinomAbove(n: nat, k: nat)
    requires k > n
    ensures Binom(n, k) == 0
  {
    if n > 0 {
      BinomAbove(n - 1, k - 1);
      BinomAbove(n - 1, k);
    }
  }

  lemma {:induction false} BinomSelf(n: nat)
    ensures Binom(n, n) == 1
  {
    if n > 0 {
      BinomSelf(n - 1);
      BinomAbove(n - 1, n);
    }
  }

  lemma BinomOne(n: nat)
    ensures Binom(n, 1) == n
  {
    if n > 0 {
      BinomOne(n - 1);
    }
  }

  /** The absorption identity k * C(n, k) == n * C(n - 1, k - 1). */
  lemma {:induction false} Absorption(n: nat, k: nat)
    requires n >= 1 && k >= 1
    ensures k * Binom(n, k) == n * Binom(n - 1, k - 1)
  {
    if n == 1 {
      if k > 1 {
        BinomAbove(1, k);
        BinomAbove(0, k - 1);
      }
    } else if k == 1 {
      BinomOne(n);
    } else {
      Absorption(n - 1, k);
      Absorption(n - 1, k - 1);
      var b1, b2 := Binom(n - 1, k - 1), Binom(n - 1, k);
      assert Binom(n, k) == b1 + b2;
      AbsorptionArith(n, k, b1, b2, Binom(n - 2, k - 2), Binom(n - 2, k - 1));
    }
  }

  /** The ring step of Absorption, over plain numbers. */
  lemma AbsorptionArith(n: int, k: int, b1: int, b2: int, c1: int, c2: int)
    requires k * b2 == (n - 1) * c2 && (k - 1) * b1 == (n - 1) * c1 && b1 == c1 + c2
    ensures k * (b1 + b2) == n * b1
  {
    calc {
      k * (b1 + b2);
      (k - 1) * b1 + b1 + k * b2;
      (n - 1) * c1 + b1 + (n - 1) * c2;
      (n - 1) * (c1 + c2) + b1;
      n * b1;
    }
  }

  /** A prime p divides C(p, k) for 0 < k < p. */
  lemma PrimeDividesBinom(p: nat, k: nat)
    requires IsPrime(p) && 0 < k < p
    ensures Binom(p, k) % p == 0
  {
    Absorption(p, k);
    MultipleMod(Binom(p - 1, k - 1), p);
    EuclidLemma(p, k, Binom(p, k));
    SmallMod(k, p);
  }

  /** The partial binomial sum C(n, 0) + C(n, 1)*a + ... + C(n, m)*a^m. */
  function BinomSum(n: nat, a: nat, m: nat): nat {
    if m == 0 then 1 else BinomSum(n, a, m - 1) + Binom(n, m) * Pow(a, m)
  }

  lemma {:induction false} BinomSumPascal(n: nat, a: nat, m: nat)
    requires m >= 1
    ensures BinomSum(n + 1, a, m) == BinomSum(n, a, m) + a * BinomSum(n, a, m - 1)
  {
    var c, c' := Binom(n, m - 1), Binom(n, m);
    var x := Pow(a, m - 1);
    assert Binom(n + 1, m) == c + c';
    assert Pow(a, m) == a * x;
    if m == 1 {
      assert x == 1;
      assert BinomSum(n + 1, a, 1) == 1 + (c + c') * a;
    } else {
      BinomSumPascal(n, a, m - 1);
      PascalArith(a, c, c', x, BinomSum(n, a, m - 1), BinomSum(n, a, m - 2));
    }
  }

  /** The ring identity behind one step of BinomSumPascal. */
  lemma PascalArith(a: int, c: int, c': int, x: int, s1: int, s2: int)
    ensures (s1 + a * s2) + (c + c') * (a * x) == (s1 + c' * (a * x)) + a * (s2 + c * x)
  {
  }

  lemma {:induction false} BinomSumBeyond(n: nat, a: nat, m: nat)
    requires m >= n
    ensures BinomSum(n, a, m) == BinomSum(n, a, n)
  {
    if m > n {
      BinomSumBeyond(n, a, m - 1);
      BinomAbove(n, m);
    }
  }

  /** The binomial theorem for (a + 1)^n. */
  lemma {:induction false} BinomialTheorem(n: nat, a: nat)
    ensures Pow(a + 1, n) == BinomSum(n, a, n)
  {
    if n > 0 {
      BinomialTheorem(n - 1, a);
      BinomSumPascal(n - 1, a, n);
      BinomSumBeyond(n - 1, a, n);
      var s, q := BinomSum(n - 1, a, n - 1), Pow(a + 1, n - 1);
      assert Pow(a + 1, n) == (a + 1) * q;
      assert q == s;
      SuccTimes(a, s);
      assert BinomSum(n, a, n) == s + a * s;
    }
  }

  lemma SuccTimes(a: int, s: int)
    ensures (a + 1) * s == s + a * s
  {
  }

  /** Below k = p, every term but the first of the sum for (a + 1)^p is a multiple of p. */
  lemma {:induction false} BinomSumPrimeMiddle(p: nat, a: nat, m: nat)
    requires IsPrime(p) && m < p
    ensures BinomSum(p, a, m) % p == 1
  {
    if m == 0 {
      SmallMod(1, p);
    } else {
      BinomSumPrimeMiddle(p, a, m - 1);
      PrimeDividesBinom(p, m);
      DivisibleCombination(Binom(p, m), 0, p, Pow(a, m), 0);
      AddMod(BinomSum(p, a, m - 1), Binom(p, m) * Pow(a, m), p);
      SmallMod(1, p);
    }
  }

  /** (a + 1)^p == a^p + 1 modulo a prime p. */
  lemma FreshmansDream(p: nat, a: nat)
    requires IsPrime(p)
    ensures Pow(a + 1, p) % p == (Pow(a, p) + 1) % p
  {
    BinomialTheorem(p, a);
    BinomSumPrimeMiddle(p, a, p - 1);
    BinomSelf(p);
    assert BinomSum(p, a, p) == BinomSum(p, a, p - 1) + Pow(a, p);
    AddMod(BinomSum(p, a, p - 1), Pow(a, p), p);
    AddMod(1, Pow(a, p), p);
    SmallMod(1, p);
  }

  /** Fermat: a^p == a modulo a prime p. */
  lemma {:induction false} FermatPow(p: nat, a: nat)
    requires IsPrime(p)
    ensures Pow(a, p) % p == a % p
  {
    if a == 0 {
      PowOfZero(p);
    } else {
      FermatPow(p, a - 1);
      FreshmansDream(p, a - 1);
      AddMod(Pow(a - 1, p), 1, p);
      AddMod(a - 1, 1, p);
    }
  }

  /** Fermat's little theorem: a^(p-1) == 1 modulo p when p does not divide a. */
  lemma FermatLittle(p: nat, a: nat)
    requires IsPrime(p) && a % p != 0
    ensures Pow(a, p - 1) % p == 1
  {
    FermatPow(p, a);
    var x := Pow(a, p - 1);
    assert Pow(a, p) == a * x;
    CongruentIffDifference(a * x, a, p);
    assert a * x - a == a * (x - 1);
    EuclidLemma(p, a, x - 1);
    CongruentIffDifference(x, 1, p);
    SmallMod(1, p);
  }

  /** m^x == m modulo a prime p, for every m, whenever x == 1 modulo p - 1. */
  lemma RsaPrimeStep(p: nat, m: nat, x: nat)
    requires IsPrime(p) && x >= 1 && (x - 1) % (p - 1) == 0
    ensures Pow(m, x) % p == m % p
  {
    var t := (x - 1) / (p - 1);
    MultipleIsProduct(x - 1, p - 1);
    var e := (p - 1) * t;
    assert x == e + 1;
    PowSucc(m, e);
    if m % p != 0 {
      FermatPower(p, m, t);
    }
    ResidueTimes(m, Pow(m, e), p);
  }

  lemma PowSucc(b: nat, k: nat)
    ensures Pow(b, k + 1) == b * Pow(b, k)
  {
  }

  /** a*z == a modulo n when n divides a or z == 1 modulo n. */
  lemma ResidueTimes(a: nat, z: nat, n: nat)
    requires n > 0 && (a % n == 0 || z % n == 1)
    ensures (a * z) % n == a % n
  {
    if a % n == 0 {
      MulModLeft(a, z, n);
      assert (a % n) * z == 0;
    } else {
      MulByOneMod(a, z, n);
    }
  }

  /** m^((p-1)t) == 1 modulo p when p does not divide m. */
  lemma FermatPower(p: nat, m: nat, t: nat)
    requires IsPrime(p) && m % p != 0
    ensures Pow(m, (p - 1) * t) % p == 1
  {
    FermatLittle(p, m);
    var y := Pow(m, p - 1);
    PowMul(m, p - 1, t);
    PowMod(y, t, p);
    PowOfOne(t);
    SmallMod(1, p);
  }

  lemma MulByOneMod(a: int, x: int, n: int)
    requires n > 0 && x % n == 1
    ensures (a * x) % n == a % n
  {
    MulMod(a, x, n);
    ModOfMod(a, n);
  }

  /** Congruence modulo two distinct primes gives congruence modulo their product. */
  lemma ChineseRemainder(p: nat, q: nat, x: int, y: int)
    requires IsPrime(p) && IsPrime(q) && p != q
    requires x % p == y % p && x % q == y % q
    ensures x % (p * q) == y % (p * q)
  {
    CongruentIffDifference(x, y, p);
    CongruentIffDifference(x, y, q);
    DistinctPrimesDivide(p, q, x - y);
    CongruentIffDifference(x, y, p * q);
  }

  /**
   * The RSA identity: with n = p*q for distinct primes and e*d == 1 modulo
   * (p-1)*(q-1), (m^e mod n)^d mod n == m for every 0 <= m < n.
   */
  lemma RsaIdentity(p: nat, q: nat, e: nat, d: nat, m: nat)
    requires IsPrime(p) && IsPrime(q) && p != q
    requires (e * d) % ((p - 1) * (q - 1)) == 1
    requires m < p * q
    ensures Pow(Pow(m, e) % (p * q), d) % (p * q) == m
  {
    RsaExponent(p, q, e * d, m);
    PowMul(m, e, d);
    PowMod(Pow(m, e), d, p * q);
  }

  /** m^x == m modulo p*q whenever x == 1 modulo (p-1)*(q-1). */
  lemma RsaExponent(p: nat, q: nat, x: nat, m: nat)
    requires IsPrime(p) && IsPrime(q) && p != q
    requires x % ((p - 1) * (q - 1)) == 1
    requires m < p * q
    ensures Pow(m, x) % (p * q) == m
  {
    ExponentSplit(x, p - 1, q - 1);
    RsaPrimeStep(p, m, x);
    RsaPrimeStep(q, m, x);
    var y := Pow(m, x);
    ChineseRemainder(p, q, y, m);
    SmallMod(m, p * q);
  }

  /** x == 1 modulo a*b gives x == 1 modulo a and modulo b. */
  lemma ExponentSplit(x: nat, a: nat, b: nat)
    requires a > 0 && b > 0 && x % (a * b) == 1
    ensures x >= 1 && (x - 1) % a == 0 && (x - 1) % b == 0
  {
    var ab := a * b;
    SmallMod(1, ab);
    CongruentIffDifference(x, 1, ab);
    MultipleMod(b, a);
    assert a * b == b * a;
    MultipleMod(a, b);
    DivisibleTransitive(a, ab, x - 1);
    DivisibleTransitive(b, ab, x - 1);
  }
}
