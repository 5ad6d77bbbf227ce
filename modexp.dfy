/**
 * mpz_powm(rop, base, exp, mod) for a positive modulus, as right-to-left
 * square and multiply: the step both encrypt_message and decrypt_message
 * perform on their numbers.
 */
module ModExp {
  import opened Arithmetic

  /** base^exp mod modulus, keeping every intermediate below the modulus. */
  method ModPow(base: nat, exp: nat, modulus: nat) returns (r: nat)
    requires modulus > 0
    ensures r < modulus
    ensures r == Pow(base, exp) % modulus
  {
    var x: nat, k: nat := base % modulus, exp;
    r := 1 % modulus;
    StartStep(base, exp, modulus);
    while k > 0
      invariant r < modulus && x < modulus
      invariant (r * Pow(x, k)) % modulus == Pow(base, exp) % modulus
      decreases k
    {
      if k % 2 == 1 {
        MultiplyStep(r, x, k, modulus);
        r := (r * x) % modulus;
        k := k - 1;
      }
      SquareStep(r, x, k, modulus);
      x := (x * x) % modulus;
      k := k / 2;
    }
    assert r * Pow(x, k) == r;
    SmallMod(r, modulus);
  }

  /** The loop starts from accumulator 1 and the base reduced modulo n. */
  lemma StartStep(b: nat, e: nat, n: nat)
    requires n > 0
    ensures ((1 % n) * Pow(b % n, e)) % n == Pow(b, e) % n
  {
    var p := Pow(b % n, e);
    PowMod(b, e, n);
    MulModLeft(1, p, n);
  }

  /** Taking one factor x into the accumulator leaves the product unchanged modulo n. */
  lemma MultiplyStep(r: nat, x: nat, k: nat, n: nat)
    requires n > 0 && k > 0
    ensures (r * Pow(x, k)) % n == (((r * x) % n) * Pow(x, k - 1)) % n
  {
    var p := Pow(x, k - 1);
    assert Pow(x, k) == x * p;
    assert r * (x * p) == (r * x) * p;
    MulModLeft(r * x, p, n);
  }

  /** For an even exponent, squaring the base modulo n and halving the exponent keeps the product. */
  lemma SquareStep(r: nat, x: nat, k: nat, n: nat)
    requires n > 0 && k % 2 == 0
    ensures (r * Pow(x, k)) % n == (r * Pow((x * x) % n, k / 2)) % n
  {
    assert k == 2 * (k / 2);
    PowSquare(x, k / 2);
    PowMod(x * x, k / 2, n);
    var a, b := Pow(x * x, k / 2), Pow((x * x) % n, k / 2);
    assert a % n == b % n;
    MulMod(r, a, n);
    MulMod(r, b, n);
  }
}
