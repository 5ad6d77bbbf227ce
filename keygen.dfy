/**
 * Key generation of rsa_lib.c: generate_random_prime (a random draw below
 * 2^bitSize followed by mpz_nextprime, repeated while the prime is too short),
 * the redraw of q until it differs from p, and the derivation of
 * n, phi, e and d in generate_rsa_keys.
 */
module KeyGen {
  import opened Wrappers
  import opened Arithmetic
  import opened Primes

  /** KEY_SIZE: the bit size of the modulus the program aims at. */
  const KeySize: nat := 1024

  /** The public exponent every key uses. */
  const PublicExponent: nat := 65537

  /** RSAKey: modulus n, public exponent e, private exponent d. */
  datatype RsaKey = RsaKey(n: nat, e: nat, d: nat)

  /** p is what one round of generate_random_prime can produce: the next prime after a number below 2^bitSize. */
  ghost predicate Drawable(p: nat, bitSize: nat) {
    exists r: nat :: r < Pow(2, bitSize) && p == NextPrime(r)
  }

  /**
   * One round of the do-while in generate_random_prime: mpz_urandomb draws
   * some number below 2^bitSize (the choice stands for the random state), and
   * mpz_nextprime replaces it by the least prime above it.
   */
  method DrawPrime(bitSize: nat) returns (p: nat)
    ensures IsPrime(p) && Drawable(p, bitSize)
  {
    var r: nat :| r < Pow(2, bitSize);
    p := NextPrime(r);
  }

  /**
   * generate_random_prime(prime, bitSize): draw until the prime has at least
   * bitSize bits. The C loop has no bound; here it gives up with None after
   * maxDraws rounds.
   */
  method GenerateRandomPrime(bitSize: nat, maxDraws: nat) returns (prime: Option<nat>)
    ensures prime.Some? ==> IsPrime(prime.value) && SizeInBase2(prime.value) >= bitSize
    ensures prime.Some? ==> Drawable(prime.value, bitSize)
    ensures maxDraws > 0 && bitSize <= 2 ==> prime.Some?
  {
    if maxDraws == 0 {
      return None;
    }
    var p := DrawPrime(bitSize);
    var draws := 1;
    while SizeInBase2(p) < bitSize && draws < maxDraws
      invariant 1 <= draws <= maxDraws
      invariant IsPrime(p) && Drawable(p, bitSize)
      decreases maxDraws - draws
    {
      p := DrawPrime(bitSize);
      draws := draws + 1;
    }
    if SizeInBase2(p) >= bitSize {
      prime := Some(p);
    } else {
      PrimeBits(p);
      prime := None;
    }
  }

  /** Every prime has at least two bits. */
  lemma PrimeBits(p: nat)
    requires IsPrime(p)
    ensures SizeInBase2(p) >= 2
  {
    assert Pow(2, 1) == 2;
    SizeInBase2AtLeast(p, 2);
  }

  /** phi = (p-1)*(q-1), computed after p and q are decremented in place. */
  function Phi(p: nat, q: nat): nat
    requires p >= 1 && q >= 1
  {
    (p - 1) * (q - 1)
  }

  /** For two distinct primes phi is at least 2, so mpz_invert has a proper modulus. */
  lemma PhiAtLeastTwo(p: nat, q: nat)
    requires IsPrime(p) && IsPrime(q) && p != q
    ensures Phi(p, q) >= 2
  {
    if p < q {
      MulBothMonotone(1, 2, p - 1, q - 1);
    } else {
      MulBothMonotone(2, 1, p - 1, q - 1);
    }
  }

  /**
   * The arithmetic of generate_rsa_keys: n = p*q, e = 65537 and d the inverse
   * of e modulo phi. The return value of mpz_invert is ignored. When e has no
   * inverse modulo phi, GMP documents d as undefined; the model takes 0, the
   * value mpz_inits gave d and that GMP's code leaves in place.
   */
  function DeriveKey(p: nat, q: nat): (key: RsaKey)
    requires IsPrime(p) && IsPrime(q) && p != q
    ensures key.n == p * q && key.e == PublicExponent
    ensures Gcd(PublicExponent, Phi(p, q)) == 1 ==>
      key.d < Phi(p, q) && (key.e * key.d) % Phi(p, q) == 1
    ensures Gcd(PublicExponent, Phi(p, q)) != 1 ==>
      key.d == 0 && forall x :: (key.e * x) % Phi(p, q) != 1
  {
    PhiAtLeastTwo(p, q);
    match ModInverse(PublicExponent, Phi(p, q))
    case Some(d) => RsaKey(p * q, PublicExponent, d)
    case None =>
      NoInverseAtAll(PublicExponent, Phi(p, q));
      RsaKey(p * q, PublicExponent, 0)
  }

  lemma NoInverseAtAll(a: nat, m: nat)
    requires m > 1 && ModInverse(a, m).None?
    ensures forall x :: (a * x) % m != 1
  {
    forall x: int ensures (a * x) % m != 1 {
      if x >= 0 {
        NoInverseUnlessCoprime(a, m, x);
      } else {
        NoInverseUnlessCoprime(a, m, (x % m) as nat);
        MulMod(a, x, m);
        MulMod(a, x % m, m);
        ModOfMod(x, m);
      }
    }
  }

  /**
   * The modular inverse is unique below the modulus: a d derived from an
   * invertible e is the only exponent in [0, phi) that undoes e.
   */
  lemma InverseUnique(a: nat, m: nat, x: nat, y: nat)
    requires m > 1 && x < m && y < m
    requires (a * x) % m == 1 && (a * y) % m == 1
    ensures x == y
  {
    var u, v := a * y, a * x;
    MulByOne(x, u, m);
    MulByOne(y, v, m);
    assert x * u == y * v;
  }

  /** Multiplying by something congruent to 1 leaves a residue alone. */
  lemma MulByOne(x: nat, u: nat, m: nat)
    requires m > 1 && x < m && u % m == 1
    ensures (x * u) % m == x
  {
    MulMod(x, u, m);
    SmallMod(x, m);
  }

  /**
   * generate_rsa_keys without the file output: two primes of KEY_SIZE/2 bits,
   * q redrawn while it equals p, then the derived key. Each call of
   * generate_random_prime and the redraw loop are bounded by maxDraws; None
   * means the bound ran out. The primes are the ghost outputs p and q.
   */
  method GenerateRsaKeys(keySize: nat, maxDraws: nat) returns (key: Option<RsaKey>, ghost p: nat, ghost q: nat)
    ensures key.Some? ==> IsPrime(p) && IsPrime(q) && p != q
    ensures key.Some? ==> SizeInBase2(p) >= keySize / 2 && SizeInBase2(q) >= keySize / 2
    ensures key.Some? ==> key.value == DeriveKey(p, q)
    ensures key.Some? ==> key.value.n > 0 && SizeInBase2(key.value.n) + 1 >= 2 * (keySize / 2)
  {
    p, q := 0, 0;
    var first := GenerateRandomPrime(keySize / 2, maxDraws);
    if first.None? {
      return None, p, q;
    }
    var second := GenerateRandomPrime(keySize / 2, maxDraws);
    if second.None? {
      return None, p, q;
    }
    var pp, qq := first.value, second.value;
    var redraws := 0;
    while pp == qq && redraws < maxDraws
      invariant IsPrime(qq) && SizeInBase2(qq) >= keySize / 2
      decreases maxDraws - redraws
    {
      second := GenerateRandomPrime(keySize / 2, maxDraws);
      if second.None? {
        return None, p, q;
      }
      qq := second.value;
      redraws := redraws + 1;
    }
    if pp == qq {
      return None, p, q;
    }
    p, q := pp, qq;
    SizeInBase2Product(pp, qq);
    key := Some(DeriveKey(pp, qq));
  }
}
