/**
 * Exact integer arithmetic that GMP provides to the RSA code: powers, Euclidean
 * division and remainder facts, and the bit length reported by mpz_sizeinbase.
 */
module Arithmetic {

  /** b raised to the k-th power. */
  function Pow(b: nat, k: nat): (r: nat)
    ensures b > 0 ==> r > 0
  {
    if k == 0 then 1 else b * Pow(b, k - 1)
  }

  lemma {:induction false} PowAdd(b: nat, i: nat, j: nat)
    ensures Pow(b, i + j) == Pow(b, i) * Pow(b, j)
  {
    if i > 0 {
      PowAdd(b, i - 1, j);
      assert Pow(b, i + j) == b * Pow(b, (i - 1) + j);
    }
  }

  lemma {:induction false} PowMul(b: nat, i: nat, j: nat)
    ensures Pow(b, i * j) == Pow(Pow(b, i), j)
  {
    if j > 0 {
      var x, k := Pow(b, i), i * (j - 1);
      PowMul(b, i, j - 1);
      PowAdd(b, k, i);
      MulSucc(i, j);
      assert Pow(x, j) == x * Pow(x, j - 1);
    }
  }

  lemma MulSucc(i: nat, j: nat)
    requires j > 0
    ensures i * j == i * (j - 1) + i
  {
  }

  lemma {:induction false} PowOfOne(k: nat)
    ensures Pow(1, k) == 1
  {
    if k > 0 { PowOfOne(k - 1); }
  }

  lemma PowOfZero(k: nat)
    requires k > 0
    ensures Pow(0, k) == 0
  {
  }

  /** A positive power of b is a multiple of b. */
  lemma PowMultipleOfBase(b: nat, k: nat)
    requires k > 0
    ensures Pow(b, k) == b * Pow(b, k - 1)
  {
  }

  lemma {:induction false} PowMonotoneExponent(b: nat, i: nat, j: nat)
    requires b > 0 && i <= j
    ensures Pow(b, i) <= Pow(b, j)
  {
    if i < j {
      PowMonotoneExponent(b, i, j - 1);
      MulLeftMonotone(Pow(b, j - 1), 1, b);
    }
  }

  lemma {:induction false} PowMonotoneBase(a: nat, b: nat, k: nat)
    requires a <= b
    ensures Pow(a, k) <= Pow(b, k)
  {
    if k > 0 {
      PowMonotoneBase(a, b, k - 1);
      MulBothMonotone(a, Pow(a, k - 1), b, Pow(b, k - 1));
    }
  }

  lemma MulLeftMonotone(x: nat, a: nat, b: nat)
    requires a <= b
    ensures a * x <= b * x
  {
  }

  lemma MulBothMonotone(a: nat, x: nat, b: nat, y: nat)
    requires a <= b && x <= y
    ensures a * x <= b * y
  {
    MulLeftMonotone(x, a, b);
    assert b * x <= b * y;
  }

  // ---------------------------------------------------------------------
  // Euclidean division (Dafny's / and % on int are Euclidean, like GMP's
  // fdiv on non-negative operands).
  // ---------------------------------------------------------------------

  /** Quotient and remainder are unique. */
  lemma DivModUnique(x: int, q: int, r: int, n: int)
    requires n > 0 && 0 <= r < n && x == q * n + r
    ensures x % n == r && x / n == q
  {
    var q', r' := x / n, x % n;
    assert q' * n + r' == x;
    var k := q - q';
    assert k * n == r' - r;
  }

  lemma ModAddMultiple(a: int, t: int, n: int)
    requires n > 0
    ensures (a + n * t) % n == a % n
  {
    var q, r := a / n, a % n;
    assert a + n * t == (q + t) * n + r;
    DivModUnique(a + n * t, q + t, r, n);
  }

  lemma MultipleMod(t: int, n: int)
    requires n > 0
    ensures (n * t) % n == 0
  {
    ModAddMultiple(0, t, n);
  }

  lemma ModOfMod(a: int, n: int)
    requires n > 0
    ensures (a % n) % n == a % n
  {
    DivModUnique(a % n, 0, a % n, n);
  }

  lemma SmallMod(a: int, n: int)
    requires 0 <= a < n
    ensures a % n == a
  {
    DivModUnique(a, 0, a, n);
  }

  /** x is a multiple of n exactly when it is n times its quotient. */
  lemma MultipleIsProduct(x: int, n: int)
    requires n > 0 && x % n == 0
    ensures x == n * (x / n)
  {
  }

  lemma MulModLeft(a: int, b: int, n: int)
    requires n > 0
    ensures (a * b) % n == ((a % n) * b) % n
  {
    var q := a / n;
    assert a * b == (a % n) * b + n * (q * b);
    ModAddMultiple((a % n) * b, q * b, n);
  }

  lemma MulMod(a: int, b: int, n: int)
    requires n > 0
    ensures (a * b) % n == ((a % n) * (b % n)) % n
  {
    MulModLeft(a, b, n);
    MulModLeft(b, a % n, n);
    assert (a % n) * b == b * (a % n);
    assert (b % n) * (a % n) == (a % n) * (b % n);
  }

  lemma AddMod(a: int, b: int, n: int)
    requires n > 0
    ensures (a + b) % n == ((a % n) + (b % n)) % n
  {
    var qa, qb := a / n, b / n;
    assert a + b == (a % n) + (b % n) + n * (qa + qb);
    ModAddMultiple((a % n) + (b % n), qa + qb, n);
  }

  /** Two numbers have the same remainder iff their difference is a multiple. */
  lemma CongruentIffDifference(x: int, y: int, n: int)
    requires n > 0
    ensures x % n == y % n <==> (x - y) % n == 0
  {
    AddMod(x - y, y, n);
    assert x == (x - y) + y;
    if (x - y) % n == 0 {
      ModOfMod(y, n);
    }
    if x % n == y % n {
      var qx, qy := x / n, y / n;
      assert x - y == n * (qx - qy);
      MultipleMod(qx - qy, n);
    }
  }

  lemma {:induction false} PowMod(b: nat, k: nat, n: nat)
    requires n > 0
    ensures Pow(b, k) % n == Pow(b % n, k) % n
  {
    if k > 0 {
      PowMod(b, k - 1, n);
      calc {
        Pow(b, k) % n;
        (b * Pow(b, k - 1)) % n;
        { MulMod(b, Pow(b, k - 1), n); }
        ((b % n) * (Pow(b, k - 1) % n)) % n;
        ((b % n) * (Pow(b % n, k - 1) % n)) % n;
        { ModOfMod(b, n); MulMod(b % n, Pow(b % n, k - 1), n); }
        ((b % n) * Pow(b % n, k - 1)) % n;
        Pow(b % n, k) % n;
      }
    }
  }

  /** Squaring the base halves the exponent: the step of square-and-multiply. */
  lemma {:induction false} PowSquare(x: nat, j: nat)
    ensures Pow(x, 2 * j) == Pow(x * x, j)
  {
    PowMul(x, 2, j);
    assert Pow(x, 1) == x;
    assert Pow(x, 2) == x * Pow(x, 1);
  }

  // ---------------------------------------------------------------------
  // Bit length, as reported by mpz_sizeinbase(x, 2).
  // ---------------------------------------------------------------------

  /**
   * The number of binary digits of x; GMP reports 1 for x == 0.
   * A positive x has bit length r exactly when 2^(r-1) <= x < 2^r.
   */
  function SizeInBase2(x: nat): (r: nat)
    ensures r >= 1
    ensures x < Pow(2, r)
    ensures x > 0 ==> Pow(2, r - 1) <= x
    ensures x == 0 ==> r == 1
  {
    if x < 2 then 1 else 1 + SizeInBase2(x / 2)
  }

  /** The bit length is determined by the binary band the number lies in. */
  lemma SizeInBase2Band(x: nat, k: nat)
    requires k >= 1 && Pow(2, k - 1) <= x < Pow(2, k)
    ensures SizeInBase2(x) == k
  {
    var r := SizeInBase2(x);
    if r < k {
      PowMonotoneExponent(2, r, k - 1);
    } else if r > k {
      PowMonotoneExponent(2, k, r - 1);
    }
  }

  /** A product of an a-bit and a b-bit number has at least a + b - 1 bits. */
  lemma SizeInBase2Product(x: nat, y: nat)
    requires x > 0 && y > 0
    ensures SizeInBase2(x * y) + 1 >= SizeInBase2(x) + SizeInBase2(y)
  {
    SizeInBase2ProductOf(x, y, x * y);
  }

  lemma SizeInBase2ProductOf(x: nat, y: nat, z: nat)
    requires x > 0 && y > 0 && z == x * y
    ensures SizeInBase2(z) + 1 >= SizeInBase2(x) + SizeInBase2(y)
  {
    SizeInBase2Lower(x);
    SizeInBase2Lower(y);
    var i, j := SizeInBase2(x) - 1, SizeInBase2(y) - 1;
    ProductLowerBound(x, y, i, j);
    SizeInBase2AtLeast(z, i + j + 1);
  }

  lemma SizeInBase2Lower(x: nat)
    requires x > 0
    ensures Pow(2, SizeInBase2(x) - 1) <= x
  {
  }

  lemma ProductLowerBound(x: nat, y: nat, i: nat, j: nat)
    requires Pow(2, i) <= x && Pow(2, j) <= y
    ensures Pow(2, i + j) <= x * y
  {
    MulBothMonotone(Pow(2, i), Pow(2, j), x, y);
    PowAdd(2, i, j);
  }

  /** A number at least 2^(k-1) has at least k bits. */
  lemma SizeInBase2AtLeast(x: nat, k: nat)
    requires k >= 1 && Pow(2, k - 1) <= x
    ensures SizeInBase2(x) >= k
  {
    var r := SizeInBase2(x);
    if r < k {
      PowMonotoneExponent(2, r, k - 1);
    }
  }
}
