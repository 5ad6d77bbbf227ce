/**
 * encrypt_message and decrypt_message of rsa_lib.c: the message string is
 * encoded in base 256, checked against KEY_SIZE, raised to e modulo n read from
 * the public key file; the ciphertext read back is raised to d modulo n read
 * from the private key file and decoded into message_str[1024].
 */
module Rsa {
  import opened Wrappers
  import opened Arithmetic
  import opened Primes
  import opened Fermat
  import opened Base256
  import opened ModExp
  import opened KeyGen
  import opened Records

  /** The ways encrypt_message and decrypt_message stop without a result. */
  datatype RsaError =
    | MessageTooLarge(bits: nat)
    | PublicKeyFileMissing
    | CiphertextFileMissing
    | PrivateKeyFileMissing
    | DivisionByZero
    | PlaintextOverflow
    | MessageNotBelowModulus

  /** The size of message_str in decrypt_message. */
  const MessageBufferSize: nat := 1024

  /** The fgets buffer of both functions: KEY_SIZE / 2 characters. */
  function ReadBufferSize(keySize: nat): nat {
    keySize / 2
  }

  // ---------------------------------------------------------------------
  // encrypt_message
  // ---------------------------------------------------------------------

  /**
   * encrypt_message(public_key_path, message_str) up to the number written to
   * ciphertext_file: the message is rejected on its bit length alone, before
   * the key file is opened; the file (None when fopen fails) then gives n and
   * e, and the ciphertext is m^e mod n. A zero n makes mpz_powm divide by zero.
   */
  function Encrypt(messageStr: seq<Byte>, publicKeyFile: Option<string>, keySize: nat): (r: Result<nat, RsaError>)
    requires 0 in messageStr && keySize >= 2
    ensures r.Failure? && r.error.MessageTooLarge? <==> SizeInBase2(ValueOf(CString(messageStr))) > keySize
    ensures r.Success? ==> publicKeyFile.Some? && r.value < ReadKeyFile(publicKeyFile.value, ReadBufferSize(keySize)).0
  {
    var m := ValueOf(CString(messageStr));
    if SizeInBase2(m) > keySize then Failure(MessageTooLarge(SizeInBase2(m)))
    else if publicKeyFile.None? then Failure(PublicKeyFileMissing)
    else
      var (n, e) := ReadKeyFile(publicKeyFile.value, ReadBufferSize(keySize));
      if n == 0 then Failure(DivisionByZero) else Success(Pow(m, e) % n)
  }

  /** encrypt_message step by step: encodeBase256, the size check, the key file, mpz_powm. */
  method EncryptMessage(messageStr: array<Byte>, publicKeyFile: Option<string>, keySize: nat)
    returns (r: Result<nat, RsaError>)
    requires 0 in messageStr[..] && keySize >= 2
    ensures r == Encrypt(messageStr[..], publicKeyFile, keySize)
  {
    var message := EncodeBase256(messageStr);
    var bits := SizeInBase2(message);
    if bits > keySize {
      return Failure(MessageTooLarge(bits));
    }
    if publicKeyFile.None? {
      return Failure(PublicKeyFileMissing);
    }
    var (n, e) := ReadKeyFile(publicKeyFile.value, ReadBufferSize(keySize));
    if n == 0 {
      return Failure(DivisionByZero);
    }
    var c := ModPow(message, e, n);
    r := Success(c);
  }

  // ---------------------------------------------------------------------
  // decrypt_message
  // ---------------------------------------------------------------------

  /**
   * decodeBase256(message_str, m) into the 1024-byte message_str, and the C
   * string printf shows from it; digits that do not fit with their NUL
   * overflow the buffer. The decoder is the one with its reversal guarded for
   * 0, so m == 0 gives the empty text rather than the out-of-bounds swap of
   * the code as written.
   */
  function Plaintext(m: nat): (r: Result<seq<Byte>, RsaError>)
    ensures r.Success? <==> |Digits(m)| < MessageBufferSize
    ensures r.Success? ==> 0 !in r.value && |r.value| < MessageBufferSize
    ensures r.Success? && 0 !in Digits(m) ==> r.value == Digits(m)
    ensures r.Success? ==> ValueOf(r.value) <= m
  {
    if |Digits(m)| >= MessageBufferSize then Failure(PlaintextOverflow)
    else
      CStringOfDigitsAtMost(m);
      if 0 !in Digits(m) then
        CStringOfTerminated(Digits(m));
        Success(CString(Digits(m) + [0]))
      else
        Success(CString(Digits(m) + [0]))
  }

  /**
   * decrypt_message(private_key_path, ciphertext_file_path): the ciphertext
   * file is opened first, then the key file (None when fopen fails); the
   * plaintext is c^d mod n, decoded into message_str.
   */
  function Decrypt(ciphertextFile: Option<string>, privateKeyFile: Option<string>, keySize: nat): (r: Result<seq<Byte>, RsaError>)
    requires keySize >= 2
    ensures r.Success? ==> 0 !in r.value && |r.value| < MessageBufferSize
    ensures r.Success? ==>
      ciphertextFile.Some? && privateKeyFile.Some? &&
      ValueOf(r.value) < ReadKeyFile(privateKeyFile.value, ReadBufferSize(keySize)).0
  {
    if ciphertextFile.None? then Failure(CiphertextFileMissing)
    else if privateKeyFile.None? then Failure(PrivateKeyFileMissing)
    else
      var c := ReadCiphertextFile(ciphertextFile.value, ReadBufferSize(keySize));
      var (n, d) := ReadKeyFile(privateKeyFile.value, ReadBufferSize(keySize));
      if n == 0 then Failure(DivisionByZero) else Plaintext(Pow(c, d) % n)
  }

  /** decrypt_message step by step, with decodeBase256 on a fresh message_str. */
  method DecryptMessage(ciphertextFile: Option<string>, privateKeyFile: Option<string>, keySize: nat)
    returns (r: Result<seq<Byte>, RsaError>)
    requires keySize >= 2
    ensures r == Decrypt(ciphertextFile, privateKeyFile, keySize)
  {
    if ciphertextFile.None? {
      return Failure(CiphertextFileMissing);
    }
    var c := ReadCiphertextFile(ciphertextFile.value, ReadBufferSize(keySize));
    if privateKeyFile.None? {
      return Failure(PrivateKeyFileMissing);
    }
    var (n, d) := ReadKeyFile(privateKeyFile.value, ReadBufferSize(keySize));
    if n == 0 {
      return Failure(DivisionByZero);
    }
    var m := ModPow(c, d, n);
    if |Digits(m)| >= MessageBufferSize {
      return Failure(PlaintextOverflow);
    }
    var messageStr := new Byte[MessageBufferSize];
    DecodeBase256(messageStr, m);
    TerminatedBuffer(messageStr[..], Digits(m));
    r := Success(CString(messageStr[..]));
  }

  // ---------------------------------------------------------------------
  // Correctness of the arithmetic
  // ---------------------------------------------------------------------

  /** With an invertible e, the derived key undoes encryption of every m below n. */
  lemma DerivedKeyInverts(p: nat, q: nat, m: nat)
    requires IsPrime(p) && IsPrime(q) && p != q && Gcd(PublicExponent, Phi(p, q)) == 1
    requires m < p * q
    ensures var key := DeriveKey(p, q); Pow(Pow(m, key.e) % key.n, key.d) % key.n == m
  {
    var key := DeriveKey(p, q);
    RsaIdentity(p, q, key.e, key.d, m);
  }

  /** For every m, decrypting the encryption of m with a derived key gives m mod n. */
  lemma DerivedKeyReduces(p: nat, q: nat, m: nat)
    requires IsPrime(p) && IsPrime(q) && p != q && Gcd(PublicExponent, Phi(p, q)) == 1
    ensures var key := DeriveKey(p, q); Pow(Pow(m, key.e) % key.n, key.d) % key.n == m % key.n
  {
    var key := DeriveKey(p, q);
    var n := key.n;
    PowMod(m, key.e, n);
    DerivedKeyInverts(p, q, m % n);
  }

  /**
   * When mpz_invert fails and d is the 0 that GMP's code leaves in place (GMP
   * documents d as undefined then), every ciphertext decrypts to 1, a
   * plaintext of the single byte 0x01.
   */
  lemma UninvertibleKeyDecryptsToOne(p: nat, q: nat, c: nat)
    requires IsPrime(p) && IsPrime(q) && p != q && Gcd(PublicExponent, Phi(p, q)) != 1
    ensures var key := DeriveKey(p, q); Pow(c, key.d) % key.n == 1 && Plaintext(Pow(c, key.d) % key.n) == Success([1])
  {
    var key := DeriveKey(p, q);
    MulBothMonotone(2, 2, p, q);
    SmallMod(1, key.n);
    assert Digits(1) == [1];
  }

  /** A message that passes the size check of KEY_SIZE bits fits message_str when it comes back. */
  lemma CheckedMessageFits(s: seq<Byte>, keySize: nat)
    requires 0 !in s && SizeInBase2(ValueOf(s)) <= keySize && keySize <= 8 * (MessageBufferSize - 1)
    ensures |s| < MessageBufferSize
  {
    DecodeEncodeRoundTrip(s);
    BitsBoundBytes(ValueOf(s), keySize, MessageBufferSize - 1);
  }

  /** A number of at most 8k bits has at most k base-256 digits. */
  lemma BitsBoundBytes(x: nat, bits: nat, k: nat)
    requires SizeInBase2(x) <= bits <= 8 * k
    ensures |Digits(x)| <= k
  {
    PowMonotoneExponent(2, SizeInBase2(x), 8 * k);
    PowMul(2, 8, k);
    assert Pow(2, 8) == 256;
    DigitsLengthBound(x, k);
  }

  /** A modulus of at most 1023 bytes never overflows message_str. */
  lemma NoPlaintextOverflow(c: nat, d: nat, n: nat)
    requires 0 < n <= Pow(256, MessageBufferSize - 1)
    ensures Plaintext(Pow(c, d) % n).Success?
  {
    DigitsLengthBound(Pow(c, d) % n, MessageBufferSize - 1);
  }

  // ---------------------------------------------------------------------
  // The whole pipeline: key files, encryption, ciphertext file, decryption
  // ---------------------------------------------------------------------

  /** The requirements under which the records of a derived key fit the fgets buffer. */
  predicate RecordsFit(p: nat, q: nat, keySize: nat) {
    16 <= keySize <= 8 * (MessageBufferSize - 1) && |Dec(p * q)| + 3 < ReadBufferSize(keySize)
  }

  /** Encryption with the public key file of a derived key: the key file is read back intact. */
  lemma PublicFileReadsBack(p: nat, q: nat, keySize: nat)
    requires IsPrime(p) && IsPrime(q) && p != q && RecordsFit(p, q, keySize)
    ensures var key := DeriveKey(p, q);
      ReadKeyFile(PublicKeyRecord(key.n, key.e), ReadBufferSize(keySize)) == (key.n, key.e)
  {
    var key := DeriveKey(p, q);
    assert Pow(10, 5) == 100000;
    DecLengthBound(PublicExponent, 5);
    KeyRecordRoundTrip('e', key.n, key.e, ReadBufferSize(keySize));
  }

  /** The private key file of a derived key reads back intact; d < phi < n keeps it short. */
  lemma PrivateFileReadsBack(p: nat, q: nat, keySize: nat)
    requires IsPrime(p) && IsPrime(q) && p != q && RecordsFit(p, q, keySize)
    ensures var key := DeriveKey(p, q);
      ReadKeyFile(PrivateKeyRecord(key.n, key.d), ReadBufferSize(keySize)) == (key.n, key.d)
  {
    var key := DeriveKey(p, q);
    PhiBelowModulus(p, q);
    DecLengthMonotone(key.d, key.n);
    KeyRecordRoundTrip('d', key.n, key.d, ReadBufferSize(keySize));
  }

  lemma PhiBelowModulus(p: nat, q: nat)
    requires p >= 1 && q >= 1
    ensures Phi(p, q) < p * q
  {
    MulBothMonotone(p - 1, q - 1, p, q - 1);
    assert p * (q - 1) == p * q - p;
  }

  /** The result of decrypting the ciphertext file that encrypt_message wrote for a derived key. */
  lemma PipelineDecrypts(p: nat, q: nat, s: seq<Byte>, keySize: nat)
    requires IsPrime(p) && IsPrime(q) && p != q && Gcd(PublicExponent, Phi(p, q)) == 1
    requires RecordsFit(p, q, keySize)
    requires 0 !in s && SizeInBase2(ValueOf(s)) <= keySize
    ensures var key := DeriveKey(p, q);
      var c := Encrypt(s + [0], Some(PublicKeyRecord(key.n, key.e)), keySize);
      c.Success? &&
      Decrypt(Some(CiphertextRecord(c.value)), Some(PrivateKeyRecord(key.n, key.d)), keySize)
        == Plaintext(ValueOf(s) % key.n)
  {
    var key := DeriveKey(p, q);
    var b := ReadBufferSize(keySize);
    CStringOfTerminated(s);
    PublicFileReadsBack(p, q, keySize);
    var m := ValueOf(s);
    var c := Pow(m, key.e) % key.n;
    assert Encrypt(s + [0], Some(PublicKeyRecord(key.n, key.e)), keySize) == Success(c);
    DecLengthMonotone(c, key.n);
    CiphertextRecordRoundTrip(c, b);
    PrivateFileReadsBack(p, q, keySize);
    DerivedKeyReduces(p, q, m);
  }

  /**
   * Round trip: with files written for a derived key, any message below n that
   * passes the size check comes back from decrypt_message unchanged.
   */
  lemma RoundTrip(p: nat, q: nat, s: seq<Byte>, keySize: nat)
    requires IsPrime(p) && IsPrime(q) && p != q && Gcd(PublicExponent, Phi(p, q)) == 1
    requires RecordsFit(p, q, keySize)
    requires 0 !in s && SizeInBase2(ValueOf(s)) <= keySize && ValueOf(s) < p * q
    ensures var key := DeriveKey(p, q);
      var c := Encrypt(s + [0], Some(PublicKeyRecord(key.n, key.e)), keySize);
      c.Success? &&
      Decrypt(Some(CiphertextRecord(c.value)), Some(PrivateKeyRecord(key.n, key.d)), keySize) == Success(s)
  {
    PipelineDecrypts(p, q, s, keySize);
    SmallMod(ValueOf(s), p * q);
    CheckedMessageFits(s, keySize);
    DecodeEncodeRoundTrip(s);
  }

  /**
   * The empty message encrypts to 0, and decrypt_message then hands the number
   * 0 to decodeBase256, the input on which its unguarded reversal loop starts
   * at end == SIZE_MAX (see Base256.DecodeZeroSwapsOutOfBounds).
   */
  lemma EmptyMessageDecodesZero(p: nat, q: nat, keySize: nat)
    requires IsPrime(p) && IsPrime(q) && p != q && Gcd(PublicExponent, Phi(p, q)) == 1
    requires RecordsFit(p, q, keySize)
    ensures var key := DeriveKey(p, q);
      Encrypt([0], Some(PublicKeyRecord(key.n, key.e)), keySize) == Success(0) &&
      ReadCiphertextFile(CiphertextRecord(0), ReadBufferSize(keySize)) == 0 &&
      ReadKeyFile(PrivateKeyRecord(key.n, key.d), ReadBufferSize(keySize)) == (key.n, key.d) &&
      Pow(0, key.d) % key.n == 0
  {
    var key := DeriveKey(p, q);
    assert CString([0]) == [];
    assert ValueOf([]) == 0;
    PublicFileReadsBack(p, q, keySize);
    PowOfZero(key.e);
    MulBothMonotone(2, 2, p, q);
    SmallMod(0, key.n);
    CiphertextRecordRoundTrip(0, ReadBufferSize(keySize));
    PrivateFileReadsBack(p, q, keySize);
    assert key.d != 0 by {
      PhiAtLeastTwo(p, q);
      if key.d == 0 {
        assert key.e * key.d == 0;
        SmallMod(0, Phi(p, q));
      }
    }
    PowOfZero(key.d);
  }

  // ---------------------------------------------------------------------
  // The size check as written admits messages at or above n
  // ---------------------------------------------------------------------

  /**
   * A message of at most KEY_SIZE bits that is not below n passes the size
   * check, but what decrypt_message shows is not the message.
   */
  lemma GuardAdmitsUnrecoverable(p: nat, q: nat, s: seq<Byte>, keySize: nat)
    requires IsPrime(p) && IsPrime(q) && p != q && Gcd(PublicExponent, Phi(p, q)) == 1
    requires RecordsFit(p, q, keySize)
    requires 0 !in s && SizeInBase2(ValueOf(s)) <= keySize && ValueOf(s) >= p * q
    ensures var key := DeriveKey(p, q);
      var c := Encrypt(s + [0], Some(PublicKeyRecord(key.n, key.e)), keySize);
      c.Success? &&
      Decrypt(Some(CiphertextRecord(c.value)), Some(PrivateKeyRecord(key.n, key.d)), keySize) != Success(s)
  {
    PipelineDecrypts(p, q, s, keySize);
  }

  lemma ElevenIsPrime()
    ensures IsPrime(11)
  {
    forall k | 2 <= k < 11
      ensures !Divides(k, 11)
    {
      assert k == 2 || k == 3 || k == 4 || k == 5 || k == 6 || k == 7 || k == 8 || k == 9 || k == 10;
    }
  }

  lemma ThirteenIsPrime()
    ensures IsPrime(13)
  {
    forall k | 2 <= k < 13
      ensures !Divides(k, 13)
    {
      assert k == 2 || k == 3 || k == 4 || k == 5 || k == 6 || k == 7 || k == 8 || k == 9 || k == 10 || k == 11 || k == 12;
    }
  }

  /**
   * A concrete instance with KEY_SIZE = 1024: p = 11, q = 13 give n = 143,
   * phi = 120 and d = 113; the one-byte message 200 passes the size check and
   * comes back as the byte 57 (200 mod 143).
   */
  lemma SmallKeyCounterexample()
    ensures IsPrime(11) && IsPrime(13)
    ensures DeriveKey(11, 13) == RsaKey(143, 65537, 113)
    ensures var c := Encrypt([200, 0], Some(PublicKeyRecord(143, 65537)), KeySize);
      c.Success? &&
      Decrypt(Some(CiphertextRecord(c.value)), Some(PrivateKeyRecord(143, 113)), KeySize) == Success([57])
  {
    ElevenIsPrime();
    ThirteenIsPrime();
    var key := DeriveKey(11, 13);
    assert Phi(11, 13) == 120;
    assert Gcd(PublicExponent, 120) == 1;
    InverseUnique(PublicExponent, 120, key.d, 113);
    var s: seq<Byte> := [200];
    assert ValueOf(s) == 200;
    assert Pow(2, 8) == 256;
    SizeInBase2Band(200, 8);
    assert Pow(10, 3) == 1000;
    DecLengthBound(143, 3);
    assert s + [0] == [200, 0];
    PipelineDecrypts(11, 13, s, KeySize);
    assert Digits(57) == [57];
    assert Plaintext(57) == Success([57]);
  }

  // ---------------------------------------------------------------------
  // Corrected size check: the message must lie below n
  // ---------------------------------------------------------------------

  /** Encrypt with the check the code evidently intends: after n is read, m must be below n. */
  function EncryptChecked(messageStr: seq<Byte>, publicKeyFile: Option<string>, keySize: nat): (r: Result<nat, RsaError>)
    requires 0 in messageStr && keySize >= 2
    ensures r.Success? ==>
      publicKeyFile.Some? &&
      ValueOf(CString(messageStr)) < ReadKeyFile(publicKeyFile.value, ReadBufferSize(keySize)).0
    ensures r.Success? ==> r == Encrypt(messageStr, publicKeyFile, keySize)
  {
    match Encrypt(messageStr, publicKeyFile, keySize)
    case Failure(err) => Failure(err)
    case Success(c) =>
      if ValueOf(CString(messageStr)) >= ReadKeyFile(publicKeyFile.value, ReadBufferSize(keySize)).0
      then Failure(MessageNotBelowModulus)
      else Success(c)
  }

  /**
   * With the corrected check every message that is encrypted at all comes
   * back from decrypt_message unchanged.
   */
  lemma CheckedRoundTrip(p: nat, q: nat, s: seq<Byte>, keySize: nat)
    requires IsPrime(p) && IsPrime(q) && p != q && Gcd(PublicExponent, Phi(p, q)) == 1
    requires RecordsFit(p, q, keySize)
    requires 0 !in s
    ensures var key := DeriveKey(p, q);
      var c := EncryptChecked(s + [0], Some(PublicKeyRecord(key.n, key.e)), keySize);
      c.Success? ==>
      Decrypt(Some(CiphertextRecord(c.value)), Some(PrivateKeyRecord(key.n, key.d)), keySize) == Success(s)
  {
    var key := DeriveKey(p, q);
    var c := EncryptChecked(s + [0], Some(PublicKeyRecord(key.n, key.e)), keySize);
    if c.Success? {
      CStringOfTerminated(s);
      PublicFileReadsBack(p, q, keySize);
      RoundTrip(p, q, s, keySize);
    }
  }

  /** The corrected check rejects exactly the messages at or above n that the size check lets through. */
  lemma CheckedRejectsOnlyLarge(p: nat, q: nat, s: seq<Byte>, keySize: nat)
    requires IsPrime(p) && IsPrime(q) && p != q && RecordsFit(p, q, keySize)
    requires 0 !in s && SizeInBase2(ValueOf(s)) <= keySize
    ensures var key := DeriveKey(p, q);
      var c := EncryptChecked(s + [0], Some(PublicKeyRecord(key.n, key.e)), keySize);
      c.Success? <==> ValueOf(s) < key.n
  {
    CStringOfTerminated(s);
    PublicFileReadsBack(p, q, keySize);
  }
}
