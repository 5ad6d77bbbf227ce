# Textbook RSA over GMP: a verified model of rsa_lib.c

This project models the core of a small textbook-RSA library written in C on
top of GMP. The model covers:

- the base-256 text codec (`encodeBase256`, `decodeBase256`);
- the prime search (`generate_random_prime`) and the key arithmetic of
  `generate_rsa_keys`: n = p*q, phi = (p-1)*(q-1), e = 65537 and d = e^-1 mod phi;
- the decimal key and ciphertext files, and how they are read back
  through a `KEY_SIZE/2` byte `fgets` buffer;
- `encrypt_message` (size check, then m^e mod n);
- `decrypt_message` (c^d mod n, then decoding into `message_str[1024]`).

It then proves what the program relies on:

- the codec round trips;
- the primes are prime, long enough and distinct;
- d inverts e;
- Fermat's little theorem and the Chinese remainder step;
- decrypting what was encrypted gives the message back, end to end through the files.

Modules:

| file | module | what |
|---|---|---|
| wrappers.dfy | Wrappers | `Option`, `Result` |
| arithmetic.dfy | Arithmetic | `Pow`, Euclidean remainder facts, `SizeInBase2` (mpz_sizeinbase base 2) |
| primes.dfy | Primes | divisibility, primality, `Gcd`, `ExtGcd`, `ModInverse` (mpz_invert), `NextPrime` (mpz_nextprime) |
| fermat.dfy | Fermat | binomial theorem, Fermat's little theorem, the Chinese remainder step, the RSA identity |
| base256.dfy | Base256 | the codec as array methods and its specification |
| modexp.dfy | ModExp | square and multiply for mpz_powm |
| keygen.dfy | KeyGen | `RsaKey`, `KeySize`, the prime loops, the key derivation |
| records.dfy | Records | mpz_get_str / mpz_set_str in base 10, fgets, the three file formats |
| rsa.dfy | Rsa | encrypt and decrypt, the end-to-end round trip, the findings |

How the C program's environment is represented:

- **Files.** A file is its text, `Option<string>`; `None` stands for a failed `fopen`.
- **Randomness.** `mpz_urandomb` is a nondeterministic choice (`:|`) of a number below 2^bits.
- **GMP.** GMP's operations are mathematical functions: `NextPrime` is the least prime strictly above its argument.
- **Key size.** `KEY_SIZE` is the parameter `keySize`; the constant `KeyGen.KeySize` is 1024, as in rsa_lib.h:6.

Where the code and its design description disagree, this model follows the code:

- **Prime length.** `generate_random_prime` only guarantees *at least* `bit_size` bits, because the loop exit test is `< bit_size` (rsa_lib.c:22). It does not guarantee *exactly* `bit_size` bits, and `mpz_nextprime` can overshoot into the next band.
- **Next prime.** The next prime is strictly greater than the draw, as GMP defines it, not greater or equal.
- **NUL bytes.** The message is a C string, so encoding stops at the first NUL (rsa_lib.c:31). Strings with embedded zero bytes do not round trip, and digits of a number that contain a zero byte print truncated (`Base256.EncodeDecodeRoundTrip`).
- **Size check.** The bit-length check is not merely conservative: it admits messages that are at or above n (see Findings).
- **Header prototypes.** The prototypes in rsa_lib.h:16-17 list the parameters of `encrypt_message` and `decrypt_message` in the opposite order to the definitions (rsa_lib.c:139, 207). The model follows the definitions.
- **Failed inverse.** `mpz_invert`'s result is ignored (rsa_lib.c:92). When 65537 has no inverse modulo phi, GMP documents `d` as undefined. The model takes `d == 0`: the value `mpz_inits` gave it, which GMP's code leaves in place. Only under that choice does every ciphertext decrypt to the byte 0x01 (`Rsa.UninvertibleKeyDecryptsToOne`).

## Model

| member | source | states |
|---|---|---|
| Arithmetic.SizeInBase2 | rsa_lib.c:22 | mpz_sizeinbase(x, 2): at least 1, 1 for zero; a positive x lies in [2^(r-1), 2^r) |
| Arithmetic.SizeInBase2Band | rsa_lib.c:150 | the bit length of x is k exactly when 2^(k-1) <= x < 2^k |
| Arithmetic.SizeInBase2Product | rsa_lib.c:81 | n = p*q has at least bits(p) + bits(q) - 1 bits |
| Arithmetic.PowMod | rsa_lib.c:181 | reducing the base modulo n first does not change b^k mod n |
| Arithmetic.PowSquare | rsa_lib.c:181 | x^(2j) == (x*x)^j, the squaring step of modular exponentiation |
| Primes.ExtGcd | rsa_lib.c:92 | returns the gcd of a and b with Bezout coefficients: a*x + b*y == gcd |
| Primes.GcdDivides | rsa_lib.c:92 | the gcd is a positive common divisor |
| Primes.ModInverse | rsa_lib.c:92 | mpz_invert: an inverse exists exactly when gcd(a, m) == 1, and then it lies in [0, m) with a*d mod m == 1 |
| Primes.NoInverseUnlessCoprime | rsa_lib.c:92 | when mpz_invert fails, no d at all satisfies a*d mod m == 1 |
| Primes.EuclidLemma | rsa_lib.c:181 | a prime dividing a product divides a factor |
| Primes.DistinctPrimesDivide | rsa_lib.c:81 | a number divisible by two distinct primes is divisible by their product |
| Primes.PrimeAbove | rsa_lib.c:21 | there is a prime in (x, x!+1], so the search of mpz_nextprime ends |
| Primes.NextPrime | rsa_lib.c:21 | mpz_nextprime: the result is prime, above x, and no prime lies strictly between |
| Primes.LeastDivisorIsPrime | rsa_lib.c:21 | the least divisor above 1 of a number is prime |
| Fermat.PrimeDividesBinom | rsa_lib.c:181 | p divides C(p, k) for 0 < k < p |
| Fermat.BinomialTheorem | rsa_lib.c:181 | (a+1)^n is the sum of C(n,k) a^k |
| Fermat.FreshmansDream | rsa_lib.c:181 | (a+1)^p == a^p + 1 modulo a prime p |
| Fermat.FermatPow | rsa_lib.c:181 | a^p == a modulo a prime p |
| Fermat.FermatLittle | rsa_lib.c:181 | a^(p-1) == 1 modulo p when p does not divide a |
| Fermat.RsaPrimeStep | rsa_lib.c:251 | m^x == m modulo a prime p for every m, whenever x == 1 modulo p-1 |
| Fermat.ChineseRemainder | rsa_lib.c:251 | congruence modulo two distinct primes gives congruence modulo their product |
| Fermat.RsaExponent | rsa_lib.c:251 | m^x == m modulo pq whenever x == 1 modulo (p-1)(q-1) and m < pq |
| Fermat.RsaIdentity | rsa_lib.c:181 | (m^e mod n)^d mod n == m for n = pq, e*d == 1 mod phi, m < n |
| Base256.ValueOf | rsa_lib.c:30-35 | the big-endian base-256 value of a byte string is below 256^length |
| Base256.Digits | rsa_lib.c:45-58 | the shortest big-endian digits of x: their value is x, empty exactly for 0, no leading zero, length in the band 256^(len-1) <= x < 256^len |
| Base256.CString | rsa_lib.c:31 | the bytes before the first NUL: a proper prefix, followed by NUL, containing no NUL |
| Base256.EncodeBase256 | rsa_lib.c:28-36 | the number computed is the big-endian base-256 value of the bytes before the NUL (0 for the empty string) |
| Base256.DecodeBase256 | rsa_lib.c:39-61 | afterwards the buffer starts with the big-endian digits of the number, then a NUL; bytes beyond are untouched (reversal guarded for 0, see Findings) |
| Base256.ExtractDigits | rsa_lib.c:45-49 | the extraction loop stores exactly the base-256 digits of the number, least significant first, and leaves the buffer from that count on untouched |
| Base256.ExtractStep | rsa_lib.c:46-49 | one extraction step moves the lowest digit from the number to the buffer without changing digits-so-far |
| Base256.ReversePrefix | rsa_lib.c:53-58 | the swap loop reverses string[0..i) in place and touches no index at or above i |
| Base256.ValueOfAppend | rsa_lib.c:33-34 | the value of a concatenation is value(a) * 256^len(b) + value(b) |
| Base256.DigitsOfValue | rsa_lib.c:28-61 | the digits of the value of a byte string without leading zero are that string |
| Base256.DecodeEncodeRoundTrip | rsa_lib.c:28-61 | every C string (no NUL inside), including the empty one, survives encode then decode (with decodeBase256 guarded for 0; as written the empty string hits rsa_lib.c:53) |
| Base256.EncodeDecodeRoundTrip | rsa_lib.c:28-61 | encode(decode(x)) == x exactly when no base-256 digit of x is zero |
| Base256.TruncatedValueSmaller | rsa_lib.c:31 | stopping at an inner zero digit gives a smaller value |
| Base256.CStringOfDigitsAtMost | rsa_lib.c:258 | the C string printed from the digits of y has value at most y |
| Base256.DigitsLengthBound | rsa_lib.c:254 | a number below 256^k has at most k digits |
| Base256.TerminatedBuffer | rsa_lib.c:50 | a buffer holding the digits and then a NUL reads as the same C string |
| Base256.ReversalEnd | rsa_lib.c:53 | the initial end = i - 1 in size_t: one below i, or SIZE_MAX when i == 0 |
| Base256.DecodeZeroSwapsOutOfBounds | rsa_lib.c:45-57 | for number == 0 no digit is extracted and the first swap index is SIZE_MAX, past any buffer |
| Base256.DecodePositiveSwapsInBounds | rsa_lib.c:45-57 | for number > 0 the reversal starts inside string[0..i) |
| ModExp.ModPow | rsa_lib.c:181 | square and multiply returns exactly base^exp mod modulus, below the modulus |
| ModExp.MultiplyStep | rsa_lib.c:251 | absorbing one factor into the accumulator keeps the product modulo n |
| ModExp.SquareStep | rsa_lib.c:251 | squaring the base and halving an even exponent keeps the product modulo n |
| KeyGen.DrawPrime | rsa_lib.c:20-21 | one round yields a prime that is the next prime after some draw below 2^bits |
| KeyGen.GenerateRandomPrime | rsa_lib.c:11-25 | a returned value is prime, has at least bit_size bits and was drawn; for bit_size <= 2 the first round succeeds |
| KeyGen.PrimeBits | rsa_lib.c:22 | every prime has at least 2 bits |
| KeyGen.PhiAtLeastTwo | rsa_lib.c:84-86 | for distinct primes phi >= 2, a proper modulus for mpz_invert |
| KeyGen.DeriveKey | rsa_lib.c:81-92 | n == p*q, e == 65537; if gcd(e, phi) == 1 then d < phi and e*d mod phi == 1, otherwise d == 0 and no inverse exists |
| KeyGen.NoInverseAtAll | rsa_lib.c:92 | when mpz_invert fails, no integer x solves e*x == 1 mod phi |
| KeyGen.InverseUnique | rsa_lib.c:92 | the inverse below the modulus is unique |
| KeyGen.GenerateRsaKeys | rsa_lib.c:66-92 | returned keys come from distinct primes of at least KEY_SIZE/2 bits, equal the derived key, and n has at least 2*(KEY_SIZE/2) - 1 bits |
| Records.Dec | rsa_lib.c:101-103 | mpz_get_str base 10: a non-empty digit string without leading zero |
| Records.DecValueOfDec | rsa_lib.c:170 | the value of the decimal text of x is x |
| Records.DecOfDecValue | rsa_lib.c:101 | a digit string without leading zero is the decimal text of its value |
| Records.DecLengthMonotone | rsa_lib.c:142 | a larger number never has a shorter decimal text |
| Records.DecLengthBound | rsa_lib.c:142 | a number below 10^j has at most j digits |
| Records.BitsBoundDigits | rsa_lib.c:142 | a number below 2^(3j) has at most j digits (a 1024-bit number at most 342) |
| Records.StripAppend | rsa_lib.c:170 | removing white space distributes over concatenation |
| Records.ParseDec | rsa_lib.c:170 | mpz_set_str reads the decimal text of x, with or without the line break, as x |
| Records.ParseRejects | rsa_lib.c:175 | a character that is neither digit nor space makes mpz_set_str fail |
| Records.FGets | rsa_lib.c:167-172 | fgets returns NULL exactly at the end of the stream; a line is shorter than the buffer and the rest stays unread |
| Records.TakeLineBreak | rsa_lib.c:167 | fgets stops right after a line break that fits the buffer |
| Records.KeyRecordRoundTrip | rsa_lib.c:109 | "n:%s\n?:%s" reads back as the two numbers written when each line fits the fgets buffer |
| Records.FirstLine | rsa_lib.c:167-171 | the first fgets takes "n:<n>\n", and the field after the tag reads as n |
| Records.LastLine | rsa_lib.c:172-176 | the last line is read whole and the field after its tag reads as its number |
| Records.CiphertextRecordRoundTrip | rsa_lib.c:222-225 | "c:%s" reads back as the ciphertext written when it fits the buffer |
| Rsa.Encrypt | rsa_lib.c:139-181 | rejected for size exactly when the message has more than KEY_SIZE bits, whatever the key file; a ciphertext lies below the n read |
| Rsa.EncryptMessage | rsa_lib.c:147-181 | the imperative pipeline (encodeBase256, check, key file, square and multiply) computes Encrypt |
| Rsa.Plaintext | rsa_lib.c:253-258 | decoding into message_str succeeds exactly when the digits fit with their NUL; the text has no NUL, is the digits when they have no zero byte, and is worth at most m |
| Rsa.Decrypt | rsa_lib.c:207-258 | a plaintext has no NUL, fits message_str, and its value is below the n read |
| Rsa.DecryptMessage | rsa_lib.c:222-255 | the imperative pipeline (files, square and multiply, decodeBase256 into a fresh buffer) computes Decrypt |
| Rsa.DerivedKeyInverts | rsa_lib.c:181 | with an invertible e, decryption with the derived key undoes encryption of every m below n |
| Rsa.DerivedKeyReduces | rsa_lib.c:251 | for any m, decryption of the encryption of m gives m mod n |
| Rsa.UninvertibleKeyDecryptsToOne | rsa_lib.c:92 | when mpz_invert fails and d is taken as 0, every ciphertext decrypts to 1, the one-byte text 0x01 |
| Rsa.CheckedMessageFits | rsa_lib.c:150 | a message passing the size check has fewer than 1024 bytes when KEY_SIZE <= 8184 |
| Rsa.BitsBoundBytes | rsa_lib.c:254 | a number of at most 8k bits has at most k base-256 digits |
| Rsa.NoPlaintextOverflow | rsa_lib.c:254 | a modulus of at most 256^1023 never overflows message_str |
| Rsa.PhiBelowModulus | rsa_lib.c:86 | phi < n, so the decimal d is no longer than n |
| Rsa.PublicFileReadsBack | rsa_lib.c:109 | the public key file of a derived key reads back as (n, e) |
| Rsa.PrivateFileReadsBack | rsa_lib.c:121 | the private key file of a derived key reads back as (n, d) |
| Rsa.PipelineDecrypts | rsa_lib.c:181-251 | through the three files, decrypt_message shows the decoding of m mod n |
| Rsa.RoundTrip | rsa_lib.c:139-258 | every C string below n that passes the size check comes back unchanged through key files, encryption, ciphertext file and decryption (with decodeBase256 guarded for 0; as written the empty string hits rsa_lib.c:53) |
| Rsa.EmptyMessageDecodesZero | rsa_lib.c:255 | the empty message encrypts to 0 and decrypt_message then decodes the number 0 |
| Rsa.GuardAdmitsUnrecoverable | rsa_lib.c:150-155 | a message at or above n within KEY_SIZE bits is encrypted, and decryption does not give it back |
| Rsa.SmallKeyCounterexample | rsa_lib.c:150 | p = 11, q = 13, KEY_SIZE = 1024: the byte 200 is encrypted and comes back as 57 |
| Rsa.EncryptChecked | rsa_lib.c:150-181 | corrected check: a ciphertext is produced only for m below the n read, and then equals Encrypt's |
| Rsa.CheckedRoundTrip | rsa_lib.c:139-258 | with the corrected check every encrypted C string comes back unchanged |
| Rsa.CheckedRejectsOnlyLarge | rsa_lib.c:150-181 | the corrected check accepts a message within KEY_SIZE bits exactly when it is below n |

## Left out

- File and console I/O: files are modelled as their text, and a failed `fopen` as `None`. The following are not modelled:
  - the path building with `snprintf` (rsa_lib.c:97-98);
  - the writes, whose failures are only reported on stderr;
  - the hard-coded output name `ciphertext_file` (rsa_lib.c:187);
  - `puts`/`printf`/`fprintf` messages.
  The `printf` of the plaintext is the C string `Rsa.Decrypt` returns.
- The wrapper program: rsa_cli.py is not part of this model. It only parses options and calls the library through ctypes.
- Randomness: `time(NULL)` seeding and the GMP random state (rsa_lib.c:14-16, 24) are replaced by a nondeterministic choice below 2^bits. Each call of `generate_random_prime` reseeds from the clock, so two calls in the same second return the same prime: q at rsa_lib.c:74 then equals p, and the loop at rsa_lib.c:75-77 repeats until the clock ticks. The model's independent draws include these runs but do not tie one draw to another.
- KeyGen.GenerateRandomPrime: the C do-while loop is unbounded, and its termination is a probabilistic argument. The model stops after `maxDraws` rounds and returns `None`. `KeyGen.GenerateRsaKeys` bounds the `p == q` redraw loop the same way.
- KeyGen.GenerateRandomPrime: gives no upper bound on the bit length. The model can say nothing about bit_size + 1 without Bertrand's postulate.
- Primes.NextPrime: models GMP's `mpz_nextprime` as the exact least prime above x. GMP's probabilistic primality test, which may err with negligible probability, is not modelled.
- GMP internals: limbs, allocation, `mpz_init`/`mpz_clear`, `free`.
- GMP's `mpz_powm` with modulus 0 divides by zero. It is modelled as the error `DivisionByZero`, not as a crash.
- Records.ParseDecimal: handles unsigned numbers only. GMP's `mpz_set_str` also accepts a leading '-'; the files the library writes never contain one.
- Records.ReadField: a line of one character (fgets never returns an empty one) leaves `buffer + 2` past its NUL. The buffer is reused across fgets calls (rsa_lib.c:167-176, 222-246), so C then parses the leftover of the previous line still in the buffer: with a 6-byte buffer, the file "n:143\ne:7" has second line "\n", and C sets e to 143. Only before the first fgets is that memory uninitialised. The model does not track the buffer's leftover contents: it treats such a line as a failed parse, so the number keeps its previous value (`ReadKeyFile("n:143\ne:7", 6)` gives (143, 0)). With the 512-byte buffer this needs a line of at least 511 characters, such as an n of 509 decimal digits.
- Rsa.Plaintext: decodes with `Base256.DecodeBase256`, the decoder whose reversal is guarded for 0 (see Findings), and so do `Rsa.Decrypt`, `Rsa.DecryptMessage` and `Rsa.RoundTrip`. `Plaintext(0)` is the empty text, while the C code as written swaps `string[0]` with `string[SIZE_MAX]` for 0 (rsa_lib.c:53).
- Rsa.Plaintext: a plaintext longer than 1023 bytes overflows `message_str` in C, which is undefined. The model reports it as the error `PlaintextOverflow`.
- NUL bytes read by `fgets` from a file: not modelled. The records contain none.

## Findings

| source | as written | input that shows it | evidently intended | confidence | as-written member | corrected member |
|---|---|---|---|---|---|---|
| rsa_lib.c:53 | `end = i - 1` in size_t wraps to SIZE_MAX when no digit was extracted, so the first swap writes `string[SIZE_MAX]` | number == 0. Through the command-line wrapper, which refuses an empty message, it comes from a ciphertext file "c:0", or from a message whose value is a multiple of n (such as n itself when n has no zero byte), which passes the size check and encrypts to 0. A direct library call can also pass the empty message (`Rsa.EmptyMessageDecodesZero`) | no reversal when i == 0, leaving the empty string | high (not executed) | Base256.DecodeZeroSwapsOutOfBounds | Base256.DecodeBase256 |
| rsa_lib.c:150 | the check `bits(m) > KEY_SIZE` lets through messages with n <= m < 2^KEY_SIZE, which decrypt to m mod n | p = 11, q = 13, message byte 200: decrypts to byte 57 (`Rsa.SmallKeyCounterexample`); for 1024-bit keys with n < 2^1024, the 128 bytes 0xFF | reject every message with m >= n once n is known | high (not executed) | Rsa.GuardAdmitsUnrecoverable | Rsa.EncryptChecked |
