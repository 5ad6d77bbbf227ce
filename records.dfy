/**
 * The text files of rsa_lib.c: numbers written in decimal by mpz_get_str, the
 * key records "n:<n>\ne:<e>" and "n:<n>\nd:<d>", the ciphertext record
 * "c:<c>", and how they are read back: fgets into a fixed buffer, then
 * mpz_set_str on the text after the two-character tag.
 */
module Records {
  import opened Wrappers
  import opened Arithmetic

  predicate IsDigit(c: char) {
    '0' <= c <= '9'
  }

  /** The white space that mpz_set_str skips (C isspace). */
  predicate IsSpace(c: char) {
    c == ' ' || c == '\t' || c == '\n' || c == '\U{B}' || c == '\U{C}' || c == '\r'
  }

  predicate AllDigits(s: string) {
    forall i :: 0 <= i < |s| ==> IsDigit(s[i])
  }

  function DigitChar(v: nat): (c: char)
    requires v < 10
    ensures IsDigit(c)
  {
    (48 + v) as char
  }

  function DigitValue(c: char): (v: nat)
    requires IsDigit(c)
    ensures v < 10
  {
    c as int - 48
  }

  // ---------------------------------------------------------------------
  // mpz_get_str(NULL, 10, x) and the value of a digit string
  // ---------------------------------------------------------------------

  /** The decimal text of x, with no leading zero; "0" for zero. */
  function Dec(x: nat): (s: string)
    ensures s != [] && AllDigits(s)
    ensures |s| > 1 ==> s[0] != '0'
  {
    if x < 10 then [DigitChar(x)] else Dec(x / 10) + [DigitChar(x % 10)]
  }

  /** The number a string of decimal digits denotes. */
  function DecValue(s: string): nat
    requires AllDigits(s)
  {
    if s == [] then 0 else DecValue(s[..|s| - 1]) * 10 + DigitValue(s[|s| - 1])
  }

  lemma {:induction false} DigitRoundTrip(v: nat)
    requires v < 10
    ensures DigitValue(DigitChar(v)) == v
  {
  }

  /** Reading back what mpz_get_str wrote gives the number. */
  lemma {:induction false} DecValueOfDec(x: nat)
    ensures DecValue(Dec(x)) == x
  {
    if x >= 10 {
      DecValueOfDec(x / 10);
      var s := Dec(x);
      assert s[..|s| - 1] == Dec(x / 10);
    }
  }

  /** A digit string without a leading zero is the text mpz_get_str writes for its value. */
  lemma {:induction false} DecOfDecValue(s: string)
    requires s != [] && AllDigits(s) && (|s| == 1 || s[0] != '0')
    ensures Dec(DecValue(s)) == s
  {
    var v := DecValue(s);
    var init, last := s[..|s| - 1], s[|s| - 1];
    assert DecValue(s) == DecValue(init) * 10 + DigitValue(last);
    DivModUnique(v, DecValue(init), DigitValue(last), 10);
    if |s| > 1 {
      DecOfDecValue(init);
      LeadingDigitValue(init);
      assert [DigitChar(DigitValue(last))] == [last];
    } else {
      assert DecValue(init) == 0;
    }
  }

  lemma {:induction false} LeadingDigitValue(s: string)
    requires s != [] && AllDigits(s) && s[0] != '0'
    ensures DecValue(s) > 0
    decreases |s|
  {
    if |s| > 1 {
      LeadingDigitValue(s[..|s| - 1]);
    }
  }

  /** A larger number never has a shorter decimal text. */
  lemma {:induction false} DecLengthMonotone(x: nat, y: nat)
    requires x <= y
    ensures |Dec(x)| <= |Dec(y)|
  {
    if x >= 10 {
      DecLengthMonotone(x / 10, y / 10);
    }
  }

  /** A number below 10^j has at most j decimal digits. */
  lemma {:induction false} DecLengthBound(x: nat, j: nat)
    requires j >= 1 && x < Pow(10, j)
    ensures |Dec(x)| <= j
  {
    assert Pow(10, 1) == 10;
    if x >= 10 {
      assert Pow(10, j) == 10 * Pow(10, j - 1);
      DecLengthBound(x / 10, j - 1);
    }
  }

  /** 2^(3j) <= 10^j, so a number of 3j bits has at most j decimal digits. */
  lemma {:induction false} BinaryBelowDecimal(j: nat)
    ensures Pow(2, 3 * j) <= Pow(10, j)
  {
    PowMul(2, 3, j);
    assert Pow(2, 3) == 8;
    PowMonotoneBase(8, 10, j);
  }

  lemma BitsBoundDigits(x: nat, j: nat)
    requires j >= 1 && x < Pow(2, 3 * j)
    ensures |Dec(x)| <= j
  {
    BinaryBelowDecimal(j);
    DecLengthBound(x, j);
  }

  // ---------------------------------------------------------------------
  // mpz_set_str(rop, s, 10)
  // ---------------------------------------------------------------------

  /** s without its white space. */
  function Strip(s: string): (t: string)
    ensures |t| <= |s|
  {
    if s == [] then []
    else (if IsSpace(s[0]) then [] else [s[0]]) + Strip(s[1..])
  }

  /**
   * mpz_set_str(rop, s, 10) for the unsigned numbers the records hold: white
   * space anywhere is ignored, and the rest must be a non-empty string of
   * digits, otherwise the call fails (returns -1) and rop is left as it was.
   */
  function ParseDecimal(s: string): Option<nat> {
    var t := Strip(s);
    if t != [] && AllDigits(t) then Some(DecValue(t)) else None
  }

  lemma {:induction false} StripAppend(a: string, b: string)
    ensures Strip(a + b) == Strip(a) + Strip(b)
    decreases |a|
  {
    if a != [] {
      assert (a + b)[0] == a[0];
      assert (a + b)[1..] == a[1..] + b;
      StripAppend(a[1..], b);
    } else {
      assert a + b == b;
    }
  }

  lemma {:induction false} StripDigits(s: string)
    requires AllDigits(s)
    ensures Strip(s) == s
  {
    if s != [] {
      assert !IsSpace(s[0]);
      StripDigits(s[1..]);
    }
  }

  /** The decimal text of x, with or without a line break after it, parses back to x. */
  lemma ParseDec(x: nat, tail: string)
    requires tail == [] || tail == ['\n']
    ensures ParseDecimal(Dec(x) + tail) == Some(x)
  {
    StripAppend(Dec(x), tail);
    StripDigits(Dec(x));
    if tail != [] {
      assert Strip(tail) == [] + Strip(tail[1..]);
      assert tail[1..] == [];
    }
    assert Dec(x) + tail == Dec(x) + tail;
    assert Strip(Dec(x) + tail) == Dec(x);
    DecValueOfDec(x);
  }

  /** Text with a character mpz_set_str cannot take in base 10 is rejected. */
  lemma ParseRejects(s: string, i: nat)
    requires i < |s| && !IsDigit(s[i]) && !IsSpace(s[i])
    ensures ParseDecimal(s) == None
  {
    StripKeeps(s, i);
  }

  lemma {:induction false} StripKeeps(s: string, i: nat)
    requires i < |s| && !IsSpace(s[i])
    ensures s[i] in Strip(s)
  {
    if i == 0 {
      assert Strip(s)[0] == s[0];
    } else {
      StripKeeps(s[1..], i - 1);
      assert s[1..][i - 1] == s[i];
    }
  }

  // ---------------------------------------------------------------------
  // fgets(buffer, size, stream)
  // ---------------------------------------------------------------------

  /** At most max characters of s, up to and including the first line break. */
  function TakeLine(s: string, max: nat): (line: string)
    ensures |line| <= max && |line| <= |s| && line == s[..|line|]
  {
    if max == 0 || s == [] then []
    else if s[0] == '\n' then ['\n']
    else [s[0]] + TakeLine(s[1..], max - 1)
  }

  /**
   * fgets with a buffer of size characters on a stream holding the text s:
   * NULL at the end of the stream, else at most size - 1 characters, stopping
   * after a line break; the rest of the stream stays unread.
   */
  function FGets(s: string, size: nat): (r: Option<(string, string)>)
    requires size >= 1
    ensures r.None? <==> s == []
    ensures r.Some? ==> r.value.0 + r.value.1 == s && |r.value.0| < size
  {
    if s == [] then None
    else
      var line := TakeLine(s, size - 1);
      assert line + s[|line|..] == s;
      Some((line, s[|line|..]))
  }

  lemma {:induction false} TakeLineBreak(a: string, b: string, max: nat)
    requires '\n' !in a && |a| + 1 <= max
    ensures TakeLine(a + ['\n'] + b, max) == a + ['\n']
    decreases |a|
  {
    var s := a + ['\n'] + b;
    if a == [] {
      assert s[0] == '\n';
    } else {
      assert s[0] == a[0] && s[1..] == a[1..] + ['\n'] + b;
      TakeLineBreak(a[1..], b, max - 1);
      assert a == [a[0]] + a[1..];
    }
  }

  lemma {:induction false} TakeLineAll(a: string, max: nat)
    requires '\n' !in a && |a| <= max
    ensures TakeLine(a, max) == a
    decreases |a|
  {
    if a != [] {
      assert a[0] != '\n';
      TakeLineAll(a[1..], max - 1);
      assert a == [a[0]] + a[1..];
    }
  }

  lemma DecHasNoBreak(x: nat)
    ensures '\n' !in Dec(x)
  {
    var s := Dec(x);
    forall i | 0 <= i < |s|
      ensures s[i] != '\n'
    {
      assert IsDigit(s[i]);
    }
  }

  // ---------------------------------------------------------------------
  // Records as written and as read
  // ---------------------------------------------------------------------

  /** "n:%s\n<tag>:%s": the public key file (tag 'e') and the private key file (tag 'd'). */
  function KeyRecord(tag: char, n: nat, x: nat): string {
    "n:" + Dec(n) + "\n" + [tag, ':'] + Dec(x)
  }

  function PublicKeyRecord(n: nat, e: nat): string {
    KeyRecord('e', n, e)
  }

  function PrivateKeyRecord(n: nat, d: nat): string {
    KeyRecord('d', n, d)
  }

  /** "c:%s": the ciphertext file. */
  function CiphertextRecord(c: nat): string {
    "c:" + Dec(c)
  }

  /** mpz_set_str(x, buffer + 2, 10) on a line read by fgets; None where x is left unchanged. */
  function ReadField(line: string): Option<nat> {
    if |line| >= 2 then ParseDecimal(line[2..]) else None
  }

  /** The number a field leaves in its mpz_t, which mpz_inits set to 0. */
  function FieldOrZero(line: Option<(string, string)>): nat {
    if line.None? then 0
    else match ReadField(line.value.0)
      case Some(v) => v
      case None => 0
  }

  /**
   * The two numbers a key file leaves in n and e (or d): two fgets calls into
   * a buffer of bufferSize characters, each followed by mpz_set_str on the
   * text after the tag.
   */
  function ReadKeyFile(s: string, bufferSize: nat): (nat, nat)
    requires bufferSize >= 1
  {
    var first := FGets(s, bufferSize);
    var second := if first.None? then None else FGets(first.value.1, bufferSize);
    (FieldOrZero(first), FieldOrZero(second))
  }

  /** The number a ciphertext file leaves in ciphertext: one fgets and mpz_set_str. */
  function ReadCiphertextFile(s: string, bufferSize: nat): (c: nat)
    requires bufferSize >= 1
  {
    FieldOrZero(FGets(s, bufferSize))
  }

  /** A key record reads back as the numbers written, when both lines fit the buffer. */
  lemma KeyRecordRoundTrip(tag: char, n: nat, x: nat, bufferSize: nat)
    requires tag != '\n'
    requires |Dec(n)| + 3 < bufferSize && |Dec(x)| + 2 < bufferSize
    ensures ReadKeyFile(KeyRecord(tag, n, x), bufferSize) == (n, x)
  {
    var rest := [tag, ':'] + Dec(x);
    var s := KeyRecord(tag, n, x);
    assert s == "n:" + Dec(n) + "\n" + rest;
    FirstLine(n, rest, bufferSize);
    var first := FGets(s, bufferSize);
    assert first.Some? && first.value.1 == rest;
    LastLine([tag, ':'], x, bufferSize);
    assert FieldOrZero(first) == n;
    assert FieldOrZero(FGets(rest, bufferSize)) == x;
  }

  /** A ciphertext record reads back as the number written, when it fits the buffer. */
  lemma CiphertextRecordRoundTrip(c: nat, bufferSize: nat)
    requires |Dec(c)| + 2 < bufferSize
    ensures ReadCiphertextFile(CiphertextRecord(c), bufferSize) == c
  {
    LastLine("c:", c, bufferSize);
  }

  /** fgets takes "n:<n>\n" off the front of a key file, and the field reads as n. */
  lemma FirstLine(n: nat, rest: string, bufferSize: nat)
    requires |Dec(n)| + 3 < bufferSize
    ensures FGets("n:" + Dec(n) + "\n" + rest, bufferSize) == Some(("n:" + Dec(n) + "\n", rest))
    ensures FieldOrZero(FGets("n:" + Dec(n) + "\n" + rest, bufferSize)) == n
  {
    var a := "n:" + Dec(n);
    TaggedNoBreak("n:", n);
    assert "n:" + Dec(n) + "\n" + rest == a + ['\n'] + rest;
    TakeLineBreak(a, rest, bufferSize - 1);
    assert (a + ['\n'])[2..] == Dec(n) + ['\n'];
    ParseDec(n, ['\n']);
  }

  /** fgets reads a last line "<tag><x>" whole, and the field after the tag reads as x. */
  lemma LastLine(tag: string, x: nat, bufferSize: nat)
    requires |tag| == 2 && '\n' !in tag && |Dec(x)| + 2 < bufferSize
    ensures FGets(tag + Dec(x), bufferSize) == Some((tag + Dec(x), []))
    ensures FieldOrZero(FGets(tag + Dec(x), bufferSize)) == x
  {
    var b := tag + Dec(x);
    TaggedNoBreak(tag, x);
    TakeLineAll(b, bufferSize - 1);
    assert b[|b|..] == [];
    assert b[2..] == Dec(x) + [];
    ParseDec(x, []);
  }

  lemma TaggedNoBreak(tag: string, x: nat)
    requires '\n' !in tag
    ensures '\n' !in tag + Dec(x)
  {
    DecHasNoBreak(x);
  }
}
