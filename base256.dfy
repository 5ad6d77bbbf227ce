/**
 * The base-256 codec of rsa_lib.c: encodeBase256 folds a NUL-terminated byte
 * string into a number, most significant byte first; decodeBase256 writes the
 * base-256 digits of a number back into a caller's buffer, least significant
 * first, and then reverses them in place.
 */
module Base256 {
  import opened Arithmetic

  /** A C char read as unsigned, as the codec does. */
  type Byte = b: int | 0 <= b < 256

  // ---------------------------------------------------------------------
  // Specification: digit strings and their values
  // ---------------------------------------------------------------------

  /** The big-endian base-256 value of a digit string (OS2IP without a fixed length). */
  function ValueOf(s: seq<Byte>): (r: nat)
    ensures r < Pow(256, |s|)
  {
    if |s| == 0 then 0 else ValueOf(s[..|s| - 1]) * 256 + s[|s| - 1]
  }

  /** The shortest big-endian base-256 digit string of x (I2OSP without a fixed length). */
  function Digits(x: nat): (r: seq<Byte>)
    ensures ValueOf(r) == x
    ensures r == [] <==> x == 0
    ensures r != [] ==> r[0] != 0
    ensures x < Pow(256, |r|)
    ensures r != [] ==> Pow(256, |r| - 1) <= x
  {
    if x == 0 then []
    else
      var r := Digits(x / 256) + [x % 256];
      assert r[..|r| - 1] == Digits(x / 256);
      r
  }

  /** The bytes of a C string: everything before the first NUL. */
  function CString(s: seq<Byte>): (r: seq<Byte>)
    requires 0 in s
    ensures |r| < |s| && r == s[..|r|] && s[|r|] == 0
    ensures 0 !in r
  {
    if s[0] == 0 then [] else [s[0]] + CString(s[1..])
  }

  function Reverse(s: seq<Byte>): (r: seq<Byte>)
    ensures |r| == |s|
    ensures forall k :: 0 <= k < |s| ==> r[k] == s[|s| - 1 - k]
  {
    if s == [] then [] else [s[|s| - 1]] + Reverse(s[..|s| - 1])
  }

  // ---------------------------------------------------------------------
  // Properties of the codec
  // ---------------------------------------------------------------------

  lemma {:induction false} ValueOfAppend(a: seq<Byte>, b: seq<Byte>)
    ensures ValueOf(a + b) == ValueOf(a) * Pow(256, |b|) + ValueOf(b)
    decreases |b|
  {
    if |b| == 0 {
      assert a + b == a;
    } else {
      var b' := b[..|b| - 1];
      var last := b[|b| - 1];
      assert (a + b)[..|a + b| - 1] == a + b';
      ValueOfAppend(a, b');
      assert ValueOf(a + b) == ValueOf(a + b') * 256 + last;
      assert Pow(256, |b|) == 256 * Pow(256, |b'|);
      assert ValueOf(b) == ValueOf(b') * 256 + last;
      ShiftArith(ValueOf(a), Pow(256, |b'|), ValueOf(b'), last);
    }
  }

  /** The ring identity behind one step of ValueOfAppend. */
  lemma ShiftArith(v: int, p: int, w: int, last: int)
    ensures (v * p + w) * 256 + last == v * (256 * p) + (w * 256 + last)
  {
  }

  /** A digit string with a nonzero leading digit has a positive value. */
  lemma {:induction false} LeadingDigitPositive(s: seq<Byte>)
    requires s != [] && s[0] != 0
    ensures ValueOf(s) > 0
    decreases |s|
  {
    if |s| > 1 {
      LeadingDigitPositive(s[..|s| - 1]);
    }
  }

  /**
   * Decoding what was encoded gives the digits back, provided there is no
   * leading zero digit (a zero byte in front contributes nothing to the value).
   */
  lemma {:induction false} DigitsOfValue(s: seq<Byte>)
    requires s == [] || s[0] != 0
    ensures Digits(ValueOf(s)) == s
    decreases |s|
  {
    if s != [] {
      var s' := s[..|s| - 1];
      var v := ValueOf(s);
      LeadingDigitPositive(s);
      DivModUnique(v, ValueOf(s'), s[|s| - 1], 256);
      if s' != [] {
        DigitsOfValue(s');
      }
      assert Digits(v) == Digits(ValueOf(s')) + [s[|s| - 1]];
    }
  }

  /** Round trip: every C string (no NUL byte inside) survives encode then decode. */
  lemma DecodeEncodeRoundTrip(s: seq<Byte>)
    requires 0 !in s
    ensures Digits(ValueOf(s)) == s
  {
    if s != [] {
      assert s[0] in s;
    }
    DigitsOfValue(s);
  }

  /** A C string read from s plus anything after it is the C string read from s. */
  lemma {:induction false} CStringPrefix(s: seq<Byte>, t: seq<Byte>)
    requires 0 in s
    ensures CString(s + t) == CString(s)
    decreases |s|
  {
    assert (s + t)[0] == s[0];
    if s[0] != 0 {
      assert 0 in s[1..];
      assert (s + t)[1..] == s[1..] + t;
      CStringPrefix(s[1..], t);
    }
  }

  /** The C string made of bytes without NUL, followed by NUL, is those bytes. */
  lemma CStringOfTerminated(s: seq<Byte>)
    requires 0 !in s
    ensures CString(s + [0]) == s
  {
    var r := CString(s + [0]);
    assert |r| == |s|;
  }

  /**
   * Converse round trip: reading back the digits of x as a C string gives x
   * exactly when no digit of x is a zero byte (otherwise the string stops
   * early at the first zero digit).
   */
  lemma EncodeDecodeRoundTrip(x: nat)
    ensures ValueOf(CString(Digits(x) + [0])) == x <==> 0 !in Digits(x)
  {
    var d := Digits(x);
    if 0 !in d {
      CStringOfTerminated(d);
    } else {
      CStringPrefix(d, [0]);
      TruncatedValueSmaller(d);
    }
  }

  /** Stopping at an inner zero digit loses value. */
  lemma TruncatedValueSmaller(d: seq<Byte>)
    requires 0 in d && d[0] != 0
    ensures ValueOf(CString(d)) < ValueOf(d)
  {
    var r := CString(d);
    var rest := d[|r|..];
    assert d == r + rest;
    assert |r| > 0 && r[0] == d[0];
    PrefixValueSmaller(r, rest);
  }

  lemma PrefixValueSmaller(r: seq<Byte>, rest: seq<Byte>)
    requires r != [] && r[0] != 0 && rest != []
    ensures ValueOf(r) < ValueOf(r + rest)
  {
    LeadingDigitPositive(r);
    ValueOfAppend(r, rest);
    PowMonotoneExponent(256, 1, |rest|);
    assert Pow(256, 1) == 256;
    ShiftGrows(ValueOf(r), Pow(256, |rest|), ValueOf(rest));
  }

  lemma ShiftGrows(v: nat, p: nat, w: nat)
    requires v > 0 && p >= 256
    ensures v < v * p + w
  {
    MulLeftMonotone(v, 256, p);
  }

  /** Printing digits of y as a C string never shows more than y. */
  lemma CStringOfDigitsAtMost(y: nat)
    ensures ValueOf(CString(Digits(y) + [0])) <= y
  {
    EncodeDecodeRoundTrip(y);
    var d := Digits(y);
    if 0 in d {
      CStringPrefix(d, [0]);
      TruncatedValueSmaller(d);
    }
  }

  /** A number below 256^k has at most k base-256 digits. */
  lemma DigitsLengthBound(x: nat, k: nat)
    requires x < Pow(256, k)
    ensures |Digits(x)| <= k
  {
    var r := Digits(x);
    if r != [] && k + 1 <= |r| {
      PowMonotoneExponent(256, k, |r| - 1);
    }
  }

  /** A buffer holding digits p and then a NUL reads as the same C string as p + [0]. */
  lemma TerminatedBuffer(s: seq<Byte>, p: seq<Byte>)
    requires |p| < |s| && s[..|p|] == p && s[|p|] == 0
    ensures 0 in s && CString(s) == CString(p + [0])
  {
    assert s == (p + [0]) + s[|p| + 1..];
    CStringPrefix(p + [0], s[|p| + 1..]);
  }

  // ---------------------------------------------------------------------
  // The C functions
  // ---------------------------------------------------------------------

  /** encodeBase256(number, string): the value of the bytes before the NUL. */
  method EncodeBase256(str: array<Byte>) returns (number: nat)
    requires 0 in str[..]
    ensures number == ValueOf(CString(str[..]))
  {
    ghost var text := CString(str[..]);
    number := 0;
    var i := 0;
    while str[i] != 0
      invariant i <= |text|
      invariant str[..i] == text[..i]
      invariant number == ValueOf(text[..i])
      decreases |text| - i
    {
      assert text[..i + 1][..i] == text[..i];
      number := number * 256 + str[i];
      i := i + 1;
    }
    assert text[..i] == text;
  }

  /**
   * decodeBase256(string, number), with the reversal guarded for number == 0
   * (see ReversalEnd for the unguarded C loop). Afterwards the buffer starts
   * with the big-endian digits of number followed by a NUL; the bytes after
   * that NUL are untouched.
   */
  method DecodeBase256(str: array<Byte>, number: nat)
    requires |Digits(number)| < str.Length
    modifies str
    ensures str[..|Digits(number)|] == Digits(number)
    ensures str[|Digits(number)|] == 0
    ensures forall j :: |Digits(number)| < j < str.Length ==> str[j] == old(str[j])
  {
    var i := ExtractDigits(str, number);
    str[i] := 0;
    ReversePrefix(str, i);
  }

  /**
   * The first loop of decodeBase256: it stores number's base-256 digits,
   * least significant first, and returns how many it stored.
   */
  method ExtractDigits(str: array<Byte>, number: nat) returns (i: nat)
    requires |Digits(number)| < str.Length
    modifies str
    ensures i == |Digits(number)|
    ensures Reverse(str[..i]) == Digits(number)
    ensures str[i..] == old(str[i..])
  {
    var temp := number;
    i := 0;
    while temp > 0
      invariant i + |Digits(temp)| == |Digits(number)|
      invariant Digits(number) == Digits(temp) + Reverse(str[..i])
      invariant str[i..] == old(str[i..])
      decreases temp
    {
      ghost var before := str[..i];
      ghost var after := str[i + 1..];
      str[i] := temp % 256;
      assert str[..i + 1] == before + [temp % 256];
      assert str[i + 1..] == after;
      ExtractStep(temp, before);
      temp := temp / 256;
      i := i + 1;
    }
  }

  /** One step of the extraction loop: the lowest digit moves from temp to the buffer. */
  lemma ExtractStep(temp: nat, before: seq<Byte>)
    requires temp > 0
    ensures Digits(temp) + Reverse(before) == Digits(temp / 256) + Reverse(before + [temp % 256])
  {
    var b: Byte := temp % 256;
    assert (before + [b])[..|before|] == before;
    assert Reverse(before + [b]) == [b] + Reverse(before);
  }

  /**
   * The in-place reversal loop of decodeBase256 over string[0..len), run only
   * when len > 0: it swaps string[start] and string[end] while start < end.
   */
  method ReversePrefix(str: array<Byte>, len: nat)
    requires len <= str.Length
    modifies str
    ensures str[..len] == Reverse(old(str[..len]))
    ensures forall j :: len <= j < str.Length ==> str[j] == old(str[j])
  {
    if len > 0 {
      ghost var was := str[..len];
      var start, end := 0, len - 1;
      while start < end
        invariant 0 <= start <= end + 1 && end < len && start + end == len - 1
        invariant forall k :: 0 <= k < start ==> str[k] == was[len - 1 - k]
        invariant forall k :: end < k < len ==> str[k] == was[len - 1 - k]
        invariant forall k :: start <= k <= end ==> str[k] == was[k]
        invariant forall j :: len <= j < str.Length ==> str[j] == old(str[j])
        decreases end - start
      {
        str[start], str[end] := str[end], str[start];
        start := start + 1;
        end := end - 1;
      }
      assert forall k :: 0 <= k < len ==> str[k] == was[len - 1 - k];
    }
  }

  // ---------------------------------------------------------------------
  // decodeBase256 as written, for number == 0
  // ---------------------------------------------------------------------

  /**
   * A 64-bit size_t. Any width whose largest value is at least the buffer
   * length gives the same conclusion.
   */
  const SizeTModulus: nat := 0x1_0000_0000_0000_0000

  /**
   * The initial `end` of the C reversal loop, `i - 1` evaluated in size_t
   * arithmetic: one below i, except that it wraps to the largest size_t when
   * no digit was extracted.
   */
  function ReversalEnd(i: nat): (end: nat)
    requires i < SizeTModulus
    ensures end < SizeTModulus
    ensures i > 0 ==> end + 1 == i
    ensures i == 0 ==> end == SizeTModulus - 1
  {
    (i + SizeTModulus - 1) % SizeTModulus
  }

  /**
   * For number == 0 the C code extracts no digit, so the reversal loop starts
   * with start == 0 < end == SIZE_MAX and its first swap writes string[SIZE_MAX],
   * past the end of any buffer.
   */
  lemma DecodeZeroSwapsOutOfBounds(bufferLength: nat)
    requires bufferLength < SizeTModulus
    ensures |Digits(0)| == 0
    ensures 0 < ReversalEnd(|Digits(0)|) && bufferLength <= ReversalEnd(|Digits(0)|)
  {
  }

  /** For every positive number the unguarded loop only touches string[0..i). */
  lemma DecodePositiveSwapsInBounds(number: nat)
    requires 0 < number && |Digits(number)| < SizeTModulus
    ensures ReversalEnd(|Digits(number)|) < |Digits(number)|
  {
  }
}
