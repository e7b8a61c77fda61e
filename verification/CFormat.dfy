/**
  The pieces of the C library's formatted output that the panel frame relies
  on, after ISO/IEC 9899:2011: the `%ld` and `%0<width>ld` conversions of
  section 7.21.6.1 (default precision 1, the '0' flag padding with zeros after
  the sign up to the minimum field width, never cutting a longer rendering),
  the truncation `snprintf` performs in a buffer of fixed size (section
  7.21.6.5), and the null-terminated string such a buffer holds.
 */
module CFormat {
  import opened Wrappers

  function Pow10(k: nat): (p: nat)
    ensures p >= 1
  {
    if k == 0 then 1 else 10 * Pow10(k - 1)
  }

  predicate IsDigit(c: char)
  {
    '0' <= c <= '9'
  }

  predicate AllDigits(s: seq<char>)
  {
    forall i :: 0 <= i < |s| ==> IsDigit(s[i])
  }

  function DigitValue(c: char): (d: nat)
    requires IsDigit(c)
    ensures d <= 9
  {
    c as int - '0' as int
  }

  function DigitChar(d: nat): (c: char)
    requires d <= 9
    ensures IsDigit(c) && DigitValue(c) == d
  {
    ('0' as int + d) as char
  }

  function Zeros(k: nat): (z: seq<char>)
    ensures |z| == k && AllDigits(z)
    ensures forall i :: 0 <= i < k ==> z[i] == '0'
  {
    seq(k, _ => '0')
  }

  /** The value of a string of decimal digits; leading zeros are allowed. */
  function DigitsValue(s: seq<char>): (v: nat)
    requires AllDigits(s)
    ensures v < Pow10(|s|)
    decreases |s|
  {
    if s == [] then 0 else 10 * DigitsValue(s[..|s| - 1]) + DigitValue(s[|s| - 1])
  }

  /** The decimal digits of `n` at the default precision 1: no leading zero,
      and "0" for zero. */
  function Decimal(n: nat): (r: seq<char>)
    ensures 1 <= |r| && AllDigits(r)
    ensures r[0] == '0' <==> n == 0
    decreases n
  {
    if n < 10 then [DigitChar(n)] else Decimal(n / 10) + [DigitChar(n % 10)]
  }

  /** The `%ld` conversion: a minus sign for a negative value, then its digits. */
  function SignedDecimal(v: int): (r: seq<char>)
    ensures 1 <= |r|
    ensures r[0] == '-' <==> v < 0
    ensures v < 0 ==> |r| >= 2 && AllDigits(r[1..])
    ensures v >= 0 ==> AllDigits(r)
  {
    if v < 0 then
      var r := ['-'] + Decimal(-v);
      assert r[1..] == Decimal(-v);
      r
    else
      Decimal(v)
  }

  /** The digits of `n`, zero-filled on the left to at least `width` places. */
  function PaddedDigits(n: nat, width: int): (r: seq<char>)
    ensures |r| == if |Decimal(n)| >= width then |Decimal(n)| else width
    ensures |Decimal(n)| >= width ==> r == Decimal(n)
    ensures AllDigits(r)
  {
    Zeros(if width > |Decimal(n)| then width - |Decimal(n)| else 0) + Decimal(n)
  }

  /** The `%0<width>ld` conversion: the sign, if any, counts toward the width
      and the zeros go between the sign and the digits. */
  function ZeroPadded(v: int, width: nat): (r: seq<char>)
    ensures |r| == if |SignedDecimal(v)| >= width then |SignedDecimal(v)| else width
    ensures |SignedDecimal(v)| >= width ==> r == SignedDecimal(v)
    ensures v < 0 <==> (|r| > 0 && r[0] == '-')
    ensures v < 0 ==> AllDigits(r[1..])
    ensures v >= 0 ==> AllDigits(r)
  {
    if v < 0 then
      var r := ['-'] + PaddedDigits(-v, width - 1);
      assert r[1..] == PaddedDigits(-v, width - 1);
      r
    else
      PaddedDigits(v, width)
  }

  /** Within the width, the digits are right-aligned and zero-filled after any sign. */
  lemma ZeroPaddedLayout(v: int, width: nat)
    requires |SignedDecimal(v)| <= width
    ensures v >= 0 ==> ZeroPadded(v, width) == Zeros(width - |Decimal(v)|) + Decimal(v)
    ensures v < 0 ==> ZeroPadded(v, width) == ['-'] + Zeros(width - 1 - |Decimal(-v)|) + Decimal(-v)
  {
    if v >= 0 {
      assert ZeroPadded(v, width) == PaddedDigits(v, width);
    } else {
      var d := Decimal(-v);
      var z := Zeros(width - 1 - |d|);
      assert PaddedDigits(-v, width - 1) == z + d;
      assert ZeroPadded(v, width) == ['-'] + (z + d);
      assert ['-'] + (z + d) == ['-'] + z + d;
    }
  }

  /** Reads an optionally negative decimal integer; the reverse of `%ld` and `%0<width>ld`. */
  function ParseSigned(s: seq<char>): Option<int>
  {
    if |s| > 1 && s[0] == '-' && AllDigits(s[1..]) then Some(-(DigitsValue(s[1..]) as int))
    else if |s| > 0 && AllDigits(s) then Some(DigitsValue(s))
    else None
  }

  /** The characters `snprintf` stores in a buffer of `size` bytes before the
      terminating null character: output past `size - 1` characters is dropped. */
  function SnprintfStore(output: seq<char>, size: nat): (r: seq<char>)
    ensures r <= output
    ensures size == 0 ==> r == []
    ensures size > 0 ==> |r| == if |output| < size then |output| else size - 1
  {
    if size == 0 then []
    else if |output| < size then output
    else output[..size - 1]
  }

  /** The null-terminated string a buffer holds: its characters up to the first null. */
  function CString(buf: seq<char>): (r: seq<char>)
    ensures r <= buf
    ensures '\0' !in r
    ensures |r| < |buf| ==> buf[|r|] == '\0'
    decreases |buf|
  {
    if buf == [] || buf[0] == '\0' then [] else [buf[0]] + CString(buf[1..])
  }

  lemma Pow10Small()
    ensures Pow10(5) == 100000 && Pow10(6) == 1000000
  {
    assert Pow10(1) == 10;
    assert Pow10(2) == 100;
    assert Pow10(3) == 1000;
    assert Pow10(4) == 10000;
  }

  /** The digit string of `n` reads back as `n`. */
  lemma {:induction false} DecimalValue(n: nat)
    ensures DigitsValue(Decimal(n)) == n
    decreases n
  {
    if n >= 10 {
      DecimalValue(n / 10);
      var s := Decimal(n);
      assert s[..|s| - 1] == Decimal(n / 10);
    }
  }

  /** `n` has at most `k` digits exactly when it is below 10^k. */
  lemma {:induction false} DecimalFits(n: nat, k: nat)
    requires k >= 1
    ensures |Decimal(n)| <= k <==> n < Pow10(k)
    decreases n
  {
    if n < 10 {
      Pow10AtLeastTen(k);
    } else if k == 1 {
      assert |Decimal(n)| == |Decimal(n / 10)| + 1;
    } else {
      DecimalFits(n / 10, k - 1);
      assert |Decimal(n)| == |Decimal(n / 10)| + 1;
      assert n / 10 < Pow10(k - 1) <==> n < 10 * Pow10(k - 1);
    }
  }

  lemma {:induction false} Pow10AtLeastTen(k: nat)
    requires k >= 1
    ensures Pow10(k) >= 10
  {
    if k > 1 {
      Pow10AtLeastTen(k - 1);
    }
  }

  /** Zeros in front of a digit string do not change its value. */
  lemma {:induction false} LeadingZeros(k: nat, s: seq<char>)
    requires AllDigits(s)
    ensures AllDigits(Zeros(k) + s)
    ensures DigitsValue(Zeros(k) + s) == DigitsValue(s)
    decreases |s|
  {
    var t := Zeros(k) + s;
    if s == [] {
      assert t == Zeros(k);
      ZerosValue(k);
    } else {
      assert t[..|t| - 1] == Zeros(k) + s[..|s| - 1];
      LeadingZeros(k, s[..|s| - 1]);
    }
  }

  lemma {:induction false} ZerosValue(k: nat)
    ensures DigitsValue(Zeros(k)) == 0
    decreases k
  {
    if k > 0 {
      assert Zeros(k)[..k - 1] == Zeros(k - 1);
      ZerosValue(k - 1);
    }
  }

  /** Every `%0<width>ld` rendering reads back as the value it renders. */
  lemma ZeroPaddedRoundTrip(v: int, width: nat)
    ensures ParseSigned(ZeroPadded(v, width)) == Some(v)
  {
    var n := if v < 0 then -v else v;
    var w := if v < 0 then width - 1 else width;
    PaddedDigitsValue(n, w);
    if v < 0 {
      ParseNegativeDigits(PaddedDigits(n, w));
    } else {
      ParseDigits(PaddedDigits(n, w));
    }
  }

  /** Padded digits read back as the number they pad. */
  lemma PaddedDigitsValue(n: nat, width: int)
    ensures DigitsValue(PaddedDigits(n, width)) == n
  {
    DecimalValue(n);
    LeadingZeros(if width > |Decimal(n)| then width - |Decimal(n)| else 0, Decimal(n));
  }

  lemma ParseDigits(body: seq<char>)
    requires |body| > 0 && AllDigits(body)
    ensures ParseSigned(body) == Some(DigitsValue(body) as int)
  {
    assert IsDigit(body[0]);
  }

  lemma ParseNegativeDigits(body: seq<char>)
    requires |body| > 0 && AllDigits(body)
    ensures ParseSigned(['-'] + body) == Some(-(DigitsValue(body) as int))
  {
    var t := ['-'] + body;
    assert t[1..] == body;
  }

  /** No `%0<width>ld` rendering contains a null character. */
  lemma ZeroPaddedNullFree(v: int, width: nat)
    ensures '\0' !in ZeroPadded(v, width)
  {
    var r := ZeroPadded(v, width);
    if v < 0 {
      assert r == [r[0]] + r[1..];
      assert forall i :: 0 <= i < |r[1..]| ==> IsDigit(r[1..][i]);
    } else {
      assert forall i :: 0 <= i < |r| ==> IsDigit(r[i]);
    }
  }

  /** A prefix of a null-free sequence is null-free. */
  lemma PrefixNullFree(buf: seq<char>, output: seq<char>)
    requires buf <= output && '\0' !in output
    ensures '\0' !in buf
  {
    assert forall i :: 0 <= i < |buf| ==> buf[i] == output[i];
  }

  /** Every `%ld` rendering reads back as the value it renders. */
  lemma SignedDecimalRoundTrip(v: int)
    ensures ParseSigned(SignedDecimal(v)) == Some(v)
  {
    ZeroPaddedRoundTrip(v, 0);
  }

  /** A null-free buffer is its own string. */
  lemma {:induction false} CStringOfNullFree(buf: seq<char>)
    requires '\0' !in buf
    ensures CString(buf) == buf
    decreases |buf|
  {
    if buf != [] {
      CStringOfNullFree(buf[1..]);
    }
  }
}
