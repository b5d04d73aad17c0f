/**
 * Base-16 text in both directions: Python's `format(n, "0<width>X")`
 * (upper-case digits, zero-padded to at least `width` characters) and
 * `int(s, 16)` restricted to strings of hexadecimal digits.
 */
module Hex {
  import opened Results

  /** A digit `int(s, 16)` accepts: either case. */
  predicate IsHexDigit(c: char) {
    '0' <= c <= '9' || 'A' <= c <= 'F' || 'a' <= c <= 'f'
  }

  /** A digit the `X` format produces: upper case only. */
  predicate IsUpperHexDigit(c: char) {
    '0' <= c <= '9' || 'A' <= c <= 'F'
  }

  /** A non-empty run of hexadecimal digits. */
  predicate IsHexString(s: string) {
    |s| > 0 && forall i :: 0 <= i < |s| ==> IsHexDigit(s[i])
  }

  predicate IsUpperHexString(s: string) {
    forall i :: 0 <= i < |s| ==> IsUpperHexDigit(s[i])
  }

  function DigitValue(c: char): (d: nat)
    requires IsHexDigit(c)
    ensures d < 16
  {
    if '0' <= c <= '9' then c as int - '0' as int
    else if 'A' <= c <= 'F' then c as int - 'A' as int + 10
    else c as int - 'a' as int + 10
  }

  function DigitChar(d: nat): (c: char)
    requires d < 16
    ensures IsUpperHexDigit(c) && DigitValue(c) == d
  {
    if d < 10 then ('0' as int + d) as char else ('A' as int + d - 10) as char
  }

  /** The number a string of hexadecimal digits denotes, most significant first. */
  function HexValue(s: string): nat
    requires forall i :: 0 <= i < |s| ==> IsHexDigit(s[i])
  {
    if s == [] then 0 else HexValue(s[..|s| - 1]) * 16 + DigitValue(s[|s| - 1])
  }

  /** Appending a digit multiplies by sixteen and adds the digit. */
  lemma HexValueAppend(s: string, c: char)
    requires IsHexString(s) && IsHexDigit(c)
    ensures IsHexString(s + [c]) && HexValue(s + [c]) == HexValue(s) * 16 + DigitValue(c)
  {
    assert (s + [c])[..|s|] == s;
  }

  /** `int(s, 16)`: the value of a non-empty hexadecimal literal, or `None` (a `ValueError`). */
  function ParseHex(s: string): (r: Option<nat>)
    ensures r.Some? <==> IsHexString(s)
  {
    if IsHexString(s) then Some(HexValue(s)) else None
  }

  function Pow16(k: nat): (p: nat)
    ensures p >= 1
  {
    if k == 0 then 1 else 16 * Pow16(k - 1)
  }

  /** `format(n, "X")`: the shortest upper-case hexadecimal numeral for `n`. */
  function Digits(n: nat): (s: string)
    ensures |s| >= 1 && IsUpperHexString(s)
    ensures |s| > 1 ==> s[0] != '0'
    ensures HexValue(s) == n
  {
    if n < 16 then [DigitChar(n)]
    else
      var s := Digits(n / 16) + [DigitChar(n % 16)];
      assert s[..|s| - 1] == Digits(n / 16);
      s
  }

  function Zeros(k: nat): (s: string)
    ensures |s| == k && forall i :: 0 <= i < k ==> s[i] == '0'
  {
    seq(k, i => '0')
  }

  /** `s` preceded by enough zeros to make it at least `width` long. */
  function PadZeros(s: string, width: int): (r: string)
    ensures |r| == if width > |s| then width else |s|
  {
    if width > |s| then Zeros(width - |s|) + s else s
  }

  /**
   * `format(n, "0<width>X")`: upper-case hexadecimal, zero-padded to at least
   * `width` characters; a negative number keeps its sign in front of the zeros.
   */
  function FormatHex(n: int, width: nat): (s: string)
    ensures n >= 0 ==> |s| == (if width > |Digits(n)| then width else |Digits(n)|)
    ensures n >= 0 ==> IsUpperHexString(s) && ParseHex(s) == Some(n)
    ensures n < 0 ==> |s| > 0 && s[0] == '-'
  {
    if n >= 0 then
      var s := PadZeros(Digits(n), width);
      assert IsUpperHexString(s) && IsHexString(s);
      LeadingZerosIgnored(width - |Digits(n)|, Digits(n));
      s
    else
      "-" + PadZeros(Digits(-n), width - 1)
  }

  /** Leading zeros do not change the value of a numeral. */
  lemma {:induction false} LeadingZerosIgnored(k: int, s: string)
    requires forall i :: 0 <= i < |s| ==> IsHexDigit(s[i])
    ensures var z := if k > 0 then Zeros(k) else [];
            (forall i :: 0 <= i < |z + s| ==> IsHexDigit((z + s)[i])) && HexValue(z + s) == HexValue(s)
    decreases |s|
  {
    var z := if k > 0 then Zeros(k) else [];
    assert forall i :: 0 <= i < |z + s| ==> IsHexDigit((z + s)[i]) by {
      forall i | 0 <= i < |z + s| ensures IsHexDigit((z + s)[i]) {
        if i < |z| { assert (z + s)[i] == '0'; } else { assert (z + s)[i] == s[i - |z|]; }
      }
    }
    if s == [] {
      assert z + s == z;
      ZerosValue(|z|);
    } else {
      var t := s[..|s| - 1];
      assert (z + s)[..|z + s| - 1] == z + t;
      LeadingZerosIgnored(k, t);
    }
  }

  lemma {:induction false} ZerosValue(k: nat)
    ensures HexValue(Zeros(k)) == 0
  {
    if k > 0 {
      assert Zeros(k)[..k - 1] == Zeros(k - 1);
      ZerosValue(k - 1);
    }
  }

  /** The shortest numeral fits in `k` digits exactly when `n < 16^k`. */
  lemma {:induction false} DigitsLength(n: nat, k: nat)
    requires k >= 1
    ensures |Digits(n)| <= k <==> n < Pow16(k)
    decreases n
  {
    if n >= 16 {
      if k == 1 {
        assert |Digits(n)| == |Digits(n / 16)| + 1;
      } else {
        DigitsLength(n / 16, k - 1);
        assert |Digits(n)| == |Digits(n / 16)| + 1;
        assert n / 16 < Pow16(k - 1) <==> n < 16 * Pow16(k - 1);
      }
    } else {
      assert Pow16(k) == 16 * Pow16(k - 1);
    }
  }

  /** Concrete digit counts at the boundaries the U+ formatters care about. */
  lemma DigitCounts(n: nat)
    ensures n <= 0xFFFF ==> |Digits(n)| <= 4
    ensures 0xFFFF < n ==> |Digits(n)| >= 5
    ensures n <= 0xFFFFF ==> |Digits(n)| <= 5
    ensures 0xFFFFF < n ==> |Digits(n)| >= 6
    ensures n <= 0xFFFFFF ==> |Digits(n)| <= 6
  {
    assert Pow16(4) == 0x10000 && Pow16(5) == 0x100000 && Pow16(6) == 0x1000000;
    DigitsLength(n, 4);
    DigitsLength(n, 5);
    DigitsLength(n, 6);
  }

  /** ASCII upper-casing of one character. */
  function UpperChar(c: char): char {
    if 'a' <= c <= 'z' then (c as int - 32) as char else c
  }

  function Upper(s: string): (r: string)
    ensures |r| == |s|
  {
    seq(|s|, i requires 0 <= i < |s| => UpperChar(s[i]))
  }

  /** `int(s, 16)` is case-insensitive: upper-casing the text leaves the result alone. */
  lemma {:induction false} ParseHexIgnoresCase(s: string)
    ensures ParseHex(Upper(s)) == ParseHex(s)
  {
    assert forall i :: 0 <= i < |s| ==> (IsHexDigit(Upper(s)[i]) <==> IsHexDigit(s[i]));
    if IsHexString(s) {
      HexValueIgnoresCase(s);
    }
  }

  lemma {:induction false} HexValueIgnoresCase(s: string)
    requires forall i :: 0 <= i < |s| ==> IsHexDigit(s[i])
    ensures forall i :: 0 <= i < |s| ==> IsHexDigit(Upper(s)[i])
    ensures HexValue(Upper(s)) == HexValue(s)
    decreases |s|
  {
    if s != [] {
      var t := s[..|s| - 1];
      assert Upper(s)[..|s| - 1] == Upper(t);
      HexValueIgnoresCase(t);
    }
  }
}
