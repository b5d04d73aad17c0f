/**
 * `Codepoint` from utilities.py: a code point value with plane arithmetic
 * and U+ notation padded to four digits in the Basic Multilingual Plane and
 * to six digits beyond it.
 */
module Utilities {
  import opened Results
  import opened Unicode
  import opened Hex
  import opened Bits

  /** The class keeps one attribute, `_ord`, set once by its constructor. */
  datatype Codepoint = Codepoint(value: CodepointValue) {

    /** `(0xFF0000 & value) >> 16`: the plane the code point lies in. */
    function PlaneNumber(): (plane: int)
      ensures plane == value / 0x10000
      ensures 0 <= plane <= 16
    {
      ThirdByte(value);
      ShiftRight(BitAnd(0xFF0000, value), 16)
    }

    /**
     * "U+" and the value in upper-case hexadecimal: exactly four digits up to
     * U+FFFF, exactly six beyond.
     */
    function ToUplusNotation(): (s: string)
      ensures |s| >= 2 && s[..2] == "U+"
      ensures value <= 0xFFFF ==> |s| == 2 + 4
      ensures 0xFFFF < value ==> |s| == 2 + 6
      ensures IsUpperHexString(s[2..]) && ParseHex(s[2..]) == Some(value)
    {
      DigitCounts(value);
      if value <= 0xFFFF then "U+" + FormatHex(value, 4)
      else "U+" + FormatHex(value, 6)
    }

    /** `str(cp)` prints the U+ notation, whose digits read back as the value. */
    function Str(): (s: string)
      ensures s == ToUplusNotation()
      ensures s[..2] == "U+" && ParseHex(s[2..]) == Some(value)
    {
      ToUplusNotation()
    }

    /** `repr(cp)`: `Codepoint(0x` and at least four upper-case hex digits, then `)`. */
    function Repr(): (s: string)
      ensures |s| >= 13 && s[..12] == "Codepoint(0x" && s[|s| - 1] == ')'
      ensures |s| - 13 == (if value <= 0xFFFF then 4 else if value <= 0xFFFFF then 5 else 6)
      ensures IsUpperHexString(s[12..|s| - 1]) && ParseHex(s[12..|s| - 1]) == Some(value)
    {
      DigitCounts(value);
      var digits := FormatHex(value, 4);
      var s := "Codepoint(0x" + digits + ")";
      assert s[12..|s| - 1] == digits;
      s
    }
  }

  /** `Codepoint(n)`: the constructor's assertion admits exactly 0..0x10FFFF, and `value` gives `n` back. */
  function New(n: int): (r: Result<Codepoint, Exception>)
    ensures r.Ok? <==> 0 <= n <= 0x10FFFF
    ensures r.Ok? ==> r.value.value == n
    ensures r.Err? ==> r.error == AssertionError
  {
    if IsCodepoint(n) then Ok(Codepoint(n)) else Err(AssertionError)
  }

  /** `iterate_all_codepoints()`: every code point once, in ascending order. */
  function AllCodepoints(): (all: seq<Codepoint>)
    ensures |all| == 0x110000
    ensures forall i :: 0 <= i < |all| ==> all[i].value == i
  {
    seq(CodeSpaceSize, i requires 0 <= i < CodeSpaceSize => Codepoint(i))
  }

  /** A code point is in the Basic Multilingual Plane exactly when its U+ notation has four digits. */
  lemma PlaneZeroIffFourDigits(cp: Codepoint)
    ensures cp.PlaneNumber() == 0 <==> |cp.ToUplusNotation()| == 6
  {
  }

  /** Every code point, and nothing else, is enumerated, and the order is strictly ascending. */
  lemma AllCodepointsExact()
    ensures forall cp: Codepoint :: cp in AllCodepoints()
    ensures forall i, j :: 0 <= i < j < |AllCodepoints()| ==> AllCodepoints()[i].value < AllCodepoints()[j].value
  {
    var all := AllCodepoints();
    forall cp: Codepoint ensures cp in all {
      assert all[cp.value] == cp;
    }
  }
}
