/**
 * `Codepoint` from codepoint.py: a code point value whose script, numeric
 * type and numeric value come from property tables, with U+ notation padded
 * to at least four digits.
 */
module UcdCodepoint {
  import opened Results
  import opened Unicode
  import opened Hex

  /**
   * The property tables the class reads (`_properties.script`,
   * `_properties.numeric_type`, `_properties.numeric_value`), as total
   * functions on code points. How they are built is not part of this model.
   * A numeric type of `None` means "not numeric"; `V` is the type of a
   * stored numeric value.
   */
  datatype Properties<V> = Properties(
    script: CodepointValue -> string,
    numericType: CodepointValue -> Option<string>,
    numericValue: CodepointValue -> V)

  /** The class keeps one attribute, `_ord`, set once by its constructor. */
  datatype Codepoint = Codepoint(value: CodepointValue) {

    /** The `script` property: the table entry for this code point. */
    function Script<V>(props: Properties<V>): (s: string)
      ensures s == props.script(value)
    {
      props.script(value)
    }

    /** The `numeric_type` property. */
    function NumericType<V>(props: Properties<V>): (t: Option<string>)
      ensures t == props.numericType(value)
    {
      props.numericType(value)
    }

    /**
     * `to_decimal(*args)`: the stored value for a Decimal code point;
     * otherwise the first extra argument, or `ValueError` when there is none.
     */
    function ToDecimal<V>(props: Properties<V>, args: seq<V>): (r: Result<V, Exception>)
      ensures NumericType(props) == Some("Decimal") ==> r == Ok(props.numericValue(value))
      ensures NumericType(props) != Some("Decimal") && |args| > 0 ==> r == Ok(args[0])
      ensures r.Err? <==> NumericType(props) != Some("Decimal") && |args| == 0
      ensures r.Err? ==> r.error == ValueError
    {
      if NumericType(props) == Some("Decimal") then Ok(props.numericValue(value))
      else if |args| == 0 then Err(ValueError)
      else Ok(args[0])
    }

    /**
     * `to_digit(*args)`: the stored value for a Decimal or Digit code point;
     * otherwise the first extra argument, or `ValueError` when there is none.
     */
    function ToDigit<V>(props: Properties<V>, args: seq<V>): (r: Result<V, Exception>)
      ensures NumericType(props) in {Some("Decimal"), Some("Digit")} ==> r == Ok(props.numericValue(value))
      ensures NumericType(props) !in {Some("Decimal"), Some("Digit")} && |args| > 0 ==> r == Ok(args[0])
      ensures r.Err? <==> NumericType(props) !in {Some("Decimal"), Some("Digit")} && |args| == 0
      ensures r.Err? ==> r.error == ValueError
    {
      if NumericType(props) in {Some("Decimal"), Some("Digit")} then Ok(props.numericValue(value))
      else if |args| == 0 then Err(ValueError)
      else Ok(args[0])
    }

    /**
     * `to_numeric(*args)`: the stored value for any code point with a numeric
     * type; otherwise the first extra argument, or `ValueError` when there is none.
     */
    function ToNumeric<V>(props: Properties<V>, args: seq<V>): (r: Result<V, Exception>)
      ensures NumericType(props).Some? ==> r == Ok(props.numericValue(value))
      ensures NumericType(props).None? && |args| > 0 ==> r == Ok(args[0])
      ensures r.Err? <==> NumericType(props).None? && |args| == 0
      ensures r.Err? ==> r.error == ValueError
    {
      if NumericType(props).Some? then Ok(props.numericValue(value))
      else if |args| == 0 then Err(ValueError)
      else Ok(args[0])
    }

    /**
     * "U+" and the value in upper-case hexadecimal, padded to four digits:
     * four digits up to U+FFFF, five up to U+FFFFF, six beyond.
     */
    function ToUplusNotation(): (s: string)
      ensures |s| >= 2 && s[..2] == "U+"
      ensures |s| - 2 == (if value <= 0xFFFF then 4 else if value <= 0xFFFFF then 5 else 6)
      ensures IsUpperHexString(s[2..]) && ParseHex(s[2..]) == Some(value)
    {
      DigitCounts(value);
      "U+" + FormatHex(value, 4)
    }

    /** `str(cp)` prints the U+ notation, whose digits read back as the value. */
    function Str(): (s: string)
      ensures s == ToUplusNotation()
      ensures s[..2] == "U+" && ParseHex(s[2..]) == Some(value)
    {
      ToUplusNotation()
    }

    /** `repr(cp)`: `Codepoint(0x` and the same digits as the U+ notation, then `)`. */
    function Repr(): (s: string)
      ensures |s| >= 13 && s[..12] == "Codepoint(0x" && s[|s| - 1] == ')'
      ensures s[12..|s| - 1] == ToUplusNotation()[2..]
    {
      var digits := FormatHex(value, 4);
      var s := "Codepoint(0x" + digits + ")";
      assert s[12..|s| - 1] == digits;
      s
    }
  }

  /** `Codepoint(n)`: the constructor's assertion admits exactly 0..0x10FFFF, and `value` gives `n` back. */
  function New(n: int): (r: Result<Codepoint, Exception>)
    ensures r.Ok? <==> 0 <= n <= 0x10FFFF
    ensures r.Ok? ==> r.value.value == n
    ensures r.Err? ==> r.error == AssertionError
  {
    if IsCodepoint(n) then Ok(Codepoint(n)) else Err(AssertionError)
  }

  /** `iterate_all_codepoints()`: every code point once, in ascending order. */
  function AllCodepoints(): (all: seq<Codepoint>)
    ensures |all| == 0x110000
    ensures forall i :: 0 <= i < |all| ==> all[i].value == i
  {
    seq(CodeSpaceSize, i requires 0 <= i < CodeSpaceSize => Codepoint(i))
  }

  /**
   * The accessors are nested: whenever `to_decimal` succeeds without a
   * fallback, `to_digit` succeeds with the same value, and whenever
   * `to_digit` does, `to_numeric` does.
   */
  lemma AccessorsNested<V>(cp: Codepoint, props: Properties<V>)
    ensures cp.ToDecimal(props, []).Ok? ==> cp.ToDigit(props, []) == cp.ToDecimal(props, [])
    ensures cp.ToDigit(props, []).Ok? ==> cp.ToNumeric(props, []) == cp.ToDigit(props, [])
  {
  }

  /** With a fallback no accessor raises, and the result is the stored value or the fallback. */
  lemma FallbackNeverRaises<V>(cp: Codepoint, props: Properties<V>, fallback: V)
    ensures cp.ToDecimal(props, [fallback]).value in {props.numericValue(cp.value), fallback}
    ensures cp.ToDigit(props, [fallback]).value in {props.numericValue(cp.value), fallback}
    ensures cp.ToNumeric(props, [fallback]).value in {props.numericValue(cp.value), fallback}
  {
  }
}
