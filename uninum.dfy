/** `uplus` from uninum.py: U+ notation for any integer, without a range check. */
module Uninum {
  import opened Results
  import opened Hex

  /**
   * "U+" and `cp` in upper-case hexadecimal: padded to four digits up to
   * 0xFFFF, to six digits above it (a negative `cp` keeps its minus sign).
   */
  function Uplus(cp: int): (s: string)
    ensures |s| > 2 && s[..2] == "U+"
    ensures 0 <= cp <= 0xFFFF ==> |s| == 2 + 4
    ensures 0xFFFF < cp <= 0xFFFFFF ==> |s| == 2 + 6
    ensures cp >= 0 ==> IsUpperHexString(s[2..]) && ParseHex(s[2..]) == Some(cp)
    ensures cp < 0 ==> s[2] == '-'
  {
    DigitCounts(if cp >= 0 then cp else 0);
    if cp <= 0xFFFF then "U+" + FormatHex(cp, 4)
    else "U+" + FormatHex(cp, 6)
  }
}
