/**
 * How the three U+ formatters of the repository relate: `uplus` and the
 * utilities.py class agree on every code point; the codepoint.py class
 * agrees with them except on U+10000..U+FFFFF, where it writes five digits
 * instead of six.
 */
module Notation {
  import opened Unicode
  import opened Results
  import opened Hex
  import Utilities
  import UcdCodepoint
  import Uninum

  /** `uplus(cp)` is `Codepoint(cp).to_uplus_notation()` of utilities.py for every code point. */
  lemma UplusMatchesUtilities(cp: CodepointValue)
    ensures Uninum.Uplus(cp) == Utilities.Codepoint(cp).ToUplusNotation()
  {
  }

  /**
   * The codepoint.py formatter gives the same string as the utilities.py one
   * exactly outside U+10000..U+FFFFF.
   */
  lemma FormattersAgreeOutsidePlanesOneToFifteen(cp: CodepointValue)
    ensures UcdCodepoint.Codepoint(cp).ToUplusNotation() == Utilities.Codepoint(cp).ToUplusNotation()
        <==> cp <= 0xFFFF || 0x100000 <= cp
  {
    if 0xFFFF < cp < 0x100000 {
      assert |UcdCodepoint.Codepoint(cp).ToUplusNotation()| == 2 + 5;
    }
  }

  /** The codepoint.py `repr` carries the same digits as its U+ notation. */
  lemma ReprDigitsAreNotationDigits(cp: CodepointValue)
    ensures UcdCodepoint.Codepoint(cp).Repr() == "Codepoint(0x" + UcdCodepoint.Codepoint(cp).ToUplusNotation()[2..] + ")"
  {
    var r := UcdCodepoint.Codepoint(cp).Repr();
    assert r == r[..12] + r[12..|r| - 1] + [r[|r| - 1]];
  }
}
