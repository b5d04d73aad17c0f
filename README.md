# numerals-in-unicode, modelled in Dafny

This project models the core of a small Python repository that lists the numeric
characters of Unicode. The core has three parts:

- **Line parsing** (parse_ucd.py). `parse_line` reads one line of a Unicode Character
  Database text file. The format conventions are those of section 4.2 of Unicode
  Standard Annex #44: a code point or a `HEX..HEX` range, `;`-separated data fields, and
  an optional `#` comment. The `CodepointRange` it returns can be enumerated.
  The comment never changes the result, with one exception: a line of nothing but
  newlines. `rstrip("\n")` runs before the cut at `#`, so `"\n"` yields nothing, while
  `"\n#c"` fails the field-count assertion.
- **Two code point classes.**
  - utilities.py: plane arithmetic and U+ notation padded to four digits in the Basic
    Multilingual Plane and to six beyond it.
  - codepoint.py: script, numeric type and numeric value are read from property tables,
    and the U+ notation is padded to four digits everywhere.
- **`uplus`** (uninum.py): the same U+ formatting for any integer.

All four files are pure code, so the model uses datatypes, functions and lemmas.
The Python string and integer operations the code relies on are modelled in their own
modules:

- `str.rstrip`, `str.partition`, `str.split` and `str.strip` in `PyStr`.
- `int(s, 16)` and `format(n, "0wX")` in `Hex`.
- `&` and `>>` on non-negative integers, bit by bit, in `Bits`.

A Python exception becomes the `Err` side of a `Result`:

- `ValueError` from `int()` becomes `LineError.InvalidHex`.
- The field-count `assert` becomes `LineError.NotEnoughFields`.
- The constructor's range `assert` becomes `Exception.AssertionError`.
- The numeric accessors' `ValueError` becomes `Exception.ValueError`.

Files:

| file | module | models |
|---|---|---|
| results.dfy | `Results` | `Option`, `Result`, the Python exceptions raised |
| unicode.dfy | `Unicode` | `MAX_CODE_POINT` and the code point subset type |
| pystr.dfy | `PyStr` | the `str` methods `parse_line` chains together |
| hex.dfy | `Hex` | base-16 parsing and upper-case, zero-padded formatting |
| bits.dfy | `Bits` | `&` and `>>` on naturals |
| parse_ucd.dfy | `ParseUcd` | `CodepointRange`, `parse_line`, and a line writer used to state the round trip |
| utilities.dfy | `Utilities` | `Codepoint` of utilities.py |
| codepoint.dfy | `UcdCodepoint` | `Codepoint` of codepoint.py, over property tables passed as a parameter |
| uninum.dfy | `Uninum` | `uplus` |
| notation.dfy | `Notation` | how the three U+ formatters relate |

## Model

| member | source | states |
|---|---|---|
| ParseUcd.CodepointRange.Codepoints | parse_ucd.py:20-27 | iterating a range yields `endInclusive - start + 1` values (none when the end is below the start); the i-th is `start + i` |
| ParseUcd.CodepointsAscendingAndExact | parse_ucd.py:20-27 | the enumeration is strictly ascending, and an integer occurs in it exactly when `start <= x <= endInclusive` |
| ParseUcd.CodepointRange.IsSingleton | parse_ucd.py:16-18 | `is_singleton` holds exactly when iteration yields one code point, which is then `start` |
| PyStr.RStripChar | parse_ucd.py:44 | `rstrip("\n")` yields a prefix; only `\n` characters were removed, and the result does not end in `\n` |
| PyStr.RStripCharAfter | parse_ucd.py:44 | `rstrip` only touches the text after the last character that is not the stripped one |
| PyStr.Find | parse_ucd.py:45 | the index found is an occurrence of the separator, and no earlier index is; `None` means there is no occurrence anywhere |
| PyStr.FindIs | parse_ucd.py:45 | an occurrence with none before it is what `Find` returns |
| PyStr.Partition | parse_ucd.py:45 | the three parts concatenate to the input; the middle part is the separator exactly when the separator occurs; otherwise the whole input is the first part; the first part never contains the separator, and when the separator occurs the first part ends at its first occurrence (`Find` returns its length) |
| PyStr.Split | parse_ucd.py:53 | `split(';')` yields one more piece than there are `;`; no piece contains `;`; joining the pieces with `;` gives the input back |
| PyStr.SplitJoin | parse_ucd.py:53 | splitting a join of pieces that contain no separator gives those pieces back |
| PyStr.SplitAfter | parse_ucd.py:53 | the text before the first separator is the first piece, and the rest splits independently |
| PyStr.SplitTrailing | parse_ucd.py:53 | appending text without the separator extends only the last piece of `split` |
| PyStr.Strip | parse_ucd.py:53 | `strip()` leaves neither end whitespace, adds no character, is empty exactly for all-whitespace input, and leaves already-trimmed text alone |
| PyStr.StripPadded | parse_ucd.py:53 | `strip()` removes exactly the whitespace padding around trimmed non-empty text |
| PyStr.StripTrailingSpace | parse_ucd.py:53 | whitespace appended to a string does not change its `strip()` |
| ParseUcd.Content | parse_ucd.py:44-45 | the text `parse_line` works on is a prefix of the line with no `#`: the whole line less its trailing newlines when the line has no `#`, otherwise the prefix that stops at the line's first `#` |
| ParseUcd.Fields | parse_ucd.py:53 | one field per `;` plus one; the i-th field is the i-th piece of `split(';')` with `strip()` applied; each is trimmed, contains no `;`, and has only characters taken from the content |
| ParseUcd.ParseHexField | parse_ucd.py:59 | the modelled `int(h, 16)` succeeds exactly when `h` without its surrounding whitespace (as `str.strip()` removes it) is a non-empty string of ASCII hexadecimal digits, and returns that string's value; otherwise the error names the text |
| ParseUcd.ParseRangeExpression | parse_ucd.py:58-67 | the field is cut at its first `..`; it parses exactly when the start is a numeral and, if there was a `..`, so is the end; a success holds the range from the trimmed start's value to the trimmed end's value, or the singleton at the start's value when there was no `..`; the error names the start when the start is bad, otherwise the end (the start is parsed first); with no `.` the range is the singleton at the trimmed field's value; a non-singleton needs a `..` |
| ParseUcd.ParseContent | parse_ucd.py:47-69 | the result is `None` exactly when the content is empty; it is a record exactly when the content has a `;` and its first field parses as a range expression, and then holds that range and the fields after the first; an invalid-numeral failure carries the range expression's error |
| ParseUcd.ParseLine | parse_ucd.py:30-69 | `parse_line` yields nothing exactly when the content is empty; it yields a record exactly when the content has a `;` and its first field parses as a range expression; a record holds one data field per `;` of the content (the lemmas below pin each branch: BlankIff, NotEnoughFieldsIff, InvalidFirstField, InvalidRangeEndField, ContentWithSingleCodepoint, ContentWithRange, DataLine, FormatThenParse) |
| ParseUcd.BlankIff | parse_ucd.py:44-48 | a line yields nothing exactly when it consists only of newlines (the empty line included) or starts with `#` |
| ParseUcd.ContentBeforeComment | parse_ucd.py:44-45 | for comment-free text followed by `#`, the content is exactly that text, whatever the comment holds (newlines included) |
| ParseUcd.CommentIgnored | parse_ucd.py:45 | two lines differing only after their first `#` parse identically |
| ParseUcd.CommentAppendedIgnored | parse_ucd.py:44-45 | appending `#comment` to a comment-free line does not change the result, unless the line is a non-empty run of newlines |
| ParseUcd.NewlinesThenComment | parse_ucd.py:44-54 | the exception: a non-empty run of newlines yields nothing, but followed by a comment it fails the field-count assertion, because `rstrip("\n")` runs before the cut at `#` |
| ParseUcd.FieldsTrailingSpace | parse_ucd.py:53 | whitespace without `;` at the end of the content changes no field |
| ParseUcd.TrailingWhitespaceIgnored | parse_ucd.py:53-69 | whitespace without `;` after non-empty content does not change the result |
| ParseUcd.FirstFieldError | parse_ucd.py:53-63 | a first field that fails as a range expression makes the line fail with that `ValueError` |
| ParseUcd.NotEnoughFieldsIff | parse_ucd.py:53-54 | the field-count assertion fails exactly when the content is non-empty and has no `;` |
| ParseUcd.DataFieldsShape | parse_ucd.py:53-56 | a parsed record has one data field per `;` of the content; each is trimmed and holds no `;` or `#` |
| ParseUcd.FirstField | parse_ucd.py:53-56 | in `first;rest`, the range expression is `first` trimmed, and the data fields are the fields of `rest` |
| ParseUcd.DataLine | parse_ucd.py:44-67 | a newline-terminated line `h;rest` without a comment parses to the singleton range at h's value followed by the fields of `rest` |
| ParseUcd.ContentWithSingleCodepoint | parse_ucd.py:56-67 | content whose first field is a lone hexadecimal numeral parses to the singleton range at its value, followed by the remaining fields |
| ParseUcd.PartitionAfterNumeral | parse_ucd.py:58 | after a hexadecimal numeral, `partition("..")` cuts at the `..` that follows it |
| ParseUcd.RangeExpressionOfPair | parse_ucd.py:58-64 | `A..B` is split at its `..`, and the range runs from A's value to B's value |
| ParseUcd.InvalidRangeEnd | parse_ucd.py:58-63 | `A..B` with a numeral A and a non-numeral B fails with `ValueError` on B |
| ParseUcd.InvalidFirstField | parse_ucd.py:53-59 | content whose first field has no `.` and is not a numeral fails with `ValueError` on that field, trimmed |
| ParseUcd.InvalidRangeEndField | parse_ucd.py:53-63 | content whose first field is `A..B` with a non-numeral end fails with `ValueError` on B |
| ParseUcd.ContentWithRange | parse_ucd.py:56-64 | content whose first field is `A..B` parses to the range from A to B, with no check that A <= B |
| ParseUcd.SingleCodepointField | parse_ucd.py:44-67 | a line `h;rest#comment` with hexadecimal `h` (either letter case) parses to a singleton range at h's value |
| ParseUcd.RangeField | parse_ucd.py:44-64 | a line `A..B;rest#comment` parses to the range from A to B, with the fields of `rest` |
| ParseUcd.RangeTextThenFields | parse_ucd.py:53-64 | a range written as `XXXX` or `XXXX..YYYY` in front of `;` and any text parses back to that same range, with the fields of the text after the `;` |
| ParseUcd.FormatThenParse | parse_ucd.py:30-69 | `parse_line` inverts writing a line from a range and plain fields (trimmed, no `;`, no `#`) |
| ParseUcd.FormatWithCommentThenParse | parse_ucd.py:30-69 | the same round trip holds with any comment appended |
| ParseUcd.FieldsOfJoin | parse_ucd.py:53 | splitting and trimming a `;`-join of plain fields gives the fields back |
| ParseUcd.BlankLineExamples | parse_ucd.py:36-37 | `"\n"` and `"# I'm a comment\n"` yield nothing |
| ParseUcd.SingleCodepointExample | parse_ucd.py:38-39 | the documented SPACE line parses to `(CodepointRange(32, 32), ['Common'])` |
| ParseUcd.RangeExample | parse_ucd.py:40-41 | the documented MAYAN NUMERAL line parses to `(CodepointRange(119520, 119539), ['Common'])` |
| Hex.ParseHex | parse_ucd.py:59 | `int(s, 16)` succeeds exactly on non-empty strings of hexadecimal digits |
| Hex.ParseHexIgnoresCase | parse_ucd.py:59 | upper-casing the text does not change what `int(s, 16)` returns |
| Hex.Digits | utilities.py:81 | the `X` format gives at least one upper-case digit, no leading zero, and reads back as the number |
| Hex.FormatHex | utilities.py:81-84 | `format(n, "0wX")` for `n >= 0` has length max(w, digit count), is upper-case hexadecimal and parses back to n; for `n < 0` it starts with `-` |
| Hex.DigitsLength | utilities.py:80-84 | a number needs at most k hex digits exactly when it is below 16^k |
| Hex.LeadingZerosIgnored | utilities.py:81 | zero padding does not change the value of a numeral |
| Bits.AndLowOnes | utilities.py:60 | masking with k low one-bits keeps the k low bits |
| Bits.LowBitsIsMod | utilities.py:60 | the k low bits are the remainder modulo 2^k |
| Bits.AndShiftedMask | utilities.py:60 | a mask shifted left by k selects from the value shifted right by k |
| Bits.ShiftRightIsDiv | utilities.py:60 | `>> k` is floor division by 2^k |
| Bits.ThirdByte | utilities.py:60 | `(0xFF0000 & w) >> 16` is `(w / 0x10000) % 0x100` |
| Utilities.Codepoint.PlaneNumber | utilities.py:52-60 | `plane_number` is `value / 0x10000`, between 0 and 16 |
| Utilities.PlaneZeroIffFourDigits | utilities.py:52-60 | a code point is in plane 0 exactly when its U+ notation has four digits |
| Utilities.Codepoint.ToUplusNotation | utilities.py:79-84 | `U+` and exactly four upper-case digits up to U+FFFF, exactly six beyond; the digits parse back to the value |
| Utilities.Codepoint.Str | utilities.py:86-87 | `str()` is the U+ notation, whose digits read back as the value |
| Utilities.Codepoint.Repr | utilities.py:89-91 | `Codepoint(0x` + 4, 5 or 6 upper-case digits (by value range) + `)`; the digits read back as the value |
| Utilities.New | utilities.py:38-46 | the constructor accepts exactly 0..0x10FFFF, raising `AssertionError` otherwise, and `value` returns the argument |
| Utilities.AllCodepoints | utilities.py:93-95 | 0x110000 code points, the i-th having value i |
| Utilities.AllCodepointsExact | utilities.py:93-95 | every code point is enumerated, in strictly ascending order |
| UcdCodepoint.Codepoint.ToDecimal | codepoint.py:68-75 | the stored value when the type is Decimal; otherwise the fallback argument; `ValueError` exactly when the type is not Decimal and there is no argument |
| UcdCodepoint.Codepoint.ToDigit | codepoint.py:77-84 | the stored value when the type is Decimal or Digit; otherwise the fallback; `ValueError` exactly when neither holds and there is no argument |
| UcdCodepoint.Codepoint.ToNumeric | codepoint.py:86-93 | the stored value when the code point has any numeric type; otherwise the fallback; `ValueError` exactly when it has none and there is no argument |
| UcdCodepoint.AccessorsNested | codepoint.py:68-93 | when `to_decimal()` succeeds, `to_digit()` returns the same value; when `to_digit()` succeeds, so does `to_numeric()` |
| UcdCodepoint.FallbackNeverRaises | codepoint.py:68-93 | given a fallback, no accessor raises, and each returns the stored value or the fallback |
| UcdCodepoint.Codepoint.ToUplusNotation | codepoint.py:95-101 | `U+` and at least four upper-case digits (4, 5 or 6 by value range) that parse back to the value |
| UcdCodepoint.Codepoint.Str | codepoint.py:103-104 | `str()` is the U+ notation, whose digits read back as the value |
| UcdCodepoint.Codepoint.Repr | codepoint.py:106-108 | `Codepoint(0x` + the U+ notation's digits + `)` |
| UcdCodepoint.New | codepoint.py:42-46 | the constructor accepts exactly 0..0x10FFFF, raising `AssertionError` otherwise |
| UcdCodepoint.AllCodepoints | codepoint.py:110-112 | 0x110000 code points, the i-th having value i |
| Uninum.Uplus | uninum.py:3-7 | `U+` + four digits for 0..0xFFFF and six for 0x10000..0xFFFFFF; for `cp >= 0` the digits parse back to cp; a negative cp keeps its minus sign |
| Notation.UplusMatchesUtilities | uninum.py:3-7 | `uplus(cp)` equals the utilities.py `to_uplus_notation` on every code point |
| Notation.FormattersAgreeOutsidePlanesOneToFifteen | codepoint.py:95-101 | the codepoint.py and utilities.py U+ notations coincide exactly outside U+10000..U+FFFFF |
| Notation.ReprDigitsAreNotationDigits | codepoint.py:101-108 | codepoint.py's `repr` is `Codepoint(0x` + its U+ digits + `)` |

## Left out

- The `unicodedata` and `unicodedata2` wrappers are not modelled. In utilities.py these are `script`, `bidirectional_class`, `to_decimal`, `to_digit` and `to_numeric`; in codepoint.py, `bidirectional_class`. They call into C tables outside the repository.
- `character` (`chr`) is not modelled. It is a conversion with no logic of its own.
- `parse_ucd.parse_all`, which fills the property tables, is not part of this model. The `UcdCodepoint` accessors take the tables as a `Properties` parameter.
- UcdCodepoint.Codepoint.ToNumeric: does not model the conversion to `float`. It returns the stored value unchanged, because floating point is not modelled.
- In `to_decimal`, `to_digit` and `to_numeric`, the fallback has the type of the stored values. Python accepts any object there. Only the first extra argument is read, as in the source.
- The loop at the bottom of uninum.py (uninum.py:10-12) is not modelled. It prints, and it asks `unicodedata.numeric`. Only `uplus` is modelled. The loop stops at 0x10FFF, not at 0x10FFFF.
- The generators of `iterate_all_codepoints` and `CodepointRange.__iter__` are modelled as finite sequences. Laziness is not modelled.
- ParseUcd.ParseHexField: accepts only ASCII hexadecimal digits between whitespace that `str.strip()` removes. It differs from Python's `int(s, 16)` in three ways. (1) Python also accepts a sign, a `0x` prefix and `_` separators. (2) Python accepts decimal digits of other scripts, so `int("٣٠", 16)` is 48; the model reports `InvalidHex`. (3) `int()` skips only ASCII whitespace and the non-ASCII spaces, not U+001C..U+001F; `str.strip()` removes those too, so the model accepts a numeral padded with them where Python raises `ValueError`. None of these inputs occurs in Unicode Character Database files.
- UcdCodepoint.Codepoint.Script and UcdCodepoint.Codepoint.NumericType: `script` and `numeric_type` only read the `Properties` tables passed in. They carry no property of their own, so they have no row above.
- PyStr.Strip: `str.isspace` is modelled as the fixed set of code points Python treats as whitespace. No Unicode database is consulted.
- `parse_line` returns the data fields without the range expression, and a short line fails an `assert` (`NotEnoughFields`), not a dedicated exception.
- A range whose end lies below its start is accepted. It enumerates to nothing.
- The assertion `0xFFFF < value <= 0x10FFFF` in the utilities.py `to_uplus_notation` (utilities.py:83) cannot fail. The value type already bounds the code point, so the model has no error path for it.
