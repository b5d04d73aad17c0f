/**
 * One line of a Unicode Character Database file (the format conventions of
 * section 4.2 of Unicode Standard Annex #44): a code point or `HEX..HEX`
 * range, then `;`-separated data fields, then an optional `#` comment.
 */
module ParseUcd {
  import opened Results
  import opened PyStr
  import opened Hex

  /** An inclusive range of code points, as read from a file; nothing forces `start <= endInclusive`. */
  datatype CodepointRange = CodepointRange(start: int, endInclusive: int) {

    /** `is_singleton`: enumerating the range gives exactly one code point, `start`. */
    predicate IsSingleton()
      ensures IsSingleton() <==> |Codepoints()| == 1
      ensures IsSingleton() ==> Codepoints() == [start]
    {
      start == endInclusive
    }

    /** `list(range)`: every code point from `start` up to `endInclusive`, ascending. */
    function Codepoints(): (cps: seq<int>)
      ensures |cps| == if endInclusive < start then 0 else endInclusive - start + 1
      ensures forall i :: 0 <= i < |cps| ==> cps[i] == start + i
    {
      seq(if endInclusive < start then 0 else endInclusive - start + 1, i => start + i)
    }
  }

  /** Enumeration is strictly ascending and holds exactly the integers of the interval. */
  lemma CodepointsAscendingAndExact(r: CodepointRange)
    ensures forall i, j :: 0 <= i < j < |r.Codepoints()| ==> r.Codepoints()[i] < r.Codepoints()[j]
    ensures forall x :: x in r.Codepoints() <==> r.start <= x <= r.endInclusive
  {
    var cps := r.Codepoints();
    forall x | r.start <= x <= r.endInclusive ensures x in cps {
      assert cps[x - r.start] == x;
    }
  }

  datatype LineError =
    | NotEnoughFields        // the `assert len(fields) >= 2` fails
    | InvalidHex(text: string) // `int(text, 16)` raises `ValueError`

  /** What `parse_line` does with one line: `None`, a tuple, or an exception. */
  datatype ParsedLine =
    | Blank
    | Record(range: CodepointRange, dataFields: seq<string>)
    | Malformed(error: LineError)

  /**
   * The text of a line before its first `#`, once trailing newlines are
   * gone: the whole newline-stripped line when it has no `#`, otherwise the
   * prefix that stops at its first `#`.
   */
  function Content(line: string): (content: string)
    ensures '#' !in content
    ensures |content| <= |line| && content == line[..|content|]
    ensures '#' !in line ==> content == RStripChar(line, '\n')
    ensures '#' in line ==> |content| < |line| && line[|content|] == '#'
  {
    var stripped := RStripChar(line, '\n');
    var (content, marker, _) := Partition(stripped, "#");
    assert '#' !in content by {
      forall k | 0 <= k < |content| ensures content[k] != '#' {
        OccursAtChar(content, '#', k);
      }
    }
    assert '#' !in line ==> marker == "" by {
      if '#' !in line {
        forall k ensures !OccursAt(stripped, "#", k) {
          OccursAtChar(stripped, '#', k);
        }
      }
    }
    assert '#' in line ==> marker == "#" by {
      if '#' in line {
        var k :| 0 <= k < |line| && line[k] == '#';
        assert k < |stripped|;
        OccursAtChar(stripped, '#', k);
      }
    }
    assert marker == "#" ==> stripped[|content|] == '#' by {
      if marker == "#" {
        assert stripped == content + "#" + Partition(stripped, "#").2;
      }
    }
    content
  }

  /** Every `;`-separated piece of `content`, whitespace-trimmed. */
  function Fields(content: string): (fields: seq<string>)
    ensures |fields| == Count(content, ';') + 1
    ensures forall i :: 0 <= i < |fields| ==> fields[i] == Strip(Split(content, ';')[i])
    ensures forall f :: f in fields ==> IsTrimmed(f) && ';' !in f
    ensures forall f, c :: f in fields && c in f ==> c in content
  {
    var parts := Split(content, ';');
    var fields := seq(|parts|, i requires 0 <= i < |parts| => Strip(parts[i]));
    assert forall f :: f in fields ==> exists i :: 0 <= i < |parts| && f == Strip(parts[i]);
    fields
  }

  /**
   * `int(h, 16)` with its `ValueError` as a `LineError`: surrounding
   * whitespace is ignored, the rest must be hexadecimal digits.
   */
  function ParseHexField(h: string): (r: Result<nat, LineError>)
    ensures r.Ok? <==> IsHexString(Strip(h))
    ensures r.Ok? ==> r.value == HexValue(Strip(h))
    ensures r.Err? ==> r.error == InvalidHex(h)
  {
    match ParseHex(Strip(h))
    case None => Err(InvalidHex(h))
    case Some(v) => Ok(v)
  }

  /**
   * The first field: `HEX` for a single code point or `HEX..HEX` (split at
   * the first `..`) for an explicit range; the start is parsed first.
   */
  function ParseRangeExpression(expr: string): (r: Result<CodepointRange, LineError>)
    ensures '.' !in expr ==> r == (if IsHexString(Strip(expr)) then Ok(CodepointRange(HexValue(Strip(expr)), HexValue(Strip(expr))))
                                  else Err(InvalidHex(expr)))
    ensures r.Ok? && !r.value.IsSingleton() ==> exists k :: OccursAt(expr, "..", k)
    ensures var (startHex, rangeMarker, endHex) := Partition(expr, "..");
            r.Ok? <==> IsHexString(Strip(startHex)) && (rangeMarker == "" || IsHexString(Strip(endHex)))
    ensures var (startHex, _, endHex) := Partition(expr, "..");
            r.Err? ==> r.error == InvalidHex(if IsHexString(Strip(startHex)) then endHex else startHex)
    ensures var (startHex, rangeMarker, endHex) := Partition(expr, "..");
            r.Ok? ==> r.value == CodepointRange(HexValue(Strip(startHex)),
                                                if rangeMarker == "" then HexValue(Strip(startHex)) else HexValue(Strip(endHex)))
    ensures r.Err? ==> r.error.InvalidHex?
  {
    var (startHex, rangeMarker, endHex) := Partition(expr, "..");
    assert '.' !in expr ==> rangeMarker == "";
    match ParseHexField(startHex)
    case Err(e) => Err(e)
    case Ok(start) =>
      if rangeMarker != "" then
        match ParseHexField(endHex)
        case Err(e) => Err(e)
        case Ok(end) => Ok(CodepointRange(start, end))
      else
        Ok(CodepointRange(start, start))
  }

  /** The result for a line whose comment-free, newline-free content is `content`. */
  function ParseContent(content: string): (r: ParsedLine)
    ensures r.Blank? <==> content == ""
    ensures r.Record? <==> ';' in content && ParseRangeExpression(Fields(content)[0]).Ok?
    ensures r.Record? ==> Ok(r.range) == ParseRangeExpression(Fields(content)[0])
    ensures r.Record? ==> r.dataFields == Fields(content)[1..]
    ensures r.Malformed? && r.error.InvalidHex? ==> Err(r.error) == ParseRangeExpression(Fields(content)[0])
  {
    if content == "" then Blank
    else
      var fields := Fields(content);
      if |fields| < 2 then Malformed(NotEnoughFields)
      else
        match ParseRangeExpression(fields[0])
        case Err(e) => Malformed(e)
        case Ok(range) => Record(range, fields[1..])
  }

  /**
   * `parse_line`: nothing for a line without content, a failed assertion or
   * `ValueError` for a malformed one, otherwise the range and one data field
   * per `;` of the content.
   */
  function ParseLine(line: string): (r: ParsedLine)
    ensures r.Blank? <==> Content(line) == ""
    ensures r.Record? <==> ';' in Content(line) && ParseRangeExpression(Fields(Content(line))[0]).Ok?
    ensures r.Record? ==> |r.dataFields| == Count(Content(line), ';')
  {
    ParseContent(Content(line))
  }

  predicate AllNewlines(line: string) {
    forall i :: 0 <= i < |line| ==> line[i] == '\n'
  }

  /**
   * A line yields nothing exactly when it is only newlines (an empty line
   * included) or starts with `#`.
   */
  lemma BlankIff(line: string)
    ensures ParseLine(line).Blank? <==> AllNewlines(line) || (|line| > 0 && line[0] == '#')
  {
    var stripped := RStripChar(line, '\n');
    if stripped != [] {
      assert stripped[0] == line[0];
      var content := Content(line);
      OccursAtChar(stripped, '#', 0);
      if stripped[0] == '#' {
        FindIs(stripped, "#", 0);
      } else {
        assert content != [] by {
          if Find(stripped, "#").None? {
            assert content == stripped;
          } else {
            assert Find(stripped, "#").value != 0;
          }
        }
      }
    }
  }

  /** `Content` of a line with a comment after comment-free text is that text. */
  lemma ContentBeforeComment(text: string, comment: string)
    requires '#' !in text
    ensures Content(text + "#" + comment) == text
  {
    var line := text + "#" + comment;
    RStripCharAfter(text + "#", comment, '\n');
    assert line == (text + "#") + comment;
    var stripped := text + "#" + RStripChar(comment, '\n');
    forall k | 0 <= k < |text| ensures !OccursAt(stripped, "#", k) {
      OccursAtChar(stripped, '#', k);
    }
    OccursAtChar(stripped, '#', |text|);
    FindIs(stripped, "#", |text|);
  }

  /** Whatever follows the first `#` has no effect on the result. */
  lemma CommentIgnored(text: string, comment1: string, comment2: string)
    requires '#' !in text
    ensures ParseLine(text + "#" + comment1) == ParseLine(text + "#" + comment2)
  {
    ContentBeforeComment(text, comment1);
    ContentBeforeComment(text, comment2);
  }

  /**
   * Appending a comment to a comment-free line changes nothing, unless the
   * line is a non-empty run of newlines (see NewlinesThenComment).
   */
  lemma CommentAppendedIgnored(text: string, comment: string)
    requires '#' !in text
    requires text == [] || !AllNewlines(text)
    ensures ParseLine(text + "#" + comment) == ParseLine(text)
  {
    ContentBeforeComment(text, comment);
    var content := RStripChar(text, '\n');
    assert Content(text) == content;
    if text != [] {
      var newlines := text[|content|..];
      assert text == content + newlines by {
        SliceJoin(text, |content|);
      }
      assert content != [] && AllSpace(newlines) && ';' !in newlines by {
        forall i | 0 <= i < |newlines| ensures newlines[i] == '\n' {
          assert newlines[i] == text[|content| + i];
        }
      }
      TrailingWhitespaceIgnored(content, newlines);
    }
  }

  /** Whitespace without `;` after non-empty content changes nothing. */
  lemma TrailingWhitespaceIgnored(content: string, w: string)
    requires content != [] && AllSpace(w) && ';' !in w
    ensures ParseContent(content + w) == ParseContent(content)
  {
    FieldsTrailingSpace(content, w);
  }

  /**
   * The exception: `rstrip("\n")` runs before the cut at `#`, so a run of
   * newlines yields nothing alone but fails the field-count assertion once a
   * comment follows it.
   */
  lemma NewlinesThenComment(text: string, comment: string)
    requires text != [] && AllNewlines(text)
    ensures ParseLine(text) == Blank
    ensures ParseLine(text + "#" + comment) == Malformed(NotEnoughFields)
  {
    assert '#' !in text && ';' !in text by {
      forall i | 0 <= i < |text| ensures text[i] != '#' && text[i] != ';' {
        assert text[i] == '\n';
      }
    }
    BlankIff(text);
    ContentBeforeComment(text, comment);
    NotEnoughFieldsIff(text + "#" + comment);
  }

  /** Whitespace without `;` at the end of the content only pads its last field. */
  lemma FieldsTrailingSpace(content: string, w: string)
    requires AllSpace(w) && ';' !in w
    ensures Fields(content + w) == Fields(content)
  {
    var parts := Split(content, ';');
    var n := |parts|;
    SplitTrailing(content, w, ';');
    var longer := Split(content + w, ';');
    assert |longer| == n;
    forall i | 0 <= i < n ensures Fields(content + w)[i] == Fields(content)[i] {
      if i == n - 1 {
        assert longer[i] == parts[i] + w;
        StripTrailingSpace(parts[i], w);
      } else {
        assert longer[i] == parts[i];
      }
    }
  }

  lemma FindNone(s: string, c: char)
    requires c !in s
    ensures Find(s, [c]).None?
  {
    forall k ensures !OccursAt(s, [c], k) {
      OccursAtChar(s, c, k);
    }
  }

  /**
   * A line with content but no `;` has fewer than two fields and fails the
   * field-count assertion; it is the only way to fail that assertion.
   */
  lemma NotEnoughFieldsIff(line: string)
    ensures ParseLine(line) == Malformed(NotEnoughFields)
        <==> Content(line) != "" && ';' !in Content(line)
  {
    var content := Content(line);
    if content != "" {
      assert |Fields(content)| < 2 <==> ';' !in content;
    }
  }

  /**
   * The data fields are the pieces after the range expression: one per `;`
   * of the content, each trimmed, none holding a `;` or a `#`.
   */
  lemma DataFieldsShape(line: string)
    requires ParseLine(line).Record?
    ensures |ParseLine(line).dataFields| == Count(Content(line), ';')
    ensures forall f :: f in ParseLine(line).dataFields ==> IsTrimmed(f) && ';' !in f && '#' !in f
  {
    var content := Content(line);
    var fields := Fields(content);
    assert ParseLine(line).dataFields == fields[1..];
    forall f | f in fields[1..] ensures IsTrimmed(f) && ';' !in f && '#' !in f {
      assert f in fields;
      forall c | c in f ensures c != '#' {
        assert c in content;
      }
    }
  }

  /** Hexadecimal digits are neither whitespace nor dots nor separators. */
  lemma HexStringPlain(h: string)
    requires IsHexString(h)
    ensures IsTrimmed(h) && ';' !in h && '#' !in h && '.' !in h && '\n' !in h
    ensures forall k :: !OccursAt(h, "..", k)
  {
    forall k | OccursAt(h, "..", k) ensures false {
      OccursAtHead(h, "..", k);
    }
  }

  /** The first field of `first;rest` is `first` trimmed. */
  lemma FirstField(first: string, rest: string)
    requires ';' !in first
    ensures |Fields(first + ";" + rest)| >= 2
    ensures Fields(first + ";" + rest)[0] == Strip(first)
    ensures Fields(first + ";" + rest)[1..] == Fields(rest)
  {
    var line := first + ";" + rest;
    assert Split(line, ';') == [first] + Split(rest, ';') by {
      SplitAfter(first, rest, ';');
    }
    FieldsAfterFirst(line, rest);
  }

  /** When a line splits into one piece followed by the pieces of `rest`, its fields after the first are those of `rest`. */
  lemma FieldsAfterFirst(line: string, rest: string)
    requires |Split(line, ';')| > 0 && Split(line, ';')[1..] == Split(rest, ';')
    ensures |Fields(line)| == |Fields(rest)| + 1
    ensures Fields(line)[1..] == Fields(rest)
  {
    var parts := Split(line, ';');
    var restParts := Split(rest, ';');
    var fields := Fields(line);
    forall i | 0 <= i < |restParts| ensures fields[1..][i] == Fields(rest)[i] {
      assert parts[i + 1] == restParts[i];
    }
  }

  /** A lone hexadecimal first field gives a singleton range at its base-16 value. */
  lemma ContentWithSingleCodepoint(first: string, rest: string)
    requires ';' !in first && IsHexString(Strip(first))
    ensures var v := HexValue(Strip(first));
            ParseContent(first + ";" + rest) == Record(CodepointRange(v, v), Fields(rest))
  {
    HexStringPlain(Strip(first));
    FirstField(first, rest);
  }

  /**
   * A newline-terminated data line without a comment, as the data files hold
   * them: its single code point and the trimmed pieces after the first `;`.
   */
  lemma DataLine(first: string, rest: string)
    requires ';' !in first && IsHexString(Strip(first))
    requires '#' !in first && '#' !in rest && (rest == [] || rest[|rest| - 1] != '\n')
    ensures var v := HexValue(Strip(first));
            ParseLine(first + ";" + rest + "\n") == Record(CodepointRange(v, v), Fields(rest))
  {
    var content := first + ";" + rest;
    assert Content(content + "\n") == content by {
      assert content[|content| - 1] != '\n' by {
        if rest == [] {
          assert content[|content| - 1] == ';';
        } else {
          assert content[|content| - 1] == rest[|rest| - 1];
        }
      }
      ContentOfTerminatedLine(content);
    }
    ContentWithSingleCodepoint(first, rest);
  }

  /** A comment-free line with one trailing newline has the text before the newline as content. */
  lemma ContentOfTerminatedLine(text: string)
    requires '#' !in text && text != [] && text[|text| - 1] != '\n'
    ensures Content(text + "\n") == text
  {
    assert RStripChar(text + "\n", '\n') == text by {
      RStripCharAfter(text, "\n", '\n');
      assert RStripChar(text, '\n') == text;
    }
    assert '#' !in text + "\n";
  }

  /** After a hexadecimal numeral, the first `..` is the one that follows it. */
  lemma PartitionAfterNumeral(a: string, b: string)
    requires IsHexString(a)
    ensures Partition(a + ".." + b, "..") == (a, "..", b)
  {
    var expr := a + ".." + b;
    HexStringPlain(a);
    forall k | 0 <= k < |a| ensures !OccursAt(expr, "..", k) {
      assert expr[k] == a[k];
      if OccursAt(expr, "..", k) {
        OccursAtHead(expr, "..", k);
      }
    }
    assert expr[|a|..|a| + 2] == "..";
    FindIs(expr, "..", |a|);
    assert expr[..|a|] == a && expr[|a| + 2..] == b;
  }

  /** `A..B` splits at its only `..` into the two numerals. */
  lemma RangeExpressionOfPair(a: string, b: string)
    requires IsHexString(a) && IsHexString(b)
    ensures ParseRangeExpression(a + ".." + b) == Ok(CodepointRange(HexValue(a), HexValue(b)))
  {
    PartitionAfterNumeral(a, b);
    assert ParseHexField(a) == Ok(HexValue(a)) && ParseHexField(b) == Ok(HexValue(b)) by {
      HexStringPlain(a);
      HexStringPlain(b);
    }
  }

  /** A range whose end is not a numeral raises `ValueError` on the end, once the start has parsed. */
  lemma InvalidRangeEnd(a: string, b: string)
    requires IsHexString(a) && !IsHexString(Strip(b))
    ensures ParseRangeExpression(a + ".." + b) == Err(InvalidHex(b))
  {
    PartitionAfterNumeral(a, b);
    HexStringPlain(a);
  }

  /** A first field that fails as a range expression makes the whole content fail with its error. */
  lemma FirstFieldError(first: string, rest: string)
    requires ';' !in first && ParseRangeExpression(Strip(first)).Err?
    ensures ParseContent(first + ";" + rest) == Malformed(ParseRangeExpression(Strip(first)).error)
  {
    FirstField(first, rest);
    FailingRangeField(first + ";" + rest, Strip(first));
  }

  lemma FailingRangeField(content: string, rangeField: string)
    requires |Fields(content)| >= 2 && Fields(content)[0] == rangeField
    requires ParseRangeExpression(rangeField).Err?
    ensures ParseContent(content) == Malformed(ParseRangeExpression(rangeField).error)
  {
  }

  /** A first field without `..` that is not a numeral raises `ValueError` on that field. */
  lemma InvalidFirstField(first: string, rest: string)
    requires ';' !in first && '.' !in first && !IsHexString(Strip(first))
    ensures ParseContent(first + ";" + rest) == Malformed(InvalidHex(Strip(first)))
  {
    FirstFieldError(first, rest);
  }

  /** A first field `A..B` whose end is not a numeral raises `ValueError` on `B`. */
  lemma InvalidRangeEndField(a: string, b: string, rest: string)
    requires IsHexString(a) && ';' !in b && IsTrimmed(b) && !IsHexString(Strip(b))
    ensures ParseContent(a + ".." + b + ";" + rest) == Malformed(InvalidHex(b))
  {
    var first := a + ".." + b;
    assert ParseRangeExpression(Strip(first)) == Err(InvalidHex(b)) by {
      RangeTextPlain(a, b);
      InvalidRangeEnd(a, b);
    }
    assert ';' !in first by {
      RangeTextPlain(a, b);
    }
    FirstFieldError(first, rest);
  }

  lemma RangeTextPlain(a: string, b: string)
    requires IsHexString(a) && ';' !in b && IsTrimmed(b)
    ensures ';' !in a + ".." + b && Strip(a + ".." + b) == a + ".." + b
  {
    var first := a + ".." + b;
    HexStringPlain(a);
    assert first[0] == a[0];
    assert b != [] ==> first[|first| - 1] == b[|b| - 1];
  }

  /** A first field `A..B` gives the range from A to B, with no check that A <= B. */
  lemma ContentWithRange(first: string, a: string, b: string, rest: string)
    requires ';' !in first && IsHexString(a) && IsHexString(b) && Strip(first) == a + ".." + b
    ensures ParseContent(first + ";" + rest) == Record(CodepointRange(HexValue(a), HexValue(b)), Fields(rest))
  {
    FirstField(first, rest);
    RangeExpressionOfPair(a, b);
  }

  /**
   * A lone hexadecimal field gives a singleton range at its base-16 value,
   * whatever the case of its letters.
   */
  lemma SingleCodepointField(h: string, rest: string, comment: string)
    requires IsHexString(h) && '#' !in rest
    ensures var r := ParseLine(h + ";" + rest + "#" + comment);
            r.Record? && r.range == CodepointRange(HexValue(h), HexValue(h)) && r.range.IsSingleton()
            && r.dataFields == Fields(rest)
  {
    HexStringPlain(h);
    ContentBeforeComment(h + ";" + rest, comment);
    ContentWithSingleCodepoint(h, rest);
  }

  /** `A..B` gives the range from A to B, with no check that A <= B. */
  lemma RangeField(a: string, b: string, rest: string, comment: string)
    requires IsHexString(a) && IsHexString(b) && '#' !in rest
    ensures var r := ParseLine(a + ".." + b + ";" + rest + "#" + comment);
            r.Record? && r.range == CodepointRange(HexValue(a), HexValue(b))
            && r.dataFields == Fields(rest)
  {
    HexStringPlain(a);
    HexStringPlain(b);
    var first := a + ".." + b;
    assert '#' !in first + ";" + rest;
    assert first[0] == a[0] && first[|first| - 1] == b[|b| - 1];
    assert Content(first + ";" + rest + "#" + comment) == first + ";" + rest by {
      ContentBeforeComment(first + ";" + rest, comment);
    }
    ContentWithRange(first, a, b, rest);
  }

  /** A field the UCD writer can emit unchanged: trimmed, with no `;` and no `#`. */
  predicate IsPlainField(f: string) {
    IsTrimmed(f) && ';' !in f && '#' !in f
  }

  /** The range expression as UCD files write it: at least four upper-case hex digits. */
  function RangeText(r: CodepointRange): (s: string)
    requires r.start >= 0 && r.endInclusive >= 0
  {
    if r.IsSingleton() then FormatHex(r.start, 4)
    else FormatHex(r.start, 4) + ".." + FormatHex(r.endInclusive, 4)
  }

  /** A data line: the range expression followed by the fields, `;`-separated. */
  function FormatLine(r: CodepointRange, dataFields: seq<string>): string
    requires r.start >= 0 && r.endInclusive >= 0 && |dataFields| > 0
  {
    RangeText(r) + ";" + Join(dataFields, ';')
  }

  /** Joined plain fields split back into the same fields. */
  lemma FieldsOfJoin(dataFields: seq<string>)
    requires |dataFields| > 0 && forall f :: f in dataFields ==> IsPlainField(f)
    ensures Fields(Join(dataFields, ';')) == dataFields
  {
    SplitJoin(dataFields, ';');
    var fields := Fields(Join(dataFields, ';'));
    assert |fields| == |dataFields|;
    forall i | 0 <= i < |dataFields| ensures fields[i] == dataFields[i] {
      assert dataFields[i] in dataFields;
    }
  }

  /** A character in none of the parts, and not the separator, is not in their join. */
  lemma {:induction false} JoinAvoids(parts: seq<string>, c: char)
    requires |parts| > 0 && c != ';'
    requires forall p :: p in parts ==> c !in p
    ensures c !in Join(parts, ';')
    decreases |parts|
  {
    if |parts| > 1 {
      assert parts[0] in parts;
      assert forall p :: p in parts[1..] ==> p in parts;
      JoinAvoids(parts[1..], c);
    }
  }

  /** The last character of a join of plain fields is never whitespace. */
  lemma {:induction false} JoinEnd(parts: seq<string>)
    requires |parts| > 0 && forall f :: f in parts ==> IsPlainField(f)
    ensures var s := Join(parts, ';'); s == [] || !IsSpace(s[|s| - 1])
    decreases |parts|
  {
    assert parts[0] in parts;
    if |parts| > 1 {
      assert forall p :: p in parts[1..] ==> p in parts;
      JoinEnd(parts[1..]);
      var tail := Join(parts[1..], ';');
      var s := parts[0] + [';'] + tail;
      assert Join(parts, ';') == s;
      assert s[|s| - 1] == if tail == [] then ';' else tail[|tail| - 1];
    }
  }

  /** A formatted line has no `#`, does not end in a newline, and its content is itself. */
  lemma FormattedLinePlain(r: CodepointRange, dataFields: seq<string>)
    requires r.start >= 0 && r.endInclusive >= 0
    requires |dataFields| > 0 && forall f :: f in dataFields ==> IsPlainField(f)
    ensures var line := FormatLine(r, dataFields);
            '#' !in line && line[|line| - 1] != '\n' && Content(line) == line
  {
    var rest := Join(dataFields, ';');
    var range := RangeText(r);
    var line := FormatLine(r, dataFields);
    assert line == range + ";" + rest;
    assert '#' !in range by {
      HexStringPlain(FormatHex(r.start, 4));
      HexStringPlain(FormatHex(r.endInclusive, 4));
    }
    assert '#' !in rest by {
      JoinAvoids(dataFields, '#');
    }
    assert '#' !in line;
    assert line[|line| - 1] != '\n' by {
      JoinEnd(dataFields);
      if rest != [] {
        assert line[|line| - 1] == rest[|rest| - 1];
      }
    }
    assert RStripChar(line, '\n') == line;
    FindNone(line, '#');
  }

  /** A formatted range field followed by `;` and any text parses back to that range. */
  lemma RangeTextThenFields(r: CodepointRange, rest: string)
    requires r.start >= 0 && r.endInclusive >= 0
    ensures ParseContent(RangeText(r) + ";" + rest) == Record(r, Fields(rest))
  {
    var a := FormatHex(r.start, 4);
    var b := FormatHex(r.endInclusive, 4);
    HexStringPlain(a);
    if r.IsSingleton() {
      assert RangeText(r) == a;
      ContentWithSingleCodepoint(a, rest);
    } else {
      var first := a + ".." + b;
      assert RangeText(r) == first;
      HexStringPlain(b);
      assert first[0] == a[0] && first[|first| - 1] == b[|b| - 1];
      ContentWithRange(first, a, b, rest);
    }
  }

  /** The content of a formatted line parses to the range and fields it was written from. */
  lemma ParseFormattedContent(r: CodepointRange, dataFields: seq<string>)
    requires r.start >= 0 && r.endInclusive >= 0
    requires |dataFields| > 0 && forall f :: f in dataFields ==> IsPlainField(f)
    ensures ParseContent(FormatLine(r, dataFields)) == Record(r, dataFields)
  {
    var rest := Join(dataFields, ';');
    assert Fields(rest) == dataFields by {
      FieldsOfJoin(dataFields);
    }
    assert FormatLine(r, dataFields) == RangeText(r) + ";" + rest;
    RangeTextThenFields(r, rest);
  }

  /**
   * Parsing inverts formatting: a line written from a range and plain
   * fields parses back to that range and those fields.
   */
  lemma FormatThenParse(r: CodepointRange, dataFields: seq<string>)
    requires r.start >= 0 && r.endInclusive >= 0
    requires |dataFields| > 0 && forall f :: f in dataFields ==> IsPlainField(f)
    ensures ParseLine(FormatLine(r, dataFields)) == Record(r, dataFields)
  {
    FormattedLinePlain(r, dataFields);
    ParseFormattedContent(r, dataFields);
  }

  /** The same holds with a trailing comment, whatever it says. */
  lemma FormatWithCommentThenParse(r: CodepointRange, dataFields: seq<string>, comment: string)
    requires r.start >= 0 && r.endInclusive >= 0
    requires |dataFields| > 0 && forall f :: f in dataFields ==> IsPlainField(f)
    ensures ParseLine(FormatLine(r, dataFields) + "#" + comment) == Record(r, dataFields)
  {
    FormattedLinePlain(r, dataFields);
    ContentBeforeComment(FormatLine(r, dataFields), comment);
    ParseFormattedContent(r, dataFields);
  }

  /** The documented examples of blank lines: a lone newline and a comment line. */
  lemma BlankLineExamples()
    ensures ParseLine("\n") == Blank
    ensures ParseLine("# I'm a comment\n") == Blank
  {
    BlankIff("\n");
    BlankIff("# I'm a comment\n");
  }

  /** `" Common ".strip()` */
  lemma StripCommon()
    ensures Strip(" Common ") == "Common"
  {
    assert AllSpace(" ");
    assert IsTrimmed("Common");
    StripPadded(" ", "Common", " ");
    CommonText();
  }

  /** Helper: the literal field text as the pieces the lemma above strips, proved apart from any parsing. */
  lemma CommonText()
    ensures " " + "Common" + " " == " Common "
  {
  }

  lemma CommonField()
    ensures Fields(" Common ") == ["Common"]
  {
    assert ';' !in " Common ";
    SplitNoSeparator(" Common ", ';');
    var fields := Fields(" Common ");
    assert |fields| == 1 && fields[0] == Strip(" Common ");
    StripCommon();
  }

  lemma StripSingleCodepointField()
    ensures Strip("0020          ") == "0020"
  {
    assert AllSpace("") && AllSpace("          ");
    assert IsTrimmed("0020");
    StripPadded("", "0020", "          ");
    SingleCodepointFieldText();
  }

  /** Helper: the literal field text as the pieces the lemma above strips, proved apart from any parsing. */
  lemma SingleCodepointFieldText()
    ensures "" + "0020" + "          " == "0020          "
  {
    assert "0020" + "          " == "0020          ";
  }

  lemma HexValueOfSpace()
    ensures IsHexString("0020") && HexValue("0020") == 32
  {
    HexValueAppend("0", '0');
    HexValueAppend("00", '2');
    HexValueAppend("002", '0');
    assert "00" == "0" + ['0'] && "002" == "00" + ['2'] && "0020" == "002" + ['0'];
  }

  /** The documented example of a single code point with a comment. */
  lemma SingleCodepointExample()
    ensures ParseLine("0020          " + ";" + " Common " + "#" + " Zs       SPACE")
         == Record(CodepointRange(32, 32), ["Common"])
  {
    SingleCodepointContent();
    SingleCodepointRecord("0020          ", " Common ");
  }

  lemma SingleCodepointContent()
    ensures Content("0020          " + ";" + " Common " + "#" + " Zs       SPACE") == "0020          " + ";" + " Common "
  {
    assert '#' !in "0020          " && '#' !in " Common ";
    ContentBeforeComment("0020          " + ";" + " Common ", " Zs       SPACE");
  }

  lemma SingleCodepointRecord(first: string, rest: string)
    requires first == "0020          " && rest == " Common "
    ensures ParseContent(first + ";" + rest) == Record(CodepointRange(32, 32), ["Common"])
  {
    assert ';' !in first;
    assert IsHexString(Strip(first)) && HexValue(Strip(first)) == 32 by {
      StripSingleCodepointField();
      HexValueOfSpace();
    }
    assert Fields(rest) == ["Common"] by {
      CommonField();
    }
    ContentWithSingleCodepoint(first, rest);
  }

  lemma StripRangeField()
    ensures Strip("1D2E0..1D2F3  ") == "1D2E0" + ".." + "1D2F3"
  {
    var t := "1D2E0..1D2F3";
    assert IsTrimmed(t);
    assert "" + t + "  " == "1D2E0..1D2F3  " by {
      RangeFieldText();
    }
    StripPadded("", t, "  ");
    RangeFieldText();
  }

  /** Helper: the literal field text as the pieces the lemma above strips, proved apart from any parsing. */
  lemma RangeFieldText()
    ensures "" + "1D2E0..1D2F3" + "  " == "1D2E0..1D2F3  "
    ensures "1D2E0" + ".." + "1D2F3" == "1D2E0..1D2F3"
  {
    assert "1D2E0..1D2F3" + "  " == "1D2E0..1D2F3  ";
  }

  lemma HexValueOfRangeStart()
    ensures IsHexString("1D2E0") && HexValue("1D2E0") == 119520
  {
    HexValueAppend("1", 'D');
    HexValueAppend("1D", '2');
    HexValueAppend("1D2", 'E');
    HexValueAppend("1D2E", '0');
    assert "1D" == "1" + ['D'] && "1D2" == "1D" + ['2'] && "1D2E" == "1D2" + ['E'] && "1D2E0" == "1D2E" + ['0'];
  }

  lemma HexValueOfRangeEnd()
    ensures IsHexString("1D2F3") && HexValue("1D2F3") == 119539
  {
    HexValueAppend("1", 'D');
    HexValueAppend("1D", '2');
    HexValueAppend("1D2", 'F');
    HexValueAppend("1D2F", '3');
    assert "1D" == "1" + ['D'] && "1D2" == "1D" + ['2'] && "1D2F" == "1D2" + ['F'] && "1D2F3" == "1D2F" + ['3'];
  }

  /** The documented example of an explicit range, with its comment. */
  lemma RangeExample()
    ensures ParseLine("1D2E0..1D2F3  " + ";" + " Common " + "#" + " No  [20] MAYAN NUMERAL ZERO..MAYAN NUMERAL NINETEEN")
         == Record(CodepointRange(119520, 119539), ["Common"])
  {
    RangeContent();
    RangeRecord("1D2E0..1D2F3  ", " Common ");
  }

  lemma RangeContent()
    ensures Content("1D2E0..1D2F3  " + ";" + " Common " + "#" + " No  [20] MAYAN NUMERAL ZERO..MAYAN NUMERAL NINETEEN")
         == "1D2E0..1D2F3  " + ";" + " Common "
  {
    assert '#' !in "1D2E0..1D2F3  " && '#' !in " Common ";
    ContentBeforeComment("1D2E0..1D2F3  " + ";" + " Common ", " No  [20] MAYAN NUMERAL ZERO..MAYAN NUMERAL NINETEEN");
  }

  lemma RangeRecord(first: string, rest: string)
    requires first == "1D2E0..1D2F3  " && rest == " Common "
    ensures ParseContent(first + ";" + rest) == Record(CodepointRange(119520, 119539), ["Common"])
  {
    assert ';' !in first;
    var a, b := "1D2E0", "1D2F3";
    assert Strip(first) == a + ".." + b by {
      StripRangeField();
    }
    assert IsHexString(a) && HexValue(a) == 119520 && IsHexString(b) && HexValue(b) == 119539 by {
      HexValueOfRangeStart();
      HexValueOfRangeEnd();
    }
    assert Fields(rest) == ["Common"] by {
      CommonField();
    }
    ContentWithRange(first, a, b, rest);
  }
}
