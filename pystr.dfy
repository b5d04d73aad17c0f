/**
 * The few Python `str` methods that the UCD line parser chains together:
 * `rstrip(ch)`, `partition(sep)`, `split(ch)` and argument-less `strip()`.
 * Each is a function over `string` whose contract says what Python promises.
 */
module PyStr {
  import opened Results

  /** `str.isspace()` for one character: the code points Python's `str.strip()` removes. */
  predicate IsSpace(c: char) {
    var n := c as int;
    || 0x09 <= n <= 0x0D || 0x1C <= n <= 0x20
    || n == 0x85 || n == 0xA0 || n == 0x1680
    || 0x2000 <= n <= 0x200A || n == 0x2028 || n == 0x2029
    || n == 0x202F || n == 0x205F || n == 0x3000
  }

  /** Neither end of `s` is whitespace, so `strip()` leaves it alone. */
  predicate IsTrimmed(s: string) {
    s == [] || (!IsSpace(s[0]) && !IsSpace(s[|s| - 1]))
  }

  /** `s.rstrip(ch)`: drop every trailing occurrence of `ch`. */
  function RStripChar(s: string, ch: char): (r: string)
    ensures |r| <= |s| && r == s[..|r|]
    ensures forall i :: |r| <= i < |s| ==> s[i] == ch
    ensures r == [] || r[|r| - 1] != ch
  {
    if |s| > 0 && s[|s| - 1] == ch then RStripChar(s[..|s| - 1], ch) else s
  }

  /** Trailing `ch` after a character that is not `ch` are all that `rstrip` can touch. */
  lemma {:induction false} RStripCharAfter(a: string, tail: string, ch: char)
    requires a != [] && a[|a| - 1] != ch
    ensures RStripChar(a + tail, ch) == a + RStripChar(tail, ch)
    decreases |tail|
  {
    if tail == [] {
      assert a + tail == a;
    } else if tail[|tail| - 1] == ch {
      assert (a + tail)[..|a + tail| - 1] == a + tail[..|tail| - 1];
      RStripCharAfter(a, tail[..|tail| - 1], ch);
    } else {
      assert (a + tail)[|a + tail| - 1] == tail[|tail| - 1];
    }
  }

  /** Leading whitespace removed (`str.lstrip()`). */
  function LStripSpace(s: string): (r: string)
    ensures |r| <= |s| && r == s[|s| - |r|..]
    ensures forall i :: 0 <= i < |s| - |r| ==> IsSpace(s[i])
    ensures r == [] || !IsSpace(r[0])
  {
    if |s| > 0 && IsSpace(s[0]) then LStripSpace(s[1..]) else s
  }

  /** Trailing whitespace removed (`str.rstrip()`). */
  function RStripSpace(s: string): (r: string)
    ensures |r| <= |s| && r == s[..|r|]
    ensures forall i :: |r| <= i < |s| ==> IsSpace(s[i])
    ensures r == [] || !IsSpace(r[|r| - 1])
  {
    if |s| > 0 && IsSpace(s[|s| - 1]) then RStripSpace(s[..|s| - 1]) else s
  }

  /** `s.strip()`: the middle of `s` between its leading and trailing whitespace. */
  function Strip(s: string): (r: string)
    ensures IsTrimmed(r)
    ensures forall c :: c in r ==> c in s
    ensures r == [] <==> forall i :: 0 <= i < |s| ==> IsSpace(s[i])
    ensures IsTrimmed(s) ==> r == s
  {
    var l := LStripSpace(s);
    var r := RStripSpace(l);
    assert IsTrimmed(r) by {
      if r != [] {
        assert r[0] == l[0];
      }
    }
    assert forall c :: c in r ==> c in s by {
      forall c | c in r ensures c in s {
        var k :| 0 <= k < |r| && r[k] == c;
        assert l[k] == c;
        assert s[|s| - |l| + k] == c;
      }
    }
    assert (forall i :: 0 <= i < |s| ==> IsSpace(s[i])) ==> r == [] by {
      if l != [] {
        assert l[0] == s[|s| - |l|];
      }
    }
    assert IsTrimmed(s) ==> r == s by {
      if IsTrimmed(s) && s != [] {
        assert l == s;
      }
    }
    r
  }

  /** `sep` starts at index `k` of `s`. */
  predicate OccursAt(s: string, sep: string, k: int) {
    0 <= k && k + |sep| <= |s| && s[k..k + |sep|] == sep
  }

  /** The first index at which `sep` occurs in `s` (Python's `str.find`, with `None` for -1). */
  function Find(s: string, sep: string): (r: Option<nat>)
    ensures r.Some? ==> OccursAt(s, sep, r.value)
    ensures r.Some? ==> forall k :: 0 <= k < r.value ==> !OccursAt(s, sep, k)
    ensures r.None? ==> forall k :: !OccursAt(s, sep, k)
  {
    FindFrom(s, sep, 0)
  }

  /** The first occurrence of `sep` at or after index `i`. */
  function FindFrom(s: string, sep: string, i: nat): (r: Option<nat>)
    ensures r.Some? ==> i <= r.value && OccursAt(s, sep, r.value)
    ensures r.Some? ==> forall k :: i <= k < r.value ==> !OccursAt(s, sep, k)
    ensures r.None? ==> forall k :: i <= k ==> !OccursAt(s, sep, k)
    decreases |s| - i
  {
    if i + |sep| > |s| then None
    else if s[i..i + |sep|] == sep then Some(i)
    else FindFrom(s, sep, i + 1)
  }

  /** The first occurrence is the one index with an occurrence and none before it. */
  lemma FindIs(s: string, sep: string, i: nat)
    requires OccursAt(s, sep, i)
    requires forall k :: 0 <= k < i ==> !OccursAt(s, sep, k)
    ensures Find(s, sep) == Some(i)
  {
  }

  /** A one-character separator occurs exactly where that character stands. */
  lemma OccursAtChar(s: string, c: char, k: int)
    ensures OccursAt(s, [c], k) <==> 0 <= k < |s| && s[k] == c
  {
    if 0 <= k < |s| {
      assert s[k..k + 1] == [s[k]];
    }
  }

  /** A separator can only start at an index holding its first character. */
  lemma OccursAtHead(s: string, sep: string, k: int)
    requires |sep| > 0 && OccursAt(s, sep, k)
    ensures s[k] == sep[0]
  {
    assert s[k..k + |sep|][0] == s[k];
  }

  /**
   * `s.partition(sep)`: the text before the first `sep`, the separator
   * itself (or "" when absent) and the text after it.
   */
  function Partition(s: string, sep: string): (r: (string, string, string))
    requires |sep| > 0
    ensures r.0 + r.1 + r.2 == s
    ensures r.1 == sep || (r.1 == "" && r.0 == s && r.2 == "")
    ensures r.1 == sep <==> exists k :: OccursAt(s, sep, k)
    ensures forall k :: !OccursAt(r.0, sep, k)
    ensures r.1 == sep ==> Find(s, sep) == Some(|r.0|)
  {
    match Find(s, sep)
    case None => (s, "", "")
    case Some(i) =>
      assert s[..i] + sep + s[i + |sep|..] == s by {
        assert s[i..i + |sep|] == sep;
        assert s == s[..i] + s[i..i + |sep|] + s[i + |sep|..];
      }
      assert forall k :: !OccursAt(s[..i], sep, k) by {
        forall k | OccursAt(s[..i], sep, k) ensures false {
          assert s[..i][k..k + |sep|] == s[k..k + |sep|];
          assert OccursAt(s, sep, k);
        }
      }
      (s[..i], sep, s[i + |sep|..])
  }

  /** How many times `c` occurs in `s`. */
  function Count(s: string, c: char): (n: nat)
    ensures n == 0 <==> c !in s
    ensures n <= |s|
  {
    if s == [] then 0 else (if s[0] == c then 1 else 0) + Count(s[1..], c)
  }

  /** `sep.join(parts)`, for a one-character separator. */
  function Join(parts: seq<string>, sep: char): (s: string)
    requires |parts| > 0
  {
    if |parts| == 1 then parts[0] else parts[0] + [sep] + Join(parts[1..], sep)
  }

  /**
   * `s.split(sep)`, for a one-character separator: the pieces between
   * successive separators, one more piece than there are separators.
   */
  function Split(s: string, sep: char): (parts: seq<string>)
    ensures |parts| == Count(s, sep) + 1
    ensures forall p :: p in parts ==> sep !in p
    ensures forall p, c :: p in parts && c in p ==> c in s
    ensures Join(parts, sep) == s
  {
    if s == [] then [[]]
    else
      var rest := Split(s[1..], sep);
      assert s == [s[0]] + s[1..];
      if s[0] == sep then
        var parts := [[]] + rest;
        assert parts[1..] == rest;
        parts
      else
        var parts := [[s[0]] + rest[0]] + rest[1..];
        assert Join(parts, sep) == s by {
          JoinPrepend(s[0], rest, sep);
        }
        assert forall p :: p in parts ==> p == parts[0] || p in rest by {
          assert parts[1..] == rest[1..];
        }
        parts
  }

  /** Prefixing a character to the first part prefixes it to the joined text. */
  lemma JoinPrepend(c: char, parts: seq<string>, sep: char)
    requires |parts| > 0
    ensures Join([[c] + parts[0]] + parts[1..], sep) == [c] + Join(parts, sep)
  {
    var q := [[c] + parts[0]] + parts[1..];
    assert q[1..] == parts[1..];
  }

  /** Splitting a join gives the parts back, when no part holds the separator. */
  lemma {:induction false} SplitJoin(parts: seq<string>, sep: char)
    requires |parts| > 0
    requires forall p :: p in parts ==> sep !in p
    ensures Split(Join(parts, sep), sep) == parts
    decreases |parts|
  {
    if |parts| == 1 {
      SplitNoSeparator(parts[0], sep);
    } else {
      SplitJoin(parts[1..], sep);
      SplitAfter(parts[0], Join(parts[1..], sep), sep);
      assert parts == [parts[0]] + parts[1..];
    }
  }

  /** Without the separator the whole string is the only piece. */
  lemma {:induction false} SplitNoSeparator(s: string, sep: char)
    requires sep !in s
    ensures Split(s, sep) == [s]
    decreases |s|
  {
    if s != [] {
      SplitNoSeparator(s[1..], sep);
      assert s == [s[0]] + s[1..];
    }
  }

  /** The text before the first separator is the first piece; the rest splits on its own. */
  lemma {:induction false} SplitAfter(a: string, b: string, sep: char)
    requires sep !in a
    ensures Split(a + [sep] + b, sep) == [a] + Split(b, sep)
    decreases |a|
  {
    var s := a + [sep] + b;
    if a == [] {
      assert s[1..] == b;
    } else {
      assert s[0] == a[0] && s[1..] == a[1..] + [sep] + b;
      SplitAfter(a[1..], b, sep);
      var rest := Split(s[1..], sep);
      assert rest == [a[1..]] + Split(b, sep);
      assert [s[0]] + rest[0] == a;
      assert rest[1..] == Split(b, sep);
    }
  }

  /** Text without the separator, appended to a string, extends its last piece. */
  lemma {:induction false} SplitTrailing(s: string, w: string, sep: char)
    requires sep !in w
    ensures var parts := Split(s, sep);
            Split(s + w, sep) == parts[..|parts| - 1] + [parts[|parts| - 1] + w]
    decreases |s|
  {
    if s == [] {
      assert s + w == w;
      SplitNoSeparator(w, sep);
    } else {
      var parts := Split(s, sep);
      var tail := Split(s[1..], sep);
      var n := |tail|;
      var init, last := tail[..n - 1], tail[n - 1];
      SplitTrailing(s[1..], w, sep);
      TailAppend(s, w);
      var rest := Split(s[1..] + w, sep);
      assert rest == init + [last + w];
      var head := if s[0] == sep then [] else [s[0]] + tail[0];
      var more := if s[0] == sep then tail else tail[1..];
      assert parts == [head] + more;
      if s[0] == sep {
        assert Split(s + w, sep) == [head] + rest;
        InitLast(tail);
        AppendRegroup([head], init, [last + w]);
        AppendRegroup([head], init, [last]);
      } else if n == 1 {
        assert Split(s + w, sep) == [[s[0]] + rest[0]];
        AppendRegroup([s[0]], tail[0], w);
      } else {
        assert Split(s + w, sep) == [[s[0]] + rest[0]] + rest[1..];
        TailAppend(init, [last + w]);
        assert rest[0] == tail[0];
        assert more == init[1..] + [last] by {
          InitLast(tail);
          TailAppend(init, [last]);
        }
        AppendRegroup([head], init[1..], [last + w]);
        AppendRegroup([head], init[1..], [last]);
      }
    }
  }

  lemma InitLast<T>(s: seq<T>)
    requires s != []
    ensures s == s[..|s| - 1] + [s[|s| - 1]]
  {
  }

  lemma TailAppend<T>(s: seq<T>, w: seq<T>)
    requires s != []
    ensures (s + w)[0] == s[0] && (s + w)[1..] == s[1..] + w
  {
  }

  predicate AllSpace(s: string) {
    forall i :: 0 <= i < |s| ==> IsSpace(s[i])
  }

  /** `strip()` removes exactly the whitespace padding around trimmed text. */
  lemma StripPadded(pre: string, t: string, post: string)
    requires AllSpace(pre) && AllSpace(post) && t != [] && IsTrimmed(t)
    ensures Strip(pre + t + post) == t
  {
    var x := pre + t + post;
    assert x == pre + (t + post);
    assert (t + post)[0] == t[0];
    LStripPadded(pre, t + post);
    RStripPadded(t, post);
    assert Strip(x) == RStripSpace(LStripSpace(x));
  }

  /** Whitespace appended to a string does not survive `strip()`. */
  lemma StripTrailingSpace(x: string, w: string)
    requires AllSpace(w)
    ensures Strip(x + w) == Strip(x)
  {
    var t := Strip(x);
    if t == [] {
      assert AllSpace(x);
      assert AllSpace(x + w);
    } else {
      var pre, post := StripSplit(x);
      AppendRegroup(pre + t, post, w);
      assert AllSpace(post + w);
      StripPadded(pre, t, post + w);
    }
  }

  /** A string is its stripped middle between two runs of whitespace. */
  lemma StripSplit(x: string) returns (pre: string, post: string)
    ensures AllSpace(pre) && AllSpace(post)
    ensures x == pre + Strip(x) + post
  {
    var l := LStripSpace(x);
    var t := RStripSpace(l);
    assert Strip(x) == t;
    pre := LStripSplit(x);
    post := RStripSplit(l);
    AppendRegroup(pre, t, post);
  }

  lemma LStripSplit(x: string) returns (pre: string)
    ensures AllSpace(pre) && x == pre + LStripSpace(x)
  {
    var l := LStripSpace(x);
    var k := |x| - |l|;
    pre := x[..k];
    SliceJoin(x, k);
    SpacePrefix(x, k);
  }

  lemma SliceJoin(x: string, k: nat)
    requires k <= |x|
    ensures x[..k] + x[k..] == x
  {
  }

  lemma SpacePrefix(x: string, k: nat)
    requires k <= |x| && forall i :: 0 <= i < k ==> IsSpace(x[i])
    ensures AllSpace(x[..k])
  {
    forall i | 0 <= i < k ensures IsSpace(x[..k][i]) {
      assert x[..k][i] == x[i];
    }
  }

  lemma RStripSplit(x: string) returns (post: string)
    ensures AllSpace(post) && x == RStripSpace(x) + post
  {
    var r := RStripSpace(x);
    post := x[|r|..];
    SliceJoin(x, |r|);
    assert AllSpace(post) by {
      forall i | 0 <= i < |post| ensures IsSpace(post[i]) {
        assert post[i] == x[|r| + i];
      }
    }
  }

  lemma AppendRegroup<T>(a: seq<T>, b: seq<T>, c: seq<T>)
    ensures (a + b) + c == a + (b + c)
  {
  }

  lemma {:induction false} LStripPadded(pre: string, s: string)
    requires AllSpace(pre) && s != [] && !IsSpace(s[0])
    ensures LStripSpace(pre + s) == s
    decreases |pre|
  {
    if pre == [] {
      assert pre + s == s;
    } else {
      assert (pre + s)[1..] == pre[1..] + s;
      LStripPadded(pre[1..], s);
    }
  }

  lemma {:induction false} RStripPadded(s: string, post: string)
    requires AllSpace(post) && s != [] && !IsSpace(s[|s| - 1])
    ensures RStripSpace(s + post) == s
    decreases |post|
  {
    if post == [] {
      assert s + post == s;
    } else {
      var n := |post| - 1;
      assert (s + post)[..|s + post| - 1] == s + post[..n];
      RStripPadded(s, post[..n]);
    }
  }
}
