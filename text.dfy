/** The Python string operations the ingestion script relies on, over strings
    as sequences of characters: `str.strip()` with no arguments, `sep.join(parts)`,
    `s.split(sep)` for a one-character separator, and the "join only the
    non-empty parts with a newline" shape used by the PDF and DOCX extractors. */
module Text {

  /** Python's `str.isspace()` for one character: exactly the characters that
      `str.strip()` without arguments removes. */
  predicate IsSpace(c: char) {
    var n := c as int;
    (0x09 <= n <= 0x0D) || (0x1C <= n <= 0x20) || n == 0x85 || n == 0xA0 || n == 0x1680
    || (0x2000 <= n <= 0x200A) || n == 0x2028 || n == 0x2029 || n == 0x202F || n == 0x205F
    || n == 0x3000
  }

  predicate AllSpace(s: string) {
    forall k :: 0 <= k < |s| ==> IsSpace(s[k])
  }

  /** `r` is `s` with some whitespace removed at its start and some at its end. */
  ghost predicate Trims(s: string, r: string) {
    exists i :: 0 <= i <= |s| - |r| && s[i..i + |r|] == r && AllSpace(s[..i]) && AllSpace(s[i + |r|..])
  }

  /** `str.lstrip()`: drops the leading whitespace. */
  function StripStart(s: string): (r: string)
    ensures |r| <= |s| && r == s[|s| - |r|..]
    ensures AllSpace(s[..|s| - |r|])
    ensures r != [] ==> !IsSpace(r[0])
    decreases |s|
  {
    if s != [] && IsSpace(s[0]) then
      var r := StripStart(s[1..]);
      assert s[1..][..|s| - 1 - |r|] == s[1..|s| - |r|];
      assert s[..|s| - |r|] == [s[0]] + s[1..|s| - |r|];
      r
    else
      s
  }

  /** `str.rstrip()`: drops the trailing whitespace. */
  function StripEnd(s: string): (r: string)
    ensures |r| <= |s| && r == s[..|r|]
    ensures AllSpace(s[|r|..])
    ensures r != [] ==> !IsSpace(r[|r| - 1])
    decreases |s|
  {
    if s != [] && IsSpace(s[|s| - 1]) then
      var r := StripEnd(s[..|s| - 1]);
      assert s[..|s| - 1][|r|..] + [s[|s| - 1]] == s[|r|..];
      r
    else
      s
  }

  /** `str.strip()`: the line with its surrounding whitespace removed. The
      result is a slice of `s`, everything cut off is whitespace, and the
      result neither starts nor ends with whitespace; it is empty exactly when
      `s` is all whitespace. */
  function Strip(s: string): (r: string)
    ensures Trims(s, r)
    ensures r != [] ==> !IsSpace(r[0]) && !IsSpace(r[|r| - 1])
    ensures r == [] <==> AllSpace(s)
  {
    StripTrims(s);
    StripEdges(s);
    StripEmptyIff(s);
    StripEnd(StripStart(s))
  }

  lemma StripTrims(s: string)
    ensures Trims(s, StripEnd(StripStart(s)))
  {
    var t := StripStart(s);
    var r := StripEnd(t);
    var i := |s| - |t|;
    assert s[i..i + |r|] == r;
    assert s[i + |r|..] == t[|r|..];
    TrimsAt(s, r, i);
  }

  lemma StripEdges(s: string)
    ensures var r := StripEnd(StripStart(s));
            r != [] ==> !IsSpace(r[0]) && !IsSpace(r[|r| - 1])
  {
    var t := StripStart(s);
    var r := StripEnd(t);
    if r != [] {
      assert r[0] == t[0];
    }
  }

  lemma StripEmptyIff(s: string)
    ensures StripEnd(StripStart(s)) == [] <==> AllSpace(s)
  {
    var t := StripStart(s);
    StripStartEmpty(s);
    if t != [] {
      StripEndFirst(t);
    }
  }

  /** Removing the leading whitespace leaves nothing exactly when the text is
      all whitespace. */
  lemma {:induction false} StripStartEmpty(s: string)
    ensures StripStart(s) == [] <==> AllSpace(s)
    decreases |s|
  {
    if s != [] {
      if IsSpace(s[0]) {
        StripStartEmpty(s[1..]);
        assert forall k :: 1 <= k < |s| ==> s[k] == s[1..][k - 1];
      } else {
        assert !IsSpace(s[0]);
      }
    }
  }

  /** Trailing whitespace removal leaves nothing only when the first
      character is whitespace. */
  lemma StripEndFirst(t: string)
    requires t != []
    ensures StripEnd(t) == [] ==> IsSpace(t[0])
  {
    assert t[0..][0] == t[0];
  }

  lemma TrimsAt(s: string, r: string, i: nat)
    requires i <= |s| - |r| && s[i..i + |r|] == r && AllSpace(s[..i]) && AllSpace(s[i + |r|..])
    ensures Trims(s, r)
  {
  }

  /** If the first character of `s` that is not whitespace sits at index `k`,
      the stripped string starts with it. */
  lemma StripStartsAt(s: string, k: nat)
    requires k < |s| && AllSpace(s[..k]) && !IsSpace(s[k])
    ensures Strip(s) != [] && Strip(s)[0] == s[k]
  {
    StripStartFrom(s, k);
    var t := StripStart(s);
    assert t == s[k..] && t[0] == s[k];
    var r := StripEnd(t);
    assert r[0] == t[0];
  }

  lemma {:induction false} StripStartFrom(s: string, k: nat)
    requires k < |s| && AllSpace(s[..k]) && !IsSpace(s[k])
    ensures StripStart(s) == s[k..]
    decreases k
  {
    if k > 0 {
      assert IsSpace(s[..k][0]);
      assert s[1..][..k - 1] == s[1..k];
      assert s[1..k] == s[..k][1..];
      StripStartFrom(s[1..], k - 1);
      assert s[1..][k - 1..] == s[k..];
    }
  }

  lemma {:induction false} StripEndTo(t: string, k: nat)
    requires 0 < k <= |t| && AllSpace(t[k..]) && !IsSpace(t[k - 1])
    ensures StripEnd(t) == t[..k]
    decreases |t| - k
  {
    if k < |t| {
      var init := t[..|t| - 1];
      assert IsSpace(t[k..][|t| - 1 - k]);
      assert init[k..] == t[k..|t| - 1];
      StripEndTo(init, k);
      assert init[..k] == t[..k];
    } else {
      assert t[..k] == t;
    }
  }

  /** Stripping removes exactly the surrounding whitespace: a text that
      neither starts nor ends with whitespace, padded with whitespace on
      both sides, strips back to itself. */
  lemma StripExact(a: string, m: string, b: string)
    requires AllSpace(a) && AllSpace(b)
    requires m != [] && !IsSpace(m[0]) && !IsSpace(m[|m| - 1])
    ensures Strip(a + m + b) == m
  {
    var s := a + m + b;
    assert s[..|a|] == a && s[|a|] == m[0];
    StripStartFrom(s, |a|);
    var t := s[|a|..];
    assert t == m + b;
    assert t[|m|..] == b && t[|m| - 1] == m[|m| - 1];
    StripEndTo(t, |m|);
    assert t[..|m|] == m;
  }

  /** `sep.join(parts)`: the parts with one separator between each two. */
  function Join(sep: string, parts: seq<string>): string
    decreases |parts|
  {
    if parts == [] then ""
    else if |parts| == 1 then parts[0]
    else Join(sep, parts[..|parts| - 1]) + sep + parts[|parts| - 1]
  }

  /** The lengths of the parts added up. */
  function TotalLength(parts: seq<string>): nat
    decreases |parts|
  {
    if parts == [] then 0 else TotalLength(parts[..|parts| - 1]) + |parts[|parts| - 1]|
  }

  /** A join is as long as its parts together plus one separator between
      each two of them. */
  lemma {:induction false} JoinLength(sep: string, parts: seq<string>)
    requires parts != []
    ensures |Join(sep, parts)| == TotalLength(parts) + Repeated(|parts| - 1, |sep|)
    decreases |parts|
  {
    if |parts| > 1 {
      var init := parts[..|parts| - 1];
      JoinLength(sep, init);
      assert init[..|init| - 1] == parts[..|parts| - 2];
    } else {
      assert parts[..0] == [];
    }
  }

  /** `count` times `width`. */
  function Repeated(count: nat, width: nat): nat {
    if count == 0 then 0 else Repeated(count - 1, width) + width
  }

  /** `s.split(sep)` for a single-character separator: the pieces between
      occurrences of `sep`; never an empty list, and no piece holds `sep`. */
  function Split(s: string, sep: char): (r: seq<string>)
    ensures |r| >= 1
    ensures forall k :: 0 <= k < |r| ==> sep !in r[k]
    decreases |s|
  {
    if s == [] then [""]
    else
      var init := Split(s[..|s| - 1], sep);
      var c := s[|s| - 1];
      if c == sep then init + [""]
      else init[..|init| - 1] + [init[|init| - 1] + [c]]
  }

  /** Splitting undoes joining: `sep.join(s.split(sep)) == s`. */
  lemma {:induction false} JoinSplit(s: string, sep: char)
    ensures Join([sep], Split(s, sep)) == s
    decreases |s|
  {
    if s != [] {
      var init := Split(s[..|s| - 1], sep);
      JoinSplit(s[..|s| - 1], sep);
      var c := s[|s| - 1];
      if c == sep {
        assert (init + [""])[..|init|] == init;
      } else {
        var n := |init|;
        assert init[..n - 1] + [init[n - 1]] == init;
        JoinExtendLast(init[..n - 1], init[n - 1], sep, c);
      }
      assert s[..|s| - 1] + [c] == s;
    }
  }

  /** Appending a character to the last part appends it to the join. */
  lemma JoinExtendLast(init: seq<string>, last: string, sep: char, c: char)
    ensures Join([sep], init + [last + [c]]) == Join([sep], init + [last]) + [c]
  {
    var ext, parts := init + [last + [c]], init + [last];
    if init == [] {
      assert ext == [last + [c]] && parts == [last];
    } else {
      assert ext[..|init|] == init && parts[..|init|] == init;
      var j := Join([sep], init);
      assert j + [sep] + (last + [c]) == (j + [sep] + last) + [c];
    }
  }

  /** Joining undoes splitting when no part holds the separator:
      `(sep.join(parts)).split(sep) == parts`. */
  lemma {:induction false} SplitJoin(parts: seq<string>, sep: char)
    requires |parts| >= 1
    requires forall k :: 0 <= k < |parts| ==> sep !in parts[k]
    ensures Split(Join([sep], parts), sep) == parts
    decreases |parts|
  {
    var n := |parts|;
    if n == 1 {
      SplitNoSep(parts[0], sep);
    } else {
      var init := parts[..n - 1];
      var a := Join([sep], init);
      SplitJoin(init, sep);
      assert Join([sep], parts) == (a + [sep]) + parts[n - 1];
      SplitAfterSep(a, parts[n - 1], sep);
      assert parts == init + [parts[n - 1]];
    }
  }

  /** Text, a separator, then a piece without separators: the split gains
      that piece. */
  lemma SplitAfterSep(a: string, last: string, sep: char)
    requires sep !in last
    ensures Split((a + [sep]) + last, sep) == Split(a, sep) + [last]
  {
    SplitAppendSep(a, sep);
    var q := Split(a + [sep], sep);
    SplitAppendPiece(a + [sep], last, sep);
    assert q[..|q| - 1] == Split(a, sep) && q[|q| - 1] + last == last;
  }

  lemma SplitAppendSep(a: string, sep: char)
    ensures Split(a + [sep], sep) == Split(a, sep) + [""]
  {
    assert (a + [sep])[..|a|] == a;
  }

  /** Appending text without a separator extends the last piece. */
  lemma {:induction false} SplitAppendPiece(a: string, b: string, sep: char)
    requires sep !in b
    ensures var p := Split(a, sep);
            Split(a + b, sep) == p[..|p| - 1] + [p[|p| - 1] + b]
    decreases |b|
  {
    var p := Split(a, sep);
    if b == [] {
      assert a + b == a;
      assert p[|p| - 1] + b == p[|p| - 1];
      assert p == p[..|p| - 1] + [p[|p| - 1]];
    } else {
      var b' := b[..|b| - 1];
      SplitAppendPiece(a, b', sep);
      assert (a + b)[..|a + b| - 1] == a + b';
      assert b[|b| - 1] in b;
      assert (p[|p| - 1] + b') + [b[|b| - 1]] == p[|p| - 1] + b;
    }
  }

  lemma {:induction false} SplitNoSep(s: string, sep: char)
    requires sep !in s
    ensures Split(s, sep) == [s]
  {
    SplitAppendPiece("", s, sep);
    assert "" + s == s;
  }

  /** The parts that are not empty, in order: the filter in
      `(p for p in parts if p)`. */
  function NonEmpty(parts: seq<string>): (r: seq<string>)
    ensures |r| <= |parts|
    ensures forall k :: 0 <= k < |r| ==> r[k] != ""
    ensures forall p :: p in r <==> p in parts && p != ""
    decreases |parts|
  {
    if parts == [] then []
    else
      var init := NonEmpty(parts[..|parts| - 1]);
      var last := parts[|parts| - 1];
      assert parts == parts[..|parts| - 1] + [last];
      if last == "" then init else init + [last]
  }

  /** The filter keeps the order of the parts: filtering two runs of parts
      one after the other gives the first run's survivors, then the
      second's. */
  lemma {:induction false} NonEmptyAppend(a: seq<string>, b: seq<string>)
    ensures NonEmpty(a + b) == NonEmpty(a) + NonEmpty(b)
    decreases |b|
  {
    if b == [] {
      assert a + b == a;
    } else {
      var b' := b[..|b| - 1];
      NonEmptyAppend(a, b');
      assert (a + b)[..|a + b| - 1] == a + b';
      assert (a + b)[|a + b| - 1] == b[|b| - 1];
      if b[|b| - 1] != "" {
        assert (NonEmpty(a) + NonEmpty(b')) + [b[|b| - 1]] == NonEmpty(a) + (NonEmpty(b') + [b[|b| - 1]]);
      }
    }
  }

  /** Parts that are all non-empty pass the filter unchanged. */
  lemma {:induction false} NonEmptyKeepsAll(parts: seq<string>)
    requires forall k :: 0 <= k < |parts| ==> parts[k] != ""
    ensures NonEmpty(parts) == parts
    decreases |parts|
  {
    if parts != [] {
      NonEmptyKeepsAll(parts[..|parts| - 1]);
    }
  }

  /** `"\n".join(p for p in parts if p)`: the shape of the PDF and DOCX
      extractors. It is empty exactly when every part is empty. */
  function JoinNonEmpty(parts: seq<string>): (r: string)
    ensures r == "" <==> forall k :: 0 <= k < |parts| ==> parts[k] == ""
  {
    var kept := NonEmpty(parts);
    JoinOfNonEmptyParts(kept);
    assert kept == [] <==> forall k :: 0 <= k < |parts| ==> parts[k] == "" by {
      if kept != [] {
        assert kept[0] in parts;
      }
      if exists k :: 0 <= k < |parts| && parts[k] != "" {
        var k :| 0 <= k < |parts| && parts[k] != "";
        assert parts[k] in kept;
      }
    }
    Join("\n", kept)
  }

  /** A join of non-empty parts is empty only when there are no parts. */
  lemma JoinOfNonEmptyParts(parts: seq<string>)
    requires forall k :: 0 <= k < |parts| ==> parts[k] != ""
    ensures Join("\n", parts) == "" <==> parts == []
  {
    if parts != [] {
      var last := parts[|parts| - 1];
      assert |Join("\n", parts)| >= |last| > 0;
    }
  }

  /** When no part contains a newline, the non-empty join splits back, on
      newlines, into exactly the non-empty parts, so no segment of it is empty. */
  lemma JoinNonEmptySegments(parts: seq<string>)
    requires forall k :: 0 <= k < |parts| ==> '\n' !in parts[k]
    requires exists k :: 0 <= k < |parts| && parts[k] != ""
    ensures Split(JoinNonEmpty(parts), '\n') == NonEmpty(parts)
    ensures forall seg :: seg in Split(JoinNonEmpty(parts), '\n') ==> seg != "" && seg in parts
  {
    var kept := NonEmpty(parts);
    var k :| 0 <= k < |parts| && parts[k] != "";
    assert parts[k] in kept;
    assert forall j :: 0 <= j < |kept| ==> '\n' !in kept[j] by {
      forall j | 0 <= j < |kept| ensures '\n' !in kept[j] {
        assert kept[j] in parts;
      }
    }
    SplitJoin(kept, '\n');
  }
}
