/**
 * The two Python string operations the program relies on: `str.strip()`
 * with no argument and `str.split(sep)` with a one-character separator.
 */
module Text {

  /** Python's `str.isspace()` for one character. */
  predicate IsSpace(c: char) {
    || c == ' '
    || ('\t' <= c <= '\r')
    || ('\U{1c}' <= c <= '\U{1f}')
    || c == '\U{85}' || c == '\U{a0}' || c == '\U{1680}'
    || ('\U{2000}' <= c <= '\U{200a}')
    || c == '\U{2028}' || c == '\U{2029}' || c == '\U{202f}' || c == '\U{205f}'
    || c == '\U{3000}'
  }

  predicate AllSpace(s: string) {
    forall i :: 0 <= i < |s| ==> IsSpace(s[i])
  }

  /** True when `s` has no leading or trailing whitespace. */
  predicate Trimmed(s: string) {
    s == [] || (!IsSpace(s[0]) && !IsSpace(s[|s| - 1]))
  }

  /** How many whitespace characters `s` starts with. */
  function LeadingSpace(s: string): (n: nat)
    ensures n <= |s|
    ensures forall i :: 0 <= i < n ==> IsSpace(s[i])
    ensures n < |s| ==> !IsSpace(s[n])
  {
    if |s| > 0 && IsSpace(s[0]) then 1 + LeadingSpace(s[1..]) else 0
  }

  /** How many whitespace characters `s` ends with. */
  function TrailingSpace(s: string): (n: nat)
    ensures n <= |s|
    ensures forall i :: |s| - n <= i < |s| ==> IsSpace(s[i])
    ensures n < |s| ==> !IsSpace(s[|s| - n - 1])
  {
    if |s| > 0 && IsSpace(s[|s| - 1]) then 1 + TrailingSpace(s[..|s| - 1]) else 0
  }

  /** `s.strip()`: the text between the leading and the trailing whitespace. */
  function Strip(s: string): (r: string)
    ensures |r| <= |s| && Trimmed(r)
  {
    var start := LeadingSpace(s);
    if start == |s| then []
    else
      var end := |s| - TrailingSpace(s);
      assert start < end;
      s[start..end]
  }

  /**
   * `Strip(s)` is the slice of `s` that starts after its leading
   * whitespace, with only whitespace after it.
   */
  lemma StripSlice(s: string)
    ensures var start, r := LeadingSpace(s), Strip(s);
      && start + |r| <= |s| && r == s[start..start + |r|]
      && (forall i :: 0 <= i < start ==> IsSpace(s[i]))
      && (forall i :: start + |r| <= i < |s| ==> IsSpace(s[i]))
  {
  }

  /** Stripping text that is already trimmed changes nothing. */
  lemma StripTrimmed(s: string)
    requires Trimmed(s)
    ensures Strip(s) == s
  {
    if s != [] {
      assert LeadingSpace(s) == 0;
      assert TrailingSpace(s) == 0;
    }
  }

  /** Whitespace on either side of trimmed text is exactly what stripping removes. */
  lemma StripPadded(pre: string, w: string, post: string)
    requires AllSpace(pre) && AllSpace(post) && w != [] && Trimmed(w)
    ensures Strip(pre + w + post) == w
  {
    var s := pre + w + post;
    var a, n := LeadingSpace(s), TrailingSpace(s);
    assert s[|pre|] == w[0];
    assert s[|pre| + |w| - 1] == w[|w| - 1];
    assert forall i :: 0 <= i < |pre| ==> s[i] == pre[i];
    assert forall i :: 0 <= i < |post| ==> s[|pre| + |w| + i] == post[i];
    assert a == |pre| && n == |post|;
    assert s[|pre|..|pre| + |w|] == w;
  }

  /** A character that is not whitespace survives stripping. */
  lemma StripKeeps(s: string, c: char)
    requires c in s && !IsSpace(c)
    ensures c in Strip(s)
  {
    StripSlice(s);
    var r, i := Strip(s), LeadingSpace(s);
    var k :| 0 <= k < |s| && s[k] == c;
    if k < i || k >= i + |r| {
      assert false;
    } else {
      assert r[k - i] == c;
    }
  }

  /** Every character of the stripped text comes from the text. */
  lemma StripContained(s: string, c: char)
    requires c in Strip(s)
    ensures c in s
  {
    StripSlice(s);
    var r, i := Strip(s), LeadingSpace(s);
    var k :| 0 <= k < |r| && r[k] == c;
    assert s[i + k] == c;
  }

  /** The pieces joined back with the separator between them (`sep.join(pieces)`). */
  function Join(pieces: seq<string>, sep: char): string
  {
    if |pieces| == 0 then ""
    else if |pieces| == 1 then pieces[0]
    else pieces[0] + [sep] + Join(pieces[1..], sep)
  }

  /**
   * `s.split(sep)`: always at least one piece, no piece contains the
   * separator, and joining the pieces with it gives `s` back.
   */
  function Split(s: string, sep: char): (pieces: seq<string>)
    ensures |pieces| >= 1
    ensures forall i :: 0 <= i < |pieces| ==> sep !in pieces[i]
    ensures Join(pieces, sep) == s
    decreases |s|
  {
    if s == [] then [""]
    else
      var rest := Split(s[1..], sep);
      if s[0] == sep then
        var pieces := [""] + rest;
        assert pieces[1..] == rest;
        pieces
      else
        var pieces := [[s[0]] + rest[0]] + rest[1..];
        assert |rest| > 1 ==> Join(rest, sep) == rest[0] + [sep] + Join(rest[1..], sep);
        assert |rest| > 1 ==> pieces[1..] == rest[1..];
        pieces
  }

  /** Every character of a piece occurs in the joined text. */
  lemma {:induction false} JoinContains(pieces: seq<string>, sep: char, i: nat, c: char)
    requires i < |pieces| && c in pieces[i]
    ensures c in Join(pieces, sep)
    decreases i
  {
    if |pieces| > 1 {
      var rest := Join(pieces[1..], sep);
      if i == 0 {
        assert c in pieces[0] + [sep] + rest;
      } else {
        JoinContains(pieces[1..], sep, i - 1, c);
        assert c in pieces[0] + [sep] + rest;
      }
    }
  }

  /** Text without the separator is a single piece. */
  lemma {:induction false} SplitWhole(w: string, sep: char)
    requires sep !in w
    ensures Split(w, sep) == [w]
    decreases |w|
  {
    if w != [] {
      SplitWhole(w[1..], sep);
      assert [w[0]] + w[1..] == w;
    }
  }

  /** Splitting `w + sep + t`, where `w` has no separator, yields `w` first. */
  lemma {:induction false} SplitAfter(w: string, t: string, sep: char)
    requires sep !in w
    ensures Split(w + [sep] + t, sep) == [w] + Split(t, sep)
    decreases |w|
  {
    var s := w + [sep] + t;
    if w == [] {
      assert s[1..] == t;
    } else {
      assert s[1..] == w[1..] + [sep] + t;
      SplitAfter(w[1..], t, sep);
      assert [w[0]] + w[1..] == w;
    }
  }

  /** Splitting what `Join` produced gives the pieces back. */
  lemma {:induction false} SplitJoin(pieces: seq<string>, sep: char)
    requires |pieces| >= 1
    requires forall i :: 0 <= i < |pieces| ==> sep !in pieces[i]
    ensures Split(Join(pieces, sep), sep) == pieces
    decreases |pieces|
  {
    if |pieces| == 1 {
      SplitWhole(pieces[0], sep);
    } else {
      SplitJoin(pieces[1..], sep);
      SplitAfter(pieces[0], Join(pieces[1..], sep), sep);
      assert [pieces[0]] + pieces[1..] == pieces;
    }
  }

  /** The last piece of `s.split(sep)`. */
  function LastPiece(s: string, sep: char): (last: string)
    ensures sep !in last
  {
    var pieces := Split(s, sep);
    pieces[|pieces| - 1]
  }

  /**
   * `s.split(sep)[-1]` is the text after the last separator: a suffix of
   * `s` without the separator that is either all of `s` or preceded by it.
   */
  lemma {:induction false} LastPieceIsTail(s: string, sep: char)
    ensures var last := LastPiece(s, sep);
      && |last| <= |s| && last == s[|s| - |last|..]
      && (|last| == |s| || s[|s| - |last| - 1] == sep)
    decreases |s|
  {
    if s != [] {
      LastPieceIsTail(s[1..], sep);
      var rest, pieces := Split(s[1..], sep), Split(s, sep);
      if s[0] == sep || |rest| > 1 {
        assert pieces[|pieces| - 1] == rest[|rest| - 1];
      } else {
        assert rest[0] == Join(rest, sep) == s[1..];
        assert pieces == [[s[0]] + s[1..]];
        assert [s[0]] + s[1..] == s;
      }
    }
  }

  /**
   * Conversely, a suffix without the separator that is all of `s` or
   * preceded by the separator is the last piece.
   */
  lemma LastPieceOfTail(s: string, sep: char, w: string)
    requires sep !in w && |w| <= |s| && s[|s| - |w|..] == w
    requires |w| == |s| || s[|s| - |w| - 1] == sep
    ensures LastPiece(s, sep) == w
  {
    LastPieceIsTail(s, sep);
    var last := LastPiece(s, sep);
    var n := |s|;
    if |w| < n {
      SuffixHas(s, last, n - |w| - 1);
    }
    if |last| < n {
      SuffixHas(s, w, n - |last| - 1);
    }
    assert |last| == |w|;
  }

  /** A position inside a suffix holds a character of that suffix. */
  lemma SuffixHas(s: string, t: string, k: nat)
    requires |t| <= |s| && s[|s| - |t|..] == t && k < |s|
    ensures |s| - |t| <= k ==> s[k] in t
  {
    if |s| - |t| <= k {
      assert t[k - (|s| - |t|)] == s[k];
    }
  }
}
