/**
 * The few Python string operations the core relies on: `str.strip()`,
 * `str.lower()`/`str.upper()` on ASCII text, substring tests (`in`),
 * prefix tests (`startswith`) and `str.split(sep)` with a one-character
 * separator.
 */
module Text {

  /** The characters for which Python's `str.isspace()` holds; `strip()` removes these. */
  predicate IsWhitespace(c: char)
  {
    c == ' ' || ('\t' <= c <= '\r') || ('\U{1C}' <= c <= '\U{1F}') ||
    c == '\U{85}' || c == '\U{A0}' || c == '\U{1680}' || ('\U{2000}' <= c <= '\U{200A}') ||
    c == '\U{2028}' || c == '\U{2029}' || c == '\U{202F}' || c == '\U{205F}' || c == '\U{3000}'
  }

  /** The first position at or after `i` that does not hold whitespace (or `|s|`). */
  function SkipWhitespace(s: string, i: nat): (j: nat)
    requires i <= |s|
    ensures i <= j <= |s|
    ensures forall k :: i <= k < j ==> IsWhitespace(s[k])
    ensures j < |s| ==> !IsWhitespace(s[j])
    decreases |s| - i
  {
    if i == |s| || !IsWhitespace(s[i]) then i else SkipWhitespace(s, i + 1)
  }

  /** The end of `s[lo..j]` once its trailing whitespace is dropped. */
  function DropTrailingWhitespace(s: string, lo: nat, j: nat): (e: nat)
    requires lo <= j <= |s|
    ensures lo <= e <= j
    ensures forall k :: e <= k < j ==> IsWhitespace(s[k])
    ensures e > lo ==> !IsWhitespace(s[e - 1])
    decreases j
  {
    if j == lo || !IsWhitespace(s[j - 1]) then j else DropTrailingWhitespace(s, lo, j - 1)
  }

  /** `s.strip()`: `s` without its leading and trailing whitespace. */
  function Strip(s: string): (r: string)
    ensures r == [] <==> forall k :: 0 <= k < |s| ==> IsWhitespace(s[k])
    ensures r != [] ==> !IsWhitespace(r[0]) && !IsWhitespace(r[|r| - 1])
  {
    var i := SkipWhitespace(s, 0);
    var j := DropTrailingWhitespace(s, i, |s|);
    s[i..j]
  }

  /** What `strip()` keeps is one piece of `s`, with only whitespace around it. */
  lemma StripKeepsMiddle(s: string)
    ensures exists i :: OccursAt(s, Strip(s), i) && StrippedAround(s, i, i + |Strip(s)|)
  {
    var i := SkipWhitespace(s, 0);
    var j := DropTrailingWhitespace(s, i, |s|);
    assert OccursAt(s, Strip(s), i) && StrippedAround(s, i, j);
  }

  /** Everything in `s` outside `s[i..j]` is whitespace. */
  predicate StrippedAround(s: string, i: int, j: int)
    requires 0 <= i <= j <= |s|
  {
    (forall k :: 0 <= k < i ==> IsWhitespace(s[k])) &&
    (forall k :: j <= k < |s| ==> IsWhitespace(s[k]))
  }

  /** Stripping twice removes nothing more. */
  lemma StripIdempotent(s: string)
    ensures Strip(Strip(s)) == Strip(s)
  {
    var r := Strip(s);
    if r != [] {
      assert SkipWhitespace(r, 0) == 0;
      assert DropTrailingWhitespace(r, 0, |r|) == |r|;
    }
  }

  predicate IsAscii(s: string)
  {
    forall k :: 0 <= k < |s| ==> s[k] < '\U{80}'
  }

  /** `c.lower()` for an ASCII letter; every other character is left alone. */
  function LowerChar(c: char): char
  {
    if 'A' <= c <= 'Z' then (c as int + 32) as char else c
  }

  /** `c.upper()` for an ASCII letter; every other character is left alone. */
  function UpperChar(c: char): char
  {
    if 'a' <= c <= 'z' then (c as int - 32) as char else c
  }

  /** `s.lower()`, character by character. */
  function Lower(s: string): (r: string)
    ensures |r| == |s|
    ensures forall k :: 0 <= k < |s| ==> r[k] == LowerChar(s[k])
    ensures forall k :: 0 <= k < |r| ==> !('A' <= r[k] <= 'Z')
  {
    seq(|s|, k requires 0 <= k < |s| => LowerChar(s[k]))
  }

  /** Lower-casing forgets the case: an upper-cased or lower-cased text lowers to the same text. */
  lemma LowerIgnoresCase(s: string)
    ensures Lower(Upper(s)) == Lower(s)
    ensures Lower(Lower(s)) == Lower(s)
  {
    forall k | 0 <= k < |s|
      ensures Lower(Upper(s))[k] == Lower(s)[k] && Lower(Lower(s))[k] == Lower(s)[k]
    {
      var c := s[k];
      if 'a' <= c <= 'z' {
        assert UpperChar(c) as int == c as int - 32;
      } else if 'A' <= c <= 'Z' {
        assert LowerChar(c) as int == c as int + 32;
      }
    }
  }

  /** Upper-casing forgets the case as well. */
  lemma UpperIgnoresCase(s: string)
    ensures Upper(Lower(s)) == Upper(s)
    ensures Upper(Upper(s)) == Upper(s)
  {
    forall k | 0 <= k < |s|
      ensures Upper(Lower(s))[k] == Upper(s)[k] && Upper(Upper(s))[k] == Upper(s)[k]
    {
      var c := s[k];
      if 'a' <= c <= 'z' {
        assert UpperChar(c) as int == c as int - 32;
      } else if 'A' <= c <= 'Z' {
        assert LowerChar(c) as int == c as int + 32;
      }
    }
  }

  /** `s.upper()`, character by character. */
  function Upper(s: string): (r: string)
    ensures |r| == |s|
    ensures forall k :: 0 <= k < |s| ==> r[k] == UpperChar(s[k])
    ensures forall k :: 0 <= k < |r| ==> !('a' <= r[k] <= 'z')
  {
    seq(|s|, k requires 0 <= k < |s| => UpperChar(s[k]))
  }

  /** `t` occurs in `s` starting at position `k`. */
  predicate OccursAt(s: string, t: string, k: int)
  {
    0 <= k && k + |t| <= |s| && s[k..k + |t|] == t
  }

  /** Python's `t in s` for strings: `t` occurs in `s` at some position. */
  function Contains(s: string, t: string): (b: bool)
    ensures b <==> exists k :: OccursAt(s, t, k)
    decreases |s|
  {
    if t <= s then
      assert OccursAt(s, t, 0);
      true
    else if s == [] then
      false
    else
      var b := Contains(s[1..], t);
      assert b ==> exists k :: OccursAt(s, t, k) by {
        if b {
          var k :| OccursAt(s[1..], t, k);
          OccursInTail(s, t, k + 1);
        }
      }
      assert (exists k :: OccursAt(s, t, k)) ==> b by {
        if exists k :: OccursAt(s, t, k) {
          var k :| OccursAt(s, t, k);
          assert k != 0;
          OccursInTail(s, t, k);
        }
      }
      b
  }

  /** An occurrence past the first position is an occurrence in the tail, one position earlier. */
  lemma OccursInTail(s: string, t: string, k: int)
    requires s != [] && k >= 1
    ensures OccursAt(s, t, k) <==> OccursAt(s[1..], t, k - 1)
  {
    if k + |t| <= |s| {
      assert s[1..][k - 1..k - 1 + |t|] == s[k..k + |t|];
    }
  }

  /** The pieces put back together with `sep` between them: Python's `sep.join(pieces)`. */
  function Join(pieces: seq<string>, sep: char): string
    requires |pieces| >= 1
  {
    if |pieces| == 1 then pieces[0] else pieces[0] + [sep] + Join(pieces[1..], sep)
  }

  /** `s.split(sep)` for a one-character separator: the maximal runs of text between separators. */
  function Split(s: string, sep: char): (pieces: seq<string>)
    ensures |pieces| >= 1
    ensures forall k :: 0 <= k < |pieces| ==> sep !in pieces[k]
    ensures Join(pieces, sep) == s
    ensures |pieces| >= 2 <==> sep in s
  {
    if s == [] then
      [[]]
    else
      var rest := Split(s[1..], sep);
      if s[0] == sep then
        [[]] + rest
      else
        assert s == [s[0]] + s[1..];
        [[s[0]] + rest[0]] + rest[1..]
  }

  /** Splitting what was joined gives back the pieces, when no piece holds the separator. */
  lemma {:induction false} SplitJoin(pieces: seq<string>, sep: char)
    requires |pieces| >= 1
    requires forall k :: 0 <= k < |pieces| ==> sep !in pieces[k]
    ensures Split(Join(pieces, sep), sep) == pieces
    decreases |pieces|, |pieces[0]|
  {
    var p := pieces[0];
    if |pieces| == 1 {
      SplitNoSeparator(p, sep);
    } else if p == [] {
      var s := JoinAfterEmpty(pieces, sep);
      SplitJoin(pieces[1..], sep);
      assert pieces == [[]] + pieces[1..];
    } else {
      var shorter := JoinAfterChar(pieces, sep);
      SplitJoin(shorter, sep);
      assert p == [p[0]] + p[1..];
      assert pieces == [[p[0]] + shorter[0]] + shorter[1..];
    }
  }

  /** A join whose first piece is empty starts with the separator, then joins the rest. */
  lemma JoinAfterEmpty(pieces: seq<string>, sep: char) returns (s: string)
    requires |pieces| >= 2 && pieces[0] == []
    ensures s == Join(pieces, sep) && s != [] && s[0] == sep && s[1..] == Join(pieces[1..], sep)
  {
    s := Join(pieces, sep);
    assert s == [sep] + Join(pieces[1..], sep);
  }

  /** A join whose first piece is not empty starts with that piece's first character. */
  lemma JoinAfterChar(pieces: seq<string>, sep: char) returns (shorter: seq<string>)
    requires |pieces| >= 2 && pieces[0] != []
    requires forall k :: 0 <= k < |pieces| ==> sep !in pieces[k]
    ensures shorter == [pieces[0][1..]] + pieces[1..]
    ensures forall k :: 0 <= k < |shorter| ==> sep !in shorter[k]
    ensures var s := Join(pieces, sep); s != [] && s[0] == pieces[0][0] && s[0] != sep && s[1..] == Join(shorter, sep)
  {
    var p := pieces[0];
    shorter := [p[1..]] + pieces[1..];
    assert shorter[1..] == pieces[1..];
    assert sep !in shorter[0] by {
      assert forall k :: 0 <= k < |p[1..]| ==> p[1..][k] == p[k + 1];
    }
    assert forall k :: 1 <= k < |shorter| ==> shorter[k] == pieces[k];
  }

  lemma {:induction false} SplitNoSeparator(s: string, sep: char)
    requires sep !in s
    ensures Split(s, sep) == [s]
  {
    if s != [] {
      SplitNoSeparator(s[1..], sep);
      assert s == [s[0]] + s[1..];
    }
  }

  /** The first piece of `s.split(sep)` is the text before the first `sep` (all of `s` if there is none). */
  lemma SplitFirst(s: string, sep: char)
    ensures var p := Split(s, sep)[0];
      p <= s && sep !in p && (|p| == |s| || s[|p|] == sep)
  {
    var ps := Split(s, sep);
    if |ps| > 1 {
      assert s == ps[0] + [sep] + Join(ps[1..], sep);
    }
  }

  /** After the first separator, `s.split(sep)` continues with the split of the remaining text. */
  lemma SplitRest(s: string, sep: char)
    requires sep in s
    ensures var ps := Split(s, sep);
      |ps[0]| < |s| && s[|ps[0]|] == sep && ps[1..] == Split(s[|ps[0]| + 1..], sep)
  {
    var ps := Split(s, sep);
    assert s == ps[0] + [sep] + Join(ps[1..], sep);
    assert s[|ps[0]| + 1..] == Join(ps[1..], sep);
    SplitJoin(ps[1..], sep);
  }
}
