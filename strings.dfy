/**
  The two Python string operations the chunker relies on: `str.strip()` with
  no argument and `str.split(sep)` with an explicit, non-empty separator.
 */
module Strings {

  /** The characters for which Python's `str.isspace()` holds, written out. */
  predicate IsSpace(c: char) {
    || c == ' '
    || ('\t' <= c <= '\r')              // \t \n \x0b \x0c \r
    || ('\U{1C}' <= c <= '\U{1F}')      // file, group, record, unit separators
    || c == '\U{85}' || c == '\U{A0}' || c == '\U{1680}'
    || ('\U{2000}' <= c <= '\U{200A}')
    || c == '\U{2028}' || c == '\U{2029}' || c == '\U{202F}'
    || c == '\U{205F}' || c == '\U{3000}'
  }

  predicate AllSpace(s: string) {
    forall i :: 0 <= i < |s| ==> IsSpace(s[i])
  }

  /** Neither end of `r` is whitespace (vacuously so for the empty string). */
  predicate IsStripped(r: string) {
    r == [] || (!IsSpace(r[0]) && !IsSpace(r[|r| - 1]))
  }

  /** `s[i..j]` has blank margins on both sides and non-blank ends. */
  predicate StripWindowAt(s: string, i: int, j: int) {
    0 <= i <= j <= |s| && AllSpace(s[..i]) && AllSpace(s[j..]) && IsStripped(s[i..j])
  }

  /** `r` is what remains of `s` once the whitespace at both ends is gone. */
  ghost predicate IsStripOf(s: string, r: string) {
    exists i, j :: StripWindowAt(s, i, j) && r == s[i..j]
  }

  /** Length of the whitespace run at the front of `s`. */
  function LeadingSpaces(s: string): (n: nat)
    ensures n <= |s|
    ensures AllSpace(s[..n])
    ensures n < |s| ==> !IsSpace(s[n])
  {
    if s == [] || !IsSpace(s[0]) then 0
    else
      var m := LeadingSpaces(s[1..]);
      assert s[..1 + m] == [s[0]] + s[1..][..m];
      1 + m
  }

  /** Length of the whitespace run at the back of `s`. */
  function TrailingSpaces(s: string): (n: nat)
    ensures n <= |s|
    ensures AllSpace(s[|s| - n..])
    ensures n < |s| ==> !IsSpace(s[|s| - 1 - n])
  {
    if s == [] || !IsSpace(s[|s| - 1]) then 0
    else
      var t := s[..|s| - 1];
      var m := TrailingSpaces(t);
      assert s[|s| - (1 + m)..] == t[|t| - m..] + [s[|s| - 1]];
      1 + m
  }

  /** Python's `s.strip()`. */
  function Strip(s: string): (r: string)
    ensures IsStripOf(s, r)
    ensures IsStripped(r)
  {
    var i := LeadingSpaces(s);
    var j := |s| - TrailingSpaces(s[i..]);
    StripComputed(s, i, j);
    s[i..j]
  }

  /** Cutting the leading run and then the trailing run of what is left
      gives the strip window. */
  lemma StripComputed(s: string, i: nat, j: int)
    requires i <= |s| && AllSpace(s[..i]) && (i < |s| ==> !IsSpace(s[i]))
    requires j == |s| - TrailingSpaces(s[i..])
    ensures i <= j <= |s| && IsStripOf(s, s[i..j]) && IsStripped(s[i..j])
  {
    var t := s[i..];
    var n := TrailingSpaces(t);
    assert s[j..] == t[|t| - n..];
    assert i < j ==> s[j - 1] == t[|t| - 1 - n];
    StripWindow(s, i, j);
    assert StripWindowAt(s, i, j);
  }

  /** A window with blank margins and non-blank ends is the strip. */
  lemma StripWindow(s: string, i: nat, j: nat)
    requires i <= j <= |s| && AllSpace(s[..i]) && AllSpace(s[j..])
    requires i < j ==> !IsSpace(s[i]) && !IsSpace(s[j - 1])
    ensures IsStripOf(s, s[i..j])
  {
    var r := s[i..j];
    assert IsStripped(r) by {
      if i < j {
        assert r[0] == s[i] && r[|r| - 1] == s[j - 1];
      }
    }
    assert StripWindowAt(s, i, j);
  }

  /** Every position of a blank prefix holds whitespace. */
  lemma BlankPrefix(s: string, k: nat)
    requires k <= |s| && AllSpace(s[..k])
    ensures forall q :: 0 <= q < k ==> IsSpace(s[q])
  {
    forall q | 0 <= q < k ensures IsSpace(s[q]) { assert s[..k][q] == s[q]; }
  }

  /** Every position of a blank suffix holds whitespace. */
  lemma BlankSuffix(s: string, k: nat)
    requires k <= |s| && AllSpace(s[k..])
    ensures forall q :: k <= q < |s| ==> IsSpace(s[q])
  {
    forall q | k <= q < |s| ensures IsSpace(s[q]) { assert s[k..][q - k] == s[q]; }
  }

  /** A strip window is empty exactly when the whole string is blank. */
  lemma WindowEmptyIffBlank(s: string, i: int, j: int)
    requires StripWindowAt(s, i, j)
    ensures i == j <==> AllSpace(s)
  {
    BlankPrefix(s, i);
    BlankSuffix(s, j);
    assert i < j ==> s[i..j][0] == s[i];
  }

  /** There is exactly one way to strip a string. */
  lemma StripOfUnique(s: string, r1: string, r2: string)
    requires IsStripOf(s, r1) && IsStripOf(s, r2)
    ensures r1 == r2
  {
    var i1, j1 :| StripWindowAt(s, i1, j1) && r1 == s[i1..j1];
    var i2, j2 :| StripWindowAt(s, i2, j2) && r2 == s[i2..j2];
    SameStripWindow(s, i1, j1, i2, j2);
  }

  lemma SameStripWindow(s: string, i1: int, j1: int, i2: int, j2: int)
    requires StripWindowAt(s, i1, j1) && StripWindowAt(s, i2, j2)
    ensures s[i1..j1] == s[i2..j2]
  {
    WindowEmptyIffBlank(s, i1, j1);
    WindowEmptyIffBlank(s, i2, j2);
    if i1 < j1 {
      assert !IsSpace(s[i1]) && !IsSpace(s[j1 - 1]) by {
        assert s[i1..j1][0] == s[i1] && s[i1..j1][j1 - 1 - i1] == s[j1 - 1];
      }
      assert !IsSpace(s[i2]) && !IsSpace(s[j2 - 1]) by {
        assert s[i2..j2][0] == s[i2] && s[i2..j2][j2 - 1 - i2] == s[j2 - 1];
      }
      BlankPrefix(s, i1);
      BlankPrefix(s, i2);
      BlankSuffix(s, j1);
      BlankSuffix(s, j2);
    }
  }

  /** Stripping yields the empty string exactly for blank input. */
  lemma StripEmptyIffBlank(s: string)
    ensures Strip(s) == [] <==> AllSpace(s)
  {
    assert IsStripOf(s, Strip(s));
    var i, j :| StripWindowAt(s, i, j) && Strip(s) == s[i..j];
    WindowEmptyIffBlank(s, i, j);
  }

  /** Stripping twice is stripping once. */
  lemma StripIdempotent(s: string)
    ensures Strip(Strip(s)) == Strip(s)
  {
    var r := Strip(s);
    var i, j :| StripWindowAt(s, i, j) && r == s[i..j];
    assert r[..0] == [] && r[|r|..] == [] && r[0..|r|] == r;
    assert IsStripOf(r, r);
    StripOfUnique(r, Strip(r), r);
  }

  // ----- splitting on a separator -----

  /** `sep` occurs in `s` starting at position `j`. */
  predicate MatchAt(s: string, sep: string, j: int) {
    0 <= j && j + |sep| <= |s| && s[j..j + |sep|] == sep
  }

  /** No occurrence of `sep` in `s` starts before position `n`. */
  predicate NoMatchBefore(s: string, sep: string, n: int) {
    forall j :: 0 <= j < n ==> !MatchAt(s, sep, j)
  }

  predicate Occurs(s: string, sep: string) {
    !NoMatchBefore(s, sep, |s|)
  }

  /** Python's `sep.join(pieces)`. */
  function Join(pieces: seq<string>, sep: string): (s: string)
    ensures pieces == [] ==> s == ""
    ensures pieces != [] ==> pieces[0] <= s
  {
    if |pieces| == 0 then ""
    else if |pieces| == 1 then pieces[0]
    else pieces[0] + sep + Join(pieces[1..], sep)
  }

  /** Python's `s.split(sep)`: scanning left to right, every occurrence of
      `sep` that does not overlap an earlier one cuts the string. */
  function Split(s: string, sep: string): (pieces: seq<string>)
    requires sep != []
    ensures |pieces| >= 1
    decreases |s|
  {
    if |s| < |sep| then [s]
    else if s[..|sep|] == sep then [""] + Split(s[|sep|..], sep)
    else
      var rest := Split(s[1..], sep);
      [[s[0]] + rest[0]] + rest[1..]
  }

  /** The pieces cut at leftmost matches: no piece but the last is followed
      by a match of `sep` that starts inside it, and the last piece holds no
      match at all. */
  ghost predicate CutAtLeftmostMatches(pieces: seq<string>, sep: string) {
    && |pieces| >= 1
    && (forall i :: 0 <= i < |pieces| - 1 ==>
          NoMatchBefore(pieces[i] + sep, sep, |pieces[i]|))
    && !Occurs(pieces[|pieces| - 1], sep)
  }

  /** Joining the pieces with the separator gives back the string. */
  lemma {:induction false} SplitJoin(s: string, sep: string)
    requires sep != []
    ensures Join(Split(s, sep), sep) == s
    decreases |s|
  {
    if |s| < |sep| {
    } else if s[..|sep|] == sep {
      SplitJoin(s[|sep|..], sep);
      SplitJoinSkip(s, sep);
    } else {
      SplitJoin(s[1..], sep);
      SplitJoinExtend(s, sep);
    }
  }

  /** The step of `SplitJoin` where the string starts with the separator. */
  lemma SplitJoinSkip(s: string, sep: string)
    requires sep != [] && |s| >= |sep| && s[..|sep|] == sep
    requires Join(Split(s[|sep|..], sep), sep) == s[|sep|..]
    ensures Join(Split(s, sep), sep) == s
  {
    var t := s[|sep|..];
    SplitSkip(s, sep);
    JoinPrependEmpty(Split(t, sep), t, sep);
    SepThenRest(s, sep);
  }

  /** A string that starts with `sep` is `sep` followed by the rest. */
  lemma SepThenRest(s: string, sep: string)
    requires |s| >= |sep| && s[..|sep|] == sep
    ensures s == sep + s[|sep|..]
  {
    assert s == s[..|sep|] + s[|sep|..];
  }

  /** A separator at the front cuts off an empty piece. */
  lemma SplitSkip(s: string, sep: string)
    requires sep != [] && |s| >= |sep| && s[..|sep|] == sep
    ensures Split(s, sep) == [""] + Split(s[|sep|..], sep)
  {
  }

  /** An empty first piece puts a separator in front of the join. */
  lemma JoinPrependEmpty(pieces: seq<string>, t: string, sep: string)
    requires |pieces| >= 1 && Join(pieces, sep) == t
    ensures Join([""] + pieces, sep) == sep + t
  {
    JoinCons("", pieces, sep);
    assert "" + sep + t == sep + t;
  }

  /** The step of `SplitJoin` where the first character joins the first piece. */
  lemma SplitJoinExtend(s: string, sep: string)
    requires sep != [] && |s| >= |sep| && s[..|sep|] != sep
    requires Join(Split(s[1..], sep), sep) == s[1..]
    ensures Join(Split(s, sep), sep) == s
  {
    JoinPrepend(s[0], Split(s[1..], sep), s[1..], sep);
    assert s == [s[0]] + s[1..];
  }

  /** Putting a character in front of the first piece puts it in front of the join. */
  lemma JoinPrepend(c: char, pieces: seq<string>, t: string, sep: string)
    requires |pieces| >= 1 && Join(pieces, sep) == t
    ensures Join([[c] + pieces[0]] + pieces[1..], sep) == [c] + t
  {
    var p := pieces[0];
    var rest := pieces[1..];
    JoinCons([c] + p, rest, sep);
    JoinCons(p, rest, sep);
    assert [p] + rest == pieces;
    if rest != [] {
      var tail := Join(rest, sep);
      assert [c] + p + sep + tail == [c] + (p + sep + tail);
    }
  }

  /** Joining a piece in front of a list of pieces. */
  lemma JoinCons(p: string, rest: seq<string>, sep: string)
    ensures Join([p] + rest, sep) == if rest == [] then p else p + sep + Join(rest, sep)
  {
    assert ([p] + rest)[1..] == rest;
  }

  /** A string without a separator is not cut. */
  lemma {:induction false} SplitNoMatch(s: string, sep: string)
    requires sep != [] && !Occurs(s, sep)
    ensures Split(s, sep) == [s]
    decreases |s|
  {
    if |s| < |sep| {
    } else {
      assert !MatchAt(s, sep, 0);
      forall j | 0 <= j < |s[1..]| ensures !MatchAt(s[1..], sep, j) {
        assert !MatchAt(s, sep, j + 1);
        if j + |sep| <= |s[1..]| {
          assert s[1..][j..j + |sep|] == s[j + 1..j + 1 + |sep|];
        }
      }
      SplitNoMatch(s[1..], sep);
      assert s == [s[0]] + s[1..];
    }
  }

  /** The first cut falls on the first match. */
  lemma {:induction false} SplitAtFirstMatch(s: string, sep: string, m: nat)
    requires sep != [] && MatchAt(s, sep, m) && NoMatchBefore(s, sep, m)
    ensures Split(s, sep) == [s[..m]] + Split(s[m + |sep|..], sep)
    decreases m
  {
    if m > 0 {
      var t := s[1..];
      FirstMatchShift(s, sep, m);
      SplitExtendsHead(s, sep);
      SplitAtFirstMatch(t, sep, m - 1);
    }
  }

  /** Dropping the first character moves the first match one place left. */
  lemma FirstMatchShift(s: string, sep: string, m: nat)
    requires sep != [] && MatchAt(s, sep, m) && NoMatchBefore(s, sep, m) && m > 0
    ensures |s| >= |sep| && s[..|sep|] != sep
    ensures MatchAt(s[1..], sep, m - 1) && NoMatchBefore(s[1..], sep, m - 1)
    ensures s[1..][m - 1 + |sep|..] == s[m + |sep|..]
    ensures [s[0]] + s[1..][..m - 1] == s[..m]
  {
    assert !MatchAt(s, sep, 0);
    var t := s[1..];
    assert t[m - 1..m - 1 + |sep|] == s[m..m + |sep|];
    forall j | 0 <= j < m - 1 ensures !MatchAt(t, sep, j) {
      assert !MatchAt(s, sep, j + 1);
      assert t[j..j + |sep|] == s[j + 1..j + 1 + |sep|];
    }
  }

  /** Without a separator at the front, the first character joins the first
      piece of the rest. */
  lemma SplitExtendsHead(s: string, sep: string)
    requires sep != [] && |s| >= |sep| && s[..|sep|] != sep
    ensures Split(s, sep) == [[s[0]] + Split(s[1..], sep)[0]] + Split(s[1..], sep)[1..]
  { }

  /** Matches inside a prefix are matches of the whole string. */
  lemma MatchInPrefix(p: string, s: string, sep: string, j: int)
    requires p <= s && j + |sep| <= |p|
    ensures MatchAt(p, sep, j) <==> MatchAt(s, sep, j)
  {
    if 0 <= j {
      assert p[j..j + |sep|] == s[j..j + |sep|];
    }
  }

  /** A match one position into `[c] + t` is a match in `t`. */
  lemma MatchShift(c: char, t: string, sep: string, j: nat)
    ensures MatchAt([c] + t, sep, j + 1) <==> MatchAt(t, sep, j)
  {
    if j + |sep| <= |t| {
      assert ([c] + t)[j + 1..j + 1 + |sep|] == t[j..j + |sep|];
    }
  }

  /** `Split` cuts at the leftmost non-overlapping matches. */
  lemma {:induction false} SplitCutsAtLeftmostMatches(s: string, sep: string)
    requires sep != []
    ensures CutAtLeftmostMatches(Split(s, sep), sep)
    decreases |s|
  {
    if |s| < |sep| {
    } else if s[..|sep|] == sep {
      SplitCutsAtLeftmostMatches(s[|sep|..], sep);
      assert Split(s, sep)[1..] == Split(s[|sep|..], sep);
    } else {
      SplitCutsAtLeftmostMatches(s[1..], sep);
      SplitJoin(s[1..], sep);
      assert s == [s[0]] + s[1..];
      assert !MatchAt(s, sep, 0);
      CutExtend(s[0], Split(s[1..], sep), s[1..], sep);
    }
  }

  /** The step of `SplitCutsAtLeftmostMatches` where the first character joins
      the first piece. */
  lemma CutExtend(c: char, pieces: seq<string>, t: string, sep: string)
    requires CutAtLeftmostMatches(pieces, sep) && Join(pieces, sep) == t
    requires !MatchAt([c] + t, sep, 0)
    ensures CutAtLeftmostMatches([[c] + pieces[0]] + pieces[1..], sep)
  {
    if |pieces| == 1 {
      NoMatchBeforeCons(c, t, sep, |t|);
    } else {
      var u := pieces[0] + sep;
      var tail := Join(pieces[1..], sep);
      JoinCons(pieces[0], pieces[1..], sep);
      assert [pieces[0]] + pieces[1..] == pieces;
      assert [c] + u <= [c] + t by {
        assert t == u + tail;
        assert [c] + t == ([c] + u) + tail;
      }
      MatchInPrefix([c] + u, [c] + t, sep, 0);
      NoMatchBeforeCons(c, u, sep, |pieces[0]|);
      assert [c] + u == ([c] + pieces[0]) + sep;
      CutReplaceHead(pieces, [c] + pieces[0], sep);
    }
  }

  /** A character with no match at its position can go in front. */
  lemma NoMatchBeforeCons(c: char, u: string, sep: string, n: nat)
    requires NoMatchBefore(u, sep, n) && !MatchAt([c] + u, sep, 0)
    ensures NoMatchBefore([c] + u, sep, n + 1)
  {
    forall j | 0 <= j < n + 1 ensures !MatchAt([c] + u, sep, j) {
      if j > 0 {
        MatchShift(c, u, sep, j - 1);
      }
    }
  }

  /** Replacing the first of several pieces by one cut at its leftmost match
      keeps the cutting leftmost. */
  lemma CutReplaceHead(pieces: seq<string>, p: string, sep: string)
    requires CutAtLeftmostMatches(pieces, sep) && |pieces| > 1
    requires NoMatchBefore(p + sep, sep, |p|)
    ensures CutAtLeftmostMatches([p] + pieces[1..], sep)
  {
    var r := [p] + pieces[1..];
    assert forall i :: 1 <= i < |r| ==> r[i] == pieces[i];
  }

  /** `Split` is the only cutting at leftmost matches that joins back to `s`. */
  lemma {:induction false} SplitUnique(s: string, sep: string, pieces: seq<string>)
    requires sep != []
    requires CutAtLeftmostMatches(pieces, sep) && Join(pieces, sep) == s
    ensures pieces == Split(s, sep)
    decreases |pieces|
  {
    if |pieces| == 1 {
      SplitNoMatch(s, sep);
    } else {
      var rest := pieces[1..];
      FirstPieceAtFirstMatch(s, sep, pieces);
      SplitAtFirstMatch(s, sep, |pieces[0]|);
      SplitUnique(Join(rest, sep), sep, rest);
    }
  }

  /** The first of several leftmost-cut pieces ends at the first match, and
      the others are a leftmost cutting of what follows it. */
  lemma FirstPieceAtFirstMatch(s: string, sep: string, pieces: seq<string>)
    requires sep != [] && |pieces| > 1
    requires CutAtLeftmostMatches(pieces, sep) && Join(pieces, sep) == s
    ensures var p, rest := pieces[0], pieces[1..];
            && MatchAt(s, sep, |p|) && NoMatchBefore(s, sep, |p|)
            && s[..|p|] == p && s[|p| + |sep|..] == Join(rest, sep)
            && CutAtLeftmostMatches(rest, sep)
  {
    var p := pieces[0];
    var rest := pieces[1..];
    JoinCons(p, rest, sep);
    assert [p] + rest == pieces;
    assert s == p + sep + Join(rest, sep);
    assert p + sep <= s;
    assert MatchAt(s, sep, |p|) by {
      assert s[|p|..|p| + |sep|] == sep;
    }
    forall j | 0 <= j < |p| ensures !MatchAt(s, sep, j) {
      assert !MatchAt(p + sep, sep, j);
      MatchInPrefix(p + sep, s, sep, j);
    }
    assert s[..|p|] == p;
    assert s[|p| + |sep|..] == Join(rest, sep);
    assert CutAtLeftmostMatches(rest, sep) by {
      forall i | 0 <= i < |rest| - 1
        ensures NoMatchBefore(rest[i] + sep, sep, |rest[i]|)
      {
        assert rest[i] == pieces[i + 1];
      }
    }
  }

  /** Every piece of a blank string is blank. */
  lemma {:induction false} SplitBlank(s: string, sep: string)
    requires sep != [] && AllSpace(s)
    ensures forall i :: 0 <= i < |Split(s, sep)| ==> AllSpace(Split(s, sep)[i])
    decreases |s|
  {
    if |s| < |sep| {
    } else if s[..|sep|] == sep {
      SplitBlank(s[|sep|..], sep);
      assert Split(s, sep)[1..] == Split(s[|sep|..], sep);
    } else {
      SplitBlank(s[1..], sep);
      assert Split(s, sep)[1..] == Split(s[1..], sep)[1..];
    }
  }

  /** Joining blank pieces with a blank separator gives a blank string. */
  lemma {:induction false} JoinBlank(pieces: seq<string>, sep: string)
    requires AllSpace(sep)
    requires forall i :: 0 <= i < |pieces| ==> AllSpace(pieces[i])
    ensures AllSpace(Join(pieces, sep))
    decreases |pieces|
  {
    if |pieces| > 1 {
      JoinBlank(pieces[1..], sep);
      var rest := Join(pieces[1..], sep);
      forall q | 0 <= q < |pieces[0] + sep + rest| ensures IsSpace((pieces[0] + sep + rest)[q]) {
        if q < |pieces[0]| {
        } else if q < |pieces[0]| + |sep| {
        } else {
          assert (pieces[0] + sep + rest)[q] == rest[q - |pieces[0]| - |sep|];
        }
      }
    }
  }
}
