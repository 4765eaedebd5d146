/** The Python string built-ins the client relies on, on ASCII text: isspace,
    lower, strip, startswith, `in`, replace, split, splitlines, int() and str(int).
    Every string that reaches them from the device is ASCII (see Response.ReplyIsAscii),
    so whitespace, line boundaries and case are defined on the ASCII range only. */
module Text {
  import opened Common

  /** str.isspace() on ASCII: HT, LF, VT, FF, CR (9-13), FS, GS, RS, US (28-31) and space. */
  predicate IsSpace(c: char) {
    9 <= c as int <= 13 || 28 <= c as int <= 32
  }

  /** The ASCII line boundaries of str.splitlines(): LF, VT, FF, CR, FS, GS, RS. */
  predicate IsLineBreak(c: char) {
    10 <= c as int <= 13 || 28 <= c as int <= 30
  }

  predicate IsDigit(c: char) {
    '0' <= c <= '9'
  }

  predicate IsAscii(s: string) {
    forall i :: 0 <= i < |s| ==> s[i] as int < 0x80
  }

  function LowerChar(c: char): char {
    if 'A' <= c <= 'Z' then (c as int + 32) as char else c
  }

  /** str.lower() */
  function Lower(s: string): (r: string)
    ensures |r| == |s|
    ensures forall i :: 0 <= i < |s| ==> r[i] == LowerChar(s[i])
  {
    if s == [] then [] else [LowerChar(s[0])] + Lower(s[1..])
  }

  /** Lower-casing is fixed by what it does to each character. */
  lemma LowerOf(s: string, t: string)
    requires |s| == |t| && forall i :: 0 <= i < |s| ==> LowerChar(s[i]) == t[i]
    ensures Lower(s) == t
  {
  }

  /** str.startswith(prefix) */
  predicate StartsWith(s: string, prefix: string) {
    |prefix| <= |s| && s[..|prefix|] == prefix
  }

  /** `sub in s` */
  predicate Contains(s: string, sub: string)
    decreases |s|
  {
    StartsWith(s, sub) || (s != [] && Contains(s[1..], sub))
  }

  /** `sub` occurs in `s` at position i. */
  predicate OccursAt(s: string, sub: string, i: int) {
    0 <= i && i + |sub| <= |s| && s[i..i + |sub|] == sub
  }

  /** A text that lacks the first character of `sub` does not contain `sub`. */
  lemma MissingFirst(s: string, sub: string)
    requires sub != [] && sub[0] !in s
    ensures !Contains(s, sub)
  {
    forall i | 0 <= i && i + |sub| <= |s| ensures !OccursAt(s, sub, i) {
      assert s[i..i + |sub|][0] == s[i];
    }
    NotContains(s, sub);
  }

  lemma {:induction false} ContainsAt(s: string, sub: string, i: int)
    requires OccursAt(s, sub, i)
    ensures Contains(s, sub)
    decreases i
  {
    if i == 0 {
      assert s[..|sub|] == sub;
    } else {
      assert s[1..][i - 1..i - 1 + |sub|] == s[i..i + |sub|];
      ContainsAt(s[1..], sub, i - 1);
    }
  }

  lemma {:induction false} NotContains(s: string, sub: string)
    requires forall i :: !OccursAt(s, sub, i)
    ensures !Contains(s, sub)
    decreases |s|
  {
    assert !OccursAt(s, sub, 0);
    assert |sub| <= |s| ==> s[0..|sub|] == s[..|sub|];
    if s != [] {
      forall i ensures !OccursAt(s[1..], sub, i) {
        if 0 <= i && i + |sub| <= |s| - 1 {
          assert s[1..][i..i + |sub|] == s[i + 1..i + 1 + |sub|];
          assert !OccursAt(s, sub, i + 1);
        }
      }
      NotContains(s[1..], sub);
    }
  }

  /** `sub in s` holds exactly when `sub` occurs at some position of `s`. */
  lemma ContainsIff(s: string, sub: string)
    ensures Contains(s, sub) <==> exists i :: OccursAt(s, sub, i)
  {
    if exists i :: OccursAt(s, sub, i) {
      var i :| OccursAt(s, sub, i);
      ContainsAt(s, sub, i);
    } else {
      NotContains(s, sub);
    }
  }

  /** The number of leading characters satisfying `p`. */
  function LeadCount(s: string, p: char -> bool): (n: nat)
    ensures n <= |s|
    ensures forall i :: 0 <= i < n ==> p(s[i])
    ensures n < |s| ==> !p(s[n])
    decreases |s|
  {
    if s != [] && p(s[0]) then 1 + LeadCount(s[1..], p) else 0
  }

  /** The number of trailing characters satisfying `p`. */
  function TrailCount(s: string, p: char -> bool): (n: nat)
    ensures n <= |s|
    ensures forall i :: |s| - n <= i < |s| ==> p(s[i])
    ensures n < |s| ==> !p(s[|s| - n - 1])
    decreases |s|
  {
    if s != [] && p(s[|s| - 1]) then 1 + TrailCount(s[..|s| - 1], p) else 0
  }

  /** Drops the characters satisfying `p` from the front. */
  function TrimLeft(s: string, p: char -> bool): (r: string)
    ensures |r| <= |s| && r == s[|s| - |r|..]
    ensures r == [] || !p(r[0])
    ensures forall i :: 0 <= i < |s| - |r| ==> p(s[i])
  {
    s[LeadCount(s, p)..]
  }

  /** Drops the characters satisfying `p` from the back. */
  function TrimRight(s: string, p: char -> bool): (r: string)
    ensures |r| <= |s| && r == s[..|r|]
    ensures r == [] || !p(r[|r| - 1])
    ensures forall i :: |r| <= i < |s| ==> p(s[i])
  {
    s[..|s| - TrailCount(s, p)]
  }

  /** str.strip() */
  function Strip(s: string): string {
    TrimRight(TrimLeft(s, IsSpace), IsSpace)
  }

  lemma SliceIsAscii(s: string, i: int, j: int)
    requires 0 <= i <= j <= |s| && IsAscii(s)
    ensures IsAscii(s[i..j])
  {
    forall k | 0 <= k < j - i ensures s[i..j][k] as int < 0x80 {
      assert s[i..j][k] == s[i + k];
    }
  }

  lemma TrimIsAscii(s: string, p: char -> bool)
    requires IsAscii(s)
    ensures IsAscii(TrimLeft(s, p)) && IsAscii(TrimRight(s, p))
  {
    SliceIsAscii(s, |s| - |TrimLeft(s, p)|, |s|);
    SliceIsAscii(s, 0, |TrimRight(s, p)|);
  }

  lemma StripIsAscii(s: string)
    requires IsAscii(s)
    ensures IsAscii(Strip(s))
  {
    TrimIsAscii(s, IsSpace);
    TrimIsAscii(TrimLeft(s, IsSpace), IsSpace);
  }

  /** str.strip() cuts only whitespace from the two ends; `i` is where the kept text
      starts. */
  lemma StripMeaning(s: string) returns (i: nat)
    ensures i + |Strip(s)| <= |s| && Strip(s) == s[i..i + |Strip(s)|]
    ensures forall j :: 0 <= j < i ==> IsSpace(s[j])
    ensures forall j :: i + |Strip(s)| <= j < |s| ==> IsSpace(s[j])
  {
    i := TrimBoth(s, IsSpace);
  }

  /** Trimming both ends keeps one slice and drops only characters satisfying `p`. */
  lemma TrimBoth(s: string, p: char -> bool) returns (i: nat)
    ensures var t := TrimRight(TrimLeft(s, p), p);
      && i + |t| <= |s| && t == s[i..i + |t|]
      && (forall j :: 0 <= j < i ==> p(s[j]))
      && (forall j :: i + |t| <= j < |s| ==> p(s[j]))
  {
    var u := TrimLeft(s, p);
    var t := TrimRight(u, p);
    i := |s| - |u|;
    assert u == s[i..];
    assert t == s[i..i + |t|] by {
      assert t == u[..|t|];
    }
    forall j | i + |t| <= j < |s| ensures p(s[j]) {
      assert s[j] == u[j - i];
    }
  }

  /** str.strip() leaves neither end on whitespace, so stripping again changes nothing. */
  lemma StripIdempotent(s: string)
    ensures Strip(s) == [] || (!IsSpace(Strip(s)[0]) && !IsSpace(Strip(s)[|Strip(s)| - 1]))
    ensures Strip(Strip(s)) == Strip(s)
  {
    var u := TrimLeft(s, IsSpace);
    var t := TrimRight(u, IsSpace);
    if t != [] {
      assert t == u[..|t|];
      assert t[0] == u[0];
    }
    assert TrimLeft(t, IsSpace) == t;
  }

  /** Length of the leading run of non-whitespace characters. */
  function WordEnd(s: string): (k: nat)
    ensures k <= |s|
    ensures forall i :: 0 <= i < k ==> !IsSpace(s[i])
    ensures k < |s| ==> IsSpace(s[k])
  {
    if s == [] || IsSpace(s[0]) then 0 else 1 + WordEnd(s[1..])
  }

  /** str.split() with no argument: the maximal runs of non-whitespace, in order. */
  function Split(s: string): (r: seq<string>)
    decreases |s|
  {
    if s == [] then []
    else if IsSpace(s[0]) then Split(s[1..])
    else
      var k := WordEnd(s);
      [s[..k]] + Split(s[k..])
  }

  /** No token of str.split() is empty or holds whitespace. */
  lemma {:induction false} SplitWords(s: string)
    ensures forall w :: w in Split(s) ==> w != [] && forall i :: 0 <= i < |w| ==> !IsSpace(w[i])
    decreases |s|
  {
    if s != [] {
      if IsSpace(s[0]) {
        SplitWords(s[1..]);
      } else {
        SplitWords(s[WordEnd(s)..]);
      }
    }
  }

  /** str.split() of words joined by single spaces gives the words back. */
  lemma {:induction false} SplitJoined(w: string, rest: string)
    requires w != [] && forall i :: 0 <= i < |w| ==> !IsSpace(w[i])
    ensures Split(w) == [w]
    ensures Split(w + " " + rest) == [w] + Split(rest)
  {
    assert WordEnd(w + " " + rest) == |w| by {
      WordEndOf(w, " " + rest);
      assert w + " " + rest == w + (" " + rest);
    }
    assert (w + " " + rest)[..|w|] == w;
    assert (w + " " + rest)[|w|..][1..] == rest;
    WordEndOf(w, "");
    assert w + "" == w;
  }

  predicate AllSpace(g: string) {
    forall i :: 0 <= i < |g| ==> IsSpace(g[i])
  }

  /** `gaps` are whitespace runs, all but the outer two non-empty, that woven with the
      tokens `words` give back `s`. */
  predicate SpacedBy(s: string, words: seq<string>, gaps: seq<string>) {
    && |gaps| == |words| + 1
    && (forall j :: 0 <= j < |gaps| ==> AllSpace(gaps[j]))
    && (forall j :: 1 <= j < |gaps| - 1 ==> gaps[j] != [])
    && Interleave(gaps, words) == s
  }

  /** The tokens of str.split() are the maximal runs of non-whitespace, in order: there
      are whitespace gaps before, between and after them, the inner gaps non-empty,
      that woven with the tokens give the text back. */
  lemma {:induction false} SplitRebuild(s: string) returns (gaps: seq<string>)
    ensures |gaps| == |Split(s)| + 1
    ensures forall j :: 0 <= j < |gaps| ==> AllSpace(gaps[j])
    ensures forall j :: 1 <= j < |gaps| - 1 ==> gaps[j] != []
    ensures Interleave(gaps, Split(s)) == s
    ensures s != [] && IsSpace(s[0]) ==> gaps[0] != []
    decreases |s|
  {
    if s == [] {
      gaps := [[]];
    } else if IsSpace(s[0]) {
      var rest := SplitRebuild(s[1..]);
      gaps := SpaceBefore(s[0], s[1..], Split(s[1..]), rest);
      assert [s[0]] + s[1..] == s;
    } else {
      var k := WordEnd(s);
      var rest := SplitRebuild(s[k..]);
      gaps := WordBefore(s[..k], s[k..], Split(s[k..]), rest);
      assert s[..k] + s[k..] == s;
    }
  }

  /** A whitespace character in front of the text joins the first gap. */
  lemma SpaceBefore(c: char, t: string, words: seq<string>, rest: seq<string>) returns (gaps: seq<string>)
    requires IsSpace(c) && SpacedBy(t, words, rest)
    ensures SpacedBy([c] + t, words, gaps) && gaps[0] != []
  {
    gaps := [[c] + rest[0]] + rest[1..];
    InterleavePrefix([c], rest, words);
    forall j | 0 <= j < |gaps| ensures AllSpace(gaps[j]) {
      if j > 0 {
        assert gaps[j] == rest[j];
      } else {
        assert AllSpace(rest[0]);
      }
    }
    forall j | 1 <= j < |gaps| - 1 ensures gaps[j] != [] {
      assert gaps[j] == rest[j];
    }
  }

  /** A word in front of text that is empty or starts with a gap becomes the first
      token, after an empty gap. */
  lemma WordBefore(w: string, t: string, words: seq<string>, rest: seq<string>) returns (gaps: seq<string>)
    requires SpacedBy(t, words, rest) && (words != [] ==> rest[0] != [])
    ensures SpacedBy(w + t, [w] + words, gaps)
  {
    gaps := [[]] + rest;
    var ws := [w] + words;
    assert ws[0] == w && ws[1..] == words && gaps[0] == [] && gaps[1..] == rest;
    assert Interleave(gaps, ws) == [] + w + Interleave(rest, words);
    assert [] + w + t == w + t;
    forall j | 1 <= j < |gaps| - 1 ensures gaps[j] != [] {
      assert gaps[j] == rest[j - 1];
    }
  }

  /** Text put in front of the first piece comes out in front of the whole. */
  lemma InterleavePrefix(a: string, lines: seq<string>, seps: seq<string>)
    requires lines != [] && |lines| - 1 <= |seps| <= |lines|
    ensures Interleave([a + lines[0]] + lines[1..], seps) == a + Interleave(lines, seps)
  {
    var pieces := [a + lines[0]] + lines[1..];
    assert pieces[0] == a + lines[0] && pieces[1..] == lines[1..];
    if seps != [] {
      var tail := Interleave(lines[1..], seps[1..]);
      calc {
        Interleave(pieces, seps);
        pieces[0] + seps[0] + Interleave(pieces[1..], seps[1..]);
        (a + lines[0]) + seps[0] + tail;
        a + (lines[0] + seps[0] + tail);
        a + Interleave(lines, seps);
      }
    }
  }

  lemma {:induction false} WordEndOf(w: string, rest: string)
    requires forall i :: 0 <= i < |w| ==> !IsSpace(w[i])
    requires rest == [] || IsSpace(rest[0])
    ensures WordEnd(w + rest) == |w|
    decreases |w|
  {
    if w != [] {
      assert (w + rest)[1..] == w[1..] + rest;
      WordEndOf(w[1..], rest);
    } else {
      assert w + rest == rest;
    }
  }

  /** Length of the text before the first line boundary. */
  function LineEnd(s: string): (k: nat)
    ensures k <= |s|
    ensures forall i :: 0 <= i < k ==> !IsLineBreak(s[i])
    ensures k < |s| ==> IsLineBreak(s[k])
  {
    if s == [] || IsLineBreak(s[0]) then 0 else 1 + LineEnd(s[1..])
  }

  /** The end of the line boundary starting at position k: "\r\n" is one boundary. */
  function BoundaryEnd(s: string, k: nat): (next: nat)
    requires k < |s|
    ensures k < next <= |s|
  {
    if s[k] == '\r' && k + 1 < |s| && s[k + 1] == '\n' then k + 2 else k + 1
  }

  /** str.splitlines(): the text between line boundaries, "\r\n" counting as one
      boundary, with no trailing empty line after a final boundary. */
  function SplitLines(s: string): seq<string>
    decreases |s|
  {
    if s == [] then []
    else
      var k := LineEnd(s);
      if k == |s| then [s]
      else
        var next := BoundaryEnd(s, k);
        [s[..k]] + SplitLines(s[next..])
  }

  /** Every line str.splitlines() returns is free of line boundaries and as ASCII as its input. */
  lemma {:induction false} SplitLinesLines(s: string)
    ensures forall line :: line in SplitLines(s) ==> forall i :: 0 <= i < |line| ==> !IsLineBreak(line[i])
    ensures IsAscii(s) ==> forall line :: line in SplitLines(s) ==> IsAscii(line)
    decreases |s|
  {
    if s != [] {
      var k := LineEnd(s);
      if k < |s| {
        var next := BoundaryEnd(s, k);
        SplitLinesLines(s[next..]);
        if IsAscii(s) {
          SliceIsAscii(s, 0, k);
          SliceIsAscii(s, next, |s|);
        }
      }
    }
  }

  /** The line boundaries str.splitlines() cuts at, in order. */
  function LineSeps(s: string): seq<string>
    decreases |s|
  {
    if s == [] then []
    else
      var k := LineEnd(s);
      if k == |s| then []
      else
        var next := BoundaryEnd(s, k);
        [s[k..next]] + LineSeps(s[next..])
  }

  /** A single line boundary: "\r\n" or one line-break character. */
  predicate IsBoundary(b: string) {
    b == "\r\n" || (|b| == 1 && IsLineBreak(b[0]))
  }

  /** The lines with the boundaries put back between them, and after the last line
      when there is one boundary per line. */
  function Interleave(lines: seq<string>, seps: seq<string>): string
    requires |lines| - 1 <= |seps| <= |lines|
    decreases |lines|
  {
    if lines == [] then []
    else if seps == [] then lines[0]
    else lines[0] + seps[0] + Interleave(lines[1..], seps[1..])
  }

  /** The lines of str.splitlines(), interleaved with the boundaries it cut at, give
      the text back; the first line reaches up to the first boundary. */
  lemma {:induction false} SplitLinesRebuild(s: string)
    ensures |SplitLines(s)| - 1 <= |LineSeps(s)| <= |SplitLines(s)|
    ensures Interleave(SplitLines(s), LineSeps(s)) == s
    ensures s != [] ==> SplitLines(s) != [] && SplitLines(s)[0] == s[..LineEnd(s)]
    ensures s != [] && LineEnd(s) < |s| ==>
      LineSeps(s) != [] && |LineSeps(s)[0]| > 0 && LineSeps(s)[0][0] == s[LineEnd(s)]
    decreases |s|
  {
    if s != [] {
      var k := LineEnd(s);
      if k == |s| {
        assert s[..k] == s;
      } else {
        var next := BoundaryEnd(s, k);
        var rest := s[next..];
        SplitLinesRebuild(rest);
        var lines, seps := SplitLines(s), LineSeps(s);
        assert lines[1..] == SplitLines(rest) && seps[1..] == LineSeps(rest);
        assert s == s[..k] + s[k..next] + rest;
      }
    }
  }

  /** No trailing empty line: there is one boundary per line exactly when the text is
      empty or ends with a line break. */
  lemma {:induction false} SplitLinesTrailing(s: string)
    ensures |SplitLines(s)| == |LineSeps(s)| <==> s == [] || IsLineBreak(s[|s| - 1])
    decreases |s|
  {
    if s != [] {
      var k := LineEnd(s);
      if k < |s| {
        var next := BoundaryEnd(s, k);
        var rest := s[next..];
        SplitLinesTrailing(rest);
        if rest == [] {
          assert s[|s| - 1] == s[next - 1];
        } else {
          assert s[|s| - 1] == rest[|rest| - 1];
        }
      }
    }
  }

  /** One step of str.splitlines(): the text up to the first boundary, then the rest. */
  lemma SplitLinesStep(s: string)
    requires s != [] && LineEnd(s) < |s|
    ensures var k, next := LineEnd(s), BoundaryEnd(s, LineEnd(s));
      && SplitLines(s)[1..] == SplitLines(s[next..]) && SplitLines(s)[0] == s[..k]
      && LineSeps(s)[1..] == LineSeps(s[next..]) && LineSeps(s)[0] == s[k..next]
  {
  }

  /** The first cut is one boundary. */
  lemma FirstSepIsBoundary(s: string)
    requires s != [] && LineEnd(s) < |s|
    ensures IsBoundary(s[LineEnd(s)..BoundaryEnd(s, LineEnd(s))])
  {
    var k := LineEnd(s);
    if BoundaryEnd(s, k) == k + 2 {
      assert s[k..k + 2] == [s[k], s[k + 1]];
    } else {
      assert s[k..k + 1] == [s[k]];
    }
  }

  /** Every cut is one boundary: "\r\n" or a single break character. */
  lemma {:induction false} SplitLinesBoundaries(s: string)
    ensures forall k :: 0 <= k < |LineSeps(s)| ==> IsBoundary(LineSeps(s)[k])
    decreases |s|
  {
    if s != [] && LineEnd(s) < |s| {
      var k := LineEnd(s);
      var next := BoundaryEnd(s, k);
      SplitLinesStep(s);
      SplitLinesBoundaries(s[next..]);
      FirstSepIsBoundary(s);
      var seps := LineSeps(s);
      forall j | 0 <= j < |seps| ensures IsBoundary(seps[j]) {
        if j > 0 {
          assert seps[j] == seps[1..][j - 1];
        }
      }
    }
  }

  /** A lone "\r" is never followed by '\n': "\r\n" is always taken as one boundary. */
  lemma {:induction false} SplitLinesCrLf(s: string)
    ensures |SplitLines(s)| - 1 <= |LineSeps(s)| <= |SplitLines(s)|
    ensures forall k :: 0 <= k < |LineSeps(s)| - 1 && LineSeps(s)[k] == "\r" && SplitLines(s)[k + 1] == [] ==>
      |LineSeps(s)[k + 1]| > 0 && LineSeps(s)[k + 1][0] != '\n'
    decreases |s|
  {
    SplitLinesRebuild(s);
    if s != [] && LineEnd(s) < |s| {
      var k := LineEnd(s);
      var next := BoundaryEnd(s, k);
      var rest := s[next..];
      SplitLinesStep(s);
      SplitLinesCrLf(rest);
      SplitLinesRebuild(rest);
      var lines, seps := SplitLines(s), LineSeps(s);
      forall j | 0 <= j < |seps| - 1 && seps[j] == "\r" && lines[j + 1] == []
        ensures |seps[j + 1]| > 0 && seps[j + 1][0] != '\n'
      {
        if j == 0 {
          assert rest != [];
          assert |s[k..next]| == 1 && next == k + 1 && s[k] == '\r';
          assert rest[0] == s[k + 1];
        } else {
          assert seps[j] == seps[1..][j - 1] && lines[j + 1] == lines[1..][j] && seps[j + 1] == seps[1..][j];
        }
      }
    }
  }

  /** str.replace(pat, rep): every non-overlapping occurrence, scanning left to right. */
  function Replace(s: string, pat: string, rep: string): string
    requires pat != []
    decreases |s|
  {
    if |s| < |pat| then s
    else if s[..|pat|] == pat then rep + Replace(s[|pat|..], pat, rep)
    else [s[0]] + Replace(s[1..], pat, rep)
  }

  /** str.replace leaves a string without an occurrence of the pattern unchanged. */
  lemma {:induction false} ReplaceNoMatch(s: string, pat: string, rep: string)
    requires pat != [] && !Contains(s, pat)
    ensures Replace(s, pat, rep) == s
    decreases |s|
  {
    if |s| >= |pat| {
      ReplaceNoMatch(s[1..], pat, rep);
      assert [s[0]] + s[1..] == s;
    }
  }

  /** str.replace rewrites the first occurrence of the pattern and carries on after it:
      when `a` holds no occurrence, not even one running into the pattern itself. */
  lemma {:induction false} ReplaceAt(a: string, b: string, pat: string, rep: string)
    requires pat != [] && forall i :: 0 <= i < |a| ==> !OccursAt(a + pat + b, pat, i)
    ensures Replace(a + pat + b, pat, rep) == a + rep + Replace(b, pat, rep)
    decreases |a|
  {
    var s := a + pat + b;
    if a == [] {
      assert s == pat + b;
      ReplaceHere(pat, b, rep);
    } else {
      var t, tail := pat + b, rep + Replace(b, pat, rep);
      assert s == a + t && !OccursAt(s, pat, 0);
      assert s[0..|pat|] == s[..|pat|];
      NoOccurrenceShift(a, t, pat);
      assert a[1..] + pat + b == a[1..] + t;
      ReplaceAt(a[1..], b, pat, rep);
      assert a[1..] + rep + Replace(b, pat, rep) == a[1..] + tail;
      SkipStep(a, t, pat, rep, tail);
      assert a + tail == a + rep + Replace(b, pat, rep);
    }
  }

  /** One step of ReplaceAt: a first character that starts no occurrence is kept. */
  lemma SkipStep(a: string, t: string, pat: string, rep: string, tail: string)
    requires pat != [] && a != [] && |a + t| >= |pat| && (a + t)[..|pat|] != pat
    requires Replace(a[1..] + t, pat, rep) == a[1..] + tail
    ensures Replace(a + t, pat, rep) == a + tail
  {
    AfterFirst(a, t);
    ReplaceSkip(a + t, pat, rep);
    AfterFirst(a, tail);
  }

  /** With no occurrence starting inside `a`, none starts inside `a[1..]` either. */
  lemma NoOccurrenceShift(a: string, t: string, pat: string)
    requires a != [] && forall i :: 0 <= i < |a| ==> !OccursAt(a + t, pat, i)
    ensures forall i :: 0 <= i < |a| - 1 ==> !OccursAt(a[1..] + t, pat, i)
  {
    var s := a + t;
    assert s[1..] == a[1..] + t;
    forall i | 0 <= i < |a| - 1 ensures !OccursAt(a[1..] + t, pat, i) {
      assert !OccursAt(s, pat, i + 1);
      if i + |pat| <= |s| - 1 {
        assert s[1..][i..i + |pat|] == s[i + 1..i + 1 + |pat|];
      }
    }
  }

  /** An occurrence at the front is replaced, and the rest is rewritten after it. */
  lemma ReplaceHere(pat: string, b: string, rep: string)
    requires pat != []
    ensures Replace(pat + b, pat, rep) == rep + Replace(b, pat, rep)
  {
    var s := pat + b;
    assert s[..|pat|] == pat && s[|pat|..] == b;
  }

  /** Concatenation seen from its first character. */
  lemma AfterFirst(a: string, t: string)
    requires a != []
    ensures (a + t)[0] == a[0] && (a + t)[1..] == a[1..] + t && a + t == [a[0]] + (a[1..] + t)
  {
  }

  /** Where the pattern does not start, str.replace keeps the first character. */
  lemma ReplaceSkip(s: string, pat: string, rep: string)
    requires pat != [] && |s| >= |pat| && s[..|pat|] != pat
    ensures Replace(s, pat, rep) == [s[0]] + Replace(s[1..], pat, rep)
  {
  }

  /** Every character str.replace returns comes from the string or from the replacement. */
  lemma {:induction false} ReplaceChars(s: string, pat: string, rep: string)
    requires pat != []
    ensures forall i :: 0 <= i < |Replace(s, pat, rep)| ==> Replace(s, pat, rep)[i] in s || Replace(s, pat, rep)[i] in rep
    decreases |s|
  {
    if |s| >= |pat| {
      var r := Replace(s, pat, rep);
      if s[..|pat|] == pat {
        var tail := Replace(s[|pat|..], pat, rep);
        ReplaceChars(s[|pat|..], pat, rep);
        forall i | 0 <= i < |r| ensures r[i] in s || r[i] in rep {
          if i >= |rep| {
            assert r[i] == tail[i - |rep|];
            if tail[i - |rep|] in s[|pat|..] {
              var k :| 0 <= k < |s[|pat|..]| && s[|pat|..][k] == tail[i - |rep|];
              assert s[|pat| + k] == r[i];
            }
          }
        }
      } else {
        var tail := Replace(s[1..], pat, rep);
        ReplaceChars(s[1..], pat, rep);
        forall i | 0 <= i < |r| ensures r[i] in s || r[i] in rep {
          if i >= 1 {
            assert r[i] == tail[i - 1];
            if tail[i - 1] in s[1..] {
              var k :| 0 <= k < |s[1..]| && s[1..][k] == tail[i - 1];
              assert s[1 + k] == r[i];
            }
          }
        }
      }
    }
  }

  function DigitValue(c: char): int
    requires IsDigit(c)
  {
    c as int - '0' as int
  }

  function DigitChar(d: int): char
    requires 0 <= d < 10
  {
    ('0' as int + d) as char
  }

  /** The digit part int() accepts: ASCII digits, with single underscores allowed
      between two digits. */
  predicate IsDigitRun(s: string) {
    && |s| > 0
    && IsDigit(s[0])
    && IsDigit(s[|s| - 1])
    && (forall i :: 0 <= i < |s| ==> IsDigit(s[i]) || s[i] == '_')
    && (forall i :: 0 <= i < |s| - 1 ==> IsDigit(s[i]) || IsDigit(s[i + 1]))
  }

  /** Decimal value of a run of digits and underscores; underscores carry no value. */
  function DigitsValue(s: string): nat
    requires forall i :: 0 <= i < |s| ==> IsDigit(s[i]) || s[i] == '_'
  {
    if s == [] then 0
    else if s[|s| - 1] == '_' then DigitsValue(s[..|s| - 1])
    else DigitsValue(s[..|s| - 1]) * 10 + DigitValue(s[|s| - 1])
  }

  /** int(s) on a token: an optional sign, then a digit run; None where Python raises ValueError. */
  function ParseInt(s: string): Option<int> {
    if s != [] && (s[0] == '+' || s[0] == '-') then
      if IsDigitRun(s[1..]) then
        var v: int := DigitsValue(s[1..]);
        Some(if s[0] == '-' then -v else v)
      else None
    else if IsDigitRun(s) then Some(DigitsValue(s))
    else None
  }

  function NatToString(n: nat): string
    decreases n
  {
    if n < 10 then [DigitChar(n)] else NatToString(n / 10) + [DigitChar(n % 10)]
  }

  /** str(n), as an f-string formats an int. */
  function IntToString(n: int): string {
    if n < 0 then "-" + NatToString(-n) else NatToString(n)
  }

  lemma {:induction false} NatToStringDigits(n: nat)
    ensures |NatToString(n)| > 0
    ensures forall i :: 0 <= i < |NatToString(n)| ==> IsDigit(NatToString(n)[i])
    ensures DigitsValue(NatToString(n)) == n
    decreases n
  {
    if n >= 10 {
      NatToStringDigits(n / 10);
      var s := NatToString(n);
      assert s[..|s| - 1] == NatToString(n / 10);
    } else {
      assert NatToString(n)[..0] == [];
    }
  }

  /** int(str(n)) == n: every number the client formats parses back to itself. */
  lemma ParseIntRoundTrip(n: int)
    ensures ParseInt(IntToString(n)) == Some(n)
  {
    var m := if n < 0 then -n else n;
    var digits := NatToString(m);
    NatToStringDigits(m);
    assert IsDigitRun(digits);
    var s := IntToString(n);
    if n < 0 {
      assert s == "-" + digits && s[0] == '-' && s[1..] == digits;
    } else {
      assert s == digits && IsDigit(s[0]);
    }
  }

  /** A formatted number is one non-empty ASCII word. */
  lemma IntToStringWord(n: int)
    ensures IntToString(n) != []
    ensures forall i :: 0 <= i < |IntToString(n)| ==> !IsSpace(IntToString(n)[i])
    ensures IsAscii(IntToString(n))
  {
    var m := if n < 0 then -n else n;
    NatToStringDigits(m);
    var s := IntToString(n);
    forall i | 0 <= i < |s| ensures !IsSpace(s[i]) && s[i] as int < 0x80 {
      if n < 0 && i > 0 {
        assert s[i] == NatToString(m)[i - 1];
      }
    }
  }
}
