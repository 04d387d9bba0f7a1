/** Rust `str` operations the checks use, over sequences of Unicode scalar values. */
module Text {
  import opened Common

  /** The Unicode `White_Space` property, as `char::is_whitespace`. */
  predicate IsWhitespace(c: char) {
    || '\U{9}' <= c <= '\U{D}'
    || c in {' ', '\U{85}', '\U{A0}', '\U{1680}', '\U{2028}', '\U{2029}', '\U{202F}', '\U{205F}', '\U{3000}'}
    || '\U{2000}' <= c <= '\U{200A}'
  }

  /** The same by code points: the 25 characters with that property. */
  lemma WhitespaceCodes(c: char)
    ensures IsWhitespace(c)
            <==> c as int in {9, 10, 11, 12, 13, 32, 0x85, 0xA0, 0x1680,
                              0x2000, 0x2001, 0x2002, 0x2003, 0x2004, 0x2005, 0x2006, 0x2007, 0x2008, 0x2009, 0x200A,
                              0x2028, 0x2029, 0x202F, 0x205F, 0x3000}
  {
  }

  /** `s.trim().is_empty()` */
  predicate IsBlank(s: string) {
    forall i :: 0 <= i < |s| ==> IsWhitespace(s[i])
  }

  function TrimStart(s: string): (r: string)
    ensures r == [] || !IsWhitespace(r[0])
  {
    if s != [] && IsWhitespace(s[0]) then TrimStart(s[1..]) else s
  }

  function TrimEnd(s: string): (r: string)
    ensures r == [] || !IsWhitespace(r[|r| - 1])
    ensures s != [] && !IsWhitespace(s[0]) ==> r != [] && r[0] == s[0]
  {
    if s != [] && IsWhitespace(s[|s| - 1]) then TrimEnd(s[..|s| - 1]) else s
  }

  /** No whitespace at either end. */
  predicate IsTrimmed(s: string) {
    s == [] || (!IsWhitespace(s[0]) && !IsWhitespace(s[|s| - 1]))
  }

  function Trim(s: string): (r: string)
    ensures IsTrimmed(r)
    ensures IsTrimmed(s) ==> r == s
  {
    TrimEnd(TrimStart(s))
  }

  lemma {:induction false} TrimStartDrops(s: string) returns (i: nat)
    ensures i <= |s| && IsBlank(s[..i]) && TrimStart(s) == s[i..]
  {
    hide IsWhitespace;
    i := 0;
    if s != "" && IsWhitespace(s[0]) {
      var k := TrimStartDrops(s[1..]);
      i := k + 1;
      assert s[..i] == [s[0]] + s[1..][..k];
    }
  }

  lemma {:induction false} TrimEndTakes(s: string) returns (j: nat)
    ensures j <= |s| && IsBlank(s[j..]) && TrimEnd(s) == s[..j]
  {
    hide IsWhitespace;
    j := |s|;
    if s != "" && IsWhitespace(s[|s| - 1]) {
      j := TrimEndTakes(s[..|s| - 1]);
      assert s[j..] == s[..|s| - 1][j..] + [s[|s| - 1]];
    }
  }

  /** Trimming takes whitespace from both ends and nothing else. */
  lemma TrimIsMiddle(s: string) returns (i: nat, j: nat)
    ensures i <= j <= |s| && Trim(s) == s[i..j]
    ensures IsBlank(s[..i]) && IsBlank(s[j..]) && IsTrimmed(s[i..j])
  {
    hide TrimStart, TrimEnd, IsWhitespace;
    i := TrimStartDrops(s);
    var k := TrimEndTakes(s[i..]);
    j := i + k;
    assert s[i..][..k] == s[i..j] && s[i..][k..] == s[j..];
  }

  // ----- lines

  /** Every line followed by a line feed. */
  function Unlines(lines: seq<string>): string {
    if lines == [] then "" else Unlines(lines[..|lines| - 1]) + lines[|lines| - 1] + ['\n']
  }

  lemma UnlinesSnoc(lines: seq<string>, line: string)
    ensures Unlines(lines + [line]) == Unlines(lines) + line + ['\n']
  {
  }

  /** A line that `str::lines` gives back as it is. */
  ghost predicate PlainLine(s: string) {
    '\n' !in s && (s != "" ==> s[|s| - 1] != '\r')
  }

  lemma {:induction false} SplitOfUnlines(lines: seq<string>, tail: string)
    requires forall i :: 0 <= i < |lines| ==> PlainLine(lines[i])
    ensures SplitOn(Unlines(lines) + tail, '\n') == lines + SplitOn(tail, '\n')
  {
    hide SplitOn;
    if lines == [] {
      assert Unlines(lines) + tail == tail;
      assert lines + SplitOn(tail, '\n') == SplitOn(tail, '\n');
    } else {
      var n := |lines| - 1;
      var line := lines[n];
      assert Unlines(lines) + tail == Unlines(lines[..n]) + (line + ['\n'] + tail);
      SplitOfUnlines(lines[..n], line + ['\n'] + tail);
      assert PlainLine(lines[n]);
      SplitOfPiece(line, '\n', tail);
      assert lines[..n] + ([line] + SplitOn(tail, '\n')) == lines + SplitOn(tail, '\n');
    }
  }

  lemma {:induction false} PlainLinesHaveNoCr(lines: seq<string>)
    requires forall i :: 0 <= i < |lines| ==> PlainLine(lines[i])
    ensures WithoutCarriageReturns(lines + [""], '\r') == lines + [""]
  {
    if lines != [] {
      assert PlainLine(lines[0]);
      assert (lines + [""])[1..] == lines[1..] + [""];
      PlainLinesHaveNoCr(lines[1..]);
    }
  }

  lemma LinesOfUnlines(lines: seq<string>)
    requires forall i :: 0 <= i < |lines| ==> PlainLine(lines[i])
    ensures Lines(Unlines(lines), '\n', '\r') == lines
  {
    SplitOfUnlines(lines, "");
    assert Unlines(lines) + "" == Unlines(lines);
    PlainLinesHaveNoCr(lines);
    assert (lines + [""])[..|lines|] == lines;
  }
}
