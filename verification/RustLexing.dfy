/** What masking a file line by line means for the file as a whole.

    `TextLex` scans the whole text in one mode, with no per-line state. Masking the lines
    `str::lines` yields, with the state threaded from line to line, is that one scan. */
module RustLexing {
  import opened Common
  import opened RustMasker

  // ----- one mode over the whole text

  /** A character literal whose bytes all lie on this line. */
  predicate CharToken(s: seq<byte>) {
    CharOpens(s) && LF !in s[1..CharClose(s)]
  }

  function TextTurn(s: seq<byte>, m: Mode): (t: Turned)
    requires s != []
    ensures 0 < t.width <= |s|
    ensures t.kept ==> t.width == 1 && m == t.next == Code
  {
    if m == Code && s[0] == APOSTROPHE then
      if CharToken(s) then Turned(1, false, Chr(false)) else Turned(1, true, Code)
    else Turn(s, m)
  }

  function Emitted(s: seq<byte>, t: Turned): seq<byte>
    requires s != []
  {
    if t.kept then [s[0]] else Blanks(t.width)
  }

  function Then(out: seq<byte>, r: Lexed): Lexed {
    Lexed(out + r.out, r.end)
  }

  /** A line feed is kept and ends strings, character literals and line comments. */
  function TextLex(s: seq<byte>, m: Mode): (r: Lexed)
    ensures |r.out| == |s|
  {
    if s == [] then Lexed([], m)
    else if s[0] == LF then Then([LF], TextLex(s[1..], Carry(m)))
    else
      var t := TextTurn(s, m);
      Then(Emitted(s, t), TextLex(s[t.width..], t.next))
  }

  lemma TextLexNothing(m: Mode)
    ensures TextLex([], m) == Lexed([], m)
  {
  }

  lemma TextFeed(s: seq<byte>, m: Mode)
    requires s != [] && s[0] == LF
    ensures TextLex(s, m) == Then([LF], TextLex(s[1..], Carry(m)))
  {
  }

  lemma TextStep(s: seq<byte>, m: Mode)
    requires s != [] && s[0] != LF
    ensures var t := TextTurn(s, m);
            TextLex(s, m) == Then(Emitted(s, t), TextLex(s[t.width..], t.next))
  {
  }

  lemma ThenThen(a: seq<byte>, b: seq<byte>, r: Lexed)
    ensures Then(a, Then(b, r)) == Then(a + b, r)
  {
  }

  // ----- line by line is the whole text

  /** Masks lines in order, threading the state that survives a line. */
  function MaskLines(lines: seq<seq<byte>>, m: Mode): (r: (seq<seq<byte>>, Mode))
    ensures |r.0| == |lines|
  {
    if lines == [] then ([], m)
    else
      var first := Lex(lines[0], m);
      var (rest, end) := MaskLines(lines[1..], Carry(first.end));
      ([first.out] + rest, end)
  }

  lemma HashRunStops(s: seq<byte>, tail: seq<byte>)
    requires tail == [] || tail[0] == LF
    ensures HashRun(s + tail) == HashRun(s)
  {
    if s == [] {
      assert s + tail == tail;
    } else {
      assert (s + tail)[1..] == s[1..] + tail;
    }
  }

  lemma RawOpensStaysOnLine(line: seq<byte>, tail: seq<byte>)
    requires LF !in line && (tail == [] || tail[0] == LF)
    ensures RawOpens(line + tail) == RawOpens(line)
  {
    hide HashRun, RawOpens;
    var s := line + tail;
    var p := if At(line, 0, LOWER_B) then 1 else 0;
    if At(line, p, LOWER_R) {
      assert s[p + 1..] == line[p + 1..] + tail;
      HashRunStops(line[p + 1..], tail);
      var hashes := HashRun(line[p + 1..]);
      RawOpensIs(line, p, hashes);
      RawOpensIs(s, p, hashes);
    } else {
      RawOpensIs(line, p, 0);
      RawOpensIs(s, p, 0);
    }
  }

  lemma RawClosesStaysOnLine(line: seq<byte>, tail: seq<byte>, hashes: nat)
    requires line != [] && LF !in line && (tail == [] || tail[0] == LF)
    ensures RawCloses(line + tail, hashes) <==> RawCloses(line, hashes)
  {
    var s := line + tail;
    assert !At(s, |line|, HASH);
    forall k | 1 <= k <= hashes
      ensures RawCloses(s, hashes) ==> At(line, k, HASH)
      ensures RawCloses(line, hashes) ==> At(s, k, HASH)
    {
      assert RawCloses(s, hashes) ==> hashes < |line| && At(s, k, HASH);
      assert RawCloses(line, hashes) ==> At(line, k, HASH);
    }
  }

  lemma CharStaysOnLine(line: seq<byte>, tail: seq<byte>)
    requires line != [] && LF !in line && (tail == [] || tail[0] == LF)
    ensures CharToken(line + tail) <==> CharOpens(line)
  {
    var s := line + tail;
    if CharOpens(s) {
      if CharClose(s) < |line| {
        assert s[1..CharClose(s)] == line[1..CharClose(s)];
      } else if |line| < CharClose(s) {
        assert s[1..CharClose(s)][|line| - 1] == LF;
      }
    }
  }

  /** Nothing that starts on a line depends on the lines after it. */
  lemma TurnStaysOnLine(line: seq<byte>, tail: seq<byte>, m: Mode)
    requires line != [] && LF !in line
    requires tail == [] || tail[0] == LF
    ensures TextTurn(line + tail, m) == Turn(line, m)
  {
    hide RawOpens, RawCloses, CharToken;
    RawOpensStaysOnLine(line, tail);
    CharStaysOnLine(line, tail);
    if m.Raw? {
      RawClosesStaysOnLine(line, tail, m.hashes);
    }
    if line[0] == APOSTROPHE {
      NoRawAtApostrophe(line);
    }
  }

  lemma NoRawAtApostrophe(s: seq<byte>)
    requires At(s, 0, APOSTROPHE)
    ensures RawOpens(s).None?
  {
  }

  lemma {:induction false} TextLexOfLine(line: seq<byte>, tail: seq<byte>, m: Mode)
    requires LF !in line
    requires tail == [] || tail[0] == LF
    ensures TextLex(line + tail, m) == Then(Lex(line, m).out, TextLex(tail, Lex(line, m).end))
  {
    hide TextLex, Lex, Turn, TextTurn;
    if line == [] {
      assert line + tail == tail;
      LexNothing(m);
    } else {
      var t := Turn(line, m);
      TurnStaysOnLine(line, tail, m);
      TextStep(line + tail, m);
      LexTurn(line, m);
      assert (line + tail)[t.width..] == line[t.width..] + tail;
      TextLexOfLine(line[t.width..], tail, t.next);
      ThenThen(Emitted(line, t), Lex(line[t.width..], t.next).out, TextLex(tail, Lex(line, m).end));
    }
  }

  lemma {:induction false} MaskedLineHasNoLineFeed(line: seq<byte>, m: Mode)
    requires LF !in line
    ensures LF !in Lex(line, m).out
  {
    forall i | 0 <= i < |line|
      ensures Lex(line, m).out[i] != LF
    {
      MaskKeepsPositions(line, m, i);
    }
  }

  lemma {:induction false} TextLexOfLines(lines: seq<seq<byte>>, m: Mode)
    requires lines != [] && forall i :: 0 <= i < |lines| ==> LF !in lines[i]
    requires m == Carry(m)
    ensures TextLex(JoinWith(lines, LF), m).out == JoinWith(MaskLines(lines, m).0, LF)
    ensures Carry(TextLex(JoinWith(lines, LF), m).end) == MaskLines(lines, m).1
    ensures forall i :: 0 <= i < |lines| ==> LF !in MaskLines(lines, m).0[i]
  {
    hide Lex, Turn, TextTurn;
    var first := Lex(lines[0], m);
    MaskedLineHasNoLineFeed(lines[0], m);
    if |lines| == 1 {
      TextLexOfLine(lines[0], [], m);
      assert lines[0] + [] == lines[0];
      assert MaskLines(lines, m).0 == [first.out];
    } else {
      var rest := JoinWith(lines[1..], LF);
      assert JoinWith(lines, LF) == lines[0] + ([LF] + rest);
      TextLexOfLine(lines[0], [LF] + rest, m);
      TextLexOfLines(lines[1..], Carry(first.end));
      var masked := MaskLines(lines[1..], Carry(first.end)).0;
      assert MaskLines(lines, m).0 == [first.out] + masked;
      assert ([first.out] + masked)[1..] == masked;
      assert first.out + ([LF] + JoinWith(masked, LF)) == first.out + [LF] + JoinWith(masked, LF);
    }
  }

  /** Masking line by line with the threaded state is one scan of the whole text, and the
      state left after the last line is the mode of that scan. */
  lemma LineByLineIsWholeText(text: seq<byte>, m: Mode)
    requires m == Carry(m)
    ensures MaskLines(SplitOn(text, LF), m).0 == SplitOn(TextLex(text, m).out, LF)
    ensures MaskLines(SplitOn(text, LF), m).1 == Carry(TextLex(text, m).end)
  {
    var lines := SplitOn(text, LF);
    JoinOfSplit(text, LF);
    TextLexOfLines(lines, m);
    SplitOfJoin(MaskLines(lines, m).0, LF);
  }

  // ----- str::lines and CRLF

  /** Replaces each CR LF pair by LF, as "CRLF normalization" in The Rust Reference. */
  function NormalizeCrlf(text: seq<byte>): seq<byte> {
    if text == [] then []
    else if Both(text, CR, LF) then NormalizeCrlf(text[1..])
    else [text[0]] + NormalizeCrlf(text[1..])
  }

  lemma {:induction false} NormalizedPieces(text: seq<byte>)
    ensures SplitOn(NormalizeCrlf(text), LF) == WithoutCarriageReturns(SplitOn(text, LF), CR)
  {
    if text != [] {
      var pieces := SplitOn(text[1..], LF);
      NormalizedPieces(text[1..]);
      if text[0] == LF {
        assert ([[]] + pieces)[1..] == pieces;
        assert ([LF] + NormalizeCrlf(text[1..]))[1..] == NormalizeCrlf(text[1..]);
      } else {
        assert SplitOn(text, LF) == [[text[0]] + pieces[0]] + pieces[1..];
        assert ([[text[0]] + pieces[0]] + pieces[1..])[1..] == pieces[1..];
        if Both(text, CR, LF) {
          assert pieces[0] == [];
          assert [CR] + pieces[0] == [CR];
          assert pieces == [pieces[0]] + pieces[1..];
        } else {
          assert ([text[0]] + NormalizeCrlf(text[1..]))[1..] == NormalizeCrlf(text[1..]);
          if |pieces| > 1 {
            NoFeedNext(text);
          }
        }
      }
    }
  }

  lemma NoFeedNext(text: seq<byte>)
    requires text != [] && text[0] != LF && !Both(text, CR, LF)
    requires |SplitOn(text[1..], LF)| > 1
    ensures var first := SplitOn(text[1..], LF)[0];
            WithoutFinal([text[0]] + first, CR) == [text[0]] + WithoutFinal(first, CR)
  {
  }

  lemma {:induction false} MaskLinesAppend(lines: seq<seq<byte>>, last: seq<byte>, m: Mode)
    requires m == Carry(m)
    ensures var (masked, end) := MaskLines(lines, m);
            MaskLines(lines + [last], m) == (masked + [Lex(last, end).out], Carry(Lex(last, end).end))
    ensures MaskLines(lines, m).1 == Carry(MaskLines(lines, m).1)
  {
    if lines == [] {
      assert lines + [last] == [last] && [last][1..] == [];
      var only := [Lex(last, m).out];
      assert [] + only == only && only + [] == only;
    } else {
      assert (lines + [last])[1..] == lines[1..] + [last];
      var next := Carry(Lex(lines[0], m).end);
      MaskLinesAppend(lines[1..], last, next);
      var (masked, end) := MaskLines(lines[1..], next);
      assert [Lex(lines[0], m).out] + (masked + [Lex(last, end).out])
          == [Lex(lines[0], m).out] + masked + [Lex(last, end).out];
    }
  }

  /** The lines `str::lines` yields for `text`, masked one by one, are the lines of a
      single scan of the CRLF-normalized text. */
  lemma FileMaskIsTextMask(text: seq<byte>)
    ensures var whole := TextLex(NormalizeCrlf(text), Code);
            MaskLines(Lines(text, LF, CR), Code)
            == (WithoutEmptyLast(SplitOn(whole.out, LF)), Carry(whole.end))
  {
    hide Lex, TextLex, MaskLines, SplitOn;
    var normal := NormalizeCrlf(text);
    NormalizedPieces(text);
    LineByLineIsWholeText(normal, Code);
    var pieces := SplitOn(normal, LF);
    var last := |pieces| - 1;
    assert pieces == pieces[..last] + [pieces[last]];
    MaskLinesAppend(pieces[..last], pieces[last], Code);
    LexNothing(MaskLines(pieces[..last], Code).1);
  }

  /** In a file scanned from the default state, a raw string and a block comment are never
      open together, after any number of lines. */
  lemma {:induction false} FileStateIsSound(lines: seq<seq<byte>>, m: Mode)
    requires m == Carry(m) && Sound(m)
    ensures Sound(MaskLines(lines, m).1) && MaskLines(lines, m).1 == Carry(MaskLines(lines, m).1)
  {
    hide Lex;
    if lines != [] {
      RawAndCommentNeverBothOpen(lines[0], m);
      FileStateIsSound(lines[1..], Carry(Lex(lines[0], m).end));
    }
  }
}
