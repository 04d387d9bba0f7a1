/** Masking a masked line again.

    The masker pushes each byte as a `char`, so a byte of 0x80 or more comes back as a
    two-byte UTF-8 character. `Utf8` gives the bytes of the returned `String`. */
module MaskerFixedPoint {
  import opened Common
  import opened RustMasker
  import opened RustLexing
  import opened RustGrammar

  predicate Ascii(s: seq<byte>) {
    forall i :: 0 <= i < |s| ==> s[i] < 0x80
  }

  /** UTF-8 of a character below U+0100. */
  function Utf8Char(b: byte): seq<byte> {
    if b < 0x80 then [b] else [0xC0 + b / 64, 0x80 + b % 64]
  }

  function Utf8(s: seq<byte>): (r: seq<byte>)
    ensures |r| >= |s|
    ensures |r| == |s| <==> Ascii(s)
    ensures Ascii(s) ==> r == s
  {
    if s == [] then []
    else
      assert s == [s[0]] + s[1..];
      Utf8Char(s[0]) + Utf8(s[1..])
  }

  /** A string, character literal or comment opens at the front of `s`. Without a quote
      anywhere no raw string can. */
  predicate Opens(s: seq<byte>) {
    At(s, 0, QUOTE) || Both(s, SLASH, SLASH) || Both(s, SLASH, STAR) || CharOpens(s)
  }

  /** Nothing opens anywhere. */
  predicate Settled(s: seq<byte>) {
    s == [] || (!Opens(s) && Settled(s[1..]))
  }

  lemma {:induction false} SettledHasNoQuote(s: seq<byte>, k: nat)
    requires Settled(s)
    ensures !At(s, k, QUOTE)
  {
    if s != [] && k > 0 {
      SettledHasNoQuote(s[1..], k - 1);
      assert k < |s| ==> s[k] == s[1..][k - 1];
    }
  }

  /** A settled line is kept as it is. */
  lemma {:induction false} SettledIsKept(s: seq<byte>)
    requires Settled(s)
    ensures Lex(s, Code) == Lexed(s, Code)
  {
    if s != [] {
      var p := if At(s, 0, LOWER_B) then 1 else 0;
      if At(s, p, LOWER_R) {
        SettledHasNoQuote(s, p + 1 + HashRun(s[p + 1..]));
      }
      assert RawOpens(s).None?;
      SettledIsKept(s[1..]);
      assert s == [s[0]] + s[1..];
    }
  }

  lemma {:induction false} SpacesStaySettled(n: nat, s: seq<byte>)
    requires Settled(s)
    ensures Settled(Blanks(n) + s)
  {
    if n == 0 {
      assert Blanks(0) + s == s;
    } else {
      SpacesStaySettled(n - 1, s);
      assert (Blanks(n) + s)[1..] == Blanks(n - 1) + s;
    }
  }

  /** A byte that was kept opens nothing in front of its masked neighbours either. */
  lemma KeptByteOpensNothing(s: seq<byte>)
    requires s != [] && CodeTurn(s).kept
    ensures !Opens([s[0]] + Lex(s[1..], Code).out)
  {
    var rest := s[1..];
    var out := [s[0]] + Lex(rest, Code).out;
    forall i | 1 <= i < |s|
      ensures out[i] == s[i] || out[i] == SPACE
    {
      MaskKeepsPositions(rest, Code, i - 1);
    }
    if At(s, 1, BACKSLASH) {
      assert CodeTurn(rest) == Turned(1, true, Code);
      assert out[1] == BACKSLASH;
    }
  }

  lemma {:induction false} MaskedIsSettled(s: seq<byte>, m: Mode)
    ensures Settled(Lex(s, m).out)
  {
    hide Turn;
    if s != [] {
      var t := Turn(s, m);
      LexTurn(s, m);
      MaskedIsSettled(s[t.width..], t.next);
      if t.kept {
        KeptTurnIsCode(s, m);
        KeptByteOpensNothing(s);
        var out := Lex(s[1..], Code).out;
        assert ([s[0]] + out)[1..] == out;
      } else {
        SpacesStaySettled(t.width, Lex(s[t.width..], t.next).out);
      }
    }
  }

  lemma KeptTurnIsCode(s: seq<byte>, m: Mode)
    requires s != [] && Turn(s, m).kept
    ensures m == Code && Turn(s, m) == CodeTurn(s) == Turned(1, true, Code)
  {
  }

  /** Encoding moves no ASCII byte next to another one. */
  lemma Utf8Front(s: seq<byte>, b: byte)
    requires b < 0x80
    ensures At(Utf8(s), 0, b) <==> At(s, 0, b)
    ensures At(Utf8(s), 1, b) ==> At(s, 1, b) && s[0] < 0x80
    ensures At(Utf8(s), 2, b) && At(s, 0, BACKSLASH) ==> At(s, 2, b)
  {
  }

  lemma Utf8Shift(s: seq<byte>, k: nat, b: byte)
    requires s != [] && s[0] < 0x80
    ensures At(Utf8(s), k + 1, b) <==> At(Utf8(s[1..]), k, b)
    ensures At(s, k + 1, b) <==> At(s[1..], k, b)
    ensures Utf8(s)[0] == s[0]
  {
  }

  lemma EncodedOpensNothing(s: seq<byte>)
    requires s != [] && s[0] < 0x80 && !Opens(s)
    ensures !Opens(Utf8(s))
  {
    hide Utf8;
    Utf8Front(s[1..], SLASH);
    Utf8Front(s[1..], STAR);
    Utf8Front(s[1..], BACKSLASH);
    Utf8Front(s[1..], APOSTROPHE);
    Utf8Shift(s, 0, SLASH);
    Utf8Shift(s, 0, STAR);
    Utf8Shift(s, 0, BACKSLASH);
    Utf8Shift(s, 1, APOSTROPHE);
    Utf8Shift(s, 2, APOSTROPHE);
  }

  lemma {:induction false} EncodedIsSettled(s: seq<byte>)
    requires Settled(s)
    ensures Settled(Utf8(s))
  {
    if s != [] {
      var e, u := Utf8(s), Utf8(s[1..]);
      EncodedIsSettled(s[1..]);
      if s[0] < 0x80 {
        assert e == [s[0]] + u && e[1..] == u;
        EncodedOpensNothing(s);
      } else {
        assert e == Utf8Char(s[0]) + u;
        assert e[1..][1..] == u;
        assert e[0] >= 0x80 && e[1..][0] >= 0x80;
        assert Settled(e[1..]);
      }
    }
  }

  /** Masking the returned `String` again, from the default state, keeps every one of its
      bytes and leaves the default state, whatever the line and the state it was masked in. */
  lemma MaskedAgainIsKept(s: seq<byte>, m: Mode)
    ensures var masked := Utf8(Lex(s, m).out);
            Lex(masked, Code) == Lexed(masked, Code)
  {
    MaskedIsSettled(s, m);
    EncodedIsSettled(Lex(s, m).out);
    SettledIsKept(Utf8(Lex(s, m).out));
  }

  /** The second pass therefore returns the masked line itself exactly when that line is ASCII. */
  lemma MaskIsFixedPointIffAscii(s: seq<byte>, m: Mode)
    ensures var masked := Lex(s, m).out;
            Lex(Utf8(masked), Code).out == masked <==> Ascii(masked)
    ensures Ascii(s) ==> Ascii(Lex(s, m).out)
  {
    MaskedAgainIsKept(s, m);
    if Ascii(s) {
      forall i | 0 <= i < |s|
        ensures Lex(s, m).out[i] < 0x80
      {
        MaskKeepsPositions(s, m, i);
      }
    }
  }

  predicate CodeIsAscii(items: seq<Item>) {
    forall i :: 0 <= i < |items| && items[i].CodeByte? ==> items[i].b < 0x80
  }

  lemma AsciiConcat(a: seq<byte>, b: seq<byte>)
    ensures Ascii(a + b) <==> Ascii(a) && Ascii(b)
  {
    if Ascii(a + b) {
      assert forall i :: 0 <= i < |a| ==> a[i] == (a + b)[i];
      assert forall i :: 0 <= i < |b| ==> b[i] == (a + b)[|a| + i];
    }
  }

  lemma {:induction false} ExpectedIsAsciiIff(items: seq<Item>)
    ensures Ascii(Expected(items)) <==> CodeIsAscii(items)
  {
    if items != [] {
      var it, rest := items[0], items[1..];
      assert items == [it] + rest;
      ExpectedIsAsciiIff(rest);
      AsciiConcat(if it.CodeByte? then [it.b] else Blanked(RenderItem(it)), Expected(rest));
    }
  }

  /** By the input: a line of well-formed items comes back from a second pass as the first
      one left it exactly when its code is ASCII. Literals and comments may hold any byte. */
  lemma MaskIsFixedPointIffCodeIsAscii(items: seq<Item>)
    requires WellFormed(items) && LF !in Render(items)
    ensures var masked := Lex(Render(items), Code).out;
            Lex(Utf8(masked), Code).out == masked <==> CodeIsAscii(items)
  {
    hide Lex, TextLex, Utf8, Ascii, CodeIsAscii;
    var line := Render(items);
    ScanFollowsGrammar(items);
    TextLexOfLine(line, [], Code);
    assert line + [] == line;
    TextLexNothing(Lex(line, Code).end);
    assert Then(Lex(line, Code).out, Lexed([], Lex(line, Code).end)).out == Lex(line, Code).out;
    MaskIsFixedPointIffAscii(line, Code);
    ExpectedIsAsciiIff(items);
  }

  // ----- whole files

  /** Every masked line is a line masked in some mode. */
  lemma {:induction false} MaskedFrom(lines: seq<seq<byte>>, m: Mode, k: nat) returns (from: Mode)
    requires k < |lines|
    ensures MaskLines(lines, m).0[k] == Lex(lines[k], from).out
  {
    hide Lex;
    from := m;
    if k > 0 {
      from := MaskedFrom(lines[1..], Carry(Lex(lines[0], m).end), k - 1);
    }
  }

  lemma {:induction false} AsciiPieces(pieces: seq<seq<byte>>)
    ensures Ascii(JoinWith(pieces, LF)) <==> forall k :: 0 <= k < |pieces| ==> Ascii(pieces[k])
  {
    hide Ascii;
    if |pieces| > 1 {
      AsciiPieces(pieces[1..]);
      AsciiConcat(pieces[0], [LF]);
      AsciiConcat(pieces[0] + [LF], JoinWith(pieces[1..], LF));
      OneIsAscii(LF);
    } else if pieces == [] {
      NothingIsAscii();
    }
  }

  lemma OneIsAscii(b: byte)
    ensures Ascii([b]) <==> b < 0x80
  {
    assert [b][0] == b;
  }

  lemma NothingIsAscii()
    ensures Ascii([])
  {
  }

  /** A second pass over masked line `k` of the file returns that line. */
  ghost predicate LineIsFixed(masked: seq<seq<byte>>, k: nat) {
    k < |masked| && Lex(Utf8(masked[k]), Code).out == masked[k]
  }

  /** In a well-formed file, lines inside comments and literals included, a second pass returns
      a masked line exactly when the code on it is ASCII, and all of them exactly when all
      code is. */
  lemma FileIsFixedPointIff(file: seq<byte>, items: seq<Item>)
    requires NormalizeCrlf(file) == Render(items) && WellFormed(items)
    ensures var masked := MaskLines(Lines(file, LF, CR), Code).0;
      var code := WithoutEmptyLast(SplitOn(Expected(items), LF));
      && |masked| == |code|
      && (forall k :: 0 <= k < |code| ==> (LineIsFixed(masked, k) <==> Ascii(code[k])))
      && ((forall k :: 0 <= k < |code| ==> LineIsFixed(masked, k)) <==> CodeIsAscii(items))
  {
    hide *;
    var lines := Lines(file, LF, CR);
    var masked := MaskLines(lines, Code).0;
    MaskFollowsGrammar(file, items);
    AsciiLines(Expected(items));
    ExpectedIsAsciiIff(items);
    forall k | 0 <= k < |masked|
      ensures LineIsFixed(masked, k) <==> Ascii(masked[k])
    {
      MaskedLineIsFixedIff(lines, k);
    }
  }

  lemma MaskedLineIsFixedIff(lines: seq<seq<byte>>, k: nat)
    requires k < |lines|
    ensures var masked := MaskLines(lines, Code).0; LineIsFixed(masked, k) <==> Ascii(masked[k])
  {
    hide Lex, MaskLines, Utf8, Ascii;
    var from := MaskedFrom(lines, Code, k);
    MaskIsFixedPointIffAscii(lines[k], from);
  }

  lemma AsciiLines(s: seq<byte>)
    ensures var lines := WithoutEmptyLast(SplitOn(s, LF));
            (forall k :: 0 <= k < |lines| ==> Ascii(lines[k])) <==> Ascii(s)
  {
    hide Ascii, SplitOn;
    JoinOfSplit(s, LF);
    AsciiPieces(SplitOn(s, LF));
    NothingIsAscii();
  }

  /** A line that is not one: the two bytes of an e-acute come back as two characters, four bytes. */
  lemma NonAsciiIsNoFixedPoint()
    ensures Lex([0xC3, 0xA9], Code).out == [0xC3, 0xA9]
    ensures Lex(Utf8([0xC3, 0xA9]), Code).out == [0xC3, 0x83, 0xC2, 0xA9]
  {
    hide Lex;
    var line: seq<byte> := [0xC3, 0xA9];
    assert line[1..] == [0xA9] && line[1..][1..] == [];
    assert Utf8(line) == Utf8Char(0xC3) + (Utf8Char(0xA9) + Utf8([])) by {
      assert Utf8(line[1..]) == Utf8Char(0xA9) + Utf8([]);
    }
    assert Settled(line) by {
      assert Settled(line[1..]);
    }
    SettledIsKept(line);
    MaskedAgainIsKept(line, Code);
  }
}
