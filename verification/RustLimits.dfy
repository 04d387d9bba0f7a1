/** Exactly which character and string literals the masker blanks.

    `RustGrammar` reads long character literals as code bytes and admits no string that
    crosses a line. Here both are shown to be forced: a literal is blanked, and nothing but
    it, if and only if it has the form the grammar admits. For a string that crosses a line the failure
    needs a continuation: some text after it, possibly none, is not read as it should be. */
module RustLimits {
  import opened Common
  import opened RustMasker
  import opened RustLexing
  import opened RustGrammar

  /** Any character literal on one line: a character of one to four bytes, or an escape
      of any length. */
  predicate LongCharBody(body: seq<byte>) {
    && body != [] && LF !in body
    && if body[0] == BACKSLASH then |body| >= 2 && APOSTROPHE !in body[2..] else APOSTROPHE !in body
  }

  lemma CharLiteralBlankedIff(body: seq<byte>, rest: seq<byte>)
    requires LongCharBody(body)
    ensures Consumes([APOSTROPHE] + body + [APOSTROPHE], Code, rest, Code) <==> CharBody(body)
  {
    if CharBody(body) {
      ConsumesCharLit(body, rest);
    } else {
      var t := [APOSTROPHE] + body + [APOSTROPHE] + rest;
      var k := CharClose(t) - 1;
      assert t[k + 1] == body[k];
      assert k == 2 ==> body[k] == body[2..][0];
      assert TextTurn(t, Code) == Turned(1, true, Code);
      TextStep(t, Code);
      assert TextLex(t, Code).out[0] == APOSTROPHE;
      assert Blanked([APOSTROPHE] + body + [APOSTROPHE])[0] == SPACE;
    }
  }

  /** Any string body: escapes come in pairs and no quote is bare; line feeds may occur. */
  predicate LongStringBody(body: seq<byte>) {
    if body == [] then true
    else if body[0] == BACKSLASH then |body| >= 2 && LongStringBody(body[2..])
    else body[0] != QUOTE && LongStringBody(body[1..])
  }

  lemma {:induction false} ShortStringBody(body: seq<byte>)
    requires LongStringBody(body) && LF !in body
    ensures StringBody(body)
  {
    if body != [] {
      assert body[0] in body;
      if body[0] == BACKSLASH {
        assert body[1] in body;
        ShortStringBody(body[2..]);
      } else {
        ShortStringBody(body[1..]);
      }
    }
  }

  /** Every quote follows a backslash; `prev` is the byte before `s`. */
  predicate QuotesEscaped(prev: byte, s: seq<byte>)
    decreases |s|
  {
    s == [] || ((s[0] == QUOTE ==> prev == BACKSLASH) && QuotesEscaped(s[0], s[1..]))
  }

  lemma {:induction false} LongStringQuotes(prev: byte, body: seq<byte>)
    requires LongStringBody(body)
    ensures QuotesEscaped(prev, body)
    decreases |body|
  {
    if body != [] {
      if body[0] == BACKSLASH {
        LongStringQuotes(body[1], body[2..]);
        assert body[1..][1..] == body[2..];
      } else {
        LongStringQuotes(body[0], body[1..]);
      }
    }
  }

  lemma {:induction false} QuotesEscapedAt(prev: byte, s: seq<byte>, k: nat)
    requires QuotesEscaped(prev, s) && 0 < k < |s| && s[k] == QUOTE
    ensures s[k - 1] == BACKSLASH
    decreases k
  {
    if k > 1 {
      QuotesEscapedAt(s[0], s[1..], k - 1);
    }
  }

  lemma {:induction false} QuotesEscapedFrom(prev: byte, s: seq<byte>, k: nat)
    requires QuotesEscaped(prev, s) && 0 < k <= |s|
    ensures QuotesEscaped(s[k - 1], s[k..])
    decreases k
  {
    if k > 1 {
      QuotesEscapedFrom(s[0], s[1..], k - 1);
      assert s[1..][k - 1..] == s[k..];
    }
  }

  /** A scan that kept a backslash or did not end in code. */
  ghost predicate Leaks(r: Lexed) {
    r.end != Code || BACKSLASH in r.out
  }

  lemma ThenLeaks(out: seq<byte>, r: Lexed)
    requires Leaks(r)
    ensures Leaks(Then(out, r))
  {
  }

  predicate Outside(m: Mode) {
    !m.Str? && !m.Raw?
  }

  /** Once a string body is being read outside a string, its closing quote opens one. */
  lemma {:induction false} LeaksOutside(prev: byte, body: seq<byte>, m: Mode)
    requires QuotesEscaped(prev, body) && Outside(m)
    requires m == Code ==> prev != BACKSLASH
    ensures Leaks(TextLex(body + [QUOTE], m))
    decreases |body|
  {
    hide TextLex;
    var s := body + [QUOTE];
    if body == [] {
      assert s == [QUOTE];
      TextStep(s, m);
      TextLexNothing(TextTurn(s, m).next);
    } else if body[0] == LF {
      assert s[1..] == body[1..] + [QUOTE];
      LeaksOutside(LF, body[1..], Carry(m));
      TextFeed(s, m);
      ThenLeaks([LF], TextLex(s[1..], Carry(m)));
    } else {
      var t := TextTurn(s, m);
      TextStep(s, m);
      if t.next.Raw? {
        RawOpensAtEnd(prev, body);
        TextLexNothing(t.next);
        assert s[t.width..] == [];
      } else if t.kept && s[0] == BACKSLASH {
      } else {
        assert t.width <= |body|;
        assert s[t.width..] == body[t.width..] + [QUOTE];
        QuotesEscapedFrom(prev, body, t.width);
        LeaksOutside(body[t.width - 1], body[t.width..], t.next);
        ThenLeaks(Emitted(s, t), TextLex(s[t.width..], t.next));
      }
    }
  }

  /** A raw string can open in such a body only at the closing quote itself. */
  lemma RawOpensAtEnd(prev: byte, body: seq<byte>)
    requires QuotesEscaped(prev, body)
    ensures var s := body + [QUOTE];
            RawOpens(s).Some? ==> RawOpens(s).value.0 == |s|
  {
    var s := body + [QUOTE];
    if RawOpens(s).Some? {
      var p := if At(s, 0, LOWER_B) then 1 else 0;
      var n := RawOpens(s).value.1;
      assert s[p + n] == if n == 0 then LOWER_R else s[p + 1..][n - 1];
      if p + 1 + n < |body| {
        QuotesEscapedAt(prev, body, p + 1 + n);
      }
    }
  }

  lemma {:induction false} LeaksInString(body: seq<byte>)
    requires LongStringBody(body) && LF in body
    ensures Leaks(TextLex(body + [QUOTE], Str(false)))
  {
    hide TextLex;
    var s := body + [QUOTE];
    if body[0] == LF {
      LongStringQuotes(LF, body[1..]);
      LeaksOutside(LF, body[1..], Code);
      assert s[1..] == body[1..] + [QUOTE];
      TextFeed(s, Str(false));
      ThenLeaks([LF], TextLex(s[1..], Code));
    } else if body[0] == BACKSLASH {
      assert s[1..][1..] == body[2..] + [QUOTE];
      TextStep(s, Str(false));
      if body[1] == LF {
        LongStringQuotes(LF, body[2..]);
        LeaksOutside(LF, body[2..], Code);
        TextFeed(s[1..], Str(true));
        ThenLeaks([LF], TextLex(s[1..][1..], Code));
      } else {
        LeaksInString(body[2..]);
        TextStep(s[1..], Str(true));
        ThenLeaks(Blanks(1), TextLex(s[1..][1..], Str(false)));
      }
      ThenLeaks(Blanks(1), TextLex(s[1..], Str(true)));
    } else {
      LeaksInString(body[1..]);
      assert s[1..] == body[1..] + [QUOTE];
      TextStep(s, Str(false));
      ThenLeaks(Blanks(1), TextLex(s[1..], Str(false)));
    }
  }

  /** A literal that crosses a line is not consumed where the text ends with it. */
  lemma CrossingIsNotConsumed(body: seq<byte>)
    requires LongStringBody(body) && LF in body
    ensures !Consumes([QUOTE] + body + [QUOTE], Code, [], Code)
  {
    hide TextLex;
    var s := [QUOTE] + body + [QUOTE];
    assert s + [] == s && s[1..] == body + [QUOTE];
    LeaksInString(body);
    TextStep(s, Code);
    ThenLeaks(Blanks(1), TextLex(s[1..], Str(false)));
    assert Leaks(TextLex(s, Code));
    TextLexNothing(Code);
  }

  // ----- the mode at the end of a text shows in the next letter

  const LETTER: byte := 97

  lemma {:induction false} HashRunBeforeLetter(s: seq<byte>)
    ensures HashRun(s + [LETTER]) == HashRun(s)
  {
    if s == [] {
      assert [] + [LETTER] == [LETTER];
    } else {
      assert (s + [LETTER])[1..] == s[1..] + [LETTER];
      if s[0] == HASH {
        HashRunBeforeLetter(s[1..]);
      }
    }
  }

  lemma RawOpensBeforeLetter(s: seq<byte>)
    requires s != []
    ensures RawOpens(s + [LETTER]) == RawOpens(s)
  {
    var p := if At(s, 0, LOWER_B) then 1 else 0;
    if At(s, p, LOWER_R) {
      assert (s + [LETTER])[p + 1..] == s[p + 1..] + [LETTER];
      HashRunBeforeLetter(s[p + 1..]);
    }
  }

  /** A letter at the end changes no turn before it. */
  lemma TurnBeforeLetter(s: seq<byte>, m: Mode)
    requires s != []
    ensures TextTurn(s + [LETTER], m) == TextTurn(s, m)
  {
    hide RawOpens;
    var t := s + [LETTER];
    RawOpensBeforeLetter(s);
    if CharOpens(s) {
      assert t[1..CharClose(s)] == s[1..CharClose(s)];
    }
    if m.Raw? {
      forall k | 1 <= k <= m.hashes
        ensures At(t, k, HASH) <==> At(s, k, HASH)
      {
      }
    }
  }

  lemma {:induction false} LexBeforeLetter(s: seq<byte>, m: Mode)
    ensures TextLex(s + [LETTER], m)
            == Then(TextLex(s, m).out, TextLex([LETTER], TextLex(s, m).end))
  {
    hide TextLex, TextTurn;
    if s == [] {
      TextLexNothing(m);
      assert [] + [LETTER] == [LETTER];
    } else if s[0] == LF {
      TextFeed(s, m);
      TextFeed(s + [LETTER], m);
      assert (s + [LETTER])[1..] == s[1..] + [LETTER];
      LexBeforeLetter(s[1..], Carry(m));
      ThenThen([LF], TextLex(s[1..], Carry(m)).out, TextLex([LETTER], TextLex(s, m).end));
    } else {
      var t := TextTurn(s, m);
      TurnBeforeLetter(s, m);
      TextStep(s, m);
      TextStep(s + [LETTER], m);
      assert (s + [LETTER])[t.width..] == s[t.width..] + [LETTER];
      LexBeforeLetter(s[t.width..], t.next);
      ThenThen(Emitted(s, t), TextLex(s[t.width..], t.next).out, TextLex([LETTER], TextLex(s, m).end));
    }
  }

  lemma LetterShowsMode(m: Mode)
    ensures TextLex([LETTER], m).out == [if m == Code then LETTER else SPACE]
  {
    TextStep([LETTER], m);
  }

  /** The masked text shows `a` blanked and the rest as if it stood alone. */
  ghost predicate MaskedAlone(a: seq<byte>, rest: seq<byte>) {
    TextLex(a + rest, Code).out == Blanked(a) + TextLex(rest, Code).out
  }

  /** A literal that crosses a line shows: in itself or in a letter after it. */
  lemma CrossingShows(body: seq<byte>)
    requires LongStringBody(body) && LF in body
    ensures var s := [QUOTE] + body + [QUOTE]; !MaskedAlone(s, []) || !MaskedAlone(s, [LETTER])
  {
    hide TextLex;
    var s := [QUOTE] + body + [QUOTE];
    CrossingIsNotConsumed(body);
    assert s + [] == s && Blanked(s) + [] == Blanked(s);
    TextLexNothing(Code);
    LexBeforeLetter(s, Code);
    LetterShowsMode(Code);
    var r := TextLex(s, Code);
    LetterShowsMode(r.end);
    if r.out == Blanked(s) {
      assert r.end != Code;
      var shown := TextLex(s + [LETTER], Code).out;
      assert shown == r.out + [SPACE] && shown[|s|] == SPACE;
      assert (Blanked(s) + [LETTER])[|s|] == LETTER;
    } else {
      assert TextLex([], Code).out == [];
    }
  }

  /** A string literal is consumed whatever follows it, and the masked text shows that,
      exactly when it crosses no line. */
  lemma StringLiteralBlankedIff(body: seq<byte>)
    requires LongStringBody(body)
    ensures (forall rest :: Consumes([QUOTE] + body + [QUOTE], Code, rest, Code)) <==> LF !in body
    ensures (forall rest :: MaskedAlone([QUOTE] + body + [QUOTE], rest)) <==> LF !in body
  {
    hide Consumes, MaskedAlone;
    if LF !in body {
      ShortStringBody(body);
      forall rest
        ensures Consumes([QUOTE] + body + [QUOTE], Code, rest, Code)
      {
        ConsumesItem(StrLit(body), rest);
      }
      forall rest
        ensures MaskedAlone([QUOTE] + body + [QUOTE], rest)
      {
        ConsumedIsMasked([QUOTE] + body + [QUOTE], rest);
      }
    } else {
      CrossingIsNotConsumed(body);
      CrossingShows(body);
    }
  }

  lemma ConsumedIsMasked(a: seq<byte>, rest: seq<byte>)
    requires Consumes(a, Code, rest, Code)
    ensures MaskedAlone(a, rest)
  {
  }

  /** The continuation matters: the shortest literal that crosses a line is read as it should
      be when the next byte is a line feed, and not when the text ends there. */
  lemma CrossingMayBeConsumed()
    ensures Consumes([QUOTE, LF, QUOTE], Code, [LF], Code)
    ensures !Consumes([QUOTE, LF, QUOTE], Code, [], Code)
  {
    hide TextLex;
    var s := [QUOTE, LF, QUOTE] + [LF];
    assert s[1..] == [LF, QUOTE, LF] && s[1..][1..] == [QUOTE, LF] && s[1..][1..][1..] == [LF];
    TextStep(s, Code);
    TextFeed(s[1..], Str(false));
    TextStep(s[1..][1..], Code);
    TextFeed([LF], Str(false));
    TextFeed([LF], Code);
    assert [QUOTE] + [LF] + [QUOTE] == [QUOTE, LF, QUOTE];
    CrossingIsNotConsumed([LF]);
  }
}
