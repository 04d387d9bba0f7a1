/** Which texts the grammar covers: exactly those in which the scan closes what it opens.

    Each lemma below with out-parameters takes such a text apart, and `Reading` puts the parts
    together into a well-formed list of items. */
module RustReading {
  import opened Common
  import opened RustMasker
  import opened RustLexing
  import opened RustGrammar

  lemma ClosesStep(s: seq<byte>, m: Mode)
    requires s != [] && s[0] != LF && Closes(s, m)
    ensures m == Code ==> !EmptyChar(s)
    ensures var t := TextTurn(s, m); Closes(s[t.width..], t.next)
  {
  }

  lemma ClosesFeed(s: seq<byte>, m: Mode)
    requires s != [] && s[0] == LF && Closes(s, m)
    ensures !m.Str? && !m.Chr? && Closes(s[1..], Carry(m))
  {
  }

  lemma NothingCloses(m: Mode)
    ensures Closes([], m) <==> m == Code || m == LineComment
  {
  }

  lemma NoFeedInString(s: seq<byte>, escaped: bool)
    requires Closes(s, Str(escaped))
    ensures s != [] && s[0] != LF
  {
  }

  lemma Regroup(a: seq<byte>, b: seq<byte>, c: seq<byte>)
    ensures a + b + c == a + (b + c)
  {
  }

  // ----- the inside of each item

  lemma {:induction false} StringPart(s: seq<byte>) returns (body: seq<byte>, rest: seq<byte>)
    requires Closes(s, Str(false))
    ensures s == body + [QUOTE] + rest && StringBody(body) && Closes(rest, Code)
  {
    hide Closes;
    NoFeedInString(s, false);
    ClosesStep(s, Str(false));
    if s[0] == QUOTE {
      body, rest := [], s[1..];
    } else if s[0] == BACKSLASH {
      NoFeedInString(s[1..], true);
      ClosesStep(s[1..], Str(true));
      assert s[1..][1..] == s[2..];
      var tail;
      tail, rest := StringPart(s[2..]);
      body := s[..2] + tail;
      assert body[2..] == tail;
    } else {
      var tail;
      tail, rest := StringPart(s[1..]);
      body := [s[0]] + tail;
      assert body[1..] == tail;
    }
  }

  lemma {:induction false} RawPart(s: seq<byte>, hashes: nat) returns (body: seq<byte>, rest: seq<byte>)
    requires Closes(s, Raw(hashes, 0))
    ensures s == body + RawCloser(hashes) + rest && RawBody(body, hashes) && Closes(rest, Code)
  {
    hide Closes;
    var mode, closer := Raw(hashes, 0), RawCloser(hashes);
    NothingCloses(mode);
    if s[0] == QUOTE {
      RawClosesIsPrefix(s, hashes);
    }
    if closer <= s {
      assert s[0] == closer[0] == QUOTE;
      ClosesStep(s, mode);
      body, rest := [], s[|closer|..];
    } else {
      if s[0] == LF {
        ClosesFeed(s, mode);
      } else {
        ClosesStep(s, mode);
      }
      var tail;
      tail, rest := RawPart(s[1..], hashes);
      body := [s[0]] + tail;
      RawBodyCons(s[0], tail, hashes, rest);
    }
  }

  lemma RawBodyCons(b: byte, tail: seq<byte>, hashes: nat, rest: seq<byte>)
    requires RawBody(tail, hashes) && !(RawCloser(hashes) <= [b] + tail + RawCloser(hashes) + rest)
    ensures RawBody([b] + tail, hashes)
  {
    var closer, body := RawCloser(hashes), [b] + tail;
    forall k | 0 <= k < |body|
      ensures !(closer <= body[k..])
    {
      assert body + (closer + rest) == body + closer + rest;
      PrefixOfMore(closer, body, closer + rest);
      assert k > 0 ==> body[k..] == tail[k - 1..];
    }
  }

  lemma PrefixOfMore(a: seq<byte>, s: seq<byte>, more: seq<byte>)
    ensures a <= s ==> a <= s + more
  {
  }

  lemma InnerNest(inner: Nest, tail: Nest, middle: seq<byte>, rest: seq<byte>)
    requires NestOk(inner, BLOCK_CLOSE + middle) && NestOk(tail, BLOCK_CLOSE + rest)
    requires middle == RenderNest(tail) + BLOCK_CLOSE + rest
    ensures NestOk(Inner(inner, tail), BLOCK_CLOSE + rest)
    ensures RenderNest(Inner(inner, tail)) + BLOCK_CLOSE + rest == BLOCK_OPEN + (RenderNest(inner) + BLOCK_CLOSE + middle)
  {
    InnerText(RenderNest(inner), RenderNest(tail), rest);
  }

  lemma InnerText(inner: seq<byte>, tail: seq<byte>, rest: seq<byte>)
    ensures BLOCK_CLOSE + tail + (BLOCK_CLOSE + rest) == BLOCK_CLOSE + (tail + BLOCK_CLOSE + rest)
    ensures BLOCK_OPEN + inner + BLOCK_CLOSE + tail + BLOCK_CLOSE + rest
            == BLOCK_OPEN + (inner + BLOCK_CLOSE + (tail + BLOCK_CLOSE + rest))
  {
    hide BLOCK_OPEN, BLOCK_CLOSE;
    var front, middle := BLOCK_OPEN + inner + BLOCK_CLOSE, tail + BLOCK_CLOSE + rest;
    Regroup(BLOCK_CLOSE, tail, BLOCK_CLOSE + rest);
    Regroup(tail, BLOCK_CLOSE, rest);
    Regroup(front, tail, BLOCK_CLOSE);
    Regroup(front, tail + BLOCK_CLOSE, rest);
    Regroup(BLOCK_OPEN + inner, BLOCK_CLOSE, middle);
    Regroup(BLOCK_OPEN, inner, BLOCK_CLOSE + middle);
    Regroup(inner, BLOCK_CLOSE, middle);
  }

  lemma ByteNest(b: byte, tail: Nest, rest: seq<byte>)
    requires NestOk(tail, BLOCK_CLOSE + rest)
    requires var here := [b] + (RenderNest(tail) + BLOCK_CLOSE + rest); !(BLOCK_OPEN <= here) && !(BLOCK_CLOSE <= here)
    ensures NestOk(Byte(b, tail), BLOCK_CLOSE + rest)
    ensures RenderNest(Byte(b, tail)) + BLOCK_CLOSE + rest == [b] + (RenderNest(tail) + BLOCK_CLOSE + rest)
  {
    assert [b] + RenderNest(tail) + (BLOCK_CLOSE + rest) == [b] + (RenderNest(tail) + BLOCK_CLOSE + rest);
  }

  lemma EmptyNest(rest: seq<byte>)
    ensures NestOk(End, BLOCK_CLOSE + rest) && RenderNest(End) + BLOCK_CLOSE + rest == BLOCK_CLOSE + rest
  {
  }

  lemma {:induction false} NestPart(s: seq<byte>, depth: pos) returns (n: Nest, rest: seq<byte>)
    requires Closes(s, Comment(depth))
    ensures s == RenderNest(n) + BLOCK_CLOSE + rest && NestOk(n, BLOCK_CLOSE + rest)
    ensures Closes(rest, AtDepth(depth - 1))
    decreases |s|
  {
    hide Closes, NestOk, RenderNest;
    var mode := Comment(depth);
    NothingCloses(mode);
    BothIsPrefix(SLASH, STAR, s);
    BothIsPrefix(STAR, SLASH, s);
    if Both(s, SLASH, STAR) {
      ClosesStep(s, mode);
      var inner, middle := NestPart(s[2..], depth + 1);
      var tail;
      tail, rest := NestPart(middle, depth);
      n := Inner(inner, tail);
      InnerNest(inner, tail, middle, rest);
      assert s == BLOCK_OPEN + s[2..];
    } else if Both(s, STAR, SLASH) {
      ClosesStep(s, mode);
      n, rest := End, s[2..];
      EmptyNest(rest);
      assert s == BLOCK_CLOSE + rest;
    } else {
      ByteInComment(s, depth);
      var tail;
      tail, rest := NestPart(s[1..], depth);
      n := Byte(s[0], tail);
      assert s == [s[0]] + s[1..];
      ByteNest(s[0], tail, rest);
    }
  }

  lemma ByteInComment(s: seq<byte>, depth: pos)
    requires s != [] && Closes(s, Comment(depth)) && !Both(s, SLASH, STAR) && !Both(s, STAR, SLASH)
    ensures Closes(s[1..], Comment(depth))
  {
  }

  lemma {:induction false} LinePart(s: seq<byte>) returns (body: seq<byte>, rest: seq<byte>)
    requires Closes(s, LineComment)
    ensures s == body + rest && LF !in body && (rest == [] || rest[0] == LF) && Closes(rest, Code)
  {
    hide Closes;
    body, rest := [], s;
    if s == [] {
      NothingCloses(Code);
    } else if s[0] == LF {
      FeedLeavesComment(s);
    } else {
      ClosesStep(s, LineComment);
      var tail;
      tail, rest := LinePart(s[1..]);
      body := [s[0]] + tail;
    }
  }

  lemma FeedLeavesComment(s: seq<byte>)
    requires s == [] || s[0] == LF
    ensures Closes(s, LineComment) <==> Closes(s, Code)
  {
  }

  // ----- one item

  lemma CharBodyIsToken(t: seq<byte>, body: seq<byte>)
    requires CharBody(body) && [APOSTROPHE] + body + [APOSTROPHE] <= t
    ensures CharToken(t) && t[1..CharClose(t)] == body
  {
    var lit := [APOSTROPHE] + body + [APOSTROPHE];
    assert t[..|lit|] == lit;
    assert t[1] == lit[1] == body[0];
    assert t[|body| + 1] == lit[|body| + 1] == APOSTROPHE;
    assert t[1..|body| + 1] == lit[1..|body| + 1] == body;
  }

  /** What the scanner keeps is a code byte of the grammar. */
  lemma KeptIsCode(s: seq<byte>)
    requires s != [] && (s[0] == LF || TextTurn(s, Code).kept)
    ensures !TokenStarts(s)
  {
    BothIsPrefix(SLASH, SLASH, s);
    BothIsPrefix(SLASH, STAR, s);
    RawOpensSome(s);
    if body :| CharBody(body) && [APOSTROPHE] + body + [APOSTROPHE] <= s {
      CharBodyIsToken(s, body);
    }
    if s[0] == APOSTROPHE {
      NoRawAtApostrophe(s);
    }
  }

  /** `s` is the item and then `rest`, which closes what it opens in turn. */
  ghost predicate Splits(s: seq<byte>, it: Item, rest: seq<byte>) {
    s == RenderItem(it) + rest && |rest| < |s| && ItemOk(it, rest) && Closes(rest, Code)
  }

  lemma CodeItem(s: seq<byte>)
    requires s != [] && Closes(s, Code) && (s[0] == LF || TextTurn(s, Code).kept)
    ensures Splits(s, CodeByte(s[0]), s[1..])
  {
    hide Closes, TokenStarts, TextTurn;
    assert s == [s[0]] + s[1..];
    KeptIsCode(s);
    KeepsCodeByte(s[0], s[1..]);
  }

  lemma CharItem(s: seq<byte>) returns (it: Item, rest: seq<byte>)
    requires s != [] && Closes(s, Code) && CharToken(s)
    ensures Splits(s, it, rest)
  {
    hide Closes;
    var k := CharClose(s);
    var body := s[1..k];
    it, rest := CharLit(body), s[k + 1..];
    ClosesStep(s, Code);
    assert s == [APOSTROPHE] + body + [APOSTROPHE] + rest;
    assert body[0] == s[1];
    ConsumesCharLit(body, rest);
  }

  lemma StringItem(s: seq<byte>) returns (it: Item, rest: seq<byte>)
    requires s != [] && s[0] == QUOTE && Closes(s[1..], Str(false))
    ensures Splits(s, it, rest)
  {
    hide Closes;
    var body;
    body, rest := StringPart(s[1..]);
    it := StrLit(body);
    assert s == [QUOTE] + s[1..];
  }

  lemma RawItem(s: seq<byte>) returns (it: Item, rest: seq<byte>)
    requires RawOpens(s).Some? && Closes(s[RawOpens(s).value.0..], Raw(RawOpens(s).value.1, 0))
    ensures Splits(s, it, rest)
  {
    hide Closes, RawOpens, RawBody, RawOpener, RawCloser;
    var byteString, hashes := At(s, 0, LOWER_B), RawOpens(s).value.1;
    var opener := RawOpener(byteString, hashes);
    OpenerIsFront(s);
    assert s == opener + s[|opener|..];
    var body;
    body, rest := RawPart(s[|opener|..], hashes);
    it := RawLit(byteString, hashes, body);
    Regroup(opener, body, RawCloser(hashes));
    Regroup(opener, body + RawCloser(hashes), rest);
  }

  lemma OpenerIsFront(s: seq<byte>)
    requires RawOpens(s).Some?
    ensures var opener := RawOpener(At(s, 0, LOWER_B), RawOpens(s).value.1);
            opener <= s && |opener| == RawOpens(s).value.0
  {
    RawOpensExact(s, At(s, 0, LOWER_B), RawOpens(s).value.1);
  }

  lemma CommentItem(s: seq<byte>) returns (it: Item, rest: seq<byte>)
    requires Both(s, SLASH, STAR) && Closes(s[2..], Comment(1))
    ensures Splits(s, it, rest)
  {
    hide Closes, NestOk, RenderNest;
    var n;
    n, rest := NestPart(s[2..], 1);
    it := BlockComment(n);
    assert s == BLOCK_OPEN + s[2..];
  }

  lemma LineItem(s: seq<byte>) returns (it: Item, rest: seq<byte>)
    requires Both(s, SLASH, SLASH) && Closes(s[2..], LineComment)
    ensures Splits(s, it, rest)
  {
    hide Closes;
    var body;
    body, rest := LinePart(s[2..]);
    it := EolComment(body);
    assert s == LINE_OPEN + s[2..];
  }

  /** The first item of a text that closes what it opens. */
  lemma FirstItem(s: seq<byte>) returns (it: Item, rest: seq<byte>)
    requires s != [] && Closes(s, Code)
    ensures Splits(s, it, rest)
  {
    hide Closes, RawOpens, CharToken, Splits;
    if s[0] == LF || TextTurn(s, Code).kept {
      it, rest := CodeByte(s[0]), s[1..];
      CodeItem(s);
      return;
    }
    ClosesStep(s, Code);
    if s[0] == APOSTROPHE {
      it, rest := CharItem(s);
    } else if Both(s, SLASH, SLASH) {
      it, rest := LineItem(s);
    } else if Both(s, SLASH, STAR) {
      it, rest := CommentItem(s);
    } else if RawOpens(s).Some? {
      it, rest := RawItem(s);
    } else {
      it, rest := StringItem(s);
    }
  }

  // ----- whole texts

  lemma {:induction false} Reading(s: seq<byte>) returns (items: seq<Item>)
    requires Closes(s, Code)
    ensures WellFormed(items) && Render(items) == s
    decreases |s|
  {
    hide Closes, ItemOk, RenderItem;
    items := [];
    if s != [] {
      var it, rest := FirstItem(s);
      var tail := Reading(rest);
      items := [it] + tail;
      assert items[1..] == tail;
    }
  }

  lemma {:induction false} WellFormedCloses(items: seq<Item>)
    requires WellFormed(items)
    ensures Closes(Render(items), Code)
  {
    hide Closes, RenderItem, TokenStarts;
    if items == [] {
      NothingCloses(Code);
    } else {
      var it, rest := items[0], Render(items[1..]);
      WellFormedCloses(items[1..]);
      if it.CodeByte? {
        CodeByteRendered(it);
        KeepsCodeByte(it.b, rest);
      } else {
        ConsumesItem(it, rest);
        if it.EolComment? {
          FeedLeavesComment(rest);
        }
      }
    }
  }

  lemma CodeByteRendered(it: Item)
    requires it.CodeByte?
    ensures RenderItem(it) == [it.b]
  {
  }

  /** The grammar covers exactly the texts in which the scan closes what it opens. */
  lemma HasReadingIff(s: seq<byte>)
    ensures (exists items :: WellFormed(items) && Render(items) == s) <==> Closes(s, Code)
  {
    hide Closes, WellFormed, Render;
    if items :| WellFormed(items) && Render(items) == s {
      WellFormedCloses(items);
    }
    if Closes(s, Code) {
      var items := Reading(s);
    }
  }

  /** Every file that closes what it opens is masked as some reading of it says. */
  lemma ClosingFileIsMasked(file: seq<byte>)
    requires Closes(NormalizeCrlf(file), Code)
    ensures exists items :: WellFormed(items) && Render(items) == NormalizeCrlf(file)
              && MaskLines(Lines(file, LF, CR), Code) == (WithoutEmptyLast(SplitOn(Expected(items), LF)), Code)
  {
    hide Closes, WellFormed, Render, Expected, MaskLines, NormalizeCrlf, Lines;
    var items := Reading(NormalizeCrlf(file));
    MaskFollowsGrammar(file, items);
  }
}
