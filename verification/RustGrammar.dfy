/** The masker against Rust's lexical structure.

    A source text is a sequence of items: code bytes, string, character and raw string
    literals, nested block comments and line comments. `WellFormed` follows the sections
    "Comments" and "Tokens" of The Rust Reference, with two departures the masker forces:
    no ordinary string crosses a line, and a character literal whose body is neither one
    byte nor a backslash and one byte is no token, so that its bytes are code bytes. */
module RustGrammar {
  import opened Common
  import opened RustMasker
  import opened RustLexing

  const LINE_OPEN: seq<byte> := [SLASH, SLASH]
  const BLOCK_OPEN: seq<byte> := [SLASH, STAR]
  const BLOCK_CLOSE: seq<byte> := [STAR, SLASH]

  function Hashes(n: nat): seq<byte> {
    seq(n, i => HASH)
  }

  function RawOpener(byteString: bool, hashes: nat): seq<byte> {
    (if byteString then [LOWER_B] else []) + [LOWER_R] + Hashes(hashes) + [QUOTE]
  }

  function RawCloser(hashes: nat): seq<byte> {
    [QUOTE] + Hashes(hashes)
  }

  /** One byte, or a backslash and one byte, on one line. */
  predicate CharBody(body: seq<byte>) {
    && LF !in body
    && ((|body| == 1 && body[0] != BACKSLASH) || (|body| == 2 && body[0] == BACKSLASH))
  }

  /** Escapes come in pairs, and neither a bare quote nor a line feed occurs. */
  predicate StringBody(body: seq<byte>) {
    if body == [] then true
    else if body[0] == BACKSLASH then |body| >= 2 && body[1] != LF && StringBody(body[2..])
    else body[0] != QUOTE && body[0] != LF && StringBody(body[1..])
  }

  predicate RawBody(body: seq<byte>, hashes: nat) {
    forall k :: 0 <= k < |body| ==> !(RawCloser(hashes) <= body[k..])
  }

  /** The inside of a block comment: bytes and inner block comments. */
  datatype Nest = End | Byte(b: byte, tail: Nest) | Inner(inner: Nest, tail: Nest)

  function RenderNest(n: Nest): seq<byte> {
    match n
    case End => []
    case Byte(b, tail) => [b] + RenderNest(tail)
    case Inner(inner, tail) => BLOCK_OPEN + RenderNest(inner) + BLOCK_CLOSE + RenderNest(tail)
  }

  /** No plain byte starts a comment delimiter, given the text that follows. */
  predicate NestOk(n: Nest, after: seq<byte>) {
    match n
    case End => true
    case Byte(b, tail) =>
      var here := [b] + RenderNest(tail) + after;
      !(BLOCK_OPEN <= here) && !(BLOCK_CLOSE <= here) && NestOk(tail, after)
    case Inner(inner, tail) =>
      NestOk(inner, BLOCK_CLOSE + RenderNest(tail) + after) && NestOk(tail, after)
  }

  datatype Item =
    | CodeByte(b: byte)
    | StrLit(body: seq<byte>)
    | CharLit(body: seq<byte>)
    | RawLit(byteString: bool, hashes: nat, body: seq<byte>)
    | BlockComment(nest: Nest)
    | EolComment(body: seq<byte>)

  function RenderItem(it: Item): seq<byte> {
    match it
    case CodeByte(b) => [b]
    case StrLit(body) => [QUOTE] + body + [QUOTE]
    case CharLit(body) => [APOSTROPHE] + body + [APOSTROPHE]
    case RawLit(byteString, hashes, body) => RawOpener(byteString, hashes) + body + RawCloser(hashes)
    case BlockComment(nest) => BLOCK_OPEN + RenderNest(nest) + BLOCK_CLOSE
    case EolComment(body) => LINE_OPEN + body
  }

  function Render(items: seq<Item>): seq<byte> {
    if items == [] then [] else RenderItem(items[0]) + Render(items[1..])
  }

  /** Some literal or comment opens at the front of `t`. */
  ghost predicate TokenStarts(t: seq<byte>) {
    || LINE_OPEN <= t
    || BLOCK_OPEN <= t
    || [QUOTE] <= t
    || (exists byteString, hashes :: RawOpener(byteString, hashes) <= t)
    || (exists body :: CharBody(body) && [APOSTROPHE] + body + [APOSTROPHE] <= t)
  }

  /** A code byte is one at which nothing else opens; the other items are delimited. */
  ghost predicate ItemOk(it: Item, rest: seq<byte>) {
    match it
    case CodeByte(b) => !TokenStarts([b] + rest)
    case StrLit(body) => StringBody(body)
    case CharLit(body) => CharBody(body) && body != [APOSTROPHE]
    case RawLit(_, hashes, body) => RawBody(body, hashes)
    case BlockComment(nest) => NestOk(nest, BLOCK_CLOSE + rest)
    case EolComment(body) => LF !in body && (rest == [] || rest[0] == LF)
  }

  ghost predicate WellFormed(items: seq<Item>) {
    items == [] || (ItemOk(items[0], Render(items[1..])) && WellFormed(items[1..]))
  }

  /** Spaces, with the line structure left in place. */
  function Blanked(s: seq<byte>): (r: seq<byte>)
    ensures |r| == |s|
  {
    seq(|s|, i requires 0 <= i < |s| => if s[i] == LF then LF else SPACE)
  }

  /** Code verbatim, literals and comments blank; of a long character literal, which is no
      token here, the bytes. */
  function Expected(items: seq<Item>): seq<byte> {
    if items == [] then []
    else (if items[0].CodeByte? then [items[0].b] else Blanked(RenderItem(items[0])))
         + Expected(items[1..])
  }

  lemma BlankedConcat(a: seq<byte>, b: seq<byte>)
    ensures Blanked(a + b) == Blanked(a) + Blanked(b)
  {
  }

  /** Consuming `a` blanks it and leaves the rest to mode `m'`. */
  ghost predicate Consumes(a: seq<byte>, m: Mode, rest: seq<byte>, m': Mode) {
    TextLex(a + rest, m) == Then(Blanked(a), TextLex(rest, m'))
  }

  /** Three apostrophes in a row, which are no character literal of Rust. */
  predicate EmptyChar(s: seq<byte>) {
    At(s, 0, APOSTROPHE) && At(s, 1, APOSTROPHE) && At(s, 2, APOSTROPHE)
  }

  /** Scanned from mode `m` the text closes what it opens: it ends in no literal and no block
      comment, no line feed falls inside a string or character literal, and no literal opens
      at three apostrophes. */
  predicate Closes(s: seq<byte>, m: Mode) {
    if s == [] then m == Code || m == LineComment
    else if s[0] == LF then !m.Str? && !m.Chr? && Closes(s[1..], Carry(m))
    else if m == Code && EmptyChar(s) then false
    else
      var t := TextTurn(s, m);
      Closes(s[t.width..], t.next)
  }

  /** Reading `a` consumes it, and opens nothing that it does not close. */
  ghost predicate Reads(a: seq<byte>, m: Mode, rest: seq<byte>, m': Mode) {
    Consumes(a, m, rest, m') && (Closes(a + rest, m) <==> Closes(rest, m'))
  }

  lemma ConsumesConcat(a: seq<byte>, m: Mode, b: seq<byte>, m1: Mode, rest: seq<byte>, m2: Mode)
    requires Reads(a, m, b + rest, m1)
    requires Reads(b, m1, rest, m2)
    ensures Reads(a + b, m, rest, m2)
  {
    hide TextLex, Closes;
    assert a + b + rest == a + (b + rest);
    BlankedConcat(a, b);
    ThenThen(Blanked(a), Blanked(b), TextLex(rest, m2));
  }

  lemma ConsumesNothing(m: Mode, rest: seq<byte>)
    ensures Reads([], m, rest, m)
  {
    assert [] + rest == rest;
  }

  /** A blank turn of the scanner, read as consumption. */
  lemma ConsumesTurn(a: seq<byte>, m: Mode, rest: seq<byte>)
    requires a != [] && LF !in a
    requires var t := TextTurn(a + rest, m); t.width == |a| && !t.kept
    requires m == Code ==> !EmptyChar(a + rest)
    ensures Reads(a, m, rest, TextTurn(a + rest, m).next)
  {
  }

  lemma ConsumesFeed(m: Mode, rest: seq<byte>)
    requires m == Carry(m)
    ensures Reads([LF], m, rest, m)
  {
  }

  // ----- items one by one

  lemma {:induction false} ConsumesString(body: seq<byte>, rest: seq<byte>)
    requires StringBody(body)
    ensures Reads(body + [QUOTE], Str(false), rest, Code)
  {
    hide Reads;
    if body == [] {
      assert body + [QUOTE] == [QUOTE];
      ConsumesTurn([QUOTE], Str(false), rest);
    } else if body[0] == BACKSLASH {
      var tail := body[2..] + [QUOTE];
      assert body + [QUOTE] == [body[0]] + ([body[1]] + tail);
      ConsumesTurn([body[0]], Str(false), [body[1]] + tail + rest);
      ConsumesTurn([body[1]], Str(true), tail + rest);
      ConsumesString(body[2..], rest);
      ConsumesConcat([body[1]], Str(true), tail, Str(false), rest, Code);
      ConsumesConcat([body[0]], Str(false), [body[1]] + tail, Str(true), rest, Code);
    } else {
      var tail := body[1..] + [QUOTE];
      assert body + [QUOTE] == [body[0]] + tail;
      ConsumesTurn([body[0]], Str(false), tail + rest);
      ConsumesString(body[1..], rest);
      ConsumesConcat([body[0]], Str(false), tail, Str(false), rest, Code);
    }
  }

  lemma ConsumesCharLit(body: seq<byte>, rest: seq<byte>)
    requires CharBody(body) && body != [APOSTROPHE]
    ensures Reads([APOSTROPHE] + body + [APOSTROPHE], Code, rest, Code)
  {
    hide Reads;
    var a := [APOSTROPHE];
    var s := a + (body + a + rest);
    assert s[1..CharClose(s)] == body;
    ConsumesTurn(a, Code, body + a + rest);
    ConsumesTurn(a, Chr(false), rest);
    if |body| == 1 {
      ConsumesTurn(body, Chr(false), a + rest);
      ConsumesConcat(body, Chr(false), a, Chr(false), rest, Code);
    } else {
      assert body == [body[0]] + [body[1]];
      ConsumesTurn([body[0]], Chr(false), [body[1]] + (a + rest));
      ConsumesTurn([body[1]], Chr(true), a + rest);
      ConsumesConcat([body[0]], Chr(false), [body[1]], Chr(true), a + rest, Chr(false));
      ConsumesConcat(body, Chr(false), a, Chr(false), rest, Code);
    }
    assert a + body + a == a + (body + a);
    ConsumesConcat(a, Code, body + a, Chr(false), rest, Code);
  }

  lemma {:induction false} HashRunOfHashes(n: nat, rest: seq<byte>)
    requires !At(rest, 0, HASH)
    ensures HashRun(Hashes(n) + rest) == n
  {
    if n == 0 {
      assert Hashes(0) + rest == rest;
    } else {
      assert (Hashes(n) + rest)[1..] == Hashes(n - 1) + rest;
      HashRunOfHashes(n - 1, rest);
    }
  }

  /** The cursor walk of `raw_string_start` finds exactly the raw string openers. */
  lemma RawOpensExact(t: seq<byte>, byteString: bool, hashes: nat)
    ensures RawOpener(byteString, hashes) <= t
            <==> (RawOpens(t) == Some((|RawOpener(byteString, hashes)|, hashes)) && byteString == At(t, 0, LOWER_B))
  {
    var opener := RawOpener(byteString, hashes);
    var p := if byteString then 1 else 0;
    if opener <= t {
      assert t == opener + t[|opener|..];
      assert At(t, p, LOWER_R) by {
        assert opener[p] == LOWER_R;
      }
      assert At(t, 0, LOWER_B) == byteString by {
        assert opener[0] == if byteString then LOWER_B else LOWER_R;
      }
      var after := [QUOTE] + t[|opener|..];
      assert t[p + 1..] == Hashes(hashes) + after;
      HashRunOfHashes(hashes, after);
      assert t[p + 1 + hashes] == after[0];
    }
    if RawOpens(t) == Some((|opener|, hashes)) && byteString == At(t, 0, LOWER_B) {
      forall k | 0 <= k < |opener|
        ensures opener[k] == t[k]
      {
        assert p + 1 <= k < p + 1 + hashes ==> t[k] == t[p + 1..][k - p - 1];
      }
      assert opener == t[..|opener|];
    }
  }

  lemma RawOpensSome(t: seq<byte>)
    ensures RawOpens(t).Some? <==> exists byteString, hashes :: RawOpener(byteString, hashes) <= t
  {
    if RawOpens(t).Some? {
      RawOpensExact(t, At(t, 0, LOWER_B), RawOpens(t).value.1);
    }
    if byteString, hashes :| RawOpener(byteString, hashes) <= t {
      RawOpensExact(t, byteString, hashes);
    }
  }

  lemma {:induction false} ConsumesRaw(body: seq<byte>, hashes: nat, rest: seq<byte>)
    requires RawBody(body, hashes)
    ensures Reads(body + RawCloser(hashes), Raw(hashes, 0), rest, Code)
  {
    hide Reads;
    var closer := RawCloser(hashes);
    var mode := Raw(hashes, 0);
    if body == [] {
      assert body + closer == closer;
      forall k | 1 <= k <= hashes
        ensures At(closer + rest, k, HASH)
      {
      }
      ConsumesTurn(closer, mode, rest);
    } else {
      var tail := body[1..] + closer;
      var s := [body[0]] + (tail + rest);
      assert body + closer == [body[0]] + tail;
      if body[0] == LF {
        ConsumesFeed(mode, tail + rest);
      } else {
        RawBodyGoesOn(body, hashes, rest);
        assert s == body + closer + rest;
        ConsumesTurn([body[0]], mode, tail + rest);
      }
      forall k | 0 <= k < |body[1..]|
        ensures !(closer <= body[1..][k..])
      {
        assert body[1..][k..] == body[k + 1..];
      }
      ConsumesRaw(body[1..], hashes, rest);
      ConsumesConcat([body[0]], mode, tail, mode, rest, Code);
    }
  }

  lemma RawClosesIsPrefix(s: seq<byte>, hashes: nat)
    requires s != [] && s[0] == QUOTE
    ensures RawCloses(s, hashes) <==> RawCloser(hashes) <= s
  {
    var closer := RawCloser(hashes);
    if RawCloses(s, hashes) {
      assert hashes == 0 || At(s, hashes, HASH);
      forall k | 0 <= k < |closer|
        ensures closer[k] == s[k]
      {
        assert k > 0 ==> At(s, k, HASH);
      }
      assert closer == s[..|closer|];
    }
    if closer <= s {
      forall k | 1 <= k <= hashes
        ensures At(s, k, HASH)
      {
        assert s[k] == closer[k];
      }
    }
  }

  lemma RawBodyGoesOn(body: seq<byte>, hashes: nat, rest: seq<byte>)
    requires body != [] && RawBody(body, hashes)
    ensures var s := body + RawCloser(hashes) + rest;
            s[0] == QUOTE ==> !RawCloses(s, hashes)
  {
    var closer := RawCloser(hashes);
    var s := body + closer + rest;
    if s[0] == QUOTE {
      RawClosesIsPrefix(s, hashes);
      assert |body| <= hashes ==> closer[|body|] == HASH && s[|body|] == closer[0] == QUOTE;
      assert |body| > hashes ==> s[..|closer|] == body[0..][..|closer|];
    }
  }

  lemma BothIsPrefix(b: byte, c: byte, t: seq<byte>)
    ensures Both(t, b, c) <==> [b, c] <= t
  {
  }

  lemma {:induction false} ConsumesNest(n: Nest, depth: pos, after: seq<byte>)
    requires NestOk(n, after)
    ensures Reads(RenderNest(n), Comment(depth), after, Comment(depth))
  {
    hide Reads;
    var mode := Comment(depth);
    match n
    case End =>
      ConsumesNothing(mode, after);
    case Byte(b, tail) =>
      var s := [b] + (RenderNest(tail) + after);
      assert s == [b] + RenderNest(tail) + after;
      if b == LF {
        ConsumesFeed(mode, RenderNest(tail) + after);
      } else {
        BothIsPrefix(SLASH, STAR, s);
        BothIsPrefix(STAR, SLASH, s);
        ConsumesTurn([b], mode, RenderNest(tail) + after);
      }
      ConsumesNest(tail, depth, after);
      ConsumesConcat([b], mode, RenderNest(tail), mode, after, mode);
    case Inner(inner, tail) =>
      var mid := RenderNest(inner);
      var end := RenderNest(tail);
      var deeper := Comment(depth + 1);
      assert BLOCK_CLOSE + end + after == BLOCK_CLOSE + (end + after);
      assert mid + (BLOCK_CLOSE + end) + after == mid + (BLOCK_CLOSE + end + after);
      assert BLOCK_OPEN + mid + BLOCK_CLOSE + end == BLOCK_OPEN + (mid + (BLOCK_CLOSE + end));
      ConsumesNest(tail, depth, after);
      ConsumesTurn(BLOCK_CLOSE, deeper, end + after);
      ConsumesConcat(BLOCK_CLOSE, deeper, end, mode, after, mode);
      ConsumesNest(inner, depth + 1, BLOCK_CLOSE + end + after);
      ConsumesConcat(mid, deeper, BLOCK_CLOSE + end, deeper, after, mode);
      ConsumesTurn(BLOCK_OPEN, mode, mid + (BLOCK_CLOSE + end) + after);
      ConsumesConcat(BLOCK_OPEN, mode, mid + (BLOCK_CLOSE + end), deeper, after, mode);
  }

  lemma {:induction false} ConsumesToEol(body: seq<byte>, rest: seq<byte>)
    requires LF !in body
    ensures Reads(body, LineComment, rest, LineComment)
  {
    hide Reads;
    if body == [] {
      ConsumesNothing(LineComment, rest);
    } else {
      assert body == [body[0]] + body[1..];
      ConsumesTurn([body[0]], LineComment, body[1..] + rest);
      ConsumesToEol(body[1..], rest);
      ConsumesConcat([body[0]], LineComment, body[1..], LineComment, rest, LineComment);
    }
  }

  function EndOf(it: Item): Mode {
    if it.EolComment? then LineComment else Code
  }

  /** Every literal and comment is blanked from its first byte to its last. */
  lemma ConsumesItem(it: Item, rest: seq<byte>)
    requires !it.CodeByte? && ItemOk(it, rest)
    ensures Reads(RenderItem(it), Code, rest, EndOf(it))
  {
    hide Reads;
    match it
    case StrLit(body) =>
      var tail := body + [QUOTE];
      assert [QUOTE] + body + [QUOTE] == [QUOTE] + tail;
      ConsumesTurn([QUOTE], Code, tail + rest);
      ConsumesString(body, rest);
      ConsumesConcat([QUOTE], Code, tail, Str(false), rest, Code);
    case CharLit(body) =>
      ConsumesCharLit(body, rest);
    case RawLit(byteString, hashes, body) =>
      var opener, tail := RawOpener(byteString, hashes), body + RawCloser(hashes);
      assert opener + body + RawCloser(hashes) == opener + tail;
      RawOpensExact(opener + (tail + rest), byteString, hashes);
      ConsumesTurn(opener, Code, tail + rest);
      ConsumesRaw(body, hashes, rest);
      ConsumesConcat(opener, Code, tail, Raw(hashes, 0), rest, Code);
    case BlockComment(nest) =>
      var mid := RenderNest(nest);
      var tail := mid + BLOCK_CLOSE;
      assert BLOCK_OPEN + mid + BLOCK_CLOSE == BLOCK_OPEN + tail;
      ConsumesTurn(BLOCK_OPEN, Code, tail + rest);
      ConsumesNest(nest, 1, BLOCK_CLOSE + rest);
      ConsumesTurn(BLOCK_CLOSE, Comment(1), rest);
      ConsumesConcat(mid, Comment(1), BLOCK_CLOSE, Comment(1), rest, Code);
      ConsumesConcat(BLOCK_OPEN, Code, tail, Comment(1), rest, Code);
    case EolComment(body) =>
      ConsumesTurn(LINE_OPEN, Code, body + rest);
      ConsumesToEol(body, rest);
      ConsumesConcat(LINE_OPEN, Code, body, LineComment, rest, LineComment);
  }

  lemma CharTokenStarts(t: seq<byte>)
    ensures CharToken(t) ==> exists body :: CharBody(body) && [APOSTROPHE] + body + [APOSTROPHE] <= t
  {
    if CharToken(t) {
      var body := t[1..CharClose(t)];
      assert CharBody(body);
      assert t[..CharClose(t) + 1] == [APOSTROPHE] + body + [APOSTROPHE];
    }
  }

  /** A byte at which no token starts is kept. */
  lemma KeepsCodeByte(b: byte, rest: seq<byte>)
    requires !TokenStarts([b] + rest)
    ensures TextLex([b] + rest, Code) == Then([b], TextLex(rest, Code))
    ensures Closes([b] + rest, Code) <==> Closes(rest, Code)
  {
    var t := [b] + rest;
    assert t[1..] == rest;
    if b != LF {
      BothIsPrefix(SLASH, SLASH, t);
      BothIsPrefix(SLASH, STAR, t);
      RawOpensSome(t);
      assert b == QUOTE ==> [QUOTE] <= t;
      CharTokenStarts(t);
      assert TextTurn(t, Code) == Turned(1, true, Code);
      TextStep(t, Code);
    }
  }

  // ----- the main results

  /** One scan of a well-formed text keeps its code, blanks everything else, and ends in
      no literal and no block comment. */
  lemma {:induction false} ScanFollowsGrammar(items: seq<Item>)
    requires WellFormed(items)
    ensures TextLex(Render(items), Code).out == Expected(items)
    ensures Carry(TextLex(Render(items), Code).end) == Code
  {
    if items != [] {
      var it, rest := items[0], Render(items[1..]);
      ScanFollowsGrammar(items[1..]);
      if it.CodeByte? {
        KeepsCodeByte(it.b, rest);
      } else {
        ConsumesItem(it, rest);
        if it.EolComment? && rest != [] {
          LineFeedEndsLineComment(rest);
        }
      }
    }
  }

  lemma LineFeedEndsLineComment(rest: seq<byte>)
    requires rest != [] && rest[0] == LF
    ensures TextLex(rest, LineComment) == TextLex(rest, Code)
  {
  }

  /** Masking a file line by line follows the grammar: if the file, CRLF-normalized, is a
      well-formed sequence of items, its masked lines are the lines of the expected text and
      the state carried past the last line is the default one. */
  lemma MaskFollowsGrammar(file: seq<byte>, items: seq<Item>)
    requires NormalizeCrlf(file) == Render(items) && WellFormed(items)
    ensures MaskLines(Lines(file, LF, CR), Code)
            == (WithoutEmptyLast(SplitOn(Expected(items), LF)), Code)
  {
    FileMaskIsTextMask(file);
    ScanFollowsGrammar(items);
  }

  /** The grammar is unambiguous about what is code. */
  lemma CodeIsUnambiguous(items: seq<Item>, others: seq<Item>)
    requires WellFormed(items) && WellFormed(others) && Render(items) == Render(others)
    ensures Expected(items) == Expected(others)
  {
    ScanFollowsGrammar(items);
    ScanFollowsGrammar(others);
  }
}
