/** The line masker of the no-panic scan: strings, character literals, raw strings
    and comments become spaces, every other byte is kept. `RustMaskState` carries
    an open raw string or block comment from one line to the next. */
module RustMasker {
  import opened Common

  const LF: byte := 10
  const CR: byte := 13
  const QUOTE: byte := 34
  const HASH: byte := 35
  const APOSTROPHE: byte := 39
  const STAR: byte := 42
  const SLASH: byte := 47
  const BACKSLASH: byte := 92
  const LOWER_B: byte := 98
  const LOWER_R: byte := 114

  /** The bytes stand for these characters. */
  lemma BytesAreCharacters()
    ensures LF == '\n' as int && CR == '\r' as int && SPACE == ' ' as int
    ensures QUOTE == '\"' as int && HASH == '#' as int && APOSTROPHE == '\'' as int
    ensures STAR == '*' as int && SLASH == '/' as int && BACKSLASH == '\\' as int
    ensures LOWER_B == 'b' as int && LOWER_R == 'r' as int
  {
  }

  type pos = n: int | 0 < n witness 1

  /** What the scanner is inside of. `under` is the block comment depth recorded
      beneath an open raw string; it is 0 in every reachable state. */
  datatype Mode =
    | Code
    | Str(escaped: bool)
    | Chr(escaped: bool)
    | Raw(hashes: nat, under: nat)
    | Comment(depth: pos)
    | LineComment

  /** The part of a mode that survives the end of a line. */
  function Carry(m: Mode): Mode {
    if m.Raw? || m.Comment? then m else Code
  }

  function AtDepth(depth: nat): Mode {
    if depth == 0 then Code else Comment(depth)
  }

  predicate At(s: seq<byte>, k: nat, b: byte) {
    k < |s| && s[k] == b
  }

  predicate Both(s: seq<byte>, b: byte, c: byte) {
    At(s, 0, b) && At(s, 1, c)
  }

  /** Number of `#` at the front. */
  function HashRun(s: seq<byte>): (n: nat)
    ensures n <= |s| && !At(s, n, HASH)
    ensures forall k :: 0 <= k < n ==> s[k] == HASH
  {
    if At(s, 0, HASH) then 1 + HashRun(s[1..]) else 0
  }

  /** Length and hash count of the raw string opener at the front, if there is one. */
  function RawOpens(s: seq<byte>): (r: Option<(nat, nat)>)
    ensures r.Some? ==> 0 < r.value.0 <= |s|
  {
    var p := if At(s, 0, LOWER_B) then 1 else 0;
    if !At(s, p, LOWER_R) then None
    else
      var hashes := HashRun(s[p + 1..]);
      if At(s, p + 1 + hashes, QUOTE) then Some((p + hashes + 2, hashes)) else None
  }

  /** Given a quote in front, whether `hashes` hash signs follow it. */
  predicate RawCloses(s: seq<byte>, hashes: nat) {
    forall k :: 1 <= k <= hashes ==> At(s, k, HASH)
  }

  /** Where the closing quote of a one-byte or backslash-and-one-byte literal would be. */
  function CharClose(s: seq<byte>): nat {
    if At(s, 1, BACKSLASH) then 3 else 2
  }

  predicate CharOpens(s: seq<byte>) {
    At(s, 0, APOSTROPHE) && At(s, CharClose(s), APOSTROPHE)
  }

  /** One turn of the scanner: how many bytes it takes, whether it keeps them, and
      the mode it is in afterwards. */
  datatype Turned = Turned(width: nat, kept: bool, next: Mode)

  function RawTurn(s: seq<byte>, hashes: nat, under: nat): (t: Turned)
    requires s != []
    ensures 0 < t.width <= |s| && !t.kept
  {
    if s[0] == QUOTE && RawCloses(s, hashes) then
      assert hashes == 0 || At(s, hashes, HASH);
      Turned(1 + hashes, false, AtDepth(under))
    else Turned(1, false, Raw(hashes, under))
  }

  function CommentTurn(s: seq<byte>, depth: pos): (t: Turned)
    requires s != []
    ensures 0 < t.width <= |s| && !t.kept
  {
    if Both(s, SLASH, STAR) then Turned(2, false, Comment(depth + 1))
    else if Both(s, STAR, SLASH) then Turned(2, false, AtDepth(depth - 1))
    else Turned(1, false, Comment(depth))
  }

  function CodeTurn(s: seq<byte>): (t: Turned)
    requires s != []
    ensures 0 < t.width <= |s|
    ensures t.kept ==> t.width == 1 && t.next == Code
  {
    if Both(s, SLASH, SLASH) then Turned(2, false, LineComment)
    else if Both(s, SLASH, STAR) then Turned(2, false, Comment(1))
    else if RawOpens(s).Some? then Turned(RawOpens(s).value.0, false, Raw(RawOpens(s).value.1, 0))
    else if s[0] == QUOTE then Turned(1, false, Str(false))
    else if CharOpens(s) then Turned(1, false, Chr(false))
    else Turned(1, true, Code)
  }

  function StrTurn(b: byte, escaped: bool): Mode {
    if escaped then Str(false)
    else if b == BACKSLASH then Str(true)
    else if b == QUOTE then Code
    else Str(false)
  }

  function ChrTurn(b: byte, escaped: bool): Mode {
    if escaped then Chr(false)
    else if b == BACKSLASH then Chr(true)
    else if b == APOSTROPHE then Code
    else Chr(false)
  }

  function Turn(s: seq<byte>, m: Mode): (t: Turned)
    requires s != []
    ensures 0 < t.width <= |s|
    ensures t.kept ==> t.width == 1 && m == t.next == Code
  {
    match m
    case Raw(hashes, under) => RawTurn(s, hashes, under)
    case Comment(depth) => CommentTurn(s, depth)
    case Str(escaped) => Turned(1, false, StrTurn(s[0], escaped))
    case Chr(escaped) => Turned(1, false, ChrTurn(s[0], escaped))
    case LineComment => Turned(1, false, LineComment)
    case Code => CodeTurn(s)
  }

  function Blanks(n: nat): (r: seq<byte>)
    ensures |r| == n
    ensures forall i :: 0 <= i < n ==> r[i] == SPACE
  {
    seq(n, i => SPACE)
  }

  /** The masked bytes of one line and the mode at its end. */
  datatype Lexed = Lexed(out: seq<byte>, end: Mode)

  function Lex(s: seq<byte>, m: Mode): (r: Lexed)
    ensures |r.out| == |s|
  {
    if s == [] then Lexed([], m)
    else
      var t := Turn(s, m);
      var tail := Lex(s[t.width..], t.next);
      Lexed((if t.kept then [s[0]] else Blanks(t.width)) + tail.out, tail.end)
  }

  /** The defining equation of `Lex`, by name. */
  lemma LexTurn(s: seq<byte>, m: Mode)
    requires s != []
    ensures var t := Turn(s, m);
            var tail := Lex(s[t.width..], t.next);
            Lex(s, m) == Lexed((if t.kept then [s[0]] else Blanks(t.width)) + tail.out, tail.end)
  {
  }

  lemma LexNothing(m: Mode)
    ensures Lex([], m) == Lexed([], m)
  {
  }

  /** Masking keeps positions: every byte stays where it was or turns into a space. */
  lemma {:induction false} MaskKeepsPositions(s: seq<byte>, m: Mode, i: nat)
    requires i < |s|
    ensures |Lex(s, m).out| == |s|
    ensures Lex(s, m).out[i] == s[i] || Lex(s, m).out[i] == SPACE
  {
    hide Turn;
    var t := Turn(s, m);
    LexTurn(s, m);
    hide Lex;
    if i >= t.width {
      MaskKeepsPositions(s[t.width..], t.next, i - t.width);
    }
  }

  /** A raw string is never open above a block comment if none was at the start. */
  ghost predicate Sound(m: Mode) {
    m.Raw? ==> m.under == 0
  }

  lemma {:induction false} RawAndCommentNeverBothOpen(s: seq<byte>, m: Mode)
    requires Sound(m)
    ensures Sound(Lex(s, m).end)
  {
    if s != [] {
      var t := Turn(s, m);
      RawAndCommentNeverBothOpen(s[t.width..], t.next);
    }
  }

  /** Nothing is kept after `//`. */
  lemma {:induction false} LineCommentBlanks(s: seq<byte>)
    ensures Lex(s, LineComment) == Lexed(Blanks(|s|), LineComment)
  {
    if s != [] {
      LineCommentBlanks(s[1..]);
      assert Blanks(1) + Blanks(|s| - 1) == Blanks(|s|);
    }
  }

  // ----- the program's own form

  method StartsWith(bytes: seq<byte>, index: nat, needle: (byte, byte)) returns (r: bool)
    requires index <= |bytes|
    ensures r <==> Both(bytes[index..], needle.0, needle.1)
  {
    r := index + 2 <= |bytes| && bytes[index] == needle.0 && bytes[index + 1] == needle.1;
  }

  /** The hash count at the front, after one more hash sign. */
  lemma HashRunStep(s: seq<byte>)
    ensures HashRun(s) == if At(s, 0, HASH) then 1 + HashRun(s[1..]) else 0
  {
  }

  /** `RawOpens`, given where the `r` is and how many hash signs follow it. */
  lemma RawOpensIs(s: seq<byte>, p: nat, hashes: nat)
    requires p == if At(s, 0, LOWER_B) then 1 else 0
    requires At(s, p, LOWER_R) ==> HashRun(s[p + 1..]) == hashes
    ensures RawOpens(s) == if At(s, p, LOWER_R) && At(s, p + 1 + hashes, QUOTE) then Some((p + hashes + 2, hashes)) else None
  {
    hide HashRun;
  }

  method RawStringStart(bytes: seq<byte>, index: nat) returns (r: Option<(nat, nat)>)
    requires index <= |bytes|
    ensures r == RawOpens(bytes[index..])
  {
    hide HashRun, RawOpens;
    ghost var s := bytes[index..];
    var cursor := index;
    if cursor < |bytes| && bytes[cursor] == LOWER_B {
      cursor := cursor + 1;
    }
    ghost var p := cursor - index;
    if cursor >= |bytes| || bytes[cursor] != LOWER_R {
      RawOpensIs(s, p, 0);
      return None;
    }
    cursor := cursor + 1;
    ghost var start := cursor;
    assert s[p + 1..] == bytes[start..];
    var hashes := 0;
    while cursor < |bytes| && bytes[cursor] == HASH
      invariant start <= cursor <= |bytes|
      invariant hashes == cursor - start
      invariant HashRun(bytes[start..]) == hashes + HashRun(bytes[cursor..])
    {
      HashRunStep(bytes[cursor..]);
      assert bytes[cursor..][1..] == bytes[cursor + 1..];
      hashes := hashes + 1;
      cursor := cursor + 1;
    }
    HashRunStep(bytes[cursor..]);
    RawOpensIs(s, p, hashes);
    if cursor < |bytes| && bytes[cursor] == QUOTE {
      return Some((cursor - index + 1, hashes));
    } else {
      return None;
    }
  }

  method LooksLikeCharLiteral(bytes: seq<byte>, quoteIndex: nat) returns (r: bool)
    requires quoteIndex < |bytes| && bytes[quoteIndex] == APOSTROPHE
    ensures r <==> CharOpens(bytes[quoteIndex..])
  {
    if quoteIndex + 1 >= |bytes| {
      return false;
    }
    var closing := if bytes[quoteIndex + 1] == BACKSLASH then quoteIndex + 3 else quoteIndex + 2;
    r := closing < |bytes| && bytes[closing] == APOSTROPHE;
  }

  method RawStringCloses(bytes: seq<byte>, quoteIndex: nat, hashes: nat) returns (r: bool)
    requires quoteIndex < |bytes|
    ensures r <==> RawCloses(bytes[quoteIndex..], hashes)
  {
    ghost var s := bytes[quoteIndex..];
    var offset := 0;
    while offset < hashes
      invariant offset <= hashes
      invariant forall k :: 1 <= k <= offset ==> At(s, k, HASH)
    {
      if quoteIndex + 1 + offset >= |bytes| || bytes[quoteIndex + 1 + offset] != HASH {
        assert !At(s, offset + 1, HASH);
        return false;
      }
      offset := offset + 1;
    }
    return true;
  }

  function ModeOf(depth: nat, hashes: Option<nat>, inString: bool, inChar: bool, escaped: bool): Mode {
    if hashes.Some? then Raw(hashes.value, depth)
    else if depth > 0 then Comment(depth)
    else if inString then Str(escaped)
    else if inChar then Chr(escaped)
    else Code
  }

  class RustMaskState {
    var blockCommentDepth: nat
    var rawStringHashes: Option<nat>

    constructor ()
      ensures blockCommentDepth == 0 && rawStringHashes == None
    {
      blockCommentDepth, rawStringHashes := 0, None;
    }

    function Mode(): Mode
      reads this
    {
      ModeOf(blockCommentDepth, rawStringHashes, false, false, false)
    }
  }

  /** What is left to do completes `goal`. */
  ghost predicate OnTrack(line: seq<byte>, goal: Lexed, index: nat, out: seq<byte>, m: Mode) {
    && index <= |line|
    && goal == Lexed(out + Lex(line[index..], m).out, Lex(line[index..], m).end)
  }

  /** One turn of the loop stays on track. */
  lemma Advance(line: seq<byte>, goal: Lexed, index: nat, out: seq<byte>, m: Mode,
                index': nat, out': seq<byte>, m': Mode)
    requires OnTrack(line, goal, index, out, m) && index < |line|
    requires var t := Turn(line[index..], m);
      && index' == index + t.width && m' == t.next
      && out' == out + (if t.kept then [line[index]] else Blanks(t.width))
    ensures OnTrack(line, goal, index', out', m')
  {
    hide Lex, Turn;
    var s := line[index..];
    var t := Turn(s, m);
    var kept := if t.kept then [s[0]] else Blanks(t.width);
    assert s[t.width..] == line[index'..];
    LexTurn(s, m);
    var tail := Lex(line[index'..], m');
    assert (out + kept) + tail.out == out + (kept + tail.out);
    assert out' == out + kept;
  }

  /** The turn taken in a raw string: one space, or the whole closer. */
  method MaskInRawString(bytes: seq<byte>, start: nat, state: RustMaskState) returns (masked: seq<byte>)
    requires start < |bytes| && state.rawStringHashes.Some?
    modifies state
    ensures var t := RawTurn(bytes[start..], old(state.rawStringHashes.value), old(state.blockCommentDepth));
      masked == Blanks(t.width) && state.Mode() == t.next
  {
    var hashes := state.rawStringHashes.value;
    masked := [SPACE];
    var closes := false;
    if bytes[start] == QUOTE {
      closes := RawStringCloses(bytes, start, hashes);
    }
    if closes {
      assert hashes == 0 || At(bytes[start..], hashes, HASH);
      var index := start;
      for k := 0 to hashes
        invariant index == start + k
        invariant masked == Blanks(1 + k)
      {
        if index + 1 < |bytes| {
          index := index + 1;
          masked := masked + [SPACE];
        }
      }
      state.rawStringHashes := None;
    }
  }

  /** The turn taken in a block comment: a delimiter, or one byte. */
  method MaskInComment(bytes: seq<byte>, index: nat, state: RustMaskState) returns (masked: seq<byte>)
    requires index < |bytes| && state.rawStringHashes.None? && state.blockCommentDepth > 0
    modifies state
    ensures var t := CommentTurn(bytes[index..], old(state.blockCommentDepth));
      masked == Blanks(t.width) && state.Mode() == t.next && state.rawStringHashes.None?
  {
    var opens := StartsWith(bytes, index, (SLASH, STAR));
    var closes := StartsWith(bytes, index, (STAR, SLASH));
    if opens {
      state.blockCommentDepth := state.blockCommentDepth + 1;
      masked := [SPACE, SPACE];
    } else if closes {
      state.blockCommentDepth := state.blockCommentDepth - 1;
      masked := [SPACE, SPACE];
    } else {
      masked := [SPACE];
    }
  }

  lemma LineCommentFinishes(line: seq<byte>, goal: Lexed, index: nat, out: seq<byte>)
    requires OnTrack(line, goal, index, out, Code) && index < |line| && Both(line[index..], SLASH, SLASH)
    ensures goal == Lexed(out + Blanks(|line| - index), LineComment)
  {
    Advance(line, goal, index, out, Code, index + 2, out + Blanks(2), LineComment);
    LineCommentBlanks(line[index + 2..]);
    assert out + Blanks(|line| - index) == out + Blanks(2) + Blanks(|line| - index - 2);
  }

  lemma Finish(line: seq<byte>, goal: Lexed, out: seq<byte>, m: Mode)
    requires OnTrack(line, goal, |line|, out, m)
    ensures goal == Lexed(out, m)
  {
    assert line[|line|..] == [];
  }

  lemma CarryIs(m: Mode)
    ensures Carry(m) == if m.Raw? || m.Comment? then m else Code
  {
  }

  /** The turn taken in code, other than at `//`: opens whatever starts here, or keeps the byte. */
  method MaskInCode(bytes: seq<byte>, index: nat, state: RustMaskState)
    returns (masked: seq<byte>, inString: bool, inChar: bool)
    requires index < |bytes| && !Both(bytes[index..], SLASH, SLASH)
    requires state.blockCommentDepth == 0 && state.rawStringHashes.None?
    modifies state
    ensures var t := CodeTurn(bytes[index..]);
      && masked == (if t.kept then [bytes[index]] else Blanks(t.width))
      && ModeOf(state.blockCommentDepth, state.rawStringHashes, inString, inChar, false) == t.next
    ensures inString || inChar ==> state.blockCommentDepth == 0 && state.rawStringHashes.None?
    ensures !(inString && inChar)
  {
    inString, inChar := false, false;
    var blockComment := StartsWith(bytes, index, (SLASH, STAR));
    if blockComment {
      state.blockCommentDepth := state.blockCommentDepth + 1;
      return [SPACE, SPACE], false, false;
    }
    var raw := RawStringStart(bytes, index);
    if raw.Some? {
      state.rawStringHashes := Some(raw.value.1);
      return Blanks(raw.value.0), false, false;
    }
    if bytes[index] == QUOTE {
      return [SPACE], true, false;
    }
    if bytes[index] == APOSTROPHE {
      var charLiteral := LooksLikeCharLiteral(bytes, index);
      if charLiteral {
        return [SPACE], false, true;
      }
    }
    return [bytes[index]], false, false;
  }

  method MaskRustCodeLine(bytes: seq<byte>, state: RustMaskState) returns (out: seq<byte>)
    modifies state
    ensures out == Lex(bytes, old(state.Mode())).out
    ensures state.Mode() == Carry(Lex(bytes, old(state.Mode())).end)
  {
    out := [];
    var index := 0;
    var inString, inChar, escaped := false, false, false;
    ghost var goal := Lex(bytes, state.Mode());
    ghost var mode := state.Mode();
    assert OnTrack(bytes, goal, 0, out, mode) by {
      assert bytes[0..] == bytes;
    }
    assert Blanks(1) == [SPACE] && Blanks(2) == [SPACE, SPACE];
    LexNothing(Code);
    hide Lex, Blanks, RawTurn, CommentTurn, CodeTurn, Both, OnTrack, Carry;
    while index < |bytes|
      invariant index <= |bytes|
      invariant (inString || inChar) ==> state.rawStringHashes.None? && state.blockCommentDepth == 0
      invariant !(inString && inChar) && (escaped ==> inString || inChar)
      invariant mode == ModeOf(state.blockCommentDepth, state.rawStringHashes, inString, inChar, escaped)
      invariant OnTrack(bytes, goal, index, out, mode)
    {
      ghost var rest := bytes[index..];
      ghost var t := Turn(rest, mode);
      ghost var index0, out0, mode0 := index, out, mode;
      if state.rawStringHashes.Some? {
        var masked := MaskInRawString(bytes, index, state);
        out := out + masked;
        index := index + |masked|;
        mode := t.next;
        Advance(bytes, goal, index0, out0, mode0, index, out, mode);
        continue;
      }
      if state.blockCommentDepth > 0 {
        var masked := MaskInComment(bytes, index, state);
        out := out + masked;
        index := index + |masked|;
        mode := t.next;
        Advance(bytes, goal, index0, out0, mode0, index, out, mode);
        continue;
      }
      if inString {
        var current := bytes[index];
        out := out + [SPACE];
        index := index + 1;
        if escaped {
          escaped := false;
        } else if current == BACKSLASH {
          escaped := true;
        } else if current == QUOTE {
          inString := false;
        }
        mode := t.next;
        Advance(bytes, goal, index0, out0, mode0, index, out, mode);
        continue;
      }
      if inChar {
        var current := bytes[index];
        out := out + [SPACE];
        index := index + 1;
        if escaped {
          escaped := false;
        } else if current == BACKSLASH {
          escaped := true;
        } else if current == APOSTROPHE {
          inChar := false;
        }
        mode := t.next;
        Advance(bytes, goal, index0, out0, mode0, index, out, mode);
        continue;
      }
      var lineComment := StartsWith(bytes, index, (SLASH, SLASH));
      if lineComment {
        LineCommentFinishes(bytes, goal, index, out);
        out := out + Blanks(|bytes| - index);
        mode := LineComment;
        break;
      }
      var masked;
      masked, inString, inChar := MaskInCode(bytes, index, state);
      out := out + masked;
      index := index + |masked|;
      mode := t.next;
      Advance(bytes, goal, index0, out0, mode0, index, out, mode);
    }
    if index == |bytes| {
      Finish(bytes, goal, out, mode);
    }
    CarryIs(goal.end);
  }
}
