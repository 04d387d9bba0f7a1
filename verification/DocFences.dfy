/** Fenced blocks of a Markdown file: which data snippets and shell commands are taken out.

    `Parse` gives a file its block structure; rendering and parsing are inverse, so every
    line sequence has exactly one. The two extraction loops are proved to return what that
    structure says, for every file. */
module DocFences {
  import opened Common
  import opened Text

  const FENCE := "```"

  predicate IsFence(line: string) {
    FENCE <= TrimStart(line)
  }

  /** `trim_start_matches("```")` */
  function StripTicks(s: string): string {
    if FENCE <= s then StripTicks(s[3..]) else s
  }

  function FirstWord(s: string): string {
    if s == "" || IsWhitespace(s[0]) then "" else [s[0]] + FirstWord(s[1..])
  }

  function ToAsciiLower(s: string): string {
    seq(|s|, i requires 0 <= i < |s| => if 'A' <= s[i] <= 'Z' then s[i] + ('a' - 'A') else s[i])
  }

  /** By code points: `A` to `Z` move up by 32, and nothing else changes. */
  lemma LowerCodes(s: string)
    ensures |ToAsciiLower(s)| == |s|
    ensures forall i :: 0 <= i < |s| ==>
              ToAsciiLower(s)[i] as int == s[i] as int + if 65 <= s[i] as int <= 90 then 32 else 0
  {
  }

  /** The first word of the info string, lower-cased; empty if there is none. */
  function Info(fence: string): string {
    ToAsciiLower(FirstWord(TrimStart(StripTicks(fence))))
  }

  datatype DataKind = Toml | Json | Yaml

  function FromFence(fence: string): Option<DataKind> {
    var info := Info(fence);
    if info == "toml" then Some(Toml)
    else if info == "json" then Some(Json)
    else if info == "yaml" || info == "yml" then Some(Yaml)
    else None
  }

  predicate IsShellFence(fence: string) {
    Info(fence) in {"", "bash", "sh", "shell", "console", "terminal", "powershell", "pwsh"}
  }

  /** No block is both data and shell. */
  lemma DataOrShell(fence: string)
    ensures !(FromFence(fence).Some? && IsShellFence(fence))
  {
  }

  function Ticks(groups: nat): string {
    if groups == 0 then "" else FENCE + Ticks(groups - 1)
  }

  lemma {:induction false} StripTicksOf(groups: nat, rest: string)
    requires !(FENCE <= rest)
    ensures StripTicks(Ticks(groups) + rest) == rest
  {
    if groups == 0 {
      assert Ticks(0) + rest == rest;
    } else {
      var s := Ticks(groups) + rest;
      assert s == FENCE + (Ticks(groups - 1) + rest);
      assert s[3..] == Ticks(groups - 1) + rest;
      StripTicksOf(groups - 1, rest);
    }
  }

  lemma {:induction false} FirstWordOf(word: string, rest: string)
    requires forall i :: 0 <= i < |word| ==> !IsWhitespace(word[i])
    requires rest == "" || IsWhitespace(rest[0])
    ensures FirstWord(word + rest) == word
  {
    hide IsWhitespace;
    if word == "" {
      assert word + rest == rest;
    } else {
      assert (word + rest)[1..] == word[1..] + rest;
      FirstWordOf(word[1..], rest);
    }
  }

  lemma {:induction false} BlanksAreSkipped(blanks: string, rest: string)
    requires IsBlank(blanks) && (rest == "" || !IsWhitespace(rest[0]))
    ensures TrimStart(blanks + rest) == rest
  {
    hide IsWhitespace;
    if blanks == "" {
      assert blanks + rest == rest;
    } else {
      assert (blanks + rest)[1..] == blanks[1..] + rest;
      BlanksAreSkipped(blanks[1..], rest);
    }
  }

  /** The info string of a fence is its first word after the backticks, in lower case,
      whatever blanks stand before it and whatever attributes follow it. */
  lemma InfoIsFirstWord(groups: nat, blanks: string, word: string, rest: string)
    requires IsBlank(blanks)
    requires word != "" && forall i :: 0 <= i < |word| ==> !IsWhitespace(word[i])
    requires rest == "" || IsWhitespace(rest[0])
    requires !(FENCE <= blanks + word + rest)
    ensures Info(Ticks(groups) + (blanks + word + rest)) == ToAsciiLower(word)
  {
    hide IsWhitespace, Ticks;
    StripTicksOf(groups, blanks + word + rest);
    assert blanks + word + rest == blanks + (word + rest);
    assert word + rest != "" && (word + rest)[0] == word[0];
    BlanksAreSkipped(blanks, word + rest);
    FirstWordOf(word, rest);
  }

  /** A bare fence has none. */
  lemma BareInfo(groups: nat, blanks: string)
    requires IsBlank(blanks)
    ensures Info(Ticks(groups) + blanks) == ""
  {
    hide Ticks;
    assert FENCE[0] == '`';
    StripTicksOf(groups, blanks);
    BlanksAreSkipped(blanks, "");
    assert blanks + "" == blanks;
    assert FirstWord("") == "";
  }

  /** A fence line is three backticks after blanks only. */
  lemma FenceIff(line: string)
    ensures IsFence(line) <==> exists i: nat :: TicksAfterBlanks(line, i)
  {
    hide IsWhitespace, TrimStart;
    var k := TrimStartDrops(line);
    if IsFence(line) {
      assert line[k..][..3] == FENCE;
      assert line[k] == FENCE[0] && line[k + 1] == FENCE[1] && line[k + 2] == FENCE[2];
      assert TicksAfterBlanks(line, k);
    }
    if i: nat :| TicksAfterBlanks(line, i) {
      TicksMakeFence(line, i);
    }
  }

  ghost predicate TicksAfterBlanks(line: string, i: nat) {
    i + 3 <= |line| && IsBlank(line[..i]) && line[i] == line[i + 1] == line[i + 2] == '`'
  }

  lemma TicksMakeFence(line: string, i: nat)
    requires TicksAfterBlanks(line, i)
    ensures IsFence(line)
  {
    hide IsWhitespace, TrimStart;
    TicksAreBlack();
    assert line == line[..i] + line[i..];
    BlanksAreSkipped(line[..i], line[i..]);
    assert line[i..][..3] == FENCE;
  }

  lemma TicksAreBlack()
    ensures !IsWhitespace('`')
  {
  }

  // ----- block structure

  datatype Block = Prose(line: string) | Fenced(open: string, body: seq<string>, close: string)

  /** A fence that is still open at the end of the file. */
  datatype Tail = Closed | Unclosed(open: string, body: seq<string>)

  predicate NoFence(lines: seq<string>) {
    forall i :: 0 <= i < |lines| ==> !IsFence(lines[i])
  }

  predicate BlockOk(b: Block) {
    match b
    case Prose(line) => !IsFence(line)
    case Fenced(open, body, close) => IsFence(open) && NoFence(body) && IsFence(close)
  }

  predicate TailOk(t: Tail) {
    t.Unclosed? ==> IsFence(t.open) && NoFence(t.body)
  }

  function RenderBlock(b: Block): seq<string> {
    match b
    case Prose(line) => [line]
    case Fenced(open, body, close) => [open] + body + [close]
  }

  function Render(blocks: seq<Block>, tail: Tail): seq<string> {
    if blocks != [] then RenderBlock(blocks[0]) + Render(blocks[1..], tail)
    else match tail
      case Closed => []
      case Unclosed(open, body) => [open] + body
  }

  /** Index of the first fence line, or the length. */
  function FenceIndex(lines: seq<string>): (k: nat)
    ensures k <= |lines| && NoFence(lines[..k])
    ensures k < |lines| ==> IsFence(lines[k])
  {
    if lines == [] || IsFence(lines[0]) then 0
    else
      var k := 1 + FenceIndex(lines[1..]);
      assert lines[..k] == [lines[0]] + lines[1..][..k - 1];
      k
  }

  function Parse(lines: seq<string>): (seq<Block>, Tail)
    decreases |lines|
  {
    if lines == [] then ([], Closed)
    else if !IsFence(lines[0]) then
      var (blocks, tail) := Parse(lines[1..]);
      ([Prose(lines[0])] + blocks, tail)
    else
      var rest := lines[1..];
      var k := FenceIndex(rest);
      if k == |rest| then ([], Unclosed(lines[0], rest))
      else
        var (blocks, tail) := Parse(rest[k + 1..]);
        ([Fenced(lines[0], rest[..k], rest[k])] + blocks, tail)
  }

  lemma {:induction false} FenceIndexAt(body: seq<string>, rest: seq<string>)
    requires NoFence(body) && (rest == [] || IsFence(rest[0]))
    ensures FenceIndex(body + rest) == |body|
  {
    hide IsFence;
    if body == [] {
      assert body + rest == rest;
    } else {
      assert (body + rest)[1..] == body[1..] + rest;
      FenceIndexAt(body[1..], rest);
    }
  }

  function OnFront(b: Block, p: (seq<Block>, Tail)): (seq<Block>, Tail) {
    ([b] + p.0, p.1)
  }

  lemma ParseProse(line: string, rest: seq<string>)
    requires !IsFence(line)
    ensures Parse([line] + rest) == OnFront(Prose(line), Parse(rest))
  {
  }

  lemma ParseFenced(open: string, body: seq<string>, close: string, rest: seq<string>)
    requires IsFence(open) && NoFence(body) && IsFence(close)
    ensures Parse([open] + body + [close] + rest) == OnFront(Fenced(open, body, close), Parse(rest))
  {
    hide IsFence, FenceIndex;
    var tail := body + ([close] + rest);
    assert ([open] + body + [close] + rest)[1..] == tail;
    FenceIndexAt(body, [close] + rest);
    assert tail[|body| + 1..] == rest && tail[..|body|] == body && tail[|body|] == close;
  }

  lemma ParseUnclosed(open: string, body: seq<string>)
    requires IsFence(open) && NoFence(body)
    ensures Parse([open] + body) == ([], Unclosed(open, body))
    ensures Parse([]) == ([], Closed)
  {
  }

  lemma RenderOnFront(b: Block, p: (seq<Block>, Tail))
    ensures var q := OnFront(b, p); Render(q.0, q.1) == RenderBlock(b) + Render(p.0, p.1)
  {
  }

  /** Every file is the rendering of its parse, and the parse is well formed. */
  lemma {:induction false} RenderOfParse(lines: seq<string>)
    ensures var (blocks, tail) := Parse(lines);
      && Render(blocks, tail) == lines
      && (forall i :: 0 <= i < |blocks| ==> BlockOk(blocks[i]))
      && TailOk(tail)
    decreases |lines|
  {
    hide IsFence, FenceIndex, Parse, Render;
    if lines == [] {
      ParseAndRenderNothing();
    } else if !IsFence(lines[0]) {
      assert lines == [lines[0]] + lines[1..];
      ParseProse(lines[0], lines[1..]);
      RenderOfParse(lines[1..]);
      RenderOnFront(Prose(lines[0]), Parse(lines[1..]));
    } else {
      var open, rest := lines[0], lines[1..];
      var k := FenceIndex(rest);
      if k == |rest| {
        assert rest[..k] == rest && lines == [open] + rest;
        ParseUnclosed(open, rest);
        RenderUnclosed(open, rest);
      } else {
        var body, close, after := rest[..k], rest[k], rest[k + 1..];
        assert lines == [open] + body + [close] + after;
        ParseFenced(open, body, close, after);
        RenderOfParse(after);
        RenderOnFront(Fenced(open, body, close), Parse(after));
      }
    }
  }

  lemma ParseAndRenderNothing()
    ensures Parse([]) == ([], Closed) && Render([], Closed) == []
  {
  }

  lemma RenderUnclosed(open: string, body: seq<string>)
    ensures Render([], Unclosed(open, body)) == [open] + body
  {
  }

  /** Parsing undoes rendering. */
  lemma {:induction false} ParseOfRender(blocks: seq<Block>, tail: Tail)
    requires forall i :: 0 <= i < |blocks| ==> BlockOk(blocks[i])
    requires TailOk(tail)
    ensures Parse(Render(blocks, tail)) == (blocks, tail)
  {
    hide IsFence, Parse, Render;
    if blocks != [] {
      ParseOfRender(blocks[1..], tail);
      assert BlockOk(blocks[0]);
      var rest := Render(blocks[1..], tail);
      RenderOnFront(blocks[0], (blocks[1..], tail));
      assert blocks == [blocks[0]] + blocks[1..];
      match blocks[0]
      case Prose(line) => ParseProse(line, rest);
      case Fenced(open, body, close) => ParseFenced(open, body, close, rest);
    } else if tail.Unclosed? {
      RenderUnclosed(tail.open, tail.body);
      ParseUnclosed(tail.open, tail.body);
    } else {
      ParseAndRenderNothing();
    }
  }

  // ----- data snippets

  datatype Snippet = Snippet(line: nat, kind: DataKind, raw: string)

  function Height(b: Block): nat {
    |RenderBlock(b)|
  }

  /** The snippet of a closed data block; `n` lines come before it. */
  function BlockSnippets(b: Block, n: nat): seq<Snippet> {
    if b.Fenced? && FromFence(TrimStart(b.open)).Some? then
      [Snippet(n + 1, FromFence(TrimStart(b.open)).value, Unlines(b.body))]
    else []
  }

  /** The closed data blocks in order. */
  function DataOf(blocks: seq<Block>, n: nat): seq<Snippet> {
    if blocks == [] then []
    else BlockSnippets(blocks[0], n) + DataOf(blocks[1..], n + Height(blocks[0]))
  }

  /** The active snippet, once its block closes after these further lines. */
  function Finished(active: Option<(DataKind, nat, string)>, body: seq<string>): seq<Snippet> {
    if active.Some? then [Snippet(active.value.1, active.value.0, active.value.2 + Unlines(body))] else []
  }

  /** What is still to be found from line `n` on, given the state of the loop. */
  function DataLeft(rest: seq<string>, n: nat, inCodeBlock: bool, active: Option<(DataKind, nat, string)>): seq<Snippet> {
    if !inCodeBlock then DataOf(Parse(rest).0, n)
    else
      var k := FenceIndex(rest);
      if k == |rest| then [] else Finished(active, rest[..k]) + DataOf(Parse(rest[k + 1..]).0, n + k + 1)
  }

  function OpenedData(line: string, n: nat): Option<(DataKind, nat, string)> {
    var kind := FromFence(TrimStart(line));
    if kind.Some? then Some((kind.value, n + 1, "")) else None
  }

  function ClosedData(active: Option<(DataKind, nat, string)>): seq<Snippet> {
    if active.Some? then [Snippet(active.value.1, active.value.0, active.value.2)] else []
  }

  function LongerData(active: Option<(DataKind, nat, string)>, line: string): Option<(DataKind, nat, string)> {
    if active.Some? then Some((active.value.0, active.value.1, active.value.2 + line + "\n")) else None
  }

  lemma DataUnfold(rest: seq<string>, n: nat, active: Option<(DataKind, nat, string)>)
    ensures DataLeft(rest, n, false, active) == DataOf(Parse(rest).0, n)
    ensures var k := FenceIndex(rest);
      DataLeft(rest, n, true, active)
      == if k == |rest| then [] else Finished(active, rest[..k]) + DataOf(Parse(rest[k + 1..]).0, n + k + 1)
  {
    hide Parse, DataOf, FenceIndex, Finished;
  }

  lemma DataOnFront(b: Block, blocks: seq<Block>, n: nat)
    ensures DataOf([b] + blocks, n) == BlockSnippets(b, n) + DataOf(blocks, n + Height(b))
    ensures DataOf([], n) == []
  {
    hide BlockSnippets, Height;
    assert ([b] + blocks)[1..] == blocks;
  }

  lemma HeightIs(b: Block)
    ensures Height(b) == if b.Fenced? then |b.body| + 2 else 1
  {
  }

  lemma FinishedNow(active: Option<(DataKind, nat, string)>)
    ensures Finished(active, []) == ClosedData(active)
  {
    assert active.Some? ==> active.value.2 + "" == active.value.2;
  }

  lemma FinishedBlock(open: string, body: seq<string>, close: string, n: nat)
    ensures Finished(OpenedData(open, n), body) == BlockSnippets(Fenced(open, body, close), n)
  {
    hide FromFence;
    assert "" + Unlines(body) == Unlines(body);
  }

  lemma FinishedLater(active: Option<(DataKind, nat, string)>, line: string, body: seq<string>)
    ensures Finished(active, [line] + body) == Finished(LongerData(active, line), body)
  {
    UnlinesOnFront(line, body);
    if active.Some? {
      var raw := active.value.2;
      assert raw + (line + "\n" + Unlines(body)) == raw + line + "\n" + Unlines(body);
    }
  }

  lemma FenceIndexOnFront(line: string, rest: seq<string>)
    ensures FenceIndex([line] + rest) == if IsFence(line) then 0 else 1 + FenceIndex(rest)
  {
    hide IsFence;
    assert ([line] + rest)[1..] == rest;
  }

  lemma DataAtClosing(close: string, rest: seq<string>, n: nat, active: Option<(DataKind, nat, string)>)
    requires IsFence(close)
    ensures DataLeft([close] + rest, n, true, active) == ClosedData(active) + DataLeft(rest, n + 1, false, None)
  {
    hide *;
    var lines := [close] + rest;
    FenceIndexOnFront(close, rest);
    DataUnfold(lines, n, active);
    DataUnfold(rest, n + 1, None);
    FinishedNow(active);
    assert lines[..0] == [] && lines[1..] == rest;
  }

  lemma DataAtOpening(open: string, rest: seq<string>, n: nat)
    requires IsFence(open)
    ensures DataLeft([open] + rest, n, false, None) == DataLeft(rest, n + 1, true, OpenedData(open, n))
  {
    hide *;
    var k := FenceIndex(rest);
    DataUnfold([open] + rest, n, None);
    DataUnfold(rest, n + 1, OpenedData(open, n));
    if k == |rest| {
      assert rest[..k] == rest;
      ParseUnclosed(open, rest);
      DataOnFront(Prose(open), [], n);
    } else {
      var body, close, after := rest[..k], rest[k], rest[k + 1..];
      assert [open] + rest == [open] + body + [close] + after;
      ParseFenced(open, body, close, after);
      OnFrontIs(Fenced(open, body, close), Parse(after));
      DataOnFront(Fenced(open, body, close), Parse(after).0, n);
      HeightIs(Fenced(open, body, close));
      FinishedBlock(open, body, close, n);
    }
  }

  lemma OnFrontIs(b: Block, p: (seq<Block>, Tail))
    ensures OnFront(b, p).0 == [b] + p.0
  {
  }

  lemma DataAtLine(line: string, rest: seq<string>, n: nat, inCodeBlock: bool, active: Option<(DataKind, nat, string)>)
    requires !IsFence(line)
    ensures DataLeft([line] + rest, n, inCodeBlock, active)
            == DataLeft(rest, n + 1, inCodeBlock, LongerData(active, line))
  {
    hide *;
    var lines := [line] + rest;
    DataUnfold(lines, n, active);
    DataUnfold(rest, n + 1, LongerData(active, line));
    if inCodeBlock {
      var k := FenceIndex(rest);
      FenceIndexOnFront(line, rest);
      if k < |rest| {
        assert lines[..k + 1] == [line] + rest[..k] && lines[k + 2..] == rest[k + 1..];
        FinishedLater(active, line, rest[..k]);
      }
    } else {
      ParseProse(line, rest);
      OnFrontIs(Prose(line), Parse(rest));
      DataOnFront(Prose(line), Parse(rest).0, n);
      HeightIs(Prose(line));
      ProseHasNoData(line, n);
      assert [] + DataOf(Parse(rest).0, n + 1) == DataOf(Parse(rest).0, n + 1);
    }
  }

  lemma ProseHasNoData(line: string, n: nat)
    ensures BlockSnippets(Prose(line), n) == []
  {
  }

  lemma {:induction false} UnlinesOnFront(line: string, body: seq<string>)
    ensures Unlines([line] + body) == line + "\n" + Unlines(body)
  {
    hide Unlines;
    UnlinesNothing();
    if body == [] {
      assert [line] + body == [] + [line];
      UnlinesSnoc([], line);
      assert "" + line == line;
      assert line + "\n" + "" == line + ['\n'];
    } else {
      var n := |body| - 1;
      var front, last := body[..n], body[n];
      UnlinesOnFront(line, front);
      assert body == front + [last] && [line] + body == [line] + front + [last];
      UnlinesSnoc([line] + front, last);
      UnlinesSnoc(front, last);
      var head, middle := line + "\n", Unlines(front);
      assert head + middle + last == head + (middle + last);
      assert head + (middle + last) + ['\n'] == head + (middle + last + ['\n']);
    }
  }

  lemma UnlinesNothing()
    ensures Unlines([]) == ""
  {
  }

  /** `snippets` and what is left make up the snippets of the whole file. */
  ghost predicate DataOnTrack(lines: seq<string>, idx: nat, inCodeBlock: bool,
                              active: Option<(DataKind, nat, string)>, snippets: seq<Snippet>) {
    && idx <= |lines|
    && DataOf(Parse(lines).0, 0) == snippets + DataLeft(lines[idx..], idx, inCodeBlock, active)
  }

  /** One turn of the loop stays on track. */
  lemma DataTurn(lines: seq<string>, idx: nat, inCodeBlock: bool, active: Option<(DataKind, nat, string)>, snippets: seq<Snippet>)
    requires idx < |lines| && DataOnTrack(lines, idx, inCodeBlock, active, snippets)
    ensures !IsFence(lines[idx])
            ==> DataOnTrack(lines, idx + 1, inCodeBlock, LongerData(active, lines[idx]), snippets)
    ensures IsFence(lines[idx]) && inCodeBlock
            ==> DataOnTrack(lines, idx + 1, false, None, snippets + ClosedData(active))
    ensures IsFence(lines[idx]) && !inCodeBlock && active == None
            ==> DataOnTrack(lines, idx + 1, true, OpenedData(lines[idx], idx), snippets)
  {
    hide IsFence, DataLeft, DataOf, Parse, LongerData, ClosedData, OpenedData;
    var line, rest := lines[idx], lines[idx + 1..];
    assert lines[idx..] == [line] + rest;
    if !IsFence(line) {
      DataAtLine(line, rest, idx, inCodeBlock, active);
    } else if inCodeBlock {
      DataAtClosing(line, rest, idx, active);
      var left := DataLeft(rest, idx + 1, false, None);
      assert snippets + (ClosedData(active) + left) == snippets + ClosedData(active) + left;
    } else if active == None {
      DataAtOpening(line, rest, idx);
    }
  }

  lemma DataStarts(lines: seq<string>)
    ensures DataOnTrack(lines, 0, false, None, [])
  {
  }

  lemma DataEnds(lines: seq<string>, inCodeBlock: bool, active: Option<(DataKind, nat, string)>, snippets: seq<Snippet>)
    requires DataOnTrack(lines, |lines|, inCodeBlock, active, snippets)
    ensures snippets == DataOf(Parse(lines).0, 0)
  {
  }

  /** `extract_data_snippets`: the closed data blocks of the file, with their bodies and the
      numbers of their opening lines. */
  method ExtractDataSnippets(content: string) returns (snippets: seq<Snippet>)
    ensures snippets == DataOf(Parse(Lines(content, '\n', '\r')).0, 0)
  {
    hide *;
    var lines := Lines(content, '\n', '\r');
    snippets := [];
    var inCodeBlock := false;
    var active: Option<(DataKind, nat, string)> := None;
    DataStarts(lines);
    for idx := 0 to |lines|
      invariant !inCodeBlock ==> active == None
      invariant DataOnTrack(lines, idx, inCodeBlock, active, snippets)
    {
      var line := lines[idx];
      DataTurn(lines, idx, inCodeBlock, active, snippets);
      if IsFence(line) {
        if inCodeBlock {
          snippets := CloseData(snippets, active);
          active := None;
        } else {
          active := OpenData(line, idx);
        }
        inCodeBlock := !inCodeBlock;
        continue;
      }
      active := LengthenData(active, line);
    }
    DataEnds(lines, inCodeBlock, active, snippets);
  }

  /** `active.take()` at a closing fence. */
  method CloseData(before: seq<Snippet>, active: Option<(DataKind, nat, string)>) returns (snippets: seq<Snippet>)
    ensures snippets == before + ClosedData(active)
  {
    snippets := before;
    if active.Some? {
      snippets := snippets + [Snippet(active.value.1, active.value.0, active.value.2)];
    }
  }

  method OpenData(line: string, idx: nat) returns (active: Option<(DataKind, nat, string)>)
    ensures active == OpenedData(line, idx)
  {
    active := None;
    var kind := FromFence(TrimStart(line));
    if kind.Some? {
      active := Some((kind.value, idx + 1, ""));
    }
  }

  method LengthenData(before: Option<(DataKind, nat, string)>, line: string) returns (active: Option<(DataKind, nat, string)>)
    ensures active == LongerData(before, line)
    ensures before == None ==> active == None
  {
    active := before;
    if before.Some? {
      var raw := before.value.2 + line;
      raw := raw + "\n";
      active := Some((before.value.0, before.value.1, raw));
    }
  }

  /** Extraction inverts rendering: from a file written as these blocks come exactly its
      closed data blocks, with their bodies and line numbers. */
  lemma SnippetsOfRendering(blocks: seq<Block>, tail: Tail)
    requires forall i :: 0 <= i < |blocks| ==> BlockOk(blocks[i])
    requires TailOk(tail)
    requires forall i :: 0 <= i < |Render(blocks, tail)| ==> PlainLine(Render(blocks, tail)[i])
    ensures Parse(Lines(Unlines(Render(blocks, tail)), '\n', '\r')) == (blocks, tail)
    ensures DataOf(Parse(Lines(Unlines(Render(blocks, tail)), '\n', '\r')).0, 0) == DataOf(blocks, 0)
  {
    LinesOfUnlines(Render(blocks, tail));
    ParseOfRender(blocks, tail);
  }
}
