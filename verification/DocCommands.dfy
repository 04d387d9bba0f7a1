/** Shell commands in fenced blocks: backslash continuations are joined inside one block and
    never across its closing fence. */
module DocCommands {
  import opened Common
  import opened Text
  import opened DocFences

  /** A logical command line and the number of the line it starts on. */
  datatype Logical = Logical(line: nat, text: string)

  predicate Continues(t: string) {
    t != "" && t[|t| - 1] == '\\'
  }

  /** `strip_suffix('\\')` and `trim` */
  function Stripped(t: string): string
    requires Continues(t)
  {
    Trim(t[..|t| - 1])
  }

  /** The logical lines of a block body, `n` lines into the file, after the pending one. */
  function LogicalLines(pending: Option<Logical>, body: seq<string>, n: nat): seq<Logical>
    decreases |body|
  {
    if body == [] then (if pending.Some? then [pending.value] else [])
    else
      var t := Trim(body[0]);
      match pending
      case Some(p) =>
        if Continues(t) then LogicalLines(Some(Logical(p.line, p.text + " " + Stripped(t))), body[1..], n + 1)
        else [Logical(p.line, p.text + " " + t)] + LogicalLines(None, body[1..], n + 1)
      case None =>
        if Continues(t) then LogicalLines(Some(Logical(n + 1, Stripped(t))), body[1..], n + 1)
        else [Logical(n + 1, t)] + LogicalLines(None, body[1..], n + 1)
  }

  /** The command a line holds, if it is a perfgate invocation. */
  function ParseAll<C>(lines: seq<Logical>, parse: (nat, string) -> Option<C>): seq<C> {
    if lines == [] then []
    else
      var c := parse(lines[0].line, lines[0].text);
      (if c.Some? then [c.value] else []) + ParseAll(lines[1..], parse)
  }

  function BlockCommands<C>(b: Block, n: nat, parse: (nat, string) -> Option<C>): seq<C> {
    if b.Fenced? && IsShellFence(TrimStart(b.open)) then ParseAll(LogicalLines(None, b.body, n + 1), parse) else []
  }

  /** The commands of a whole file: those of each shell block on its own, in order. */
  function CommandsOf<C>(p: (seq<Block>, Tail), n: nat, parse: (nat, string) -> Option<C>): seq<C>
    decreases |p.0|
  {
    if p.0 != [] then
      BlockCommands(p.0[0], n, parse) + CommandsOf((p.0[1..], p.1), n + Height(p.0[0]), parse)
    else if p.1.Unclosed? && IsShellFence(TrimStart(p.1.open)) then
      ParseAll(LogicalLines(None, p.1.body, n + 1), parse)
    else []
  }

  // ----- joining undoes splitting

  /** A piece of a command: trimmed, not empty, not itself ending in a backslash. */
  ghost predicate IsPiece(s: string) {
    s != "" && IsTrimmed(s) && !Continues(s)
  }

  /** The pieces on one line each, all but the last ending in a backslash. */
  function Continued(pieces: seq<string>): seq<string> {
    if |pieces| <= 1 then pieces else [pieces[0] + " \\"] + Continued(pieces[1..])
  }

  lemma StrippedPiece(s: string)
    requires IsPiece(s)
    ensures Trim(s + " \\") == s + " \\"
    ensures Continues(s + " \\") && Stripped(s + " \\") == s
  {
    assert IsTrimmed(s + " \\");
    assert (s + " \\")[..|s| + 1] == s + " ";
    assert TrimStart(s + " ") == s + " ";
    assert (s + " ")[..|s|] == s;
    assert TrimEnd(s + " ") == TrimEnd(s);
  }

  /** What a body line makes of the pending line, and the logical line it completes. */
  function NextPending(t: string, n: nat, pending: Option<Logical>): Option<Logical> {
    if !Continues(t) then None
    else if pending.Some? then Some(Logical(pending.value.line, pending.value.text + " " + Stripped(t)))
    else Some(Logical(n + 1, Stripped(t)))
  }

  function Completed(t: string, n: nat, pending: Option<Logical>): Option<Logical> {
    if Continues(t) then None
    else if pending.Some? then Some(Logical(pending.value.line, pending.value.text + " " + t))
    else Some(Logical(n + 1, t))
  }

  lemma LogicalOnFront(line: string, body: seq<string>, n: nat, pending: Option<Logical>)
    ensures var t := Trim(line);
      LogicalLines(pending, [line] + body, n)
      == (if Completed(t, n, pending).Some? then [Completed(t, n, pending).value] else [])
         + LogicalLines(NextPending(t, n, pending), body, n + 1)
  {
  }

  lemma LastPiece(s: string)
    requires IsPiece(s)
    ensures Trim(s) == s && !Continues(s)
  {
  }

  lemma {:induction false} PendingJoins(start: nat, acc: string, pieces: seq<string>, rest: seq<string>, n: nat)
    requires pieces != [] && forall i :: 0 <= i < |pieces| ==> IsPiece(pieces[i])
    ensures LogicalLines(Some(Logical(start, acc)), Continued(pieces) + rest, n)
            == [Logical(start, acc + " " + JoinWith(pieces, ' '))] + LogicalLines(None, rest, n + |pieces|)
    decreases |pieces|
  {
    hide Stripped, Continues, LogicalLines, Trim, IsPiece;
    var p := pieces[0];
    assert IsPiece(pieces[0]);
    if |pieces| == 1 {
      LastPiece(p);
      assert Continued(pieces) + rest == [p] + rest;
      LogicalOnFront(p, rest, n, Some(Logical(start, acc)));
    } else {
      var tail := Continued(pieces[1..]) + rest;
      assert Continued(pieces) + rest == [p + " \\"] + tail;
      StrippedPiece(p);
      LogicalOnFront(p + " \\", tail, n, Some(Logical(start, acc)));
      PendingJoins(start, acc + " " + p, pieces[1..], rest, n + 1);
      var joined := JoinWith(pieces[1..], ' ');
      assert acc + " " + p + " " + joined == acc + " " + (p + [' '] + joined);
      var all := LogicalLines(Some(Logical(start, acc + " " + p)), tail, n + 1);
      assert [] + all == all;
    }
  }

  /** A command split over continuation lines is read back as one line, joined by single
      spaces, and what follows it is read as if the command had taken one line. */
  lemma ContinuationJoins(pieces: seq<string>, rest: seq<string>, n: nat)
    requires pieces != [] && forall i :: 0 <= i < |pieces| ==> IsPiece(pieces[i])
    ensures LogicalLines(None, Continued(pieces) + rest, n)
            == [Logical(n + 1, JoinWith(pieces, ' '))] + LogicalLines(None, rest, n + |pieces|)
  {
    hide Stripped, Continues, LogicalLines, Trim, IsPiece;
    var p := pieces[0];
    assert IsPiece(pieces[0]);
    if |pieces| == 1 {
      LastPiece(p);
      assert Continued(pieces) + rest == [p] + rest;
      LogicalOnFront(p, rest, n, None);
    } else {
      var tail := Continued(pieces[1..]) + rest;
      assert Continued(pieces) + rest == [p + " \\"] + tail;
      StrippedPiece(p);
      LogicalOnFront(p + " \\", tail, n, None);
      PendingJoins(n + 1, p, pieces[1..], rest, n + 1);
      assert p + " " + JoinWith(pieces[1..], ' ') == p + [' '] + JoinWith(pieces[1..], ' ');
      var all := LogicalLines(Some(Logical(n + 1, p)), tail, n + 1);
      assert [] + all == all;
    }
  }

  // ----- the loop

  /** What is still to be found from line `n` on. A pending line belongs to the scanned block
      the loop is inside of. */
  function CommandsLeft<C>(rest: seq<string>, n: nat, inCodeBlock: bool, scan: bool, pending: Option<Logical>,
                           parse: (nat, string) -> Option<C>): seq<C> {
    if !inCodeBlock then CommandsOf(Parse(rest), n, parse)
    else
      var k := FenceIndex(rest);
      (if scan then ParseAll(LogicalLines(pending, rest[..k], n), parse) else [])
      + (if k == |rest| then [] else CommandsOf(Parse(rest[k + 1..]), n + k + 1, parse))
  }

  function Take<C>(l: Option<Logical>, parse: (nat, string) -> Option<C>): seq<C> {
    if l.Some? then ParseAll([l.value], parse) else []
  }

  lemma ParseOnFront<C>(l: Logical, lines: seq<Logical>, parse: (nat, string) -> Option<C>)
    ensures ParseAll([l] + lines, parse) == ParseAll([l], parse) + ParseAll(lines, parse)
  {
  }

  lemma CommandsAtClosing<C>(close: string, rest: seq<string>, n: nat, scan: bool, pending: Option<Logical>,
                             parse: (nat, string) -> Option<C>)
    requires IsFence(close)
    ensures CommandsLeft([close] + rest, n, true, scan, pending, parse)
            == (if scan then Take(pending, parse) else []) + CommandsLeft(rest, n + 1, false, false, None, parse)
  {
    hide IsFence, Parse, CommandsOf, ParseAll;
    var lines := [close] + rest;
    assert lines[..0] == [] && lines[1..] == rest;
    ParseNothing(parse);
  }

  lemma ParseNothing<C>(parse: (nat, string) -> Option<C>)
    ensures ParseAll([], parse) == []
  {
  }

  lemma CommandsAtOpening<C>(open: string, rest: seq<string>, n: nat, parse: (nat, string) -> Option<C>)
    requires IsFence(open)
    ensures CommandsLeft([open] + rest, n, false, false, None, parse)
            == CommandsLeft(rest, n + 1, true, IsShellFence(TrimStart(open)), None, parse)
  {
    hide IsFence, Parse, FenceIndex, IsShellFence, ParseAll, LogicalLines, CommandsOf;
    var k := FenceIndex(rest);
    if k == |rest| {
      assert rest[..k] == rest;
      ParseUnclosed(open, rest);
      CommandsOfUnclosed(open, rest, n, parse);
      var only := CommandsOf(([], Unclosed(open, rest)), n, parse);
      assert only + [] == only;
    } else {
      var body, close, after := rest[..k], rest[k], rest[k + 1..];
      assert [open] + rest == [open] + body + [close] + after;
      ParseFenced(open, body, close, after);
      CommandsOnFront(Fenced(open, body, close), Parse(after), n, parse);
    }
  }

  lemma CommandsOfUnclosed<C>(open: string, body: seq<string>, n: nat, parse: (nat, string) -> Option<C>)
    ensures CommandsOf(([], Unclosed(open, body)), n, parse)
            == if IsShellFence(TrimStart(open)) then ParseAll(LogicalLines(None, body, n + 1), parse) else []
  {
  }

  lemma CommandsOnFront<C>(b: Block, p: (seq<Block>, Tail), n: nat, parse: (nat, string) -> Option<C>)
    ensures CommandsOf(OnFront(b, p), n, parse) == BlockCommands(b, n, parse) + CommandsOf(p, n + Height(b), parse)
  {
    hide BlockCommands, Height;
    assert ([b] + p.0)[1..] == p.0;
  }

  lemma CommandsAtLine<C>(line: string, rest: seq<string>, n: nat, inCodeBlock: bool, scan: bool,
                          pending: Option<Logical>, parse: (nat, string) -> Option<C>)
    requires !IsFence(line)
    ensures inCodeBlock && scan ==>
      CommandsLeft([line] + rest, n, true, true, pending, parse)
      == Take(Completed(Trim(line), n, pending), parse)
         + CommandsLeft(rest, n + 1, true, true, NextPending(Trim(line), n, pending), parse)
    ensures !(inCodeBlock && scan) && pending == None ==>
      CommandsLeft([line] + rest, n, inCodeBlock, scan, None, parse)
      == CommandsLeft(rest, n + 1, inCodeBlock, scan, None, parse)
  {
    hide IsFence, Parse, CommandsOf, ParseAll, LogicalLines, NextPending, Completed;
    var lines := [line] + rest;
    if inCodeBlock {
      var k := FenceIndex(rest);
      assert lines[1..] == rest && FenceIndex(lines) == k + 1;
      assert lines[..k + 1] == [line] + rest[..k];
      assert k < |rest| ==> lines[k + 2..] == rest[k + 1..];
      if scan {
        var t := Trim(line);
        var next := LogicalLines(NextPending(t, n, pending), rest[..k], n + 1);
        LogicalOnFront(line, rest[..k], n, pending);
        if Completed(t, n, pending).Some? {
          ParseOnFront(Completed(t, n, pending).value, next, parse);
        } else {
          assert [] + next == next;
        }
        var after := if k == |rest| then [] else CommandsOf(Parse(rest[k + 1..]), n + k + 2, parse);
        var now := Take(Completed(t, n, pending), parse);
        assert ParseAll(LogicalLines(pending, lines[..k + 1], n), parse) == now + ParseAll(next, parse);
        assert now + ParseAll(next, parse) + after == now + (ParseAll(next, parse) + after);
      }
    } else {
      ParseProse(line, rest);
      CommandsOnFront(Prose(line), Parse(rest), n, parse);
      assert [] + CommandsOf(Parse(rest), n + 1, parse) == CommandsOf(Parse(rest), n + 1, parse);
    }
  }

  ghost predicate OnTrack<C>(lines: seq<string>, idx: nat, inCodeBlock: bool, scan: bool, pending: Option<Logical>,
                             commands: seq<C>, parse: (nat, string) -> Option<C>) {
    && idx <= |lines|
    && CommandsOf(Parse(lines), 0, parse) == commands + CommandsLeft(lines[idx..], idx, inCodeBlock, scan, pending, parse)
  }

  lemma Turn<C>(lines: seq<string>, idx: nat, inCodeBlock: bool, scan: bool, pending: Option<Logical>,
                commands: seq<C>, parse: (nat, string) -> Option<C>)
    requires idx < |lines| && OnTrack(lines, idx, inCodeBlock, scan, pending, commands, parse)
    ensures IsFence(lines[idx]) && inCodeBlock ==>
      OnTrack(lines, idx + 1, false, false, None, commands + (if scan then Take(pending, parse) else []), parse)
    ensures IsFence(lines[idx]) && !inCodeBlock && !scan && pending == None ==>
      OnTrack(lines, idx + 1, true, IsShellFence(TrimStart(lines[idx])), None, commands, parse)
    ensures !IsFence(lines[idx]) && inCodeBlock && scan ==>
      OnTrack(lines, idx + 1, true, true, NextPending(Trim(lines[idx]), idx, pending),
              commands + Take(Completed(Trim(lines[idx]), idx, pending), parse), parse)
    ensures !IsFence(lines[idx]) && !(inCodeBlock && scan) && pending == None ==>
      OnTrack(lines, idx + 1, inCodeBlock, scan, None, commands, parse)
  {
    hide IsFence, CommandsLeft, CommandsOf, Parse, Take, NextPending, Completed, IsShellFence, Trim;
    var line, rest := lines[idx], lines[idx + 1..];
    assert lines[idx..] == [line] + rest;
    if IsFence(line) && inCodeBlock {
      CommandsAtClosing(line, rest, idx, scan, pending, parse);
      var now := if scan then Take(pending, parse) else [];
      var left := CommandsLeft(rest, idx + 1, false, false, None, parse);
      assert commands + (now + left) == commands + now + left;
    } else if IsFence(line) && !scan && pending == None {
      CommandsAtOpening(line, rest, idx, parse);
    } else if !IsFence(line) {
      CommandsAtLine(line, rest, idx, inCodeBlock, scan, pending, parse);
      if inCodeBlock && scan {
        var now := Take(Completed(Trim(line), idx, pending), parse);
        var left := CommandsLeft(rest, idx + 1, true, true, NextPending(Trim(line), idx, pending), parse);
        assert commands + (now + left) == commands + now + left;
      }
    }
  }

  lemma Starts<C>(lines: seq<string>, parse: (nat, string) -> Option<C>)
    ensures OnTrack(lines, 0, false, false, None, [], parse)
  {
  }

  lemma Ends<C>(lines: seq<string>, inCodeBlock: bool, scan: bool, pending: Option<Logical>,
                commands: seq<C>, parse: (nat, string) -> Option<C>)
    requires OnTrack(lines, |lines|, inCodeBlock, scan, pending, commands, parse)
    requires pending.Some? ==> inCodeBlock && scan
    ensures commands + Take(pending, parse) == CommandsOf(Parse(lines), 0, parse)
  {
  }

  /** `extract_commands`: block by block, each logical line of a shell block that holds a
      command. A pending continuation never outlives its block. */
  method ExtractCommands<C>(content: string, parse: (nat, string) -> Option<C>) returns (commands: seq<C>)
    ensures commands == CommandsOf(Parse(Lines(content, '\n', '\r')), 0, parse)
  {
    hide *;
    var lines := Lines(content, '\n', '\r');
    commands := [];
    var inCodeBlock, scanCodeBlock := false, false;
    var continuation: Option<Logical> := None;
    Starts(lines, parse);
    for idx := 0 to |lines|
      invariant continuation.Some? ==> inCodeBlock && scanCodeBlock
      invariant !inCodeBlock ==> !scanCodeBlock
      invariant OnTrack(lines, idx, inCodeBlock, scanCodeBlock, continuation, commands, parse)
    {
      var line := lines[idx];
      Turn(lines, idx, inCodeBlock, scanCodeBlock, continuation, commands, parse);
      assert commands + [] == commands;
      if IsFence(line) {
        if inCodeBlock {
          if scanCodeBlock {
            commands := Push(commands, continuation, parse);
            continuation := None;
          }
          scanCodeBlock := false;
        } else {
          scanCodeBlock := IsShellFence(TrimStart(line));
        }
        inCodeBlock := !inCodeBlock;
        continue;
      }
      if !inCodeBlock || !scanCodeBlock {
        continue;
      }
      var done;
      done, continuation := Append(Trim(line), idx, continuation);
      commands := Push(commands, done, parse);
    }
    Ends(lines, inCodeBlock, scanCodeBlock, continuation, commands, parse);
    commands := Push(commands, continuation, parse);
  }

  /** Parses a finished logical line and pushes its command, if it holds one. */
  method Push<C>(before: seq<C>, l: Option<Logical>, parse: (nat, string) -> Option<C>) returns (commands: seq<C>)
    ensures commands == before + Take(l, parse)
  {
    commands := before;
    if l.Some? {
      var cmd := parse(l.value.line, l.value.text);
      if cmd.Some? {
        commands := commands + [cmd.value];
      }
      assert ParseAll([l.value], parse) == (if cmd.Some? then [cmd.value] else []) + ParseAll([], parse);
    }
  }

  /** One line of a shell block: starts, extends or ends a continuation, or stands alone. */
  method Append(trimmed: string, idx: nat, continuation: Option<Logical>) returns (done: Option<Logical>, next: Option<Logical>)
    ensures done == Completed(trimmed, idx, continuation)
    ensures next == NextPending(trimmed, idx, continuation)
  {
    if continuation.Some? {
      var start, acc := continuation.value.line, continuation.value.text + " ";
      if Continues(trimmed) {
        return None, Some(Logical(start, acc + Stripped(trimmed)));
      }
      return Some(Logical(start, acc + trimmed)), None;
    }
    if Continues(trimmed) {
      return None, Some(Logical(idx + 1, Stripped(trimmed)));
    }
    return Some(Logical(idx + 1, trimmed)), None;
  }
}
