/** What the two extractions read, told line by line: which block a line is inside of, and no
    block structure. */
module DocLines {
  import opened Common
  import opened Text
  import opened DocFences
  import opened DocCommands

  predicate FenceAt(lines: seq<string>, i: nat) {
    i < |lines| && "```" <= TrimStart(lines[i])
  }

  /** The opening fence of the block that is open before line `i`. */
  function OpenBefore(lines: seq<string>, i: nat): (open: Option<nat>)
    requires i <= |lines|
    ensures open.Some? ==> open.value < i && FenceAt(lines, open.value)
  {
    if i == 0 then None
    else if !FenceAt(lines, i - 1) then OpenBefore(lines, i - 1)
    else if OpenBefore(lines, i - 1).Some? then None
    else Some(i - 1)
  }

  function InfoAt(lines: seq<string>, i: nat): string
    requires i < |lines|
  {
    Info(TrimStart(lines[i]))
  }

  predicate IsShellWord(info: string) {
    || info == "" || info == "bash" || info == "sh" || info == "shell" || info == "console"
    || info == "terminal" || info == "powershell" || info == "pwsh"
  }

  predicate OpensShell(lines: seq<string>, i: nat)
    requires i < |lines|
  {
    IsShellWord(InfoAt(lines, i))
  }

  predicate OpensData(lines: seq<string>, i: nat, kind: DataKind)
    requires i < |lines|
  {
    var info := InfoAt(lines, i);
    match kind
    case Toml => info == "toml"
    case Json => info == "json"
    case Yaml => info == "yaml" || info == "yml"
  }

  // ----- commands

  predicate IsShellLine(lines: seq<string>, i: nat)
    requires i < |lines|
  {
    !FenceAt(lines, i) && OpenBefore(lines, i).Some? && OpensShell(lines, OpenBefore(lines, i).value)
  }

  /** The trimmed line does not end in a backslash. */
  predicate IsComplete(line: string) {
    Trim(line) == "" || Trim(line)[|Trim(line)| - 1] != '\\'
  }

  /** The values that are there. */
  function Present<C>(s: seq<Option<C>>): seq<C> {
    if s == [] then []
    else Present(s[..|s| - 1]) + (if s[|s| - 1].Some? then [s[|s| - 1].value] else [])
  }

  /** The shell line goes on in the next one. */
  predicate Carries(lines: seq<string>, i: nat)
    requires i < |lines|
  {
    IsShellLine(lines, i) && !IsComplete(lines[i])
  }

  /** A shell line at which a logical line begins. */
  predicate Begins(lines: seq<string>, i: nat)
    requires i < |lines|
  {
    IsShellLine(lines, i) && !(i > 0 && Carries(lines, i - 1))
  }

  /** Where the logical line that holds line `i` ends: at a complete line, or with the block or
      the file. */
  function LastLine(lines: seq<string>, i: nat): (j: nat)
    requires i < |lines|
    ensures i <= j < |lines|
    decreases |lines| - i
  {
    if Carries(lines, i) && i + 1 < |lines| && IsShellLine(lines, i + 1) then LastLine(lines, i + 1) else i
  }

  /** A line without its backslash and the blanks around. */
  function Piece(line: string): string {
    if IsComplete(line) then Trim(line) else Trim(Trim(line)[..|Trim(line)| - 1])
  }

  /** Lines `i` to `j`, joined by single spaces. */
  function Joined(lines: seq<string>, i: nat, j: nat): string
    requires i <= j < |lines|
  {
    if i == j then Piece(lines[i]) else Joined(lines, i, j - 1) + " " + Piece(lines[j])
  }

  /** The command of the logical line that begins at line `i`, if any. */
  function CommandAt<C>(lines: seq<string>, i: nat, parse: (nat, string) -> Option<C>): Option<C>
    requires i < |lines|
  {
    if Begins(lines, i) then parse(i + 1, Joined(lines, i, LastLine(lines, i))) else None
  }

  function CommandsIn<C>(lines: seq<string>, k: nat, parse: (nat, string) -> Option<C>): seq<Option<C>>
    requires k <= |lines|
  {
    seq(k, i requires 0 <= i < k => CommandAt(lines, i, parse))
  }

  // ----- the loop's state, told line by line

  predicate ScansBefore(lines: seq<string>, i: nat)
    requires i <= |lines|
  {
    OpenBefore(lines, i).Some? && OpensShell(lines, OpenBefore(lines, i).value)
  }

  function FirstLine(lines: seq<string>, i: nat): (s: nat)
    requires i < |lines|
    ensures s <= i
    ensures forall j :: s <= j < i ==> Carries(lines, j)
    ensures s == 0 || !Carries(lines, s - 1)
  {
    if i > 0 && Carries(lines, i - 1) then FirstLine(lines, i - 1) else i
  }

  predicate IsPending(lines: seq<string>, k: nat)
    requires k <= |lines|
  {
    k > 0 && Carries(lines, k - 1)
  }

  function PendingBefore(lines: seq<string>, k: nat): Option<Logical>
    requires k <= |lines|
  {
    if IsPending(lines, k) then
      Some(Logical(FirstLine(lines, k - 1) + 1, Joined(lines, FirstLine(lines, k - 1), k - 1)))
    else None
  }

  /** How many lines hold only finished logical lines. */
  function DoneBefore(lines: seq<string>, k: nat): (n: nat)
    requires k <= |lines|
    ensures n <= k
  {
    if IsPending(lines, k) then FirstLine(lines, k - 1) else k
  }

  ghost predicate AtLine<C>(lines: seq<string>, k: nat, parse: (nat, string) -> Option<C>) {
    && k <= |lines|
    && OnTrack(lines, k, OpenBefore(lines, k).Some?, ScansBefore(lines, k), PendingBefore(lines, k),
               Present(CommandsIn(lines, DoneBefore(lines, k), parse)), parse)
  }

  lemma ShellFenceIs(lines: seq<string>, i: nat)
    requires i < |lines|
    ensures IsShellFence(TrimStart(lines[i])) <==> OpensShell(lines, i)
  {
  }

  lemma FenceAtIs(lines: seq<string>, i: nat)
    requires i < |lines|
    ensures FenceAt(lines, i) <==> IsFence(lines[i])
  {
  }

  /** What the loop makes of a trimmed line, by whether the line is complete. */
  lemma LineIs(line: string, n: nat, pending: Option<Logical>)
    ensures NextPending(Trim(line), n, pending)
            == if IsComplete(line) then None
               else if pending.Some? then Some(Logical(pending.value.line, pending.value.text + " " + Piece(line)))
               else Some(Logical(n + 1, Piece(line)))
    ensures Completed(Trim(line), n, pending)
            == if !IsComplete(line) then None
               else if pending.Some? then Some(Logical(pending.value.line, pending.value.text + " " + Piece(line)))
               else Some(Logical(n + 1, Piece(line)))
  {
  }

  function Given<C>(c: Option<C>): seq<C> {
    if c.Some? then [c.value] else []
  }

  lemma TakeIs<C>(l: Option<Logical>, parse: (nat, string) -> Option<C>)
    ensures Take(l, parse) == if l.Some? then Given(parse(l.value.line, l.value.text)) else []
  {
    if l.Some? {
      var one := [l.value];
      assert ParseAll(one, parse) == Given(parse(one[0].line, one[0].text)) + ParseAll(one[1..], parse);
      assert ParseAll(one[1..], parse) == [];
    }
  }

  lemma {:induction false} LastFrom(lines: seq<string>, s: nat, i: nat)
    requires s <= i < |lines|
    requires forall j :: s <= j < i ==> Carries(lines, j)
    requires IsShellLine(lines, i)
    requires !(Carries(lines, i) && i + 1 < |lines| && IsShellLine(lines, i + 1))
    ensures LastLine(lines, s) == i
    decreases i - s
  {
    hide IsComplete, IsShellLine;
    if s < i {
      assert Carries(lines, s);
      assert IsShellLine(lines, s + 1) by {
        if s + 1 < i {
          assert Carries(lines, s + 1);
        }
      }
      LastFrom(lines, s + 1, i);
    }
  }

  /** The logical line that ends with line `i` adds its command, and its other lines add none. */
  lemma FinishedAt<C>(lines: seq<string>, i: nat, parse: (nat, string) -> Option<C>)
    requires i < |lines| && IsShellLine(lines, i)
    requires !(Carries(lines, i) && i + 1 < |lines| && IsShellLine(lines, i + 1))
    ensures var s := FirstLine(lines, i);
            Present(CommandsIn(lines, i + 1, parse))
            == Present(CommandsIn(lines, s, parse)) + Given(parse(s + 1, Joined(lines, s, i)))
  {
    hide IsShellLine, IsComplete, Joined, LastLine, Present;
    var s := FirstLine(lines, i);
    LastFrom(lines, s, i);
    assert IsShellLine(lines, s) by {
      if s < i {
        assert Carries(lines, s);
      }
    }
    assert CommandAt(lines, s, parse) == parse(s + 1, Joined(lines, s, i));
    var all := CommandsIn(lines, i + 1, parse);
    PresentParts(all, s, s + 1);
    assert all[..s] == CommandsIn(lines, s, parse);
    forall j | s + 1 <= j < i + 1
      ensures all[j].None?
    {
      assert Carries(lines, j - 1);
    }
    NonePresent(all[s + 1..]);
    OnePresent(all[s..s + 1]);
  }

  lemma OnePresent<C>(s: seq<Option<C>>)
    requires |s| == 1
    ensures Present(s) == Given(s[0])
  {
    assert Present(s[..0]) == [];
  }

  lemma NothingAt<C>(lines: seq<string>, i: nat, parse: (nat, string) -> Option<C>)
    requires i < |lines| && !Begins(lines, i)
    ensures Present(CommandsIn(lines, i + 1, parse)) == Present(CommandsIn(lines, i, parse))
  {
    hide Begins, Present, LastLine, Joined;
    var all := CommandsIn(lines, i + 1, parse);
    assert all[..i] == CommandsIn(lines, i, parse);
    assert all == all[..i] + all[i..];
    PresentConcat(all[..i], all[i..]);
    NonePresent(all[i..]);
    assert Present(all[..i]) + [] == Present(all[..i]);
  }

  lemma StepAtFence<C>(lines: seq<string>, k: nat, parse: (nat, string) -> Option<C>)
    requires k < |lines| && AtLine(lines, k, parse) && FenceAt(lines, k)
    ensures AtLine(lines, k + 1, parse)
  {
    hide OnTrack, Trim, TrimStart, IsComplete, OpensShell, IsShellFence, Present, Joined, Take, CommandsIn, CommandAt;
    var pending, done := PendingBefore(lines, k), Present(CommandsIn(lines, DoneBefore(lines, k), parse));
    FenceAtIs(lines, k);
    ShellFenceIs(lines, k);
    Turn(lines, k, OpenBefore(lines, k).Some?, ScansBefore(lines, k), pending, done, parse);
    NothingAt(lines, k, parse);
    TakeIs(pending, parse);
    assert done + [] == done;
    if IsPending(lines, k) {
      FinishedAt(lines, k - 1, parse);
    }
  }

  lemma StepAtShellLine<C>(lines: seq<string>, k: nat, parse: (nat, string) -> Option<C>)
    requires k < |lines| && AtLine(lines, k, parse) && IsShellLine(lines, k)
    ensures AtLine(lines, k + 1, parse)
  {
    hide OnTrack, Trim, TrimStart, IsComplete, OpensShell, IsShellFence, Present, Take, CommandsIn, CommandAt, Piece,
         NextPending, Completed;
    var pending, done := PendingBefore(lines, k), Present(CommandsIn(lines, DoneBefore(lines, k), parse));
    FenceAtIs(lines, k);
    Turn(lines, k, true, true, pending, done, parse);
    LineIs(lines[k], k, pending);
    TakeIs(Completed(Trim(lines[k]), k, pending), parse);
    assert done + [] == done;
    assert FirstLine(lines, k) == if IsPending(lines, k) then FirstLine(lines, k - 1) else k;
    if IsComplete(lines[k]) {
      FinishedAt(lines, k, parse);
    }
  }

  lemma StepAtOtherLine<C>(lines: seq<string>, k: nat, parse: (nat, string) -> Option<C>)
    requires k < |lines| && AtLine(lines, k, parse) && !IsShellLine(lines, k) && !FenceAt(lines, k)
    ensures AtLine(lines, k + 1, parse)
  {
    hide OnTrack, Trim, TrimStart, IsComplete, OpensShell, IsShellFence, Present, Joined, Take, CommandsIn, CommandAt;
    FenceAtIs(lines, k);
    Turn(lines, k, OpenBefore(lines, k).Some?, ScansBefore(lines, k), PendingBefore(lines, k),
         Present(CommandsIn(lines, DoneBefore(lines, k), parse)), parse);
    NothingAt(lines, k, parse);
  }

  lemma {:induction false} AtEveryLine<C>(lines: seq<string>, k: nat, parse: (nat, string) -> Option<C>)
    requires k <= |lines|
    ensures AtLine(lines, k, parse)
    decreases k
  {
    if k == 0 {
      Starts(lines, parse);
    } else {
      AtEveryLine(lines, k - 1, parse);
      hide *;
      if FenceAt(lines, k - 1) {
        StepAtFence(lines, k - 1, parse);
      } else if IsShellLine(lines, k - 1) {
        StepAtShellLine(lines, k - 1, parse);
      } else {
        StepAtOtherLine(lines, k - 1, parse);
      }
    }
  }

  /** For every file: the commands are those of its logical lines, in order. A logical line
      begins at a line of a shell block that no continuation leads to, takes the lines up to the
      first complete one or the end of the block, and is parsed by the number of its first line
      and its text joined by single spaces. */
  lemma CommandsAreShellLines<C>(lines: seq<string>, parse: (nat, string) -> Option<C>)
    ensures CommandsOf(Parse(lines), 0, parse) == Present(CommandsIn(lines, |lines|, parse))
  {
    hide *;
    var n := |lines|;
    AtEveryLine(lines, n, parse);
    EndOfFile(lines, parse);
    var pending, done := PendingBefore(lines, n), Present(CommandsIn(lines, DoneBefore(lines, n), parse));
    Ends(lines, OpenBefore(lines, n).Some?, ScansBefore(lines, n), pending, done, parse);
  }

  /** At the end of the file the pending line, if any, is finished. */
  lemma EndOfFile<C>(lines: seq<string>, parse: (nat, string) -> Option<C>)
    requires AtLine(lines, |lines|, parse)
    ensures var n := |lines|;
      var pending, done := PendingBefore(lines, n), Present(CommandsIn(lines, DoneBefore(lines, n), parse));
      && OnTrack(lines, n, OpenBefore(lines, n).Some?, ScansBefore(lines, n), pending, done, parse)
      && (pending.Some? ==> OpenBefore(lines, n).Some? && ScansBefore(lines, n))
      && done + Take(pending, parse) == Present(CommandsIn(lines, n, parse))
  {
    PendingIsInside(lines);
    hide *;
    AtLineIs(lines, |lines|, parse);
    LastIsTaken(lines, parse);
  }

  lemma AtLineIs<C>(lines: seq<string>, k: nat, parse: (nat, string) -> Option<C>)
    requires k <= |lines| && AtLine(lines, k, parse)
    ensures OnTrack(lines, k, OpenBefore(lines, k).Some?, ScansBefore(lines, k), PendingBefore(lines, k),
                    Present(CommandsIn(lines, DoneBefore(lines, k), parse)), parse)
  {
    hide OnTrack, OpenBefore, Present, CommandsIn, PendingBefore, DoneBefore;
  }

  lemma PendingIsInside(lines: seq<string>)
    ensures PendingBefore(lines, |lines|).Some? ==> OpenBefore(lines, |lines|).Some? && ScansBefore(lines, |lines|)
  {
    hide OpensShell, IsComplete, TrimStart, Joined;
  }

  lemma LastIsTaken<C>(lines: seq<string>, parse: (nat, string) -> Option<C>)
    ensures var n := |lines|;
      Present(CommandsIn(lines, DoneBefore(lines, n), parse)) + Take(PendingBefore(lines, n), parse)
      == Present(CommandsIn(lines, n, parse))
  {
    hide IsShellLine, IsComplete, Present, Joined, LastLine, Take, CommandsIn, CommandAt;
    var n := |lines|;
    var done := Present(CommandsIn(lines, DoneBefore(lines, n), parse));
    TakeIs(PendingBefore(lines, n), parse);
    if IsPending(lines, n) {
      FinishedAt(lines, n - 1, parse);
    } else {
      assert done + [] == done;
    }
  }

  // ----- one block

  lemma {:induction false} PresentConcat<C>(a: seq<Option<C>>, b: seq<Option<C>>)
    ensures Present(a + b) == Present(a) + Present(b)
    decreases |b|
  {
    if b == [] {
      assert a + b == a && Present(b) == [];
    } else {
      var n := |b| - 1;
      PresentConcat(a, b[..n]);
      assert (a + b)[..|a| + n] == a + b[..n];
    }
  }

  lemma {:induction false} NonePresent<C>(s: seq<Option<C>>)
    requires forall i :: 0 <= i < |s| ==> s[i].None?
    ensures Present(s) == []
  {
    if s != [] {
      NonePresent(s[..|s| - 1]);
    }
  }

  function OneBlock(prose: seq<string>, open: string, body: seq<string>, close: string): seq<string> {
    prose + [open] + body + [close]
  }

  lemma {:induction false} OpenInBlock(prose: seq<string>, open: string, body: seq<string>, close: string, k: nat)
    requires NoFence(prose) && IsFence(open) && NoFence(body) && IsFence(close)
    requires k <= |OneBlock(prose, open, body, close)|
    ensures var lines := OneBlock(prose, open, body, close);
      OpenBefore(lines, k) == if |prose| < k < |lines| then Some(|prose|) else None
    decreases k
  {
    hide TrimStart;
    var lines := OneBlock(prose, open, body, close);
    if k > 0 {
      OpenInBlock(prose, open, body, close, k - 1);
      FenceAtIs(lines, k - 1);
      assert k - 1 < |prose| ==> lines[k - 1] == prose[k - 1];
      assert |prose| < k - 1 < |lines| - 1 ==> lines[k - 1] == body[k - 2 - |prose|];
    } else {
      NoneOpenAtStart(lines);
    }
  }

  lemma NoneOpenAtStart(lines: seq<string>)
    ensures OpenBefore(lines, 0) == None
  {
  }

  /** Prose, then one block opened by blanks, backticks, blanks, a word and attributes, or by
      bare backticks: the commands are those of the body lines if the word is one of the eight
      shell words, in any case of letters, and none otherwise. */
  lemma OneBlockIsRead<C>(prose: seq<string>, indent: string, groups: nat, blanks: string, word: string, attributes: string,
                          body: seq<string>, close: string, parse: (nat, string) -> Option<C>)
    requires NoFence(prose) && NoFence(body) && IsFence(close)
    requires forall i :: 0 <= i < |body| ==> IsComplete(body[i])
    requires IsBlank(indent) && IsBlank(blanks) && groups > 0
    requires forall i :: 0 <= i < |word| ==> !IsWhitespace(word[i])
    requires attributes == "" || (word != "" && IsWhitespace(attributes[0]))
    requires !(FENCE <= blanks + word + attributes)
    ensures var open := indent + (Ticks(groups) + (blanks + word + attributes));
      CommandsOf(Parse(OneBlock(prose, open, body, close)), 0, parse)
      == if IsShellWord(ToAsciiLower(word))
         then Present(seq(|body|, i requires 0 <= i < |body| => parse(|prose| + 2 + i, Trim(body[i]))))
         else []
  {
    hide *;
    var open := indent + (Ticks(groups) + (blanks + word + attributes));
    OpenLineInfo(indent, groups, blanks, word, attributes);
    BlockIsRead(prose, open, body, close, ToAsciiLower(word), parse);
  }

  lemma OpenLineInfo(indent: string, groups: nat, blanks: string, word: string, attributes: string)
    requires IsBlank(indent) && IsBlank(blanks) && groups > 0
    requires forall i :: 0 <= i < |word| ==> !IsWhitespace(word[i])
    requires attributes == "" || (word != "" && IsWhitespace(attributes[0]))
    requires !(FENCE <= blanks + word + attributes)
    ensures var open := indent + (Ticks(groups) + (blanks + word + attributes));
            IsFence(open) && Info(TrimStart(open)) == ToAsciiLower(word)
  {
    hide IsWhitespace, TrimStart, Info;
    var rest := Ticks(groups) + (blanks + word + attributes);
    assert Ticks(groups) == FENCE + Ticks(groups - 1);
    assert FENCE[0] == '`' && rest[0] == '`' && rest[..3] == FENCE;
    TicksAreBlack();
    BlanksAreSkipped(indent, rest);
    if word == "" {
      assert blanks + word + attributes == blanks;
      BareInfo(groups, blanks);
      assert ToAsciiLower("") == "";
    } else {
      InfoIsFirstWord(groups, blanks, word, attributes);
    }
  }

  lemma CommandInBlock<C>(prose: seq<string>, open: string, body: seq<string>, close: string, i: nat,
                          parse: (nat, string) -> Option<C>)
    requires NoFence(prose) && IsFence(open) && NoFence(body) && IsFence(close)
    requires forall j :: 0 <= j < |body| ==> IsComplete(body[j])
    requires i < |OneBlock(prose, open, body, close)|
    ensures var lines, n := OneBlock(prose, open, body, close), |prose|;
      CommandAt(lines, i, parse)
      == if n < i <= n + |body| && OpensShell(lines, n) then parse(i + 1, Trim(body[i - n - 1])) else None
  {
    hide IsShellLine, Trim, IsComplete;
    ShellLineInBlock(prose, open, body, close, i);
    if i > 0 {
      ShellLineInBlock(prose, open, body, close, i - 1);
    }
  }

  lemma ShellLineInBlock(prose: seq<string>, open: string, body: seq<string>, close: string, i: nat)
    requires NoFence(prose) && IsFence(open) && NoFence(body) && IsFence(close)
    requires forall j :: 0 <= j < |body| ==> IsComplete(body[j])
    requires i < |OneBlock(prose, open, body, close)|
    ensures var lines, n := OneBlock(prose, open, body, close), |prose|;
      && (IsShellLine(lines, i) <==> n < i <= n + |body| && OpensShell(lines, n))
      && (n < i <= n + |body| ==> lines[i] == body[i - n - 1])
      && (IsShellLine(lines, i) ==> IsComplete(lines[i]))
  {
    hide IsFence, Trim, TrimStart, OpensShell, IsComplete;
    OpenInBlock(prose, open, body, close, i);
    FenceAtIs(OneBlock(prose, open, body, close), i);
  }

  lemma CommandsInAre<C>(lines: seq<string>, parse: (nat, string) -> Option<C>)
    ensures var all := CommandsIn(lines, |lines|, parse);
            |all| == |lines| && forall i :: 0 <= i < |lines| ==> all[i] == CommandAt(lines, i, parse)
  {
    hide CommandAt;
  }

  lemma BlockOpens(prose: seq<string>, open: string, body: seq<string>, close: string)
    ensures var lines, n := OneBlock(prose, open, body, close), |prose|;
      |lines| == n + |body| + 2 && (OpensShell(lines, n) <==> IsShellWord(Info(TrimStart(open))))
  {
    hide IsShellWord, Info, TrimStart;
  }

  lemma BlockIsRead<C>(prose: seq<string>, open: string, body: seq<string>, close: string, info: string,
                       parse: (nat, string) -> Option<C>)
    requires NoFence(prose) && IsFence(open) && NoFence(body) && IsFence(close)
    requires forall i :: 0 <= i < |body| ==> IsComplete(body[i])
    requires info == Info(TrimStart(open))
    ensures CommandsOf(Parse(OneBlock(prose, open, body, close)), 0, parse)
      == if IsShellWord(info)
         then Present(seq(|body|, i requires 0 <= i < |body| => parse(|prose| + 2 + i, Trim(body[i]))))
         else []
  {
    hide *;
    var lines, n, m := OneBlock(prose, open, body, close), |prose|, |body|;
    BlockOpens(prose, open, body, close);
    var found := CommandsIn(lines, |lines|, parse);
    CommandsInAre(lines, parse);
    forall i | 0 <= i < |lines|
      ensures found[i] == if n < i <= n + m && OpensShell(lines, n) then parse(i + 1, Trim(body[i - n - 1])) else None
    {
      CommandInBlock(prose, open, body, close, i, parse);
    }
    CommandsAreShellLines(lines, parse);
    var front, middle, back := found[..n + 1], found[n + 1..n + 1 + m], found[n + 1 + m..];
    PresentParts(found, n + 1, n + 1 + m);
    NonePresent(front);
    NonePresent(back);
    if OpensShell(lines, n) {
      assert middle == seq(m, i requires 0 <= i < m => parse(n + 2 + i, Trim(body[i])));
    } else {
      NonePresent(middle);
    }
  }

  lemma PresentParts<C>(s: seq<Option<C>>, i: nat, j: nat)
    requires i <= j <= |s|
    ensures Present(s) == Present(s[..i]) + Present(s[i..j]) + Present(s[j..])
  {
    hide Present;
    assert s == s[..j] + s[j..] && s[..j] == s[..i] + s[i..j];
    PresentConcat(s[..j], s[j..]);
    PresentConcat(s[..i], s[i..j]);
  }

  // ----- data

  /** Lines `i` to `j` are a closed data block and `s` its snippet. */
  ghost predicate IsDataBlock(lines: seq<string>, i: nat, j: nat, s: Snippet) {
    && i < j < |lines| && FenceAt(lines, j) && OpenBefore(lines, j) == Some(i)
    && OpensData(lines, i, s.kind)
    && s.line == i + 1 && s.raw == Unlines(lines[i + 1..j])
  }

  /** The snippets of the blocks closed before line `k`, in the order of their lines. */
  ghost predicate AreDataBlocks(lines: seq<string>, k: nat, snippets: seq<Snippet>) {
    && (forall s :: s in snippets <==> exists i: nat, j: nat :: j < k && IsDataBlock(lines, i, j, s))
    && (forall a, b :: 0 <= a < b < |snippets| ==> snippets[a].line < snippets[b].line)
  }

  function ActiveBefore(lines: seq<string>, k: nat): Option<(DataKind, nat, string)>
    requires k <= |lines|
  {
    match OpenBefore(lines, k)
    case None => None
    case Some(i) =>
      match FromFence(TrimStart(lines[i]))
      case None => None
      case Some(kind) => Some((kind, i + 1, Unlines(lines[i + 1..k])))
  }

  lemma DataFenceIs(lines: seq<string>, i: nat, kind: DataKind)
    requires i < |lines|
    ensures FromFence(TrimStart(lines[i])) == Some(kind) <==> OpensData(lines, i, kind)
  {
  }

  lemma ActiveStep(lines: seq<string>, k: nat)
    requires k < |lines|
    ensures !FenceAt(lines, k) ==> ActiveBefore(lines, k + 1) == LongerData(ActiveBefore(lines, k), lines[k])
    ensures FenceAt(lines, k) && OpenBefore(lines, k).Some? ==> ActiveBefore(lines, k + 1) == None
    ensures FenceAt(lines, k) && OpenBefore(lines, k).None? ==> ActiveBefore(lines, k + 1) == OpenedData(lines[k], k)
  {
    hide FromFence, TrimStart;
    if OpenBefore(lines, k).Some? {
      var i := OpenBefore(lines, k).value;
      assert lines[i + 1..k + 1] == lines[i + 1..k] + [lines[k]];
      UnlinesSnoc(lines[i + 1..k], lines[k]);
    } else {
      assert lines[k + 1..k + 1] == [];
    }
  }

  lemma {:induction false} DataUpTo(lines: seq<string>, k: nat) returns (snippets: seq<Snippet>)
    requires k <= |lines|
    ensures DataOnTrack(lines, k, OpenBefore(lines, k).Some?, ActiveBefore(lines, k), snippets)
    ensures AreDataBlocks(lines, k, snippets)
    decreases k
  {
    hide DataOnTrack, FromFence, TrimStart, OpensData, Unlines;
    snippets := [];
    if k == 0 {
      DataStarts(lines);
    } else {
      var i := k - 1;
      var before := DataUpTo(lines, i);
      snippets := before + if FenceAt(lines, i) then ClosedData(ActiveBefore(lines, i)) else [];
      ActiveStep(lines, i);
      FenceAtIs(lines, i);
      DataTurn(lines, i, OpenBefore(lines, i).Some?, ActiveBefore(lines, i), before);
      BlocksGrow(lines, i, before);
      assert before + [] == before;
    }
  }

  lemma BlocksGrow(lines: seq<string>, k: nat, before: seq<Snippet>)
    requires k < |lines| && AreDataBlocks(lines, k, before)
    ensures AreDataBlocks(lines, k + 1, before + if FenceAt(lines, k) then ClosedData(ActiveBefore(lines, k)) else [])
  {
    hide FromFence, TrimStart, OpensData, Unlines;
    var added := if FenceAt(lines, k) then ClosedData(ActiveBefore(lines, k)) else [];
    forall s
      ensures s in added <==> exists i: nat :: IsDataBlock(lines, i, k, s)
    {
      if i: nat :| IsDataBlock(lines, i, k, s) {
        DataFenceIs(lines, i, s.kind);
      }
      if s in added {
        var i := OpenBefore(lines, k).value;
        DataFenceIs(lines, i, s.kind);
        assert IsDataBlock(lines, i, k, s);
      }
    }
    forall s | s in before
      ensures OpenBefore(lines, k).Some? ==> s.line <= OpenBefore(lines, k).value
    {
      var i: nat, j: nat :| j < k && IsDataBlock(lines, i, j, s);
      LaterBlock(lines, j, k);
    }
    forall s
      ensures s in before + added <==> exists i: nat, j: nat :: j < k + 1 && IsDataBlock(lines, i, j, s)
    {
    }
  }

  /** A block open after a fence that closed one opens after that fence. */
  lemma {:induction false} LaterBlock(lines: seq<string>, j: nat, k: nat)
    requires j < k <= |lines| && FenceAt(lines, j) && OpenBefore(lines, j).Some?
    ensures OpenBefore(lines, k).Some? ==> j < OpenBefore(lines, k).value
  {
    if k > j + 1 {
      LaterBlock(lines, j, k - 1);
    }
  }

  /** The snippets of a file are those of its closed data blocks, each with the number of its
      opening line, its kind and its body, in the order of the file. */
  lemma DataIsClosedBlocks(lines: seq<string>)
    ensures AreDataBlocks(lines, |lines|, DataOf(Parse(lines).0, 0))
  {
    hide DataOnTrack, AreDataBlocks, DataOf, Parse;
    var snippets := DataUpTo(lines, |lines|);
    DataEnds(lines, OpenBefore(lines, |lines|).Some?, ActiveBefore(lines, |lines|), snippets);
  }
}
