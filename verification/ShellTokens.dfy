/** The command-line tokenizer: splits at spaces and tabs, double quotes group. */
module ShellTokens {

  predicate IsBlank(c: char) {
    c == ' ' || c == '\t'
  }

  /** Tokens from `s` on, with `current` read so far. */
  function Tokens(s: string, current: string, inQuotes: bool): (tokens: seq<string>)
    ensures forall i :: 0 <= i < |tokens| ==> tokens[i] != ""
  {
    if s == "" then (if current == "" then [] else [current])
    else if s[0] == '\"' then Tokens(s[1..], current, !inQuotes)
    else if IsBlank(s[0]) && !inQuotes then
      (if current == "" then [] else [current]) + Tokens(s[1..], "", false)
    else Tokens(s[1..], current + [s[0]], inQuotes)
  }

  function Flush(current: string): seq<string> {
    if current == "" then [] else [current]
  }

  lemma TokensStep(c: char, s: string, current: string, inQuotes: bool)
    ensures Tokens([c] + s, current, inQuotes)
            == if c == '\"' then Tokens(s, current, !inQuotes)
               else if IsBlank(c) && !inQuotes then Flush(current) + Tokens(s, "", false)
               else Tokens(s, current + [c], inQuotes)
    ensures Tokens("", current, inQuotes) == Flush(current)
  {
  }

  method ShellTokenize(s: string) returns (tokens: seq<string>)
    ensures tokens == Tokens(s, "", false)
    ensures forall i :: 0 <= i < |tokens| ==> tokens[i] != ""
    ensures Concat(tokens) == Kept(s, false)
  {
    tokens := [];
    var current := "";
    var inQuotes := false;
    ghost var goal := Tokens(s, "", false);
    assert s[0..] == s && goal == [] + goal;
    TokensKeepText(s, "", false);
    assert "" + Kept(s, false) == Kept(s, false);
    hide *;
    for i := 0 to |s|
      invariant goal == tokens + Tokens(s[i..], current, inQuotes)
    {
      var ch := s[i];
      assert s[i..] == [ch] + s[i + 1..];
      TokensStep(ch, s[i + 1..], current, inQuotes);
      if ch == '\"' {
        inQuotes := !inQuotes;
      } else if IsBlank(ch) && !inQuotes {
        FlushIs(current);
        if current != "" {
          tokens := tokens + [current];
          current := "";
        }
      } else {
        current := current + [ch];
      }
    }
    assert s[|s|..] == "";
    TokensStep(' ', "", current, inQuotes);
    FlushIs(current);
    if current != "" {
      tokens := tokens + [current];
    }
  }

  lemma FlushIs(current: string)
    ensures Flush(current) == if current == "" then [] else [current]
  {
  }

  // ----- nothing is lost

  function Concat(tokens: seq<string>): string {
    if tokens == [] then "" else tokens[0] + Concat(tokens[1..])
  }

  /** The input without its quotes and its unquoted blanks. */
  function Kept(s: string, inQuotes: bool): string {
    if s == "" then ""
    else if s[0] == '\"' then Kept(s[1..], !inQuotes)
    else if IsBlank(s[0]) && !inQuotes then Kept(s[1..], inQuotes)
    else [s[0]] + Kept(s[1..], inQuotes)
  }

  lemma ConcatFlush(current: string, rest: seq<string>)
    ensures Concat(Flush(current) + rest) == current + Concat(rest)
  {
    if current == "" {
      assert [] + rest == rest;
    } else {
      assert ([current] + rest)[1..] == rest;
    }
  }

  /** The tokens of any input, put together, are the input less quotes and unquoted blanks. */
  lemma {:induction false} TokensKeepText(s: string, current: string, inQuotes: bool)
    ensures Concat(Tokens(s, current, inQuotes)) == current + Kept(s, inQuotes)
    decreases |s|
  {
    hide Concat;
    if s == "" {
      ConcatFlush(current, []);
      assert Flush(current) + [] == Flush(current);
      ConcatNothing();
    } else if s[0] == '\"' {
      TokensKeepText(s[1..], current, !inQuotes);
    } else if IsBlank(s[0]) && !inQuotes {
      TokensKeepText(s[1..], "", false);
      ConcatFlush(current, Tokens(s[1..], "", false));
    } else {
      TokensKeepText(s[1..], current + [s[0]], inQuotes);
      assert current + [s[0]] + Kept(s[1..], inQuotes) == current + ([s[0]] + Kept(s[1..], inQuotes));
    }
  }

  lemma ConcatNothing()
    ensures Concat([]) == ""
  {
  }

  // ----- tokenizing undoes quoting

  /** Every token in double quotes, separated by single spaces. */
  function Quoted(tokens: seq<string>): string {
    if tokens == [] then ""
    else if |tokens| == 1 then "\"" + tokens[0] + "\""
    else "\"" + tokens[0] + "\"" + " " + Quoted(tokens[1..])
  }

  function NonEmpty(tokens: seq<string>): seq<string> {
    if tokens == [] then []
    else (if tokens[0] == "" then [] else [tokens[0]]) + NonEmpty(tokens[1..])
  }

  predicate QuoteFree(s: string) {
    '\"' !in s
  }

  lemma {:induction false} QuotedTokenIsRead(t: string, rest: string, current: string)
    requires QuoteFree(t)
    ensures Tokens(t + rest, current, true) == Tokens(rest, current + t, true)
    decreases |t|
  {
    hide Tokens;
    if t == "" {
      assert t + rest == rest && current + t == current;
    } else {
      assert t + rest == [t[0]] + (t[1..] + rest);
      assert current + [t[0]] + t[1..] == current + t;
      assert t[0] in t;
      TokensStep(t[0], t[1..] + rest, current, true);
      QuotedTokenIsRead(t[1..], rest, current + [t[0]]);
    }
  }

  lemma {:induction false} TokensOfQuoted(tokens: seq<string>)
    requires forall i :: 0 <= i < |tokens| ==> QuoteFree(tokens[i])
    ensures Tokens(Quoted(tokens), "", false) == NonEmpty(tokens)
  {
    hide Tokens, QuoteFree;
    if tokens == [] {
      TokensStep(' ', "", "", false);
    } else {
      var t := tokens[0];
      assert QuoteFree(tokens[0]);
      var after := if |tokens| == 1 then "" else " " + Quoted(tokens[1..]);
      assert "\"" == ['\"'];
      assert Quoted(tokens) == ['\"'] + (t + (['\"'] + after));
      TokensStep('\"', t + (['\"'] + after), "", false);
      QuotedTokenIsRead(t, ['\"'] + after, "");
      assert "" + t == t;
      TokensStep('\"', after, t, true);
      if |tokens| == 1 {
        TokensStep(' ', "", t, false);
        assert tokens[1..] == [];
        assert Flush(t) + NonEmpty([]) == Flush(t);
      } else {
        assert " " == [' '];
        TokensStep(' ', Quoted(tokens[1..]), t, false);
        TokensOfQuoted(tokens[1..]);
      }
    }
  }

  lemma {:induction false} NonEmptyIsAll(tokens: seq<string>)
    ensures |NonEmpty(tokens)| <= |tokens|
    ensures NonEmpty(tokens) == tokens <==> forall i :: 0 <= i < |tokens| ==> tokens[i] != ""
  {
    if tokens != [] {
      NonEmptyIsAll(tokens[1..]);
      assert tokens == [tokens[0]] + tokens[1..];
      if tokens[0] != "" {
        assert NonEmpty(tokens)[1..] == NonEmpty(tokens[1..]);
      }
    }
  }

  /** No token of any input holds a quote. */
  lemma {:induction false} TokensAreQuoteFree(s: string, current: string, inQuotes: bool)
    requires QuoteFree(current)
    ensures forall i :: 0 <= i < |Tokens(s, current, inQuotes)| ==> QuoteFree(Tokens(s, current, inQuotes)[i])
    decreases |s|
  {
    if s != "" {
      if s[0] == '\"' {
        TokensAreQuoteFree(s[1..], current, !inQuotes);
      } else if IsBlank(s[0]) && !inQuotes {
        TokensAreQuoteFree(s[1..], "", false);
      } else {
        TokensAreQuoteFree(s[1..], current + [s[0]], inQuotes);
      }
    }
  }

  /** Quoting tokens and tokenizing gives them back exactly when each is non-empty and holds
      no quote: an empty token is lost, and a quote can never come back. */
  lemma QuotingRoundTrips(tokens: seq<string>)
    ensures Tokens(Quoted(tokens), "", false) == tokens
            <==> forall i :: 0 <= i < |tokens| ==> tokens[i] != "" && QuoteFree(tokens[i])
  {
    TokensAreQuoteFree(Quoted(tokens), "", false);
    if forall i :: 0 <= i < |tokens| ==> QuoteFree(tokens[i]) {
      TokensOfQuoted(tokens);
      NonEmptyIsAll(tokens);
    }
  }

  // ----- blanks separate

  ghost predicate IsGap(s: string) {
    forall i :: 0 <= i < |s| ==> s[i] == ' ' || s[i] == '\t'
  }

  /** Not empty, and without spaces, tabs and quotes; any other character may occur. */
  ghost predicate IsPlain(s: string) {
    s != "" && forall i :: 0 <= i < |s| ==> s[i] != ' ' && s[i] != '\t' && s[i] != '\"'
  }

  /** Tokens, each after a gap, and a last gap. */
  function Spread(tokens: seq<string>, gaps: seq<string>): string
    requires |gaps| == |tokens| + 1
  {
    if tokens == [] then gaps[0] else gaps[0] + tokens[0] + Spread(tokens[1..], gaps[1..])
  }

  lemma {:induction false} GapIsSkipped(gap: string, rest: string)
    requires IsGap(gap)
    ensures Tokens(gap + rest, "", false) == Tokens(rest, "", false)
  {
    hide Tokens;
    if gap == "" {
      assert gap + rest == rest;
    } else {
      assert gap + rest == [gap[0]] + (gap[1..] + rest);
      TokensStep(gap[0], gap[1..] + rest, "", false);
      GapIsSkipped(gap[1..], rest);
      assert Flush("") + Tokens(rest, "", false) == Tokens(rest, "", false);
    }
  }

  lemma {:induction false} PlainIsRead(t: string, rest: string, current: string)
    requires t == "" || IsPlain(t)
    ensures Tokens(t + rest, current, false) == Tokens(rest, current + t, false)
    decreases |t|
  {
    hide Tokens;
    if t == "" {
      assert t + rest == rest && current + t == current;
    } else {
      assert t + rest == [t[0]] + (t[1..] + rest);
      assert current + [t[0]] + t[1..] == current + t;
      TokensStep(t[0], t[1..] + rest, current, false);
      PlainIsRead(t[1..], rest, current + [t[0]]);
    }
  }

  lemma GapEndsToken(gap: string, rest: string, current: string)
    requires IsGap(gap) && (gap != "" || rest == "")
    ensures Tokens(gap + rest, current, false) == Flush(current) + Tokens(rest, "", false)
  {
    hide Tokens;
    if gap == "" {
      assert gap + rest == "";
      TokensStep(' ', "", current, false);
      TokensStep(' ', "", "", false);
      assert Flush(current) + [] == Flush(current);
    } else {
      assert gap + rest == [gap[0]] + (gap[1..] + rest);
      TokensStep(gap[0], gap[1..] + rest, current, false);
      GapIsSkipped(gap[1..], rest);
    }
  }

  /** Unquoted tokens are separated by any mixture of spaces and tabs, and by nothing else. */
  lemma {:induction false} SpreadIsRead(tokens: seq<string>, gaps: seq<string>)
    requires |gaps| == |tokens| + 1
    requires forall i :: 0 <= i < |tokens| ==> IsPlain(tokens[i])
    requires forall i :: 0 <= i < |gaps| ==> IsGap(gaps[i])
    requires forall i :: 0 < i < |tokens| ==> gaps[i] != ""
    ensures Tokens(Spread(tokens, gaps), "", false) == tokens
  {
    hide Tokens, IsPlain, IsGap;
    if tokens == [] {
      assert gaps[0] + "" == gaps[0];
      GapIsSkipped(gaps[0], "");
      TokensStep(' ', "", "", false);
    } else {
      var t, rest, after := tokens[0], tokens[1..], gaps[1..];
      assert IsPlain(tokens[0]) && IsGap(gaps[0]) && IsGap(gaps[1]);
      var tail := Spread(rest, after);
      assert gaps[0] + t + tail == gaps[0] + (t + tail);
      GapIsSkipped(gaps[0], t + tail);
      PlainIsRead(t, tail, "");
      assert "" + t == t;
      SpreadFrom(rest, after, t);
      SpreadIsRead(rest, after);
      PlainIsToken(t);
      assert tokens == [t] + rest;
    }
  }

  lemma PlainIsToken(t: string)
    requires IsPlain(t)
    ensures Flush(t) == [t]
  {
  }

  /** A pending token ends where the next gap begins. */
  lemma SpreadFrom(tokens: seq<string>, gaps: seq<string>, current: string)
    requires |gaps| == |tokens| + 1 && IsGap(gaps[0]) && (tokens != [] ==> gaps[0] != "")
    ensures Tokens(Spread(tokens, gaps), current, false) == Flush(current) + Tokens(Spread(tokens, gaps), "", false)
  {
    hide Tokens, IsGap;
    var rest := if tokens == [] then "" else tokens[0] + Spread(tokens[1..], gaps[1..]);
    assert Spread(tokens, gaps) == gaps[0] + rest;
    GapEndsToken(gaps[0], rest, current);
    GapIsSkipped(gaps[0], rest);
  }
}
