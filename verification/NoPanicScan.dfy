/** `scan_no_panic_file`: counting panic-family callsites in the masked lines of a file.

    The two regular expressions, `str::trim` on the raw line and the reading of a line as
    text are parameters: functions from a (masked or raw) line. */
module NoPanicScan {
  import opened Common
  import opened RustMasker
  import opened RustLexing
  import opened RustGrammar
  import opened NoPanicPolicy

  /** What the scan is told about the file and the languages of its two patterns. */
  datatype Patterns = Patterns(
    macroFamilies: seq<byte> -> seq<string>,   // captures of the macro pattern, left to right
    methodFamilies: seq<byte> -> seq<string>,  // captures of the method pattern
    trimmed: seq<byte> -> string)              // the trimmed line

  function MacroIdentity(path: string, family: string, snippet: string): Identity {
    Identity(path, family, "macro", family + "!", snippet)
  }

  function MethodIdentity(path: string, family: string, snippet: string): Identity {
    Identity(path, family, "method", family, snippet)
  }

  function MacroHits(path: string, families: seq<string>, snippet: string): seq<Identity> {
    seq(|families|, i requires 0 <= i < |families| => MacroIdentity(path, families[i], snippet))
  }

  function MethodHits(path: string, families: seq<string>, snippet: string): seq<Identity> {
    seq(|families|, i requires 0 <= i < |families| => MethodIdentity(path, families[i], snippet))
  }

  function LineHits(path: string, line: seq<byte>, masked: seq<byte>, p: Patterns): seq<Identity> {
    MacroHits(path, p.macroFamilies(masked), p.trimmed(line))
    + MethodHits(path, p.methodFamilies(masked), p.trimmed(line))
  }

  /** Hits in order, given the lines of a file and their masks. */
  function Hits(path: string, lines: seq<seq<byte>>, masked: seq<seq<byte>>, p: Patterns): seq<Identity>
    requires |masked| == |lines|
  {
    if lines == [] then []
    else
      var n := |lines| - 1;
      Hits(path, lines[..n], masked[..n], p) + LineHits(path, lines[n], masked[n], p)
  }

  function FileHits(path: string, content: seq<byte>, p: Patterns): seq<Identity> {
    var lines := Lines(content, LF, CR);
    Hits(path, lines, MaskLines(lines, Code).0, p)
  }

  /** `counts` is `before` with one more for every hit. */
  ghost predicate Tallied(counts: map<Identity, nat>, before: map<Identity, nat>, hits: seq<Identity>) {
    && (forall id :: CountIn(counts, id) == CountIn(before, id) + multiset(hits)[id])
    && (forall id :: id in counts <==> id in before || id in hits)
  }

  lemma TallyOne(counts: map<Identity, nat>, before: map<Identity, nat>, hits: seq<Identity>, id: Identity)
    requires Tallied(counts, before, hits)
    ensures Tallied(counts[id := CountIn(counts, id) + 1], before, hits + [id])
  {
  }

  class PanicScan {
    var counts: map<Identity, nat>

    constructor ()
      ensures counts == map[]
    {
      counts := map[];
    }

    method CountMacros(path: string, families: seq<string>, snippet: string,
                       ghost before: map<Identity, nat>, ghost hits: seq<Identity>)
      requires Tallied(counts, before, hits)
      modifies this
      ensures Tallied(counts, before, hits + MacroHits(path, families, snippet))
    {
      hide Tallied, CountIn;
      ghost var added := MacroHits(path, families, snippet);
      assert hits + added[..0] == hits;
      for i := 0 to |families|
        invariant Tallied(counts, before, hits + added[..i])
      {
        var identity := MacroIdentity(path, families[i], snippet);
        TallyOne(counts, before, hits + added[..i], identity);
        assert hits + added[..i] + [identity] == hits + added[..i + 1];
        counts := counts[identity := CountIn(counts, identity) + 1];
      }
      assert added[..|families|] == added;
    }

    method CountMethods(path: string, families: seq<string>, snippet: string,
                        ghost before: map<Identity, nat>, ghost hits: seq<Identity>)
      requires Tallied(counts, before, hits)
      modifies this
      ensures Tallied(counts, before, hits + MethodHits(path, families, snippet))
    {
      hide Tallied, CountIn;
      ghost var added := MethodHits(path, families, snippet);
      assert hits + added[..0] == hits;
      for i := 0 to |families|
        invariant Tallied(counts, before, hits + added[..i])
      {
        var identity := MethodIdentity(path, families[i], snippet);
        TallyOne(counts, before, hits + added[..i], identity);
        assert hits + added[..i] + [identity] == hits + added[..i + 1];
        counts := counts[identity := CountIn(counts, identity) + 1];
      }
      assert added[..|families|] == added;
    }

    method ScanLine(path: string, line: seq<byte>, masked: seq<byte>, p: Patterns,
                    ghost before: map<Identity, nat>, ghost hits: seq<Identity>)
      requires Tallied(counts, before, hits)
      modifies this
      ensures Tallied(counts, before, hits + LineHits(path, line, masked, p))
    {
      hide Tallied, MacroHits, MethodHits;
      var snippet := p.trimmed(line);
      ghost var macros := MacroHits(path, p.macroFamilies(masked), snippet);
      ghost var methods := MethodHits(path, p.methodFamilies(masked), snippet);
      CountMacros(path, p.macroFamilies(masked), snippet, before, hits);
      CountMethods(path, p.methodFamilies(masked), snippet, before, hits + macros);
      assert hits + macros + methods == hits + (macros + methods);
    }

    /** Masks the file line by line from the default state and counts what the patterns
        find in the masked lines. */
    method ScanNoPanicFile(path: string, content: seq<byte>, p: Patterns)
      modifies this
      ensures Tallied(counts, old(counts), FileHits(path, content, p))
    {
      var state := new RustMaskState();
      var lines := Lines(content, LF, CR);
      ghost var masks: seq<seq<byte>> := [];
      ghost var hits: seq<Identity> := [];
      ghost var mode := Code;
      StartOfFile(path, lines, p);
      assert Tallied(counts, old(counts), hits);
      assert state.Mode() == Code;
      FileHitsAre(path, content, p);
      hide *;
      for k := 0 to |lines|
        invariant fresh(state) && mode == state.Mode()
        invariant InFile(path, lines, k, masks, mode, hits, p)
        invariant Tallied(counts, old(counts), hits)
      {
        var masked := MaskRustCodeLine(lines[k], state);
        NextLine(path, lines, k, masks, mode, hits, p);
        masks, mode := masks + [masked], state.Mode();
        ScanLine(path, lines[k], masked, p, old(counts), hits);
        hits := hits + LineHits(path, lines[k], masked, p);
      }
      EndOfFile(path, lines, masks, mode, hits, p);
    }

    /** `BTreeMap::into_iter`: every counted identity once, in an order left open. */
    method Findings() returns (findings: seq<Finding>)
      ensures DistinctFindings(findings)
      ensures forall id, n :: Finding(id, n) in findings <==> id in counts && counts[id] == n
    {
      findings := [];
      var todo := counts.Keys;
      while todo != {}
        invariant todo <= counts.Keys
        invariant DistinctFindings(findings)
        invariant forall i :: 0 <= i < |findings| ==> findings[i].identity in counts.Keys - todo
        invariant forall id, n :: Finding(id, n) in findings <==> id in counts && id !in todo && counts[id] == n
        decreases |todo|
      {
        var id :| id in todo;
        todo := todo - {id};
        findings := findings + [Finding(id, counts[id])];
      }
    }
  }

  /** The first `k` lines are masked as `masks` and hit as `hits`; `m` masks the rest. */
  ghost predicate InFile(path: string, lines: seq<seq<byte>>, k: nat, masks: seq<seq<byte>>, m: Mode,
                         hits: seq<Identity>, p: Patterns) {
    && k <= |lines| && |masks| == k
    && MaskLines(lines, Code).0 == masks + MaskLines(lines[k..], m).0
    && hits == Hits(path, lines[..k], masks, p)
  }

  lemma FileHitsAre(path: string, content: seq<byte>, p: Patterns)
    ensures var lines := Lines(content, LF, CR);
            FileHits(path, content, p) == Hits(path, lines, MaskLines(lines, Code).0, p)
  {
  }

  lemma StartOfFile(path: string, lines: seq<seq<byte>>, p: Patterns)
    ensures InFile(path, lines, 0, [], Code, [], p)
  {
  }

  lemma NextLine(path: string, lines: seq<seq<byte>>, k: nat, masks: seq<seq<byte>>, m: Mode,
                 hits: seq<Identity>, p: Patterns)
    requires InFile(path, lines, k, masks, m, hits, p) && k < |lines|
    ensures var masked := Lex(lines[k], m);
            InFile(path, lines, k + 1, masks + [masked.out], Carry(masked.end),
                   hits + LineHits(path, lines[k], masked.out, p), p)
  {
    hide Lex, LineHits;
    var masked := Lex(lines[k], m);
    var rest := MaskLines(lines[k + 1..], Carry(masked.end)).0;
    assert lines[k..][1..] == lines[k + 1..];
    assert masks + ([masked.out] + rest) == masks + [masked.out] + rest;
    assert lines[..k + 1][..k] == lines[..k];
    assert (masks + [masked.out])[..k] == masks;
  }

  lemma EndOfFile(path: string, lines: seq<seq<byte>>, masks: seq<seq<byte>>, m: Mode, hits: seq<Identity>, p: Patterns)
    requires InFile(path, lines, |lines|, masks, m, hits, p)
    ensures hits == Hits(path, lines, MaskLines(lines, Code).0, p)
  {
    assert lines[..|lines|] == lines;
    assert lines[|lines|..] == [];
    assert MaskLines([], m).0 == [];
    assert masks + [] == masks;
  }

  // ----- the whole scan

  datatype SourceFile = SourceFile(path: string, content: seq<byte>)

  function AllHits(files: seq<SourceFile>, p: Patterns): seq<Identity> {
    if files == [] then []
    else
      var n := |files| - 1;
      AllHits(files[..n], p) + FileHits(files[n].path, files[n].content, p)
  }

  lemma TallyJoins(counts: map<Identity, nat>, middle: map<Identity, nat>, before: map<Identity, nat>,
                   hits: seq<Identity>, more: seq<Identity>)
    requires Tallied(middle, before, hits) && Tallied(counts, middle, more)
    ensures Tallied(counts, before, hits + more)
  {
    assert multiset(hits + more) == multiset(hits) + multiset(more);
  }

  lemma AllHitsSnoc(files: seq<SourceFile>, k: nat, p: Patterns)
    requires k < |files|
    ensures AllHits(files[..k + 1], p) == AllHits(files[..k], p) + FileHits(files[k].path, files[k].content, p)
  {
    hide FileHits;
    assert files[..k + 1][..k] == files[..k];
  }

  lemma NothingTallied()
    ensures Tallied(map[], map[], [])
  {
  }

  /** `scan_no_panic_family` over the files found: each identity once, with the number of
      times it was hit. */
  method ScanNoPanicFamily(files: seq<SourceFile>, p: Patterns) returns (findings: seq<Finding>)
    ensures DistinctFindings(findings)
    ensures forall id, n :: Finding(id, n) in findings <==> n > 0 && multiset(AllHits(files, p))[id] == n
  {
    var scan := new PanicScan();
    NothingTallied();
    assert AllHits(files[..0], p) == [];
    hide Tallied, AllHits, FileHits, DistinctFindings;
    for k := 0 to |files|
      invariant fresh(scan)
      invariant Tallied(scan.counts, map[], AllHits(files[..k], p))
    {
      ghost var middle := scan.counts;
      scan.ScanNoPanicFile(files[k].path, files[k].content, p);
      TallyJoins(scan.counts, middle, map[], AllHits(files[..k], p), FileHits(files[k].path, files[k].content, p));
      AllHitsSnoc(files, k, p);
    }
    assert files[..|files|] == files;
    findings := scan.Findings();
    TallyFromNothing(scan.counts, AllHits(files, p));
  }

  lemma TallyFromNothing(counts: map<Identity, nat>, hits: seq<Identity>)
    requires Tallied(counts, map[], hits)
    ensures forall id :: id in counts <==> multiset(hits)[id] > 0
    ensures forall id :: id in counts ==> counts[id] == multiset(hits)[id]
  {
    forall id
      ensures id in counts <==> multiset(hits)[id] > 0
      ensures id in counts ==> counts[id] == multiset(hits)[id]
    {
      assert CountIn(counts, id) == CountIn(map[], id) + multiset(hits)[id];
      assert id in hits <==> id in multiset(hits);
    }
  }

  // ----- what is counted

  /** The callsites of `id` in a file: capture `j` of a pattern in line `k` of the masked text,
      with the trimmed line itself as the snippet. */
  ghost function MacroSites(path: string, lines: seq<seq<byte>>, masked: seq<seq<byte>>, p: Patterns, id: Identity): set<(nat, nat)>
    requires |masked| == |lines|
  {
    set k: nat, j: nat | k < |masked| && j < |p.macroFamilies(masked[k])|
      && id == Identity(path, p.macroFamilies(masked[k])[j], "macro", p.macroFamilies(masked[k])[j] + "!", p.trimmed(lines[k]))
      :: (k, j)
  }

  ghost function MethodSites(path: string, lines: seq<seq<byte>>, masked: seq<seq<byte>>, p: Patterns, id: Identity): set<(nat, nat)>
    requires |masked| == |lines|
  {
    set k: nat, j: nat | k < |masked| && j < |p.methodFamilies(masked[k])|
      && id == Identity(path, p.methodFamilies(masked[k])[j], "method", p.methodFamilies(masked[k])[j], p.trimmed(lines[k]))
      :: (k, j)
  }

  lemma LineHitsAre(path: string, line: seq<byte>, masked: seq<byte>, p: Patterns)
    ensures LineHits(path, line, masked, p)
            == MacroHits(path, p.macroFamilies(masked), p.trimmed(line)) + MethodHits(path, p.methodFamilies(masked), p.trimmed(line))
  {
  }

  lemma MacroSitesSnoc(path: string, lines: seq<seq<byte>>, masked: seq<seq<byte>>, p: Patterns, id: Identity)
    requires |masked| == |lines| > 0
    ensures var n := |lines| - 1;
      |MacroSites(path, lines, masked, p, id)|
      == |MacroSites(path, lines[..n], masked[..n], p, id)|
         + multiset(MacroHits(path, p.macroFamilies(masked[n]), p.trimmed(lines[n])))[id]
  {
    var n: nat := |lines| - 1;
    var hits := MacroHits(path, p.macroFamilies(masked[n]), p.trimmed(lines[n]));
    CountIsPlaces(n, hits, id);
    var front := MacroSites(path, lines[..n], masked[..n], p, id);
    assert MacroSites(path, lines, masked, p, id) == front + Places(n, hits, id);
    assert front !! Places(n, hits, id);
  }

  lemma MethodSitesSnoc(path: string, lines: seq<seq<byte>>, masked: seq<seq<byte>>, p: Patterns, id: Identity)
    requires |masked| == |lines| > 0
    ensures var n := |lines| - 1;
      |MethodSites(path, lines, masked, p, id)|
      == |MethodSites(path, lines[..n], masked[..n], p, id)|
         + multiset(MethodHits(path, p.methodFamilies(masked[n]), p.trimmed(lines[n])))[id]
  {
    var n: nat := |lines| - 1;
    var hits := MethodHits(path, p.methodFamilies(masked[n]), p.trimmed(lines[n]));
    CountIsPlaces(n, hits, id);
    var front := MethodSites(path, lines[..n], masked[..n], p, id);
    assert MethodSites(path, lines, masked, p, id) == front + Places(n, hits, id);
    assert front !! Places(n, hits, id);
  }

  lemma {:induction false} HitsAreSites(path: string, lines: seq<seq<byte>>, masked: seq<seq<byte>>, p: Patterns, id: Identity)
    requires |masked| == |lines|
    ensures multiset(Hits(path, lines, masked, p))[id]
            == |MacroSites(path, lines, masked, p, id)| + |MethodSites(path, lines, masked, p, id)|
    decreases |lines|
  {
    if lines == [] {
      assert MacroSites(path, lines, masked, p, id) == {} == MethodSites(path, lines, masked, p, id);
    } else {
      var n := |lines| - 1;
      HitsSnoc(path, lines, masked, p, id);
      HitsAreSites(path, lines[..n], masked[..n], p, id);
      MacroSitesSnoc(path, lines, masked, p, id);
      MethodSitesSnoc(path, lines, masked, p, id);
    }
  }

  lemma HitsSnoc(path: string, lines: seq<seq<byte>>, masked: seq<seq<byte>>, p: Patterns, id: Identity)
    requires |masked| == |lines| > 0
    ensures var n := |lines| - 1;
      multiset(Hits(path, lines, masked, p))[id]
      == multiset(Hits(path, lines[..n], masked[..n], p))[id]
         + multiset(MacroHits(path, p.macroFamilies(masked[n]), p.trimmed(lines[n])))[id]
         + multiset(MethodHits(path, p.methodFamilies(masked[n]), p.trimmed(lines[n])))[id]
  {
    hide LineHits, MacroHits, MethodHits;
    var n := |lines| - 1;
    LineHitsAre(path, lines[n], masked[n], p);
  }

  /** A callsite of the whole scan: the file it is in, and its place there. */
  ghost function SitesOf(files: seq<SourceFile>, i: nat, p: Patterns, id: Identity, macros: bool): set<(nat, nat)>
    requires i < |files|
  {
    var lines := Lines(files[i].content, LF, CR);
    if macros then MacroSites(files[i].path, lines, MaskLines(lines, Code).0, p, id)
    else MethodSites(files[i].path, lines, MaskLines(lines, Code).0, p, id)
  }

  ghost function AllSites(files: seq<SourceFile>, p: Patterns, id: Identity, macros: bool): set<(nat, (nat, nat))> {
    set i: nat, s: (nat, nat) | i < |files| && s in SitesOf(files, i, p, id, macros) :: (i, s)
  }

  ghost function Tagged<I, S>(tag: I, sites: set<S>): set<(I, S)> {
    set s | s in sites :: (tag, s)
  }

  lemma {:induction false} TaggedSize<I, S>(tag: I, sites: set<S>)
    ensures |Tagged(tag, sites)| == |sites|
  {
    if sites == {} {
      assert Tagged(tag, sites) == {};
    } else {
      var s :| s in sites;
      TaggedSize(tag, sites - {s});
      assert Tagged(tag, sites) == Tagged(tag, sites - {s}) + {(tag, s)};
    }
  }

  lemma AllSitesSnoc(files: seq<SourceFile>, p: Patterns, id: Identity, macros: bool)
    requires files != []
    ensures var n := |files| - 1;
      |AllSites(files, p, id, macros)| == |AllSites(files[..n], p, id, macros)| + |SitesOf(files, n, p, id, macros)|
  {
    hide MacroSites, MethodSites, MaskLines, Lines;
    var n: nat := |files| - 1;
    var front, last := AllSites(files[..n], p, id, macros), SitesOf(files, n, p, id, macros);
    forall i: nat | i < n
      ensures SitesOf(files, i, p, id, macros) == SitesOf(files[..n], i, p, id, macros)
    {
      assert files[..n][i] == files[i];
    }
    TaggedSize(n, last);
    assert AllSites(files, p, id, macros) == front + Tagged(n, last);
    assert front !! Tagged(n, last);
  }

  /** What the scan of a tree counts, site by site: the captures of the two patterns in the
      masked lines of its files. */
  lemma {:induction false} CallsitesAreCounted(files: seq<SourceFile>, p: Patterns, id: Identity)
    ensures multiset(AllHits(files, p))[id] == |AllSites(files, p, id, true)| + |AllSites(files, p, id, false)|
  {
    hide FileHits, SitesOf;
    if files == [] {
      assert AllSites(files, p, id, true) == {} == AllSites(files, p, id, false);
    } else {
      var n := |files| - 1;
      CallsitesAreCounted(files[..n], p, id);
      AllSitesSnoc(files, p, id, true);
      AllSitesSnoc(files, p, id, false);
      FileSites(files, n, p, id);
      assert multiset(AllHits(files[..n], p) + FileHits(files[n].path, files[n].content, p))
          == multiset(AllHits(files[..n], p)) + multiset(FileHits(files[n].path, files[n].content, p));
    }
  }

  lemma FileSites(files: seq<SourceFile>, i: nat, p: Patterns, id: Identity)
    requires i < |files|
    ensures multiset(FileHits(files[i].path, files[i].content, p))[id]
            == |SitesOf(files, i, p, id, true)| + |SitesOf(files, i, p, id, false)|
  {
    var lines := Lines(files[i].content, LF, CR);
    HitsAreSites(files[i].path, lines, MaskLines(lines, Code).0, p, id);
  }

  /** On a well-formed file the scan sees code only: what it counts are the captures of the
      patterns in the lines of the text with every literal and comment blanked. */
  lemma HitsAreInCode(path: string, content: seq<byte>, items: seq<Item>, p: Patterns, id: Identity)
    requires NormalizeCrlf(content) == Render(items) && WellFormed(items)
    ensures var code := WithoutEmptyLast(SplitOn(Expected(items), LF));
      var lines := Lines(content, LF, CR);
      && |code| == |lines|
      && multiset(FileHits(path, content, p))[id]
         == |MacroSites(path, lines, code, p, id)| + |MethodSites(path, lines, code, p, id)|
  {
    MaskFollowsGrammar(content, items);
    HitsAreSites(path, Lines(content, LF, CR), MaskLines(Lines(content, LF, CR), Code).0, p, id);
  }
}
