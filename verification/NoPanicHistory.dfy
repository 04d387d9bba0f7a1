/** The ratchet end to end: the command run on one source tree after another, from the bytes
    of the files to the text of the baseline file. */
module NoPanicHistory {
  import opened Common
  import opened NoPanicPolicy
  import opened NoPanicRatchet
  import opened NoPanicScan
  import opened NoPanicGate

  /** What one run of the command finds on disk, and whether it is asked to write. */
  datatype Checkout = Checkout(files: seq<SourceFile>, allowlist: Allowlist, write: bool)

  /** The findings are the callsites of the files, each identity once with its number. */
  ghost predicate Counts(findings: seq<Finding>, hits: seq<Identity>) {
    && DistinctFindings(findings)
    && forall id, n :: Finding(id, n) in findings <==> n > 0 && multiset(hits)[id] == n
  }

  /** `r` is the run on `t`. */
  ghost predicate RunOn(r: Run, t: Checkout, p: Patterns) {
    r.allowlist == t.allowlist && r.write == t.write && Counts(r.findings, AllHits(t.files, p))
  }

  /** The callsites of `t` that are not allowed stay within the budget of `b`, identity by
      identity; and all of its callsites number at most what `b` and the allowlist count. */
  ghost predicate Within(t: Checkout, p: Patterns, b: Baseline) {
    var hits := AllHits(t.files, p);
    && (forall id :: !IsAllowed(id, t.allowlist) ==> multiset(hits)[id] <= Budget(b, id))
    && |hits| <= Total(AllowEntries(t.allowlist.allow)) + Total(b.entries)
  }

  predicate Accepted(o: Outcome) {
    o.Written? || o.Checked?
  }

  /** What the command reports when the baseline read is `b`; `None` stands for no file. */
  function OutcomeOf(b: Option<Baseline>, r: Run): Outcome {
    if b.None? && !r.write then MissingBaseline
    else
      var errors := PolicyErrors(r.findings, r.allowlist, b);
      if errors != [] then Rejected(errors)
      else if r.write then Written
      else DebtOutcome(r.findings, r.allowlist, b.value)
  }

  /** A run is accepted exactly when the policy holds of what it scanned. */
  lemma AcceptedIff(b: Option<Baseline>, r: Run)
    ensures Accepted(OutcomeOf(b, r)) <==> PolicyHolds(r.findings, r.allowlist, b) && (b.Some? || r.write)
  {
    hide PolicyHolds;
    NoErrorsIffPolicyHolds(r.findings, r.allowlist, b);
  }

  /** Distinct findings that count a multiset total its size. */
  lemma {:induction false} TotalIsSize(findings: seq<Finding>, m: multiset<Identity>)
    requires DistinctFindings(findings)
    requires forall id, n :: Finding(id, n) in findings <==> n > 0 && m[id] == n
    ensures TotalFound(findings) == |m|
  {
    hide TotalFound;
    if findings == [] {
      forall id
        ensures m[id] == 0
      {
        assert Finding(id, m[id]) !in findings;
      }
      assert m == multiset{};
      NothingFound();
    } else {
      var f, rest := findings[0], findings[1..];
      assert findings == [f] + rest;
      assert f in findings;
      var less := m[f.identity := 0];
      forall id, n
        ensures Finding(id, n) in rest <==> n > 0 && less[id] == n
      {
        assert Finding(id, n) in findings <==> Finding(id, n) == f || Finding(id, n) in rest;
        if Finding(id, n) in rest {
          var k :| 0 <= k < |rest| && rest[k] == Finding(id, n);
          assert findings[k + 1] == Finding(id, n);
        }
      }
      TotalIsSize(rest, less);
      TotalFoundCons(f, rest);
    }
  }

  /** An accepted run finds the tree within the baseline it was checked against. */
  lemma AcceptedIsWithin(r: Run, t: Checkout, p: Patterns, b: Baseline)
    requires RunOn(r, t, p)
    requires PolicyErrors(r.findings, r.allowlist, Some(b)) == []
    ensures Within(t, p, b)
  {
    hide PolicyErrors, AllHits, Total, TotalFound, EntryCounts, IsAllowed, AllowEntries, Fresh, DistinctFindings;
    var hits := AllHits(t.files, p);
    NoErrorsIffPolicyHolds(r.findings, r.allowlist, Some(b));
    forall id | !IsAllowed(id, t.allowlist)
      ensures multiset(hits)[id] <= Budget(b, id)
    {
      var n := multiset(hits)[id];
      if n > 0 {
        assert Finding(id, n) in r.findings;
        var i :| 0 <= i < |r.findings| && r.findings[i] == Finding(id, n);
        assert Covered(r.findings[i], r.allowlist, b.entries);
      }
    }
    AcceptanceBoundsDebt(r.findings, r.allowlist, b);
    TotalIsSize(r.findings, multiset(hits));
  }

  lemma WithinIsKept(t: Checkout, p: Patterns, now: Baseline, before: Baseline)
    requires Within(t, p, now) && NoLooser(now, before)
    ensures Within(t, p, before)
  {
    hide AllHits, Total, Budget, IsAllowed;
  }

  lemma {:induction false} AfterSnoc(b: Option<Baseline>, runs: seq<Run>, r: Run)
    ensures After(b, runs + [r]) == Next(After(b, runs), r)
    decreases |runs|
  {
    hide Next;
    if runs == [] {
      assert runs + [r] == [r] && [r][1..] == [];
      assert After(Next(b, r), []) == Next(b, r);
    } else {
      AfterSnoc(Next(b, runs[0]), runs[1..], r);
      assert (runs + [r])[1..] == runs[1..] + [r];
    }
  }

  /** `cmd_check_no_panic_family`: scan, then check. */
  method CheckNoPanicFamily(gate: NoPanicGate, t: Checkout, p: Patterns) returns (outcome: Outcome, ghost run: Run)
    modifies gate
    ensures RunOn(run, t, p)
    ensures old(gate.Current()).Some? || old(gate.file).None?
            ==> && outcome == OutcomeOf(old(gate.Current()), run)
                && gate.Current() == Next(old(gate.Current()), run) && (gate.Current().Some? || gate.file.None?)
    ensures old(gate.Current()).None? && old(gate.file).Some?
            ==> outcome == UnreadableBaseline && gate.file == old(gate.file) && gate.Current().None?
    ensures Accepted(outcome) && old(gate.Current()).Some? ==> Within(t, p, old(gate.Current()).value)
    ensures outcome.Checked? ==> outcome.scanned == |AllHits(t.files, p)|
  {
    hide AllHits, PolicyErrors, Within, Total, TotalFound, AllowEntries;
    var findings := ScanNoPanicFamily(t.files, p);
    run := Run(findings, t.allowlist, t.write);
    outcome := gate.Check(findings, t.allowlist, t.write);
    if old(gate.Current()).Some? {
      if Accepted(outcome) {
        AcceptedIsWithin(run, t, p, old(gate.Current()).value);
      }
      TotalIsSize(findings, multiset(AllHits(t.files, p)));
    }
  }

  /** The command on any sequence of source trees. Once there is a readable baseline, no run
      loosens it, and every tree accepted anywhere in the history stays within the baseline
      the history began with. */
  method CheckHistory(gate: NoPanicGate, trees: seq<Checkout>, p: Patterns)
    returns (outcomes: seq<Outcome>, ghost runs: seq<Run>)
    modifies gate
    ensures |outcomes| == |runs| == |trees|
    ensures forall i :: 0 <= i < |trees| ==> RunOn(runs[i], trees[i], p)
    ensures old(gate.Current()).Some? || old(gate.file).None?
            ==> && gate.Current() == After(old(gate.Current()), runs)
                && forall i :: 0 <= i < |trees| ==> outcomes[i] == OutcomeOf(After(old(gate.Current()), runs[..i]), runs[i])
    ensures old(gate.Current()).None? && old(gate.file).Some?
            ==> gate.file == old(gate.file) && forall i :: 0 <= i < |trees| ==> outcomes[i] == UnreadableBaseline
    ensures old(gate.Current()).Some? ==> gate.Current().Some? && NoLooser(gate.Current().value, old(gate.Current()).value)
    ensures old(gate.Current()).Some?
            ==> forall i :: 0 <= i < |trees| && Accepted(outcomes[i]) ==> Within(trees[i], p, old(gate.Current()).value)
  {
    hide *;
    outcomes, runs := [], [];
    ghost var first := gate.Current();
    AfterNothing(first);
    for k := 0 to |trees|
      invariant |outcomes| == |runs| == k
      invariant forall i :: 0 <= i < k ==> RunOn(runs[i], trees[i], p)
      invariant first.Some? || old(gate.file).None?
                ==> gate.Current() == After(first, runs) && (gate.Current().Some? || gate.file.None?)
      invariant first.Some? || old(gate.file).None?
                ==> forall i :: 0 <= i < k ==> outcomes[i] == OutcomeOf(After(first, runs[..i]), runs[i])
      invariant first.None? && old(gate.file).Some?
                ==> gate.file == old(gate.file) && gate.Current().None? && forall i :: 0 <= i < k ==> outcomes[i] == UnreadableBaseline
      invariant first.Some? ==> forall i :: 0 <= i < k && Accepted(outcomes[i]) ==> Within(trees[i], p, first.value)
    {
      ghost var before := gate.Current();
      var outcome, run := CheckNoPanicFamily(gate, trees[k], p);
      if first.Some? {
        Ratchet(first.value, runs, trees[..k], p);
        if Accepted(outcome) {
          WithinIsKept(trees[k], p, before.value, first.value);
        }
      }
      AfterSnoc(first, runs, run);
      assert (runs + [run])[..k] == runs;
      assert forall i :: 0 <= i < k ==> (runs + [run])[..i] == runs[..i];
      outcomes, runs := outcomes + [outcome], runs + [run];
    }
    if first.Some? {
      Ratchet(first.value, runs, trees, p);
    }
  }

  lemma AfterNothing(b: Option<Baseline>)
    ensures After(b, []) == b
  {
  }

  /** Runs on source trees are valid, so the ratchet holds of them without a hypothesis. */
  lemma Ratchet(b: Baseline, runs: seq<Run>, trees: seq<Checkout>, p: Patterns)
    requires |runs| == |trees| && forall i :: 0 <= i < |trees| ==> RunOn(runs[i], trees[i], p)
    ensures After(Some(b), runs).Some? && NoLooser(After(Some(b), runs).value, b)
  {
    hide After, NoLooser, DistinctFindings;
    forall i | 0 <= i < |runs|
      ensures ValidRun(runs[i])
    {
      assert RunOn(runs[i], trees[i], p);
    }
    RatchetOnlyTightens(b, runs);
  }

  // ----- write, then check

  lemma CountsAgree(hits: seq<Identity>, findings: seq<Finding>, others: seq<Finding>)
    requires Counts(findings, hits) && Counts(others, hits)
    ensures forall f :: f in findings <==> f in others
    ensures FindingCounts(findings) == FindingCounts(others)
  {
    hide FindingCounts;
    forall f
      ensures f in findings <==> f in others
    {
      assert f == Finding(f.identity, f.count);
    }
    forall f | f in findings
      ensures f.identity in FindingCounts(findings) && FindingCounts(findings)[f.identity] == f.count
      ensures f.identity in FindingCounts(others) && FindingCounts(others)[f.identity] == f.count
    {
      FindingCountIs(findings, f);
      FindingCountIs(others, f);
    }
  }

  /** The policy does not see the order of the findings. */
  lemma OrderIsUnseen(hits: seq<Identity>, findings: seq<Finding>, others: seq<Finding>, allowlist: Allowlist, b: Baseline)
    requires Counts(findings, hits) && Counts(others, hits)
    requires PolicyHolds(findings, allowlist, Some(b))
    ensures PolicyHolds(others, allowlist, Some(b))
  {
    hide FindingCounts, EntryOk, EntryCounts, IsAllowed, FilledIdentity;
    CountsAgree(hits, findings, others);
    forall j | 0 <= j < |others|
      ensures Covered(others[j], allowlist, b.entries)
    {
      assert others[j] in findings;
      var i :| 0 <= i < |findings| && findings[i] == others[j];
      assert Covered(findings[i], allowlist, b.entries);
    }
  }

  /** The callsites of `t` that are not allowed have no blank field. */
  ghost predicate Presentable(t: Checkout, p: Patterns) {
    forall id :: id in AllHits(t.files, p) && !IsAllowed(id, t.allowlist) ==> FilledIdentity(id)
  }

  /** A check that passes with nothing left to refresh. */
  predicate NothingLeft(o: Outcome) {
    o.Checked? && o.unbaselined == 0 && o.refreshable == 0
  }

  /** After an accepted write on a tree, a check of the same tree, whatever the order in which
      it finds the callsites, passes with nothing to refresh exactly when the callsites that
      are not allowed have no blank field; otherwise it is rejected. */
  lemma WrittenThenChecked(b: Option<Baseline>, written: Run, checked: Run, t: Checkout, p: Patterns)
    requires t.write && RunOn(written, t, p) && OutcomeOf(b, written) == Written
    requires RunOn(checked, t.(write := false), p)
    ensures var o := OutcomeOf(Next(b, written), checked);
      && (NothingLeft(o) <==> Presentable(t, p))
      && (o.Rejected? <==> !Presentable(t, p))
  {
    hide PolicyErrors, PolicyHolds, Fresh, Unallowed, RefreshCandidates, Unbaselined, Counts, WellScanned, Presentable;
    var now := Fresh(written.findings, t.allowlist);
    var hits := AllHits(t.files, p);
    WriteThenCheck(written.findings, t.allowlist, b) by {
      CountsAreDistinct(written.findings, hits);
    }
    NoErrorsIffPolicyHolds(written.findings, t.allowlist, Some(now));
    NoErrorsIffPolicyHolds(checked.findings, t.allowlist, Some(now));
    if PolicyHolds(written.findings, t.allowlist, Some(now)) {
      OrderIsUnseen(hits, written.findings, checked.findings, t.allowlist, now);
    }
    if PolicyHolds(checked.findings, t.allowlist, Some(now)) {
      OrderIsUnseen(hits, checked.findings, written.findings, t.allowlist, now);
    }
    WellScannedIffPresentable(written, t, p);
    NothingToRefresh(hits, written.findings, checked.findings, t.allowlist, now);
  }

  lemma CountsAreDistinct(findings: seq<Finding>, hits: seq<Identity>)
    requires Counts(findings, hits)
    ensures DistinctFindings(findings)
  {
  }

  /** Counted findings are positive, so only a blank field can make one ill-formed. */
  lemma WellScannedIffPresentable(r: Run, t: Checkout, p: Patterns)
    requires RunOn(r, t, p)
    ensures (forall f :: f in Unallowed(r.findings, t.allowlist) ==> WellScanned(f)) <==> Presentable(t, p)
  {
    hide AllHits, IsAllowed, DistinctFindings, FilledIdentity;
    var hits := AllHits(t.files, p);
    assert forall id :: id in hits <==> multiset(hits)[id] > 0;
    forall id
      ensures id in hits && !IsAllowed(id, t.allowlist)
              <==> Finding(id, multiset(hits)[id]) in Unallowed(r.findings, t.allowlist)
    {
      assert Finding(id, multiset(hits)[id]) in r.findings <==> id in hits;
    }
    forall f | f in Unallowed(r.findings, t.allowlist)
      ensures f.count == multiset(hits)[f.identity] > 0
    {
      assert f == Finding(f.identity, f.count);
    }
  }

  lemma NothingToRefresh(hits: seq<Identity>, findings: seq<Finding>, others: seq<Finding>, allowlist: Allowlist, b: Baseline)
    requires Counts(findings, hits) && Counts(others, hits)
    requires RefreshCandidates(findings, allowlist, b.entries) == 0 && Unbaselined(findings, allowlist, b.entries) == 0
    ensures RefreshCandidates(others, allowlist, b.entries) == 0 && Unbaselined(others, allowlist, b.entries) == 0
  {
    hide RefreshCandidates, Unbaselined, FindingCounts, Counts, IsAllowed;
    CountsAgree(hits, findings, others);
    forall e | e in b.entries
      ensures !IsRefreshCandidate(e, others, allowlist)
    {
      assert !IsRefreshCandidate(e, findings, allowlist);
    }
  }
}
