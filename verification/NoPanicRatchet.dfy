/** The baseline as a ratchet: what a `--write-baseline` run keeps, over whole histories
    of runs, and how much debt an accepted check can hide. */
module NoPanicRatchet {
  import opened Common
  import opened NoPanicPolicy

  // ----- one run of the command

  /** The findings that are allowed, or those that are not, in order. */
  function Part(findings: seq<Finding>, allowlist: Allowlist, allowed: bool): (r: seq<Finding>)
    ensures forall f :: f in r <==> f in findings && IsAllowed(f.identity, allowlist) == allowed
  {
    if findings == [] then []
    else
      assert findings == [findings[0]] + findings[1..];
      (if IsAllowed(findings[0].identity, allowlist) == allowed then [findings[0]] else [])
      + Part(findings[1..], allowlist, allowed)
  }

  function Unallowed(findings: seq<Finding>, allowlist: Allowlist): seq<Finding> {
    Part(findings, allowlist, false)
  }

  function EntriesFor(findings: seq<Finding>): (r: seq<Entry>)
    ensures |r| == |findings|
    ensures forall i :: 0 <= i < |r| ==> r[i] == Entry(findings[i].identity, findings[i].count)
  {
    seq(|findings|, i requires 0 <= i < |findings| => Entry(findings[i].identity, findings[i].count))
  }

  /** The baseline `--write-baseline` generates. */
  function Fresh(findings: seq<Finding>, allowlist: Allowlist): Baseline {
    Baseline(SCHEMA_VERSION, EntriesFor(Unallowed(findings, allowlist)))
  }

  datatype Run = Run(findings: seq<Finding>, allowlist: Allowlist, write: bool)

  /** A scan reports each identity once, since it counts them in a map. */
  ghost predicate ValidRun(r: Run) {
    DistinctFindings(r.findings)
  }

  /** The baseline left behind by one run: only an accepted write replaces it. */
  function Next(b: Option<Baseline>, r: Run): Option<Baseline> {
    if r.write && PolicyErrors(r.findings, r.allowlist, b) == [] then Some(Fresh(r.findings, r.allowlist)) else b
  }

  function After(b: Option<Baseline>, runs: seq<Run>): Option<Baseline>
    decreases |runs|
  {
    if runs == [] then b else After(Next(b, runs[0]), runs[1..])
  }

  // ----- totals over distinct identities

  function Total(entries: seq<Entry>): nat {
    if entries == [] then 0 else entries[0].count + Total(entries[1..])
  }

  function TotalFound(findings: seq<Finding>): nat {
    Total(EntriesFor(findings))
  }

  function AllowEntries(allow: seq<Allowance>): (r: seq<Entry>)
    ensures |r| == |allow|
    ensures forall i :: 0 <= i < |r| ==> r[i] == Entry(allow[i].identity, allow[i].count)
  {
    seq(|allow|, i requires 0 <= i < |allow| => Entry(allow[i].identity, allow[i].count))
  }

  lemma {:induction false} TotalConcat(a: seq<Entry>, b: seq<Entry>)
    ensures Total(a + b) == Total(a) + Total(b)
  {
    if a == [] {
      assert a + b == b;
    } else {
      TotalConcat(a[1..], b);
      assert (a + b)[1..] == a[1..] + b;
    }
  }

  lemma TotalWithout(entries: seq<Entry>, j: nat)
    requires j < |entries|
    ensures Total(entries) == entries[j].count + Total(entries[..j] + entries[j + 1..])
  {
    var front, back := entries[..j], entries[j..];
    assert entries == front + back && back[1..] == entries[j + 1..];
    TotalConcat(front, back);
    TotalConcat(front, back[1..]);
  }

  /** Some entry of `ys` has the identity of `x` and a count at least as large. */
  ghost predicate Dominated(x: Entry, ys: seq<Entry>) {
    exists j :: 0 <= j < |ys| && ys[j].identity == x.identity && x.count <= ys[j].count
  }

  /** Distinct identities, each dominated: the total is dominated too. */
  lemma {:induction false} DistinctTotalBound(xs: seq<Entry>, ys: seq<Entry>)
    requires DistinctEntries(xs)
    requires forall i :: 0 <= i < |xs| ==> Dominated(xs[i], ys)
    ensures Total(xs) <= Total(ys)
  {
    if xs != [] {
      assert Dominated(xs[0], ys);
      var j :| 0 <= j < |ys| && ys[j].identity == xs[0].identity && xs[0].count <= ys[j].count;
      var rest := ys[..j] + ys[j + 1..];
      TotalWithout(ys, j);
      forall i | 0 <= i < |xs[1..]|
        ensures Dominated(xs[1..][i], rest)
      {
        var x := xs[i + 1];
        assert Dominated(x, ys);
        var k :| 0 <= k < |ys| && ys[k].identity == x.identity && x.count <= ys[k].count;
        assert rest[if k < j then k else k - 1] == ys[k];
      }
      DistinctTotalBound(xs[1..], rest);
    }
  }

  lemma {:induction false} PartStaysDistinct(findings: seq<Finding>, allowlist: Allowlist, allowed: bool)
    requires DistinctFindings(findings)
    ensures DistinctFindings(Part(findings, allowlist, allowed))
  {
    if findings != [] {
      PartStaysDistinct(findings[1..], allowlist, allowed);
      var rest := Part(findings[1..], allowlist, allowed);
      forall i | 0 <= i < |rest|
        ensures rest[i].identity != findings[0].identity
      {
        assert rest[i] in findings[1..];
        var k :| 0 <= k < |findings[1..]| && findings[1..][k] == rest[i];
        assert findings[k + 1] == rest[i];
      }
    }
  }

  /** In a distinct scan an identity has one count. */
  lemma FindingCountIs(findings: seq<Finding>, f: Finding)
    requires DistinctFindings(findings) && f in findings
    ensures f.identity in FindingCounts(findings) && FindingCounts(findings)[f.identity] == f.count
  {
  }

  // ----- one write

  lemma FreshIsDistinct(findings: seq<Finding>, allowlist: Allowlist)
    requires DistinctFindings(findings)
    ensures DistinctEntries(Fresh(findings, allowlist).entries)
  {
    PartStaysDistinct(findings, allowlist, false);
  }

  lemma FreshEntries(findings: seq<Finding>, allowlist: Allowlist, e: Entry)
    ensures e in Fresh(findings, allowlist).entries
            <==> Finding(e.identity, e.count) in findings && !IsAllowed(e.identity, allowlist)
  {
  }

  /** What an identity may cost under a baseline; nothing if it is not listed. */
  ghost function Budget(b: Baseline, id: Identity): nat {
    if id in EntryCounts(b.entries) then EntryCounts(b.entries)[id] else 0
  }

  /** `now` allows no identity more than `before` did, lists no identity `before` did not
      list, and does not allow more in total. */
  ghost predicate NoLooser(now: Baseline, before: Baseline) {
    && (forall id :: Budget(now, id) <= Budget(before, id))
    && (forall id :: id in EntryCounts(now.entries) ==> id in EntryCounts(before.entries))
    && Total(now.entries) <= Total(before.entries)
  }

  lemma AcceptedWriteTightens(findings: seq<Finding>, allowlist: Allowlist, b: Baseline)
    requires DistinctFindings(findings)
    requires PolicyHolds(findings, allowlist, Some(b))
    ensures NoLooser(Fresh(findings, allowlist), b)
  {
    hide Fresh, EntryCounts, Total, IsAllowed;
    var now := Fresh(findings, allowlist);
    FreshIsDistinct(findings, allowlist);
    forall e | e in now.entries
      ensures e.identity in EntryCounts(b.entries) && e.count <= EntryCounts(b.entries)[e.identity]
    {
      FreshEntries(findings, allowlist, e);
      var i :| 0 <= i < |findings| && findings[i] == Finding(e.identity, e.count);
      assert Covered(findings[i], allowlist, b.entries);
    }
    forall id | id in EntryCounts(now.entries)
      ensures id in EntryCounts(b.entries) && EntryCounts(now.entries)[id] <= EntryCounts(b.entries)[id]
    {
      assert Entry(id, EntryCounts(now.entries)[id]) in now.entries;
    }
    forall i | 0 <= i < |now.entries|
      ensures Dominated(now.entries[i], b.entries)
    {
      var e := now.entries[i];
      var bound := Entry(e.identity, EntryCounts(b.entries)[e.identity]);
      assert bound in b.entries;
      var j :| 0 <= j < |b.entries| && b.entries[j] == bound;
    }
    DistinctTotalBound(now.entries, b.entries);
  }

  // ----- histories

  /** The ratchet: once there is a baseline, no history of runs, accepted or rejected, with
      whatever scans and allowlists, loosens it. */
  lemma {:induction false} RatchetOnlyTightens(b: Baseline, runs: seq<Run>)
    requires forall i :: 0 <= i < |runs| ==> ValidRun(runs[i])
    ensures After(Some(b), runs).Some?
    ensures NoLooser(After(Some(b), runs).value, b)
    decreases |runs|
  {
    hide Budget, EntryCounts, Fresh, PolicyErrors, Total, DistinctFindings;
    if runs != [] {
      assert ValidRun(runs[0]);
      var next := Next(Some(b), runs[0]).value;
      if next != b {
        NoErrorsIffPolicyHolds(runs[0].findings, runs[0].allowlist, Some(b));
        AcceptedWriteTightens(runs[0].findings, runs[0].allowlist, b);
      }
      RatchetOnlyTightens(next, runs[1..]);
    }
  }

  // ----- acceptance bounds debt

  lemma TotalFoundCons(f: Finding, rest: seq<Finding>)
    ensures TotalFound([f] + rest) == f.count + TotalFound(rest)
  {
    assert EntriesFor([f] + rest) == [Entry(f.identity, f.count)] + EntriesFor(rest);
  }

  lemma {:induction false} SplitTotal(findings: seq<Finding>, allowlist: Allowlist)
    ensures TotalFound(findings)
            == TotalFound(Unallowed(findings, allowlist)) + TotalFound(Part(findings, allowlist, true))
  {
    hide TotalFound, IsAllowed;
    if findings != [] {
      var f, rest := findings[0], findings[1..];
      SplitTotal(rest, allowlist);
      assert findings == [f] + rest;
      TotalFoundCons(f, rest);
      TotalFoundCons(f, Unallowed(rest, allowlist));
      TotalFoundCons(f, Part(rest, allowlist, true));
      assert [] + Unallowed(rest, allowlist) == Unallowed(rest, allowlist);
      assert [] + Part(rest, allowlist, true) == Part(rest, allowlist, true);
    } else {
      NothingFound();
    }
  }

  lemma NothingFound()
    ensures TotalFound([]) == 0
  {
  }

  lemma AllowedIsListed(findings: seq<Finding>, allowlist: Allowlist, b: Option<Baseline>, f: Finding)
    requires DistinctFindings(findings) && PolicyHolds(findings, allowlist, b)
    requires f in findings && IsAllowed(f.identity, allowlist)
    ensures Dominated(Entry(f.identity, f.count), AllowEntries(allowlist.allow))
  {
    hide FindingCounts, FilledAllowance, BaselineHolds, DistinctAllow, DistinctFindings;
    var allow := allowlist.allow;
    FindingCountIs(findings, f);
    var j :| 0 <= j < |allow| && allow[j].identity == f.identity;
    assert AllowanceOk(findings, allow[j]);
    assert AllowEntries(allow)[j] == Entry(f.identity, f.count);
  }

  lemma ListedIsAllowed(findings: seq<Finding>, allowlist: Allowlist, b: Option<Baseline>, j: nat)
    requires PolicyHolds(findings, allowlist, b) && j < |allowlist.allow|
    ensures Dominated(AllowEntries(allowlist.allow)[j], EntriesFor(Part(findings, allowlist, true)))
  {
    hide FindingCounts, Part, FilledAllowance, BaselineHolds, DistinctAllow;
    var a, found := allowlist.allow[j], Part(findings, allowlist, true);
    assert AllowanceOk(findings, a);
    var f := Finding(a.identity, a.count);
    assert f in findings && f in found;
    var i :| 0 <= i < |found| && found[i] == f;
    assert EntriesFor(found)[i].identity == a.identity;
  }

  /** The allowlist accounts for the allowed callsites exactly, not merely from above. */
  lemma AllowedDebtIsExact(findings: seq<Finding>, allowlist: Allowlist, b: Option<Baseline>)
    requires DistinctFindings(findings)
    requires PolicyHolds(findings, allowlist, b)
    ensures TotalFound(Part(findings, allowlist, true)) == Total(AllowEntries(allowlist.allow))
  {
    hide Part, Total, IsAllowed, AllowanceOk, BaselineHolds, DistinctFindings, Dominated;
    var found := Part(findings, allowlist, true);
    var listed, counted := AllowEntries(allowlist.allow), EntriesFor(found);
    PartStaysDistinct(findings, allowlist, true);
    DistinctParts(found, allowlist.allow);
    forall i | 0 <= i < |counted|
      ensures Dominated(counted[i], listed)
    {
      assert found[i] in found;
      AllowedIsListed(findings, allowlist, b, found[i]);
    }
    forall j: nat | j < |listed|
      ensures Dominated(listed[j], counted)
    {
      ListedIsAllowed(findings, allowlist, b, j);
    }
    DistinctTotalBound(counted, listed);
    DistinctTotalBound(listed, counted);
  }

  lemma DistinctParts(found: seq<Finding>, allow: seq<Allowance>)
    ensures DistinctFindings(found) ==> DistinctEntries(EntriesFor(found))
    ensures DistinctAllow(allow) ==> DistinctEntries(AllowEntries(allow))
  {
  }

  /** Everything an accepted check scanned is accounted for by the allowlist or bounded by
      the baseline. */
  lemma AcceptanceBoundsDebt(findings: seq<Finding>, allowlist: Allowlist, b: Baseline)
    requires DistinctFindings(findings)
    requires PolicyErrors(findings, allowlist, Some(b)) == []
    ensures TotalFound(findings)
            == Total(AllowEntries(allowlist.allow)) + Total(Fresh(findings, allowlist).entries)
    ensures Total(Fresh(findings, allowlist).entries) <= Total(b.entries)
  {
    hide PolicyErrors, Total, EntriesFor, AllowEntries, Unallowed, Part, DistinctFindings, PolicyHolds;
    NoErrorsIffPolicyHolds(findings, allowlist, Some(b));
    SplitTotal(findings, allowlist);
    AllowedDebtIsExact(findings, allowlist, Some(b));
    AcceptedWriteTightens(findings, allowlist, b);
  }

  // ----- refreshing

  predicate IsRefreshCandidate(e: Entry, findings: seq<Finding>, allowlist: Allowlist) {
    var counts := FindingCounts(findings);
    || IsAllowed(e.identity, allowlist)
    || e.identity !in counts
    || counts[e.identity] < e.count
  }

  function RefreshCandidates(findings: seq<Finding>, allowlist: Allowlist, entries: seq<Entry>): (n: nat)
    ensures n == 0 <==> forall e :: e in entries ==> !IsRefreshCandidate(e, findings, allowlist)
  {
    if entries == [] then 0
    else
      assert entries == [entries[0]] + entries[1..];
      (if IsRefreshCandidate(entries[0], findings, allowlist) then 1 else 0)
      + RefreshCandidates(findings, allowlist, entries[1..])
  }

  /** Findings with no allowance and no baseline entry. */
  function Unbaselined(findings: seq<Finding>, allowlist: Allowlist, entries: seq<Entry>): (n: nat)
    ensures n == 0 <==> forall f :: f in findings ==> IsAllowed(f.identity, allowlist) || SeenEntry(f.identity, entries)
  {
    if findings == [] then 0
    else
      assert findings == [findings[0]] + findings[1..];
      (if !IsAllowed(findings[0].identity, allowlist) && !SeenEntry(findings[0].identity, entries) then 1 else 0)
      + Unbaselined(findings[1..], allowlist, entries)
  }

  ghost function Candidates(findings: seq<Finding>, allowlist: Allowlist, entries: seq<Entry>): set<nat> {
    set i: nat | i < |entries| && IsRefreshCandidate(entries[i], findings, allowlist)
  }

  /** The numbers a check prints are those of the entries and findings they speak of. */
  lemma {:induction false} CandidatesAreCounted(findings: seq<Finding>, allowlist: Allowlist, entries: seq<Entry>)
    ensures RefreshCandidates(findings, allowlist, entries) == |Candidates(findings, allowlist, entries)|
    decreases |entries|
  {
    hide IsRefreshCandidate;
    if entries == [] {
      assert Candidates(findings, allowlist, entries) == {};
    } else {
      CandidatesAreCounted(findings, allowlist, entries[1..]);
      PlacesOnFront(Candidates(findings, allowlist, entries), Candidates(findings, allowlist, entries[1..]),
                    IsRefreshCandidate(entries[0], findings, allowlist));
    }
  }

  predicate IsUnbaselined(f: Finding, allowlist: Allowlist, entries: seq<Entry>) {
    !IsAllowed(f.identity, allowlist) && !SeenEntry(f.identity, entries)
  }

  ghost function UnbaselinedAt(findings: seq<Finding>, allowlist: Allowlist, entries: seq<Entry>): set<nat> {
    set i: nat | i < |findings| && IsUnbaselined(findings[i], allowlist, entries)
  }

  lemma UnbaselinedOnFront(findings: seq<Finding>, allowlist: Allowlist, entries: seq<Entry>)
    requires findings != []
    ensures Unbaselined(findings, allowlist, entries)
            == Unbaselined(findings[1..], allowlist, entries) + if IsUnbaselined(findings[0], allowlist, entries) then 1 else 0
  {
  }

  lemma {:induction false} UnbaselinedAreCounted(findings: seq<Finding>, allowlist: Allowlist, entries: seq<Entry>)
    ensures Unbaselined(findings, allowlist, entries) == |UnbaselinedAt(findings, allowlist, entries)|
    decreases |findings|
  {
    hide IsUnbaselined;
    if findings == [] {
      assert UnbaselinedAt(findings, allowlist, entries) == {};
    } else {
      UnbaselinedAreCounted(findings[1..], allowlist, entries);
      UnbaselinedOnFront(findings, allowlist, entries);
      PlacesOnFront(UnbaselinedAt(findings, allowlist, entries), UnbaselinedAt(findings[1..], allowlist, entries),
                    IsUnbaselined(findings[0], allowlist, entries));
    }
  }

  /** Refreshing an accepted baseline lowers its total exactly when there is a refresh
      candidate. */
  lemma RefreshShrinksIffCandidates(findings: seq<Finding>, allowlist: Allowlist, b: Baseline)
    requires DistinctFindings(findings)
    requires PolicyErrors(findings, allowlist, Some(b)) == []
    ensures Total(Fresh(findings, allowlist).entries) < Total(b.entries)
            <==> RefreshCandidates(findings, allowlist, b.entries) > 0
  {
    hide PolicyErrors, RefreshCandidates, Total, FindingCounts, Fresh, IsAllowed, FilledIdentity;
    NoErrorsIffPolicyHolds(findings, allowlist, Some(b));
    if RefreshCandidates(findings, allowlist, b.entries) > 0 {
      var e :| e in b.entries && IsRefreshCandidate(e, findings, allowlist);
      CandidateShrinks(findings, allowlist, b, e);
    } else {
      NoCandidateKeeps(findings, allowlist, b);
    }
  }

  lemma CandidateShrinks(findings: seq<Finding>, allowlist: Allowlist, b: Baseline, e: Entry)
    requires DistinctFindings(findings)
    requires PolicyHolds(findings, allowlist, Some(b))
    requires e in b.entries && IsRefreshCandidate(e, findings, allowlist)
    ensures Total(Fresh(findings, allowlist).entries) < Total(b.entries)
  {
    hide Total, FindingCounts, EntryCounts, Fresh, IsAllowed, FilledIdentity;
    var now := Fresh(findings, allowlist).entries;
    var k :| 0 <= k < |b.entries| && b.entries[k] == e;
    assert EntryOk(b.entries[k]);
    // Entry k can be lowered by one and still dominate what is left of it.
    var lowered := b.entries[k := Entry(e.identity, e.count - 1)];
    FreshIsDistinct(findings, allowlist);
    forall i | 0 <= i < |now|
      ensures Dominated(now[i], lowered)
    {
      var x := now[i];
      FreshEntries(findings, allowlist, x);
      var f := Finding(x.identity, x.count);
      FindingCountIs(findings, f);
      var n :| 0 <= n < |findings| && findings[n] == f;
      assert Covered(findings[n], allowlist, b.entries);
      var bound := Entry(x.identity, EntryCounts(b.entries)[x.identity]);
      var j :| 0 <= j < |b.entries| && b.entries[j] == bound;
      assert x.count <= lowered[j].count;
      assert lowered[j].identity == x.identity;
    }
    DistinctTotalBound(now, lowered);
    TotalWithout(b.entries, k);
    TotalWithout(lowered, k);
  }

  lemma NoCandidateKeeps(findings: seq<Finding>, allowlist: Allowlist, b: Baseline)
    requires DistinctFindings(findings)
    requires PolicyHolds(findings, allowlist, Some(b))
    requires forall e :: e in b.entries ==> !IsRefreshCandidate(e, findings, allowlist)
    ensures Total(Fresh(findings, allowlist).entries) >= Total(b.entries)
  {
    hide Total, FindingCounts, EntryCounts, Fresh, IsAllowed, FilledIdentity;
    var now := Fresh(findings, allowlist).entries;
    forall j | 0 <= j < |b.entries|
      ensures Dominated(b.entries[j], now)
    {
      var e := b.entries[j];
      assert !IsRefreshCandidate(e, findings, allowlist);
      var x := Entry(e.identity, FindingCounts(findings)[e.identity]);
      FreshEntries(findings, allowlist, x);
      var i :| 0 <= i < |now| && now[i] == x;
      assert now[i].identity == e.identity;
    }
    DistinctTotalBound(b.entries, now);
  }

  /** An accepted check reports no unbaselined identity. */
  lemma AcceptedHasNoUnbaselined(findings: seq<Finding>, allowlist: Allowlist, b: Baseline)
    requires PolicyErrors(findings, allowlist, Some(b)) == []
    ensures Unbaselined(findings, allowlist, b.entries) == 0
  {
    hide PolicyErrors, Unbaselined, IsAllowed, FilledIdentity;
    NoErrorsIffPolicyHolds(findings, allowlist, Some(b));
    forall f | f in findings
      ensures IsAllowed(f.identity, allowlist) || SeenEntry(f.identity, b.entries)
    {
      var i :| 0 <= i < |findings| && findings[i] == f;
      assert Covered(findings[i], allowlist, b.entries);
    }
  }

  ghost predicate WellScanned(f: Finding) {
    FilledIdentity(f.identity) && f.count > 0
  }

  lemma FreshCovers(findings: seq<Finding>, allowlist: Allowlist, f: Finding)
    requires DistinctFindings(findings) && f in findings
    ensures Covered(f, allowlist, Fresh(findings, allowlist).entries)
    ensures IsAllowed(f.identity, allowlist) || SeenEntry(f.identity, Fresh(findings, allowlist).entries)
  {
  }

  lemma FreshHasNoCandidate(findings: seq<Finding>, allowlist: Allowlist, e: Entry)
    requires DistinctFindings(findings) && e in Fresh(findings, allowlist).entries
    ensures !IsRefreshCandidate(e, findings, allowlist)
  {
  }

  lemma FreshEntriesOk(findings: seq<Finding>, allowlist: Allowlist)
    ensures (forall i :: 0 <= i < |Fresh(findings, allowlist).entries| ==> EntryOk(Fresh(findings, allowlist).entries[i]))
            <==> (forall f :: f in Unallowed(findings, allowlist) ==> WellScanned(f))
  {
    hide Part, FilledIdentity;
    var debt := Unallowed(findings, allowlist);
    var entries := EntriesFor(debt);
    assert forall i :: 0 <= i < |debt| ==> (EntryOk(entries[i]) <==> WellScanned(debt[i]));
    if forall i :: 0 <= i < |entries| ==> EntryOk(entries[i]) {
      forall f | f in debt
        ensures WellScanned(f)
      {
        var i :| 0 <= i < |debt| && debt[i] == f;
        assert EntryOk(entries[i]);
      }
    } else {
      var i :| 0 <= i < |entries| && !EntryOk(entries[i]);
      assert debt[i] in debt && !WellScanned(debt[i]);
      assert Fresh(findings, allowlist).entries[i] == entries[i];
    }
  }

  /** Write-then-check: after an accepted write, the same scan and allowlist against the
      fresh baseline have nothing to refresh and nothing unbaselined; and they are accepted
      exactly when every unallowed finding has non-blank fields and a positive count. */
  lemma WriteThenCheck(findings: seq<Finding>, allowlist: Allowlist, b: Option<Baseline>)
    requires DistinctFindings(findings)
    requires PolicyErrors(findings, allowlist, b) == []
    ensures var now := Fresh(findings, allowlist);
      && (PolicyErrors(findings, allowlist, Some(now)) == []
          <==> forall f :: f in Unallowed(findings, allowlist) ==> WellScanned(f))
      && RefreshCandidates(findings, allowlist, now.entries) == 0
      && Unbaselined(findings, allowlist, now.entries) == 0
  {
    hide PolicyErrors, Unallowed, Fresh, RefreshCandidates, Unbaselined, Covered, EntryOk, AllowanceOk, WellScanned;
    var now := Fresh(findings, allowlist);
    NoErrorsIffPolicyHolds(findings, allowlist, b);
    NoErrorsIffPolicyHolds(findings, allowlist, Some(now));
    FreshIsDistinct(findings, allowlist);
    FreshSchema(findings, allowlist);
    FreshEntriesOk(findings, allowlist);
    forall e | e in now.entries
      ensures !IsRefreshCandidate(e, findings, allowlist)
    {
      FreshHasNoCandidate(findings, allowlist, e);
    }
    forall f | f in findings
      ensures Covered(f, allowlist, now.entries)
      ensures IsAllowed(f.identity, allowlist) || SeenEntry(f.identity, now.entries)
    {
      FreshCovers(findings, allowlist, f);
    }
    assert forall i :: 0 <= i < |findings| ==> findings[i] in findings;
  }

  lemma FreshSchema(findings: seq<Finding>, allowlist: Allowlist)
    ensures Fresh(findings, allowlist).schemaVersion == SCHEMA_VERSION
  {
  }
}
