/** `policy check-no-panic-family`: the error collectors in the program's own form, and the
    command as a step on the baseline file. */
module NoPanicGate {
  import opened Common
  import opened Text
  import opened NoPanicPolicy
  import opened NoPanicReport
  import opened NoPanicRatchet
  import opened TomlBaseline

  lemma BlankFieldsSnoc(fields: seq<(string, string)>, f: (string, string))
    ensures BlankFields(fields + [f]) == BlankFields(fields) + (if IsBlank(f.1) then [f.0] else [])
  {
    hide IsBlank;
    var last := if IsBlank(f.1) then [f.0] else [];
    if fields == [] {
      assert fields + [f] == [f] && [f][1..] == [];
      assert BlankFields([]) + last == last == last + BlankFields([]);
    } else {
      BlankFieldsSnoc(fields[1..], f);
      assert (fields + [f])[1..] == fields[1..] + [f];
      var head := if IsBlank(fields[0].1) then [fields[0].0] else [];
      assert head + (BlankFields(fields[1..]) + last) == head + BlankFields(fields[1..]) + last;
    }
  }

  /** The names of the blank fields, in order. */
  method BlankFieldNames(fields: seq<(string, string)>) returns (names: seq<string>)
    ensures names == BlankFields(fields)
  {
    names := [];
    assert fields[..0] == [];
    assert BlankFields([]) == [];
    hide *;
    for i := 0 to |fields|
      invariant names == BlankFields(fields[..i])
    {
      assert fields[..i + 1] == fields[..i] + [fields[i]];
      BlankFieldsSnoc(fields[..i], fields[i]);
      if IsBlank(fields[i].1) {
        names := names + [fields[i].0];
      }
    }
    assert fields[..|fields|] == fields;
  }

  method ValidateAllowance(a: Allowance, pushed: seq<PolicyError>) returns (errors: seq<PolicyError>)
    ensures errors == pushed + (BlankAllow(BlankFields(AllowanceFields(a)), a.identity)
                                + (if a.count == 0 then [ZeroAllowCount(a.identity)] else []))
  {
    var names := BlankFieldNames(AllowanceFields(a));
    errors := pushed + BlankAllow(names, a.identity);
    if a.count == 0 {
      errors := errors + [ZeroAllowCount(a.identity)];
    }
  }

  method ValidateEntry(e: Entry, pushed: seq<PolicyError>) returns (errors: seq<PolicyError>)
    ensures errors == pushed + (BlankBaseline(BlankFields(IdentityFields(e.identity)), e.identity)
                                + (if e.count == 0 then [ZeroBaselineCount(e.identity)] else []))
  {
    var names := BlankFieldNames(IdentityFields(e.identity));
    errors := pushed + BlankBaseline(names, e.identity);
    if e.count == 0 {
      errors := errors + [ZeroBaselineCount(e.identity)];
    }
  }

  method CountFindings(findings: seq<Finding>) returns (counts: map<Identity, nat>)
    ensures counts == FindingCounts(findings)
  {
    counts := map[];
    for k := 0 to |findings|
      invariant counts == FindingCounts(findings[..k])
    {
      assert findings[..k + 1][..k] == findings[..k];
      counts := counts[findings[k].identity := findings[k].count];
    }
    assert findings[..|findings|] == findings;
  }

  lemma AllowStep(findings: seq<Finding>, allow: seq<Allowance>, k: nat)
    requires k < |allow|
    ensures AllowErrors(findings, allow[..k + 1])
            == AllowErrors(findings, allow[..k]) + AllowanceErrors(findings, allow[..k], allow[k])
  {
    hide AllowanceErrors;
    assert allow[..k + 1][..k] == allow[..k];
  }

  /** The allowlist loop: field checks always, then duplicates, then the exact count. */
  method CollectAllowErrors(findings: seq<Finding>, allow: seq<Allowance>, pushed: seq<PolicyError>)
    returns (errors: seq<PolicyError>)
    ensures errors == pushed + AllowErrors(findings, allow)
  {
    var findingCounts := CountFindings(findings);
    var seen: set<Identity> := {};
    errors := pushed;
    hide AllowErrors, SeenAllow, FindingCounts, BlankFields, BlankAllow, AllowanceFields;
    NoAllowYet(findings, allow);
    for k := 0 to |allow|
      invariant errors == pushed + AllowErrors(findings, allow[..k])
      invariant forall id :: id in seen <==> SeenAllow(id, allow[..k])
    {
      var allowance := allow[k];
      ghost var before := errors;
      AllowStep(findings, allow, k);
      errors := ValidateAllowance(allowance, errors);
      if allowance.identity in seen {
        errors := errors + [DuplicateAllow(allowance.identity)];
      } else {
        if allowance.identity !in findingCounts {
          errors := errors + [StaleAllow(allowance.identity)];
        } else if findingCounts[allowance.identity] != allowance.count {
          errors := errors + [AllowMismatch(allowance.identity, allowance.count, findingCounts[allowance.identity])];
        }
      }
      seen := seen + {allowance.identity};
      assert errors == before + AllowanceErrors(findings, allow[..k], allowance);
      SeenAllowSnoc(allow, k);
    }
    assert allow[..|allow|] == allow;
  }

  lemma NoAllowYet(findings: seq<Finding>, allow: seq<Allowance>)
    ensures AllowErrors(findings, allow[..0]) == []
    ensures forall id :: !SeenAllow(id, allow[..0])
  {
  }

  lemma SeenAllowSnoc(allow: seq<Allowance>, k: nat)
    requires k < |allow|
    ensures forall id :: SeenAllow(id, allow[..k + 1]) <==> SeenAllow(id, allow[..k]) || id == allow[k].identity
  {
  }

  lemma SeenEntrySnoc(entries: seq<Entry>, k: nat)
    requires k < |entries|
    ensures forall id :: SeenEntry(id, entries[..k + 1]) <==> SeenEntry(id, entries[..k]) || id == entries[k].identity
  {
  }

  lemma ShapeStep(entries: seq<Entry>, k: nat)
    requires k < |entries|
    ensures ShapeErrors(entries[..k + 1]) == ShapeErrors(entries[..k]) + EntryErrors(entries[..k], entries[k])
    ensures EntryCounts(entries[..k + 1])
            == var m := EntryCounts(entries[..k]);
               if entries[k].identity in m then m else m[entries[k].identity := entries[k].count]
    ensures entries[k].identity in EntryCounts(entries[..k]) <==> SeenEntry(entries[k].identity, entries[..k])
  {
    hide EntryErrors;
    assert entries[..k + 1][..k] == entries[..k];
  }

  lemma NoEntryYet(entries: seq<Entry>)
    ensures ShapeErrors(entries[..0]) == [] && EntryCounts(entries[..0]) == map[]
    ensures forall id :: !SeenEntry(id, entries[..0])
  {
  }

  /** The first baseline loop: shape errors, and the count of each identity's first entry. */
  method CollectShapeErrors(entries: seq<Entry>, pushed: seq<PolicyError>)
    returns (errors: seq<PolicyError>, baselineCounts: map<Identity, nat>)
    ensures errors == pushed + ShapeErrors(entries)
    ensures baselineCounts == EntryCounts(entries)
  {
    errors, baselineCounts := pushed, map[];
    var seen: set<Identity> := {};
    NoEntryYet(entries);
    hide ShapeErrors, EntryCounts, SeenEntry, BlankFields, BlankBaseline, IdentityFields;
    for k := 0 to |entries|
      invariant errors == pushed + ShapeErrors(entries[..k])
      invariant forall id :: id in seen <==> SeenEntry(id, entries[..k])
      invariant baselineCounts == EntryCounts(entries[..k])
    {
      var entry := entries[k];
      ghost var before := errors;
      ShapeStep(entries, k);
      SeenEntrySnoc(entries, k);
      errors := ValidateEntry(entry, errors);
      if entry.identity in seen {
        errors := errors + [DuplicateBaseline(entry.identity)];
        assert errors == before + EntryErrors(entries[..k], entry);
        continue;
      }
      assert errors == before + EntryErrors(entries[..k], entry);
      seen := seen + {entry.identity};
      baselineCounts := baselineCounts[entry.identity := entry.count];
    }
    assert entries[..|entries|] == entries;
  }

  /** The second baseline loop: unallowed debt against the baseline counts. */
  method CollectDebtErrors(findings: seq<Finding>, allowlist: Allowlist, entries: seq<Entry>,
                           baselineCounts: map<Identity, nat>, pushed: seq<PolicyError>)
    returns (errors: seq<PolicyError>)
    requires baselineCounts == EntryCounts(entries)
    ensures errors == pushed + DebtErrors(findings, allowlist, entries)
  {
    hide EntryCounts, IsAllowed;
    errors := pushed;
    for k := 0 to |findings|
      invariant errors == pushed + DebtErrors(findings[..k], allowlist, entries)
    {
      var finding := findings[k];
      assert findings[..k + 1][..k] == findings[..k];
      if IsAllowed(finding.identity, allowlist) {
        continue;
      }
      if finding.identity !in baselineCounts {
        errors := errors + [NewIdentity(finding.identity, finding.count)];
      } else if finding.count > baselineCounts[finding.identity] {
        errors := errors + [BaselineIncreased(finding.identity, baselineCounts[finding.identity], finding.count)];
      }
    }
    assert findings[..|findings|] == findings;
  }

  /** `collect_no_panic_policy_errors` with its baseline half: the errors reported are the
      justified ones, and there are none exactly when the policy holds. */
  method CollectNoPanicPolicyErrors(findings: seq<Finding>, allowlist: Allowlist, b: Option<Baseline>)
    returns (errors: seq<PolicyError>)
    ensures errors == PolicyErrors(findings, allowlist, b)
    ensures errors == [] <==> PolicyHolds(findings, allowlist, b)
    ensures forall e :: e in errors <==> Justified(e, findings, allowlist, b)
  {
    hide AllowErrors, ShapeErrors, DebtErrors, EntryCounts, PolicyHolds, Justified;
    errors := [];
    if allowlist.schemaVersion != SCHEMA_VERSION {
      errors := errors + [AllowlistSchema(allowlist.schemaVersion)];
    }
    errors := CollectAllowErrors(findings, allowlist.allow, errors);
    if b.Some? {
      ghost var before := errors;
      if b.value.schemaVersion != SCHEMA_VERSION {
        errors := errors + [BaselineSchema(b.value.schemaVersion)];
      }
      var counts;
      errors, counts := CollectShapeErrors(b.value.entries, errors);
      errors := CollectDebtErrors(findings, allowlist, b.value.entries, counts, errors);
      assert errors == before + BaselineErrors(findings, allowlist, b.value);
    }
    assert errors == PolicyErrors(findings, allowlist, b);
    NoErrorsIffPolicyHolds(findings, allowlist, b);
    forall e
      ensures e in errors <==> Justified(e, findings, allowlist, b)
    {
      ReportIsExact(e, findings, allowlist, b);
    }
  }

  /** What the command prints or fails with. */
  datatype Outcome =
    | MissingBaseline
    | UnreadableBaseline
    | Rejected(errors: seq<PolicyError>)
    | Written
    | Checked(scanned: nat, allowed: nat, baselined: nat, unbaselined: nat, refreshable: nat)

  /** The totals printed by an accepted check. */
  function DebtOutcome(findings: seq<Finding>, allowlist: Allowlist, b: Baseline): Outcome {
    Checked(TotalFound(findings), Total(AllowEntries(allowlist.allow)), Total(b.entries),
            Unbaselined(findings, allowlist, b.entries), RefreshCandidates(findings, allowlist, b.entries))
  }

  method TotalCount(entries: seq<Entry>) returns (sum: nat)
    ensures sum == Total(entries)
  {
    sum := 0;
    assert entries[0..] == entries;
    for i := 0 to |entries|
      invariant sum + Total(entries[i..]) == Total(entries)
    {
      assert entries[i..][1..] == entries[i + 1..];
      sum := sum + entries[i].count;
    }
  }

  /** The command over the text of the baseline file; `None` when there is no such file. */
  class NoPanicGate {
    var file: Option<string>

    constructor (file: Option<string>)
      ensures this.file == file
    {
      this.file := file;
    }

    /** The baseline the next run will read. */
    ghost function Current(): Option<Baseline>
      reads this
    {
      if file.Some? then ReadBaseline(file.value) else None
    }

    /** `cmd_check_no_panic_family`. A run on a missing or readable baseline leaves what
        `Next` says to be read by the next one; a run on an unreadable one changes nothing. */
    method Check(findings: seq<Finding>, allowlist: Allowlist, write: bool) returns (outcome: Outcome)
      modifies this
      ensures Current() == if old(file.Some? && Current().None?) || (!write && old(file).None?) then old(Current())
                           else Next(old(Current()), Run(findings, allowlist, write))
      ensures !(outcome == Written) ==> file == old(file)
      ensures outcome == MissingBaseline <==> old(file).None? && !write
      ensures outcome == UnreadableBaseline <==> old(file).Some? && old(Current()).None?
      ensures outcome.Rejected? ==> outcome.errors != [] && outcome.errors == PolicyErrors(findings, allowlist, old(Current()))
      ensures outcome == Written || outcome.Checked? ==> PolicyErrors(findings, allowlist, old(Current())) == []
      ensures outcome == Written ==> write && file.Some? && Current() == Some(Fresh(findings, allowlist))
      ensures outcome.Checked? ==> !write && old(Current()).Some? && outcome.unbaselined == 0
      ensures outcome.Checked? && old(Current()).Some?
              ==> outcome == DebtOutcome(findings, allowlist, old(Current()).value)
      ensures outcome.Checked? && DistinctFindings(findings)
              ==> outcome.allowed <= outcome.scanned <= outcome.allowed + outcome.baselined
    {
      hide *;
      var baseline := None;
      if file.Some? {
        baseline := ReadBaseline(file.value);
        if baseline.None? {
          assert Current() == None by { CurrentIsRead(); }
          return UnreadableBaseline;
        }
      } else if !write {
        return MissingBaseline;
      }
      assert baseline == Current() by { CurrentIsRead(); }
      var errors := CollectNoPanicPolicyErrors(findings, allowlist, baseline);
      NextIs(baseline, findings, allowlist, write);
      if errors != [] {
        return Rejected(errors);
      }
      if write {
        var output := WriteNoPanicBaseline(findings, allowlist);
        file := Some(output);
        CurrentIsRead();
        return Written;
      }
      var scanned := TotalCount(EntriesFor(findings));
      var allowed := TotalCount(AllowEntries(allowlist.allow));
      var baselined := TotalCount(baseline.value.entries);
      var unbaselined := Unbaselined(findings, allowlist, baseline.value.entries);
      var refreshable := RefreshCandidates(findings, allowlist, baseline.value.entries);
      AcceptedHasNoUnbaselined(findings, allowlist, baseline.value);
      FoundIs(findings);
      if DistinctFindings(findings) {
        AcceptanceBoundsDebt(findings, allowlist, baseline.value);
      }
      DebtOutcomeIs(findings, allowlist, baseline.value);
      return Checked(scanned, allowed, baselined, unbaselined, refreshable);
    }

    lemma CurrentIsRead()
      ensures Current() == if file.Some? then ReadBaseline(file.value) else None
    {
    }
  }

  lemma DebtOutcomeIs(findings: seq<Finding>, allowlist: Allowlist, b: Baseline)
    ensures DebtOutcome(findings, allowlist, b)
            == Checked(TotalFound(findings), Total(AllowEntries(allowlist.allow)), Total(b.entries),
                       Unbaselined(findings, allowlist, b.entries), RefreshCandidates(findings, allowlist, b.entries))
  {
  }

  lemma FoundIs(findings: seq<Finding>)
    ensures TotalFound(findings) == Total(EntriesFor(findings))
  {
  }

  lemma NextIs(b: Option<Baseline>, findings: seq<Finding>, allowlist: Allowlist, write: bool)
    ensures Next(b, Run(findings, allowlist, write))
            == if write && PolicyErrors(findings, allowlist, b) == [] then Some(Fresh(findings, allowlist)) else b
  {
  }
}
