/** What each reported policy error means: an error is in the report exactly when the
    scan, the allowlist and the baseline justify it. */
module NoPanicReport {
  import opened Common
  import opened Text
  import opened NoPanicPolicy

  /** Allowance `i` is the first of its identity. */
  ghost predicate FirstAllow(allow: seq<Allowance>, i: nat) {
    i < |allow| && forall j :: 0 <= j < i ==> allow[j].identity != allow[i].identity
  }

  function EntriesOf(b: Option<Baseline>): seq<Entry> {
    if b.Some? then b.value.entries else []
  }

  /** The text field named `field` is blank. */
  ghost predicate BlankInIdentity(field: string, id: Identity) {
    || (field == "path" && IsBlank(id.path))
    || (field == "family" && IsBlank(id.family))
    || (field == "selector_kind" && IsBlank(id.selectorKind))
    || (field == "selector_callee" && IsBlank(id.selectorCallee))
    || (field == "snippet" && IsBlank(id.snippet))
  }

  ghost predicate BlankInAllowance(field: string, a: Allowance) {
    || BlankInIdentity(field, a.identity)
    || (field == "owner" && IsBlank(a.owner))
    || (field == "reason" && IsBlank(a.reason))
    || (field == "review_after" && IsBlank(a.reviewAfter))
  }

  lemma BlankIdentityFields(field: string, id: Identity)
    ensures field in BlankFields(IdentityFields(id)) <==> BlankInIdentity(field, id)
  {
    hide IsBlank;
    var fields := IdentityFields(id);
    assert fields[0] == ("path", id.path) && fields[1] == ("family", id.family);
    assert fields[2] == ("selector_kind", id.selectorKind) && fields[3] == ("selector_callee", id.selectorCallee);
    assert fields[4] == ("snippet", id.snippet);
  }

  lemma BlankAllowanceFields(field: string, a: Allowance)
    ensures field in BlankFields(AllowanceFields(a)) <==> BlankInAllowance(field, a)
  {
    hide IsBlank, BlankInIdentity;
    var fields, identity := AllowanceFields(a), IdentityFields(a.identity);
    BlankIdentityFields(field, a.identity);
    assert forall i :: 0 <= i < 5 ==> fields[i] == identity[i];
    assert fields[5] == ("owner", a.owner) && fields[6] == ("reason", a.reason);
    assert fields[7] == ("review_after", a.reviewAfter);
  }

  ghost predicate Justified(e: PolicyError, findings: seq<Finding>, allowlist: Allowlist, b: Option<Baseline>) {
    var allow := allowlist.allow;
    var entries := EntriesOf(b);
    match e
    case AllowlistSchema(found) =>
      found == allowlist.schemaVersion && found != "1.0"
    case BlankAllowField(field, id) =>
      exists i :: 0 <= i < |allow| && allow[i].identity == id && BlankInAllowance(field, allow[i])
    case ZeroAllowCount(id) =>
      exists i :: 0 <= i < |allow| && allow[i].identity == id && allow[i].count == 0
    case DuplicateAllow(id) =>
      exists i, j :: 0 <= i < j < |allow| && allow[i].identity == id && allow[j].identity == id
    case StaleAllow(id) =>
      SeenAllow(id, allow) && id !in FindingCounts(findings)
    case AllowMismatch(id, expected, actual) =>
      && id in FindingCounts(findings) && FindingCounts(findings)[id] == actual && actual != expected
      && exists i: nat :: FirstAllow(allow, i) && allow[i].identity == id && allow[i].count == expected
    case BaselineSchema(found) =>
      b.Some? && found == b.value.schemaVersion && found != "1.0"
    case BlankBaselineField(field, id) =>
      exists i :: 0 <= i < |entries| && entries[i].identity == id && BlankInIdentity(field, id)
    case ZeroBaselineCount(id) =>
      Entry(id, 0) in entries
    case DuplicateBaseline(id) =>
      exists i, j :: 0 <= i < j < |entries| && entries[i].identity == id && entries[j].identity == id
    case NewIdentity(id, count) =>
      && b.Some? && Finding(id, count) in findings && !IsAllowed(id, allowlist)
      && !SeenEntry(id, entries)
    case BaselineIncreased(id, baselined, actual) =>
      && b.Some? && Finding(id, actual) in findings && !IsAllowed(id, allowlist)
      && SeenEntry(id, entries) && EntryCounts(entries)[id] == baselined < actual
  }

  lemma {:induction false} InAllowErrors(e: PolicyError, findings: seq<Finding>, allow: seq<Allowance>)
    ensures e in AllowErrors(findings, allow)
            <==> exists k :: 0 <= k < |allow| && e in AllowanceErrors(findings, allow[..k], allow[k])
  {
    hide AllowanceErrors;
    if allow != [] {
      var n := |allow| - 1;
      InAllowErrors(e, findings, allow[..n]);
      forall k | 0 <= k < n
        ensures allow[..n][k] == allow[k] && allow[..n][..k] == allow[..k]
      {
      }
    }
  }

  lemma {:induction false} InShapeErrors(e: PolicyError, entries: seq<Entry>)
    ensures e in ShapeErrors(entries)
            <==> exists k :: 0 <= k < |entries| && e in EntryErrors(entries[..k], entries[k])
  {
    hide EntryErrors;
    if entries != [] {
      var n := |entries| - 1;
      InShapeErrors(e, entries[..n]);
      forall k | 0 <= k < n
        ensures entries[..n][k] == entries[k] && entries[..n][..k] == entries[..k]
      {
      }
    }
  }

  lemma {:induction false} InDebtErrors(e: PolicyError, findings: seq<Finding>, allowlist: Allowlist, entries: seq<Entry>)
    ensures e in DebtErrors(findings, allowlist, entries)
            <==> exists k :: 0 <= k < |findings| && e in FindingErrors(findings[k], allowlist, entries)
  {
    hide FindingErrors;
    if findings != [] {
      var n := |findings| - 1;
      InDebtErrors(e, findings[..n], allowlist, entries);
      forall k | 0 <= k < n
        ensures findings[..n][k] == findings[k]
      {
      }
    }
  }

  lemma InAllowanceErrors(e: PolicyError, findings: seq<Finding>, before: seq<Allowance>, a: Allowance)
    ensures e in AllowanceErrors(findings, before, a) <==>
      var seen := SeenAllow(a.identity, before);
      var counts := FindingCounts(findings);
      || (e.BlankAllowField? && e.identity == a.identity && BlankInAllowance(e.field, a))
      || (e == ZeroAllowCount(a.identity) && a.count == 0)
      || (e == DuplicateAllow(a.identity) && seen)
      || (e == StaleAllow(a.identity) && !seen && a.identity !in counts)
      || (!seen && a.identity in counts && counts[a.identity] != a.count
          && e == AllowMismatch(a.identity, a.count, counts[a.identity]))
  {
    hide BlankFields, SeenAllow, BlankInAllowance;
    var names := BlankFields(AllowanceFields(a));
    if e.BlankAllowField? {
      BlankAllowanceFields(e.field, a);
    }
    assert e in BlankAllow(names, a.identity)
           <==> (e.BlankAllowField? && e.identity == a.identity && e.field in names) by {
      if e.BlankAllowField? && e.identity == a.identity && e.field in names {
        var i :| 0 <= i < |names| && names[i] == e.field;
        assert BlankAllow(names, a.identity)[i] == e;
      }
    }
  }

  lemma InEntryErrors(e: PolicyError, before: seq<Entry>, x: Entry)
    ensures e in EntryErrors(before, x) <==>
      || (e.BlankBaselineField? && e.identity == x.identity && BlankInIdentity(e.field, x.identity))
      || (e == ZeroBaselineCount(x.identity) && x.count == 0)
      || (e == DuplicateBaseline(x.identity) && SeenEntry(x.identity, before))
  {
    hide BlankFields, SeenEntry, BlankInIdentity;
    var names := BlankFields(IdentityFields(x.identity));
    if e.BlankBaselineField? {
      BlankIdentityFields(e.field, x.identity);
    }
    assert e in BlankBaseline(names, x.identity)
           <==> (e.BlankBaselineField? && e.identity == x.identity && e.field in names) by {
      if e.BlankBaselineField? && e.identity == x.identity && e.field in names {
        var i :| 0 <= i < |names| && names[i] == e.field;
        assert BlankBaseline(names, x.identity)[i] == e;
      }
    }
  }

  /** An allowance whose identity was not seen before it is the first of its identity. */
  lemma FirstAllowIsUnseen(allow: seq<Allowance>, k: nat)
    requires k < |allow|
    ensures FirstAllow(allow, k) <==> !SeenAllow(allow[k].identity, allow[..k])
    ensures SeenAllow(allow[k].identity, allow[..k])
            <==> exists i :: 0 <= i < k && allow[i].identity == allow[k].identity
  {
  }

  lemma {:induction false} FirstAllowExists(allow: seq<Allowance>, i: nat) returns (k: nat)
    requires i < |allow|
    ensures FirstAllow(allow, k) && allow[k].identity == allow[i].identity
  {
    k := i;
    if j :| 0 <= j < i && allow[j].identity == allow[i].identity {
      k := FirstAllowExists(allow, j);
    }
  }

  lemma AllowReport(e: PolicyError, findings: seq<Finding>, allowlist: Allowlist, b: Option<Baseline>)
    requires e.BlankAllowField? || e.ZeroAllowCount? || e.DuplicateAllow? || e.StaleAllow? || e.AllowMismatch?
    ensures e in AllowErrors(findings, allowlist.allow) <==> Justified(e, findings, allowlist, b)
  {
    hide AllowErrors, AllowanceErrors, FindingCounts, BlankInAllowance;
    var allow := allowlist.allow;
    InAllowErrors(e, findings, allow);
    if e in AllowErrors(findings, allow) {
      var k :| 0 <= k < |allow| && e in AllowanceErrors(findings, allow[..k], allow[k]);
      InAllowanceErrors(e, findings, allow[..k], allow[k]);
      FirstAllowIsUnseen(allow, k);
    }
    if Justified(e, findings, allowlist, b) {
      var k := AllowWitness(e, findings, allowlist, b);
      InAllowanceErrors(e, findings, allow[..k], allow[k]);
      FirstAllowIsUnseen(allow, k);
    }
  }

  /** The allowance at which a justified error is pushed. */
  lemma AllowWitness(e: PolicyError, findings: seq<Finding>, allowlist: Allowlist, b: Option<Baseline>) returns (k: nat)
    requires e.BlankAllowField? || e.ZeroAllowCount? || e.DuplicateAllow? || e.StaleAllow? || e.AllowMismatch?
    requires Justified(e, findings, allowlist, b)
    ensures k < |allowlist.allow| && allowlist.allow[k].identity == e.identity
    ensures e.BlankAllowField? ==> BlankInAllowance(e.field, allowlist.allow[k])
    ensures e.ZeroAllowCount? ==> allowlist.allow[k].count == 0
    ensures e.DuplicateAllow? ==> !FirstAllow(allowlist.allow, k)
    ensures e.StaleAllow? || e.AllowMismatch? ==> FirstAllow(allowlist.allow, k)
    ensures e.AllowMismatch? ==> allowlist.allow[k].count == e.expected
  {
    hide FindingCounts, BlankInAllowance;
    var allow := allowlist.allow;
    match e
    case BlankAllowField(field, id) =>
      k :| k < |allow| && allow[k].identity == id && BlankInAllowance(field, allow[k]);
    case ZeroAllowCount(id) =>
      k :| k < |allow| && allow[k].identity == id && allow[k].count == 0;
    case DuplicateAllow(id) =>
      var i, j :| 0 <= i < j < |allow| && allow[i].identity == id && allow[j].identity == id;
      k := j;
    case StaleAllow(id) =>
      var i :| 0 <= i < |allow| && allow[i].identity == id;
      k := FirstAllowExists(allow, i);
    case AllowMismatch(id, expected, actual) =>
      k :| FirstAllow(allow, k) && allow[k].identity == id && allow[k].count == expected;
  }

  lemma ShapeReport(e: PolicyError, findings: seq<Finding>, allowlist: Allowlist, b: Baseline)
    requires e.BlankBaselineField? || e.ZeroBaselineCount? || e.DuplicateBaseline?
    ensures e in ShapeErrors(b.entries) <==> Justified(e, findings, allowlist, Some(b))
  {
    hide ShapeErrors, EntryErrors, BlankInIdentity;
    var entries := EntriesOf(Some(b));
    InShapeErrors(e, entries);
    if e in ShapeErrors(entries) {
      var k :| 0 <= k < |entries| && e in EntryErrors(entries[..k], entries[k]);
      InEntryErrors(e, entries[..k], entries[k]);
      assert entries[k].identity == e.identity;
      if e.DuplicateBaseline? {
        var i :| 0 <= i < |entries[..k]| && entries[..k][i].identity == e.identity;
        assert entries[i].identity == e.identity;
      } else if e.ZeroBaselineCount? {
        assert entries[k] == Entry(e.identity, 0);
      }
    }
    if Justified(e, findings, allowlist, Some(b)) {
      var k: nat;
      if e.BlankBaselineField? {
        k :| k < |entries| && entries[k].identity == e.identity;
      } else if e.ZeroBaselineCount? {
        k :| k < |entries| && entries[k] == Entry(e.identity, 0);
      } else {
        var i, j :| 0 <= i < j < |entries| && entries[i].identity == e.identity && entries[j].identity == e.identity;
        k := j;
        assert SeenEntry(e.identity, entries[..j]) by {
          assert entries[..j][i].identity == e.identity;
        }
      }
      InEntryErrors(e, entries[..k], entries[k]);
      assert e in EntryErrors(entries[..k], entries[k]);
    }
  }

  lemma DebtReport(e: PolicyError, findings: seq<Finding>, allowlist: Allowlist, b: Baseline)
    requires e.NewIdentity? || e.BaselineIncreased?
    ensures e in DebtErrors(findings, allowlist, b.entries) <==> Justified(e, findings, allowlist, Some(b))
  {
    hide DebtErrors, IsAllowed;
    InDebtErrors(e, findings, allowlist, b.entries);
    if Justified(e, findings, allowlist, Some(b)) {
      var f := Finding(e.identity, if e.NewIdentity? then e.count else e.actual);
      var k :| 0 <= k < |findings| && findings[k] == f;
      assert e in FindingErrors(findings[k], allowlist, b.entries);
    }
  }

  lemma {:induction false} AllowErrorKinds(e: PolicyError, findings: seq<Finding>, allow: seq<Allowance>)
    requires e in AllowErrors(findings, allow)
    ensures e.BlankAllowField? || e.ZeroAllowCount? || e.DuplicateAllow? || e.StaleAllow? || e.AllowMismatch?
  {
    hide AllowErrors;
    InAllowErrors(e, findings, allow);
  }

  lemma {:induction false} ShapeErrorKinds(e: PolicyError, entries: seq<Entry>)
    requires e in ShapeErrors(entries)
    ensures e.BlankBaselineField? || e.ZeroBaselineCount? || e.DuplicateBaseline?
  {
    hide ShapeErrors;
    InShapeErrors(e, entries);
  }

  lemma {:induction false} DebtErrorKinds(e: PolicyError, findings: seq<Finding>, allowlist: Allowlist, entries: seq<Entry>)
    requires e in DebtErrors(findings, allowlist, entries)
    ensures e.NewIdentity? || e.BaselineIncreased?
  {
    hide DebtErrors;
    InDebtErrors(e, findings, allowlist, entries);
  }

  /** The report is exact, error by error. */
  lemma ReportIsExact(e: PolicyError, findings: seq<Finding>, allowlist: Allowlist, b: Option<Baseline>)
    ensures e in PolicyErrors(findings, allowlist, b) <==> Justified(e, findings, allowlist, b)
  {
    hide AllowErrors, ShapeErrors, DebtErrors, Justified;
    var inAllow := e in AllowErrors(findings, allowlist.allow);
    if inAllow {
      AllowErrorKinds(e, findings, allowlist.allow);
    }
    if b.Some? {
      if e in ShapeErrors(b.value.entries) {
        ShapeErrorKinds(e, b.value.entries);
      }
      if e in DebtErrors(findings, allowlist, b.value.entries) {
        DebtErrorKinds(e, findings, allowlist, b.value.entries);
      }
    }
    ReportByKind(e, findings, allowlist, b);
  }

  lemma ReportByKind(e: PolicyError, findings: seq<Finding>, allowlist: Allowlist, b: Option<Baseline>)
    ensures match e
      case AllowlistSchema(_) => Justified(e, findings, allowlist, b)
                                 <==> e.found == allowlist.schemaVersion && e.found != "1.0"
      case BaselineSchema(_) => Justified(e, findings, allowlist, b)
                                <==> b.Some? && e.found == b.value.schemaVersion && e.found != "1.0"
      case BlankBaselineField(_, _) | ZeroBaselineCount(_) | DuplicateBaseline(_) =>
        Justified(e, findings, allowlist, b) <==> b.Some? && e in ShapeErrors(b.value.entries)
      case NewIdentity(_, _) | BaselineIncreased(_, _, _) =>
        Justified(e, findings, allowlist, b) <==> b.Some? && e in DebtErrors(findings, allowlist, b.value.entries)
      case _ => Justified(e, findings, allowlist, b) <==> e in AllowErrors(findings, allowlist.allow)
  {
    hide AllowErrors, ShapeErrors, DebtErrors;
    match e
    case AllowlistSchema(_) =>
    case BaselineSchema(_) =>
    case BlankBaselineField(_, _) => if b.Some? { ShapeReport(e, findings, allowlist, b.value); }
    case ZeroBaselineCount(_) => if b.Some? { ShapeReport(e, findings, allowlist, b.value); }
    case DuplicateBaseline(_) => if b.Some? { ShapeReport(e, findings, allowlist, b.value); }
    case NewIdentity(_, _) => if b.Some? { DebtReport(e, findings, allowlist, b.value); }
    case BaselineIncreased(_, _, _) => if b.Some? { DebtReport(e, findings, allowlist, b.value); }
    case _ => AllowReport(e, findings, allowlist, b);
  }

  // ----- the look-up tables

  /** Of several findings for an identity the last is counted. */
  lemma {:induction false} LastFindingCounts(findings: seq<Finding>, k: nat)
    requires k < |findings|
    requires forall j :: k < j < |findings| ==> findings[j].identity != findings[k].identity
    ensures findings[k].identity in FindingCounts(findings)
    ensures FindingCounts(findings)[findings[k].identity] == findings[k].count
  {
    var n := |findings| - 1;
    if k < n {
      LastFindingCounts(findings[..n], k);
      assert findings[n].identity != findings[k].identity;
    }
  }

  lemma EntryCountsUnfold(entries: seq<Entry>)
    requires entries != []
    ensures var n := |entries| - 1;
            var m := EntryCounts(entries[..n]);
            EntryCounts(entries) == if entries[n].identity in m then m else m[entries[n].identity := entries[n].count]
  {
  }

  /** Of several baseline entries for an identity the first is counted. */
  lemma {:induction false} FirstEntryCounts(entries: seq<Entry>, k: nat)
    requires k < |entries|
    requires forall j :: 0 <= j < k ==> entries[j].identity != entries[k].identity
    ensures entries[k].identity in EntryCounts(entries)
    ensures EntryCounts(entries)[entries[k].identity] == entries[k].count
  {
    hide EntryCounts;
    var n := |entries| - 1;
    EntryCountsUnfold(entries);
    if k < n {
      FirstEntryCounts(entries[..n], k);
    } else {
      assert forall i :: 0 <= i < n ==> entries[..n][i].identity != entries[k].identity;
    }
  }
}
