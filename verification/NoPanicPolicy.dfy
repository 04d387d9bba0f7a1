/** The no-panic debt policy: scanned panic-family callsites against an exact allowlist
    and an upper-bound baseline. */
module NoPanicPolicy {
  import opened Common
  import opened Text

  datatype Identity = Identity(path: string, family: string, selectorKind: string, selectorCallee: string, snippet: string)

  datatype Finding = Finding(identity: Identity, count: nat)

  datatype Allowance = Allowance(identity: Identity, count: nat, owner: string, reason: string, reviewAfter: string)

  datatype Allowlist = Allowlist(schemaVersion: string, allow: seq<Allowance>)

  datatype Entry = Entry(identity: Identity, count: nat)

  datatype Baseline = Baseline(schemaVersion: string, entries: seq<Entry>)

  const SCHEMA_VERSION := "1.0"

  datatype PolicyError =
    | AllowlistSchema(found: string)
    | BlankAllowField(field: string, identity: Identity)
    | ZeroAllowCount(identity: Identity)
    | DuplicateAllow(identity: Identity)
    | AllowMismatch(identity: Identity, expected: nat, actual: nat)
    | StaleAllow(identity: Identity)
    | BaselineSchema(found: string)
    | BlankBaselineField(field: string, identity: Identity)
    | ZeroBaselineCount(identity: Identity)
    | DuplicateBaseline(identity: Identity)
    | BaselineIncreased(identity: Identity, baselined: nat, actual: nat)
    | NewIdentity(identity: Identity, count: nat)

  function IdentityFields(id: Identity): seq<(string, string)> {
    [("path", id.path), ("family", id.family), ("selector_kind", id.selectorKind),
     ("selector_callee", id.selectorCallee), ("snippet", id.snippet)]
  }

  function AllowanceFields(a: Allowance): seq<(string, string)> {
    IdentityFields(a.identity) + [("owner", a.owner), ("reason", a.reason), ("review_after", a.reviewAfter)]
  }

  predicate NoBlank(fields: seq<(string, string)>) {
    forall i :: 0 <= i < |fields| ==> !IsBlank(fields[i].1)
  }

  predicate SeenAllow(id: Identity, allow: seq<Allowance>) {
    exists i :: 0 <= i < |allow| && allow[i].identity == id
  }

  predicate IsAllowed(id: Identity, allowlist: Allowlist) {
    SeenAllow(id, allowlist.allow)
  }

  // ----- look-up tables

  /** A later finding overwrites an earlier one. */
  function FindingCounts(findings: seq<Finding>): (m: map<Identity, nat>)
    ensures forall id :: id in m <==> exists i :: 0 <= i < |findings| && findings[i].identity == id
    ensures forall id :: id in m ==> Finding(id, m[id]) in findings
  {
    if findings == [] then map[]
    else
      var last := findings[|findings| - 1];
      FindingCounts(findings[..|findings| - 1])[last.identity := last.count]
  }

  /** The first entry for an identity counts; later ones are duplicates. */
  function EntryCounts(entries: seq<Entry>): (m: map<Identity, nat>)
    ensures forall id :: id in m <==> exists i :: 0 <= i < |entries| && entries[i].identity == id
    ensures forall id :: id in m ==> Entry(id, m[id]) in entries
  {
    if entries == [] then map[]
    else
      var last := entries[|entries| - 1];
      var m := EntryCounts(entries[..|entries| - 1]);
      if last.identity in m then m else m[last.identity := last.count]
  }

  // ----- the error report

  function BlankFields(fields: seq<(string, string)>): (names: seq<string>)
    ensures names == [] <==> NoBlank(fields)
    ensures forall n :: n in names <==> exists i :: 0 <= i < |fields| && fields[i].0 == n && IsBlank(fields[i].1)
  {
    if fields == [] then []
    else (if IsBlank(fields[0].1) then [fields[0].0] else []) + BlankFields(fields[1..])
  }

  function BlankAllow(names: seq<string>, id: Identity): seq<PolicyError> {
    seq(|names|, i requires 0 <= i < |names| => BlankAllowField(names[i], id))
  }

  function BlankBaseline(names: seq<string>, id: Identity): seq<PolicyError> {
    seq(|names|, i requires 0 <= i < |names| => BlankBaselineField(names[i], id))
  }

  predicate SeenEntry(id: Identity, entries: seq<Entry>) {
    exists i :: 0 <= i < |entries| && entries[i].identity == id
  }

  /** What one allowance contributes, given the ones before it. */
  function AllowanceErrors(findings: seq<Finding>, before: seq<Allowance>, a: Allowance): seq<PolicyError> {
    BlankAllow(BlankFields(AllowanceFields(a)), a.identity)
    + (if a.count == 0 then [ZeroAllowCount(a.identity)] else [])
    + (if SeenAllow(a.identity, before) then [DuplicateAllow(a.identity)]
       else
         var counts := FindingCounts(findings);
         if a.identity !in counts then [StaleAllow(a.identity)]
         else if counts[a.identity] == a.count then []
         else [AllowMismatch(a.identity, a.count, counts[a.identity])])
  }

  function AllowErrors(findings: seq<Finding>, allow: seq<Allowance>): seq<PolicyError> {
    if allow == [] then []
    else
      var n := |allow| - 1;
      AllowErrors(findings, allow[..n]) + AllowanceErrors(findings, allow[..n], allow[n])
  }

  function EntryErrors(before: seq<Entry>, e: Entry): seq<PolicyError> {
    BlankBaseline(BlankFields(IdentityFields(e.identity)), e.identity)
    + (if e.count == 0 then [ZeroBaselineCount(e.identity)] else [])
    + (if SeenEntry(e.identity, before) then [DuplicateBaseline(e.identity)] else [])
  }

  function ShapeErrors(entries: seq<Entry>): seq<PolicyError> {
    if entries == [] then []
    else
      var n := |entries| - 1;
      ShapeErrors(entries[..n]) + EntryErrors(entries[..n], entries[n])
  }

  function FindingErrors(f: Finding, allowlist: Allowlist, entries: seq<Entry>): seq<PolicyError> {
    var counts := EntryCounts(entries);
    if IsAllowed(f.identity, allowlist) then []
    else if f.identity !in counts then [NewIdentity(f.identity, f.count)]
    else if f.count <= counts[f.identity] then []
    else [BaselineIncreased(f.identity, counts[f.identity], f.count)]
  }

  function DebtErrors(findings: seq<Finding>, allowlist: Allowlist, entries: seq<Entry>): seq<PolicyError> {
    if findings == [] then []
    else
      var n := |findings| - 1;
      DebtErrors(findings[..n], allowlist, entries) + FindingErrors(findings[n], allowlist, entries)
  }

  function BaselineErrors(findings: seq<Finding>, allowlist: Allowlist, b: Baseline): seq<PolicyError> {
    (if b.schemaVersion != SCHEMA_VERSION then [BaselineSchema(b.schemaVersion)] else [])
    + ShapeErrors(b.entries)
    + DebtErrors(findings, allowlist, b.entries)
  }

  function PolicyErrors(findings: seq<Finding>, allowlist: Allowlist, b: Option<Baseline>): seq<PolicyError> {
    (if allowlist.schemaVersion != SCHEMA_VERSION then [AllowlistSchema(allowlist.schemaVersion)] else [])
    + AllowErrors(findings, allowlist.allow)
    + (if b.Some? then BaselineErrors(findings, allowlist, b.value) else [])
  }

  // ----- the declarative policy

  ghost predicate DistinctFindings(findings: seq<Finding>) {
    forall i, j :: 0 <= i < j < |findings| ==> findings[i].identity != findings[j].identity
  }

  ghost predicate DistinctAllow(allow: seq<Allowance>) {
    forall i, j :: 0 <= i < j < |allow| ==> allow[i].identity != allow[j].identity
  }

  ghost predicate DistinctEntries(entries: seq<Entry>) {
    forall i, j :: 0 <= i < j < |entries| ==> entries[i].identity != entries[j].identity
  }

  ghost predicate FilledIdentity(id: Identity) {
    && !IsBlank(id.path) && !IsBlank(id.family) && !IsBlank(id.selectorKind)
    && !IsBlank(id.selectorCallee) && !IsBlank(id.snippet)
  }

  ghost predicate FilledAllowance(a: Allowance) {
    FilledIdentity(a.identity) && !IsBlank(a.owner) && !IsBlank(a.reason) && !IsBlank(a.reviewAfter)
  }

  ghost predicate AllowanceOk(findings: seq<Finding>, a: Allowance) {
    && FilledAllowance(a)
    && a.count > 0
    && a.identity in FindingCounts(findings)
    && FindingCounts(findings)[a.identity] == a.count
  }

  ghost predicate EntryOk(e: Entry) {
    FilledIdentity(e.identity) && e.count > 0
  }

  /** Unallowed debt is bounded by a baseline entry. */
  ghost predicate Covered(f: Finding, allowlist: Allowlist, entries: seq<Entry>) {
    IsAllowed(f.identity, allowlist)
    || (f.identity in EntryCounts(entries) && f.count <= EntryCounts(entries)[f.identity])
  }

  ghost predicate BaselineHolds(findings: seq<Finding>, allowlist: Allowlist, b: Baseline) {
    && b.schemaVersion == "1.0"
    && (forall i :: 0 <= i < |b.entries| ==> EntryOk(b.entries[i]))
    && DistinctEntries(b.entries)
    && (forall i :: 0 <= i < |findings| ==> Covered(findings[i], allowlist, b.entries))
  }

  ghost predicate PolicyHolds(findings: seq<Finding>, allowlist: Allowlist, b: Option<Baseline>) {
    && allowlist.schemaVersion == "1.0"
    && (forall i :: 0 <= i < |allowlist.allow| ==> AllowanceOk(findings, allowlist.allow[i]))
    && DistinctAllow(allowlist.allow)
    && (b.Some? ==> BaselineHolds(findings, allowlist, b.value))
  }

  /** The field tables name every text field of an identity and of an allowance. */
  lemma IdentityFieldsAreAll(id: Identity)
    ensures NoBlank(IdentityFields(id)) <==> FilledIdentity(id)
  {
    hide IsBlank;
    var fields := IdentityFields(id);
    assert fields[0].1 == id.path && fields[1].1 == id.family && fields[2].1 == id.selectorKind;
    assert fields[3].1 == id.selectorCallee && fields[4].1 == id.snippet;
  }

  lemma AllowanceFieldsAreAll(a: Allowance)
    ensures NoBlank(AllowanceFields(a)) <==> FilledAllowance(a)
  {
    hide IsBlank;
    var fields := AllowanceFields(a);
    IdentityFieldsAreAll(a.identity);
    assert fields[..5] == IdentityFields(a.identity);
    assert forall i :: 0 <= i < 5 ==> fields[i] == IdentityFields(a.identity)[i];
    assert fields[5].1 == a.owner && fields[6].1 == a.reason && fields[7].1 == a.reviewAfter;
  }

  lemma AllowanceErrorsEmpty(findings: seq<Finding>, before: seq<Allowance>, a: Allowance)
    ensures AllowanceErrors(findings, before, a) == [] <==> AllowanceOk(findings, a) && !SeenAllow(a.identity, before)
  {
    hide NoBlank, FindingCounts, SeenAllow, FilledAllowance, AllowanceFields;
    AllowanceFieldsAreAll(a);
  }

  lemma DistinctAllowSnoc(before: seq<Allowance>, a: Allowance)
    ensures DistinctAllow(before + [a]) <==> DistinctAllow(before) && !SeenAllow(a.identity, before)
  {
    var allow := before + [a];
    assert forall i :: 0 <= i < |before| ==> allow[i] == before[i];
    assert allow[|before|] == a;
  }

  lemma {:induction false} AllowErrorsEmpty(findings: seq<Finding>, allow: seq<Allowance>)
    ensures AllowErrors(findings, allow) == []
            <==> DistinctAllow(allow) && forall i :: 0 <= i < |allow| ==> AllowanceOk(findings, allow[i])
  {
    hide AllowanceOk, SeenAllow, AllowanceErrors;
    if allow != [] {
      var n := |allow| - 1;
      AllowErrorsEmpty(findings, allow[..n]);
      AllowanceErrorsEmpty(findings, allow[..n], allow[n]);
      assert allow == allow[..n] + [allow[n]];
      DistinctAllowSnoc(allow[..n], allow[n]);
    }
  }

  lemma EntryErrorsEmpty(before: seq<Entry>, e: Entry)
    ensures EntryErrors(before, e) == [] <==> EntryOk(e) && !SeenEntry(e.identity, before)
  {
    hide NoBlank, SeenEntry, FilledIdentity, IdentityFields;
    IdentityFieldsAreAll(e.identity);
  }

  lemma DistinctEntriesSnoc(before: seq<Entry>, e: Entry)
    ensures DistinctEntries(before + [e]) <==> DistinctEntries(before) && !SeenEntry(e.identity, before)
  {
    var entries := before + [e];
    assert forall i :: 0 <= i < |before| ==> entries[i] == before[i];
    assert entries[|before|] == e;
  }

  lemma {:induction false} ShapeErrorsEmpty(entries: seq<Entry>)
    ensures ShapeErrors(entries) == []
            <==> DistinctEntries(entries) && forall i :: 0 <= i < |entries| ==> EntryOk(entries[i])
  {
    hide EntryOk, SeenEntry, EntryErrors;
    if entries != [] {
      var n := |entries| - 1;
      ShapeErrorsEmpty(entries[..n]);
      EntryErrorsEmpty(entries[..n], entries[n]);
      assert entries == entries[..n] + [entries[n]];
      DistinctEntriesSnoc(entries[..n], entries[n]);
    }
  }

  lemma {:induction false} DebtErrorsEmpty(findings: seq<Finding>, allowlist: Allowlist, entries: seq<Entry>)
    ensures DebtErrors(findings, allowlist, entries) == []
            <==> forall i :: 0 <= i < |findings| ==> Covered(findings[i], allowlist, entries)
  {
    hide IsAllowed, EntryCounts;
    if findings != [] {
      var n := |findings| - 1;
      DebtErrorsEmpty(findings[..n], allowlist, entries);
      assert FindingErrors(findings[n], allowlist, entries) == [] <==> Covered(findings[n], allowlist, entries);
      assert forall i :: 0 <= i < n ==> findings[..n][i] == findings[i];
    }
  }

  /** The report is empty exactly when the policy holds. */
  lemma NoErrorsIffPolicyHolds(findings: seq<Finding>, allowlist: Allowlist, b: Option<Baseline>)
    ensures PolicyErrors(findings, allowlist, b) == [] <==> PolicyHolds(findings, allowlist, b)
  {
    hide AllowErrors, ShapeErrors, DebtErrors, AllowanceOk, EntryOk, Covered;
    AllowErrorsEmpty(findings, allowlist.allow);
    if b.Some? {
      ShapeErrorsEmpty(b.value.entries);
      DebtErrorsEmpty(findings, allowlist, b.value.entries);
    }
  }
}
