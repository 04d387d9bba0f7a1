/** The local fallback store, and what a history of saves leaves in it.

    The store is a directory per project; a directory is a map from file name to content.
    Project, benchmark and version names hold no path separator. A file holds a record or
    does not parse; the record codec itself is taken to be exact. */
module FallbackStore {
  import opened Common
  import opened Retry

  /** The fields of `BaselineRecord` and `UploadBaselineRequest` that the store looks at;
      `receipt` stands for the rest. */
  datatype Record<P> = Record(project: string, benchmark: string, version: string, receipt: P, createdAt: nat)

  datatype Request<P> = Request(benchmark: string, version: Option<string>, receipt: P)

  datatype Content<P> = Json(record: Record<P>) | Malformed

  type Directory<P> = map<string, Content<P>>

  function FileName(benchmark: string, version: string): string {
    benchmark + "-" + version + ".json"
  }

  /** `name.starts_with("{benchmark}-") && name.ends_with(".json")` */
  predicate Matches(name: string, benchmark: string) {
    && benchmark + "-" <= name
    && |name| >= 5 && name[|name| - 5..] == ".json"
  }

  function NewRecord<P>(project: string, r: Request<P>, stamp: string, now: nat): Record<P> {
    Record(project, r.benchmark, if r.version.Some? then r.version.value else stamp, r.receipt, now)
  }

  // ----- newest wins

  /** What `get_latest_baseline` should find: a record of a matching file, none newer. */
  ghost predicate IsLatest<P>(dir: Directory<P>, benchmark: string, record: Record<P>) {
    && (exists name :: name in dir && Matches(name, benchmark) && dir[name] == Json(record))
    && (forall name :: name in dir && Matches(name, benchmark) && dir[name].Json?
                       ==> dir[name].record.createdAt <= record.createdAt)
  }

  ghost predicate AnyMatch<P>(dir: Directory<P>, benchmark: string) {
    exists name :: name in dir && Matches(name, benchmark)
  }

  ghost predicate AnyMalformed<P>(dir: Directory<P>, benchmark: string) {
    exists name :: name in dir && Matches(name, benchmark) && dir[name] == Malformed
  }

  /** Every answer `get_latest_baseline` may give, whatever the order of enumeration: the
      newest record, a parse error as soon as one matching file is malformed, not found
      without a directory or a matching file. */
  ghost predicate LatestAnswer<P>(dirs: map<string, Directory<P>>, project: string, benchmark: string,
                                  r: Result<Record<P>, ClientError>) {
    if project !in dirs || !AnyMatch(dirs[project], benchmark) then r.Err? && r.error.NotFoundError?
    else if AnyMalformed(dirs[project], benchmark) then r == Err(ParseError)
    else r.Ok? && IsLatest(dirs[project], benchmark, r.value)
  }

  /** The answer of `get_baseline_version`: what the version's file holds. */
  ghost predicate VersionAnswer<P>(dirs: map<string, Directory<P>>, project: string, benchmark: string, version: string,
                                   r: Result<Record<P>, ClientError>) {
    var name := FileName(benchmark, version);
    if project !in dirs || name !in dirs[project] then r.Err? && r.error.NotFoundError?
    else if dirs[project][name].Malformed? then r == Err(ParseError)
    else r == Ok(dirs[project][name].record)
  }

  class LocalFallbackStorage<P> {
    var dirs: map<string, Directory<P>>

    constructor ()
      ensures dirs == map[]
    {
      dirs := map[];
    }

    /** `listing` is the order in which the directory happens to be enumerated. */
    method GetLatestBaseline(project: string, benchmark: string, listing: seq<string>)
      returns (r: Result<Record<P>, ClientError>)
      requires project in dirs ==> forall name :: name in listing <==> name in dirs[project]
      ensures LatestAnswer(dirs, project, benchmark, r)
    {
      if project !in dirs {
        return Err(NotFoundError(project + "/" + benchmark));
      }
      var dir := dirs[project];
      var latest: Option<Record<P>> := None;
      for i := 0 to |listing|
        invariant forall k :: 0 <= k < i && Matches(listing[k], benchmark) ==> dir[listing[k]].Json?
        invariant latest == None <==> forall k :: 0 <= k < i ==> !Matches(listing[k], benchmark)
        invariant latest.Some? ==> exists k :: 0 <= k < i && Matches(listing[k], benchmark) && dir[listing[k]] == Json(latest.value)
        invariant latest.Some? ==> forall k :: 0 <= k < i && Matches(listing[k], benchmark)
                                     ==> dir[listing[k]].record.createdAt <= latest.value.createdAt
      {
        var name := listing[i];
        if Matches(name, benchmark) {
          if dir[name].Malformed? {
            return Err(ParseError);
          }
          var record := dir[name].record;
          if latest.None? {
            latest := Some(record);
          } else if record.createdAt > latest.value.createdAt {
            latest := Some(record);
          }
        }
      }
      forall name | name in dir && Matches(name, benchmark)
        ensures exists k :: 0 <= k < |listing| && listing[k] == name
      {
        assert name in listing;
      }
      if latest.None? {
        return Err(NotFoundError(project + "/" + benchmark));
      }
      return Ok(latest.value);
    }

    method GetBaselineVersion(project: string, benchmark: string, version: string)
      returns (r: Result<Record<P>, ClientError>)
      ensures VersionAnswer(dirs, project, benchmark, version, r)
    {
      var fileName := FileName(benchmark, version);
      if project !in dirs || fileName !in dirs[project] {
        return Err(NotFoundError(benchmark + "/" + version));
      }
      match dirs[project][fileName]
      case Json(record) => return Ok(record);
      case Malformed => return Err(ParseError);
    }

    /** `stamp` is the formatted clock used when no version is given, `now` the clock read
        for the record. */
    method SaveBaseline(project: string, request: Request<P>, stamp: string, now: nat) returns (version: string)
      modifies this
      ensures version == NewRecord(project, request, stamp, now).version
      ensures dirs == Saved(old(dirs), Save(project, request, stamp, now))
    {
      if project !in dirs {
        dirs := dirs[project := map[]];
      }
      version := if request.version.Some? then request.version.value else stamp;
      var record := Record(project, request.benchmark, version, request.receipt, now);
      var fileName := FileName(request.benchmark, version);
      dirs := dirs[project := dirs[project][fileName := Json(record)]];
    }
  }

  /** What an upload leaves, field by field: one file, named by benchmark and version, the
      stamp standing for a version not given; no other file or project is touched. */
  lemma SavedFields<P>(dirs: map<string, Directory<P>>, s: Save<P>)
    ensures var version := match s.request.version case Some(v) => v case None => s.stamp;
      var name := s.request.benchmark + "-" + version + ".json";
      var after := Saved(dirs, s);
      && s.project in after && name in after[s.project]
      && after[s.project][name] == Json(Record(s.project, s.request.benchmark, version, s.request.receipt, s.now))
      && (forall other :: other != name
            ==> (other in after[s.project] <==> s.project in dirs && other in dirs[s.project]))
      && (forall other :: other != name && s.project in dirs && other in dirs[s.project]
            ==> after[s.project][other] == dirs[s.project][other])
      && (forall project :: project != s.project ==> (project in after <==> project in dirs))
      && (forall project :: project != s.project && project in dirs ==> after[project] == dirs[project])
  {
  }

  // ----- histories of saves

  datatype Save<P> = Save(project: string, request: Request<P>, stamp: string, now: nat)

  function RecordOf<P>(s: Save<P>): Record<P> {
    NewRecord(s.project, s.request, s.stamp, s.now)
  }

  function FileOf<P>(s: Save<P>): string {
    FileName(RecordOf(s).benchmark, RecordOf(s).version)
  }

  function Saved<P>(dirs: map<string, Directory<P>>, s: Save<P>): map<string, Directory<P>> {
    var dir: Directory<P> := if s.project in dirs then dirs[s.project] else map[];
    dirs[s.project := dir[FileOf(s) := Json(RecordOf(s))]]
  }

  function AfterSaves<P>(saves: seq<Save<P>>): map<string, Directory<P>> {
    if saves == [] then map[] else Saved(AfterSaves(saves[..|saves| - 1]), saves[|saves| - 1])
  }

  /** The last save in `saves` that put its record into file `name` of `project`. */
  ghost predicate LastIn<P>(saves: seq<Save<P>>, k: nat, project: string, name: string) {
    && k < |saves| && saves[k].project == project && FileOf(saves[k]) == name
    && forall j :: k < j < |saves| ==> !(saves[j].project == project && FileOf(saves[j]) == name)
  }

  lemma SavedLooksUp<P>(dirs: map<string, Directory<P>>, s: Save<P>, project: string, name: string)
    ensures var after := Saved(dirs, s);
      var here := s.project == project && FileOf(s) == name;
      && (project in after <==> project in dirs || s.project == project)
      && (project in after && name in after[project] <==> here || (project in dirs && name in dirs[project]))
      && (here ==> after[project][name] == Json(RecordOf(s)))
      && (!here && project in dirs && name in dirs[project] ==> after[project][name] == dirs[project][name])
  {
    hide FileOf, RecordOf;
  }

  /** A file holds the record of the last save under its name, and exists if there was one. */
  lemma {:induction false} FileHoldsLastSave<P>(saves: seq<Save<P>>, project: string, name: string)
    ensures var dirs := AfterSaves(saves);
      && (project in dirs && name in dirs[project]
          <==> exists i :: 0 <= i < |saves| && saves[i].project == project && FileOf(saves[i]) == name)
      && (project in dirs <==> exists i :: 0 <= i < |saves| && saves[i].project == project)
      && (project in dirs && name in dirs[project]
          ==> exists k: nat :: LastIn(saves, k, project, name) && dirs[project][name] == Json(RecordOf(saves[k])))
  {
    hide FileOf, RecordOf, Saved;
    if saves != [] {
      var n := |saves| - 1;
      var before := saves[..n];
      FileHoldsLastSave(before, project, name);
      var dirs := AfterSaves(before);
      SavedLooksUp(dirs, saves[n], project, name);
      if saves[n].project == project && FileOf(saves[n]) == name {
        assert LastIn(saves, n, project, name);
      } else if project in dirs && name in dirs[project] {
        var k: nat :| LastIn(before, k, project, name) && dirs[project][name] == Json(RecordOf(before[k]));
        assert saves[k] == before[k];
        assert LastIn(saves, k, project, name) by {
          forall j | k < j < |saves|
            ensures !(saves[j].project == project && FileOf(saves[j]) == name)
          {
            assert j < n ==> saves[j] == before[j];
          }
        }
      }
      assert forall i :: 0 <= i < n ==> saves[i] == before[i];
    }
  }

  ghost predicate ClockIncreases<P>(saves: seq<Save<P>>) {
    forall i, j :: 0 <= i < j < |saves| ==> saves[i].now < saves[j].now
  }

  ghost predicate LastMatching<P>(saves: seq<Save<P>>, k: nat, project: string, benchmark: string) {
    && k < |saves| && saves[k].project == project && Matches(FileOf(saves[k]), benchmark)
    && forall j :: k < j < |saves| ==> !(saves[j].project == project && Matches(FileOf(saves[j]), benchmark))
  }

  lemma LastMatchingIsLastIn<P>(saves: seq<Save<P>>, k: nat, project: string, benchmark: string)
    requires LastMatching(saves, k, project, benchmark)
    ensures LastIn(saves, k, project, FileOf(saves[k]))
  {
  }

  /** Any order of enumeration, any overwriting: with an increasing clock the latest baseline
      is the record of the last save whose file name passes the filter, and only that one. */
  lemma LatestIsLastSave<P>(saves: seq<Save<P>>, k: nat, project: string, benchmark: string, r: Record<P>)
    requires ClockIncreases(saves)
    requires LastMatching(saves, k, project, benchmark)
    ensures var dirs := AfterSaves(saves);
      && project in dirs && AnyMatch(dirs[project], benchmark) && !AnyMalformed(dirs[project], benchmark)
      && (IsLatest(dirs[project], benchmark, r) <==> r == RecordOf(saves[k]))
  {
    hide AfterSaves, FileOf, Matches;
    var name := FileOf(saves[k]);
    var dirs := AfterSaves(saves);
    FileHoldsLastSave(saves, project, name);
    LastMatchingIsLastIn(saves, k, project, benchmark);
    var dir := dirs[project];
    var k': nat :| LastIn(saves, k', project, name) && dir[name] == Json(RecordOf(saves[k']));
    assert k' == k;
    forall n | n in dir && Matches(n, benchmark)
      ensures exists j: nat :: j <= k && dir[n] == Json(RecordOf(saves[j]))
    {
      FileHoldsLastSave(saves, project, n);
      var j: nat :| LastIn(saves, j, project, n) && dir[n] == Json(RecordOf(saves[j]));
      assert j <= k;
    }
    forall j: nat | j <= k
      ensures RecordOf(saves[j]).createdAt <= RecordOf(saves[k]).createdAt
      ensures j < k ==> RecordOf(saves[j]).createdAt < RecordOf(saves[k]).createdAt
    {
      assert RecordOf(saves[j]).createdAt == saves[j].now;
    }
    if IsLatest(dir, benchmark, r) {
      var n :| n in dir && Matches(n, benchmark) && dir[n] == Json(r);
      var j: nat :| j <= k && dir[n] == Json(RecordOf(saves[j]));
      assert dir[name].record.createdAt <= r.createdAt;
      assert j == k;
    }
  }

  // ----- whose files pass the filter

  /** The filter, spelled out: the benchmark and a dash in front, `.json` at the end. */
  lemma MatchesSpelled(name: string, benchmark: string)
    ensures Matches(name, benchmark)
            <==> && (exists rest: string :: name == benchmark + "-" + rest)
                 && (exists front: string :: name == front + ".json")
  {
    if Matches(name, benchmark) {
      assert name == benchmark + "-" + name[|benchmark| + 1..];
      assert name == name[..|name| - 5] + ".json";
    }
  }

  /** The name filter reads only the part before `.json`. */
  lemma MatchesIff(benchmark: string, other: string, version: string)
    ensures Matches(FileName(other, version), benchmark) <==> benchmark + "-" <= other + "-" + version
  {
    var name := FileName(other, version);
    var stem := other + "-" + version;
    var prefix := benchmark + "-";
    assert name == stem + ".json";
    assert name[|name| - 5..] == ".json";
    forall i | |stem| <= i < |name|
      ensures name[i] != '-'
    {
      assert name[i] == ".json"[i - |stem|];
    }
    if prefix <= name {
      assert name[|benchmark|] == '-' by {
        assert prefix[|benchmark|] == '-';
        assert name[..|prefix|] == prefix;
      }
      assert name[..|prefix|] == stem[..|prefix|];
    }
    if prefix <= stem {
      assert name[..|prefix|] == stem[..|prefix|];
    }
  }

  /** The name `other` extends `{benchmark}-`, or `other` and the front of `version` spell
      `{benchmark}-`. */
  ghost predicate Spells(other: string, version: string, benchmark: string) {
    benchmark + "-" <= other || exists w: string :: benchmark == other + "-" + w && w + "-" <= version
  }

  /** A save of another benchmark passes the filter in exactly these two ways. */
  lemma ForeignMatchIff(benchmark: string, other: string, version: string)
    requires other != benchmark
    ensures Matches(FileName(other, version), benchmark) <==> Spells(other, version, benchmark)
  {
    MatchesIff(benchmark, other, version);
    var prefix, stem := benchmark + "-", other + "-" + version;
    if prefix <= stem {
      assert stem[..|prefix|] == prefix;
      if |prefix| <= |other| {
        assert other[..|prefix|] == stem[..|prefix|];
      } else {
        assert other + "-" == stem[..|other| + 1] == prefix[..|other| + 1];
        assert benchmark == prefix[..|benchmark|] && other == (other + "-")[..|other|] == prefix[..|other|];
        var w := benchmark[|other| + 1..];
        assert benchmark == prefix[..|benchmark|];
        assert benchmark[..|other| + 1] == other + "-";
        assert benchmark == other + "-" + w;
        assert version == stem[|other| + 1..];
        assert w + "-" == prefix[|other| + 1..];
        assert version[..|w| + 1] == stem[|other| + 1..|prefix|] == w + "-";
      }
    }
    if prefix <= other {
      assert stem[..|prefix|] == other[..|prefix|];
    }
    if w: string :| benchmark == other + "-" + w && w + "-" <= version {
      assert version[..|w| + 1] == w + "-";
      assert prefix == other + "-" + (w + "-");
      assert stem[..|prefix|] == other + "-" + version[..|w| + 1];
    }
  }

  /** The latest baseline is of the requested benchmark at every moment of a history exactly
      when no save of another benchmark in the project spells its file prefix. */
  lemma LatestAlwaysBelongsIff<P>(saves: seq<Save<P>>, project: string, benchmark: string)
    requires ClockIncreases(saves)
    ensures (forall n: nat, r: Record<P> ::
               n <= |saves| && LatestAnswer(AfterSaves(saves[..n]), project, benchmark, Ok(r)) ==> r.benchmark == benchmark)
            <==> (forall i :: 0 <= i < |saves| && saves[i].project == project && RecordOf(saves[i]).benchmark != benchmark
                    ==> !Spells(RecordOf(saves[i]).benchmark, RecordOf(saves[i]).version, benchmark))
  {
    hide AfterSaves, Matches, Spells, RecordOf;
    forall i | 0 <= i < |saves| && saves[i].project == project && RecordOf(saves[i]).benchmark != benchmark
      ensures Spells(RecordOf(saves[i]).benchmark, RecordOf(saves[i]).version, benchmark)
              ==> LatestAnswer(AfterSaves(saves[..i + 1]), project, benchmark, Ok(RecordOf(saves[i])))
    {
      ForeignMatchIff(benchmark, RecordOf(saves[i]).benchmark, RecordOf(saves[i]).version);
      if Matches(FileOf(saves[i]), benchmark) {
        NewestIsFound(saves[..i + 1], project, benchmark);
      }
    }
    forall n: nat, r: Record<P> | n <= |saves| && LatestAnswer(AfterSaves(saves[..n]), project, benchmark, Ok(r))
      ensures exists i :: 0 <= i < |saves| && saves[i].project == project && r == RecordOf(saves[i])
                          && Matches(FileName(r.benchmark, r.version), benchmark)
    {
      var i := FoundWasSaved(saves[..n], project, benchmark, r);
      assert saves[..n][i] == saves[i];
    }
    forall r: Record<P> | r.benchmark != benchmark
      ensures Matches(FileName(r.benchmark, r.version), benchmark) <==> Spells(r.benchmark, r.version, benchmark)
    {
      ForeignMatchIff(benchmark, r.benchmark, r.version);
    }
  }

  /** A save that passes the filter is found at once. */
  lemma NewestIsFound<P>(saves: seq<Save<P>>, project: string, benchmark: string)
    requires ClockIncreases(saves) && saves != []
    requires var s := saves[|saves| - 1]; s.project == project && Matches(FileOf(s), benchmark)
    ensures LatestAnswer(AfterSaves(saves), project, benchmark, Ok(RecordOf(saves[|saves| - 1])))
  {
    hide AfterSaves, Matches, RecordOf;
    var last := |saves| - 1;
    LatestIsLastSave(saves, last, project, benchmark, RecordOf(saves[last]));
  }

  /** What is found was saved in the project, under a name that passes the filter. */
  lemma FoundWasSaved<P>(saves: seq<Save<P>>, project: string, benchmark: string, r: Record<P>) returns (i: nat)
    requires LatestAnswer(AfterSaves(saves), project, benchmark, Ok(r))
    ensures i < |saves| && saves[i].project == project && r == RecordOf(saves[i])
    ensures Matches(FileName(r.benchmark, r.version), benchmark)
  {
    hide AfterSaves, Matches, RecordOf;
    var dir := AfterSaves(saves)[project];
    var name :| name in dir && Matches(name, benchmark) && dir[name] == Json(r);
    FileHoldsLastSave(saves, project, name);
    i :| LastIn(saves, i, project, name) && dir[name] == Json(RecordOf(saves[i]));
  }

  /** Such a history: `a` is saved at version `1-x`, `a-1` never; asked for `a-1`, the store
      answers with the record of `a`, whose name does not extend `a-1-`. */
  lemma ForeignWithoutExtension<P>(project: string, receipt: P, stamp: string, now: nat)
    ensures var s := Save(project, Request("a", Some("1-x"), receipt), stamp, now);
      && LatestAnswer(AfterSaves([s]), project, "a-1", Ok(RecordOf(s)))
      && RecordOf(s).benchmark == "a" && !("a-1" + "-" <= "a")
  {
    var s := Save(project, Request("a", Some("1-x"), receipt), stamp, now);
    assert Matches(FileOf(s), "a-1");
    NewestIsFound([s], project, "a-1");
  }

  // ----- one version

  ghost predicate SameVersion<P>(s: Save<P>, project: string, benchmark: string, version: string) {
    s.project == project && RecordOf(s).benchmark == benchmark && RecordOf(s).version == version
  }

  /** Save `i` is the last of this benchmark and version. */
  ghost predicate LastOf<P>(saves: seq<Save<P>>, i: nat, project: string, benchmark: string, version: string) {
    && i < |saves| && SameVersion(saves[i], project, benchmark, version)
    && forall j :: i < j < |saves| ==> !SameVersion(saves[j], project, benchmark, version)
  }

  /** Looking up a version gives the last record saved for it exactly when no later save of
      another benchmark and version spells the same file name. */
  lemma VersionLookupIff<P>(saves: seq<Save<P>>, i: nat, project: string, benchmark: string, version: string)
    requires LastOf(saves, i, project, benchmark, version)
    ensures var dirs := AfterSaves(saves); project in dirs && FileName(benchmark, version) in dirs[project]
    ensures VersionAnswer(AfterSaves(saves), project, benchmark, version, Ok(RecordOf(saves[i])))
            <==> forall j :: i < j < |saves| && saves[j].project == project
                   ==> RecordOf(saves[j]).benchmark + "-" + RecordOf(saves[j]).version != benchmark + "-" + version
  {
    hide AfterSaves, RecordOf;
    var name := FileName(benchmark, version);
    assert FileOf(saves[i]) == name;
    FileHoldsLastSave(saves, project, name);
    var dirs := AfterSaves(saves);
    var k: nat :| LastIn(saves, k, project, name) && dirs[project][name] == Json(RecordOf(saves[k]));
    assert i <= k;
    forall j | 0 <= j < |saves|
      ensures FileOf(saves[j]) == name
              <==> RecordOf(saves[j]).benchmark + "-" + RecordOf(saves[j]).version == benchmark + "-" + version
    {
      SameFileName(RecordOf(saves[j]).benchmark, RecordOf(saves[j]).version, benchmark, version);
    }
    if k != i {
      assert !SameVersion(saves[k], project, benchmark, version);
      assert RecordOf(saves[k]) != RecordOf(saves[i]);
    }
  }

  /** Such a history: `a` is saved at `1-x`, then `a-1` at `x`, into the same file. Asked for
      the first, the store answers with the second. */
  lemma SharedFile<P>(project: string, first: P, second: P, stamp: string, now: nat)
    ensures var s := Save(project, Request("a", Some("1-x"), first), stamp, now);
      var t := Save(project, Request("a-1", Some("x"), second), stamp, now + 1);
      && VersionAnswer(AfterSaves([s, t]), project, "a", "1-x", Ok(RecordOf(t)))
      && RecordOf(t).benchmark == "a-1" && RecordOf(s) != RecordOf(t)
  {
    var s := Save(project, Request("a", Some("1-x"), first), stamp, now);
    var t := Save(project, Request("a-1", Some("x"), second), stamp, now + 1);
    assert [s, t][..1] == [s];
    assert FileOf(t) == FileName("a", "1-x");
  }

  lemma SameFileName(b: string, v: string, b': string, v': string)
    ensures FileName(b, v) == FileName(b', v') <==> b + "-" + v == b' + "-" + v'
  {
    var x, y := b + "-" + v, b' + "-" + v';
    if x + ".json" == y + ".json" {
      assert |x| == |y|;
      assert x == (x + ".json")[..|x|] && y == (y + ".json")[..|y|];
    }
  }
}
