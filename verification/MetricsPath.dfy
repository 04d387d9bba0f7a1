/** The metrics label of a request path: dynamic segments become placeholders. */
module MetricsPath {
  import opened Common

  /** The part a segment plays. */
  datatype Role = Literal(segment: string) | Project | Benchmark | Version

  predicate IsSubPath(s: string) {
    s == "latest" || s == "versions" || s == "promote"
  }

  /** Can follow `baselines` as the name of a benchmark. */
  predicate IsName(next: string) {
    next != "" && !IsSubPath(next)
  }

  /** Whether the segment after `seg` is consumed as a name, and as which. */
  function Consumes(seg: string, next: string): Option<Role> {
    if seg == "projects" then Some(Project)
    else if seg == "baselines" then (if IsName(next) then Some(Benchmark) else None)
    else if seg == "versions" then Some(Version)
    else None
  }

  function Roles(segments: seq<string>): (roles: seq<Role>)
    ensures |roles| == |segments|
    decreases |segments|
  {
    if segments == [] then []
    else if |segments| > 1 && Consumes(segments[0], segments[1]).Some? then
      [Literal(segments[0]), Consumes(segments[0], segments[1]).value] + Roles(segments[2..])
    else [Literal(segments[0])] + Roles(segments[1..])
  }

  function Shown(r: Role): string {
    match r
    case Literal(s) => s
    case Project => ":project"
    case Benchmark => ":benchmark"
    case Version => ":version"
  }

  function Label(roles: seq<Role>): (segments: seq<string>)
    ensures |segments| == |roles|
  {
    seq(|roles|, i requires 0 <= i < |roles| => Shown(roles[i]))
  }

  function Normalized(segments: seq<string>): (r: seq<string>)
    ensures |r| == |segments|
  {
    Label(Roles(segments))
  }

  function NormalizePathOf(path: string): string {
    JoinWith(Normalized(SplitOn(path, '/')), '/')
  }

  /** The two ways a step of the loop can go. */
  lemma NormalizedStep(segments: seq<string>)
    requires segments != []
    ensures |segments| > 1 && Consumes(segments[0], segments[1]).Some?
            ==> Normalized(segments) == [segments[0], Shown(Consumes(segments[0], segments[1]).value)] + Normalized(segments[2..])
    ensures !(|segments| > 1 && Consumes(segments[0], segments[1]).Some?)
            ==> Normalized(segments) == [segments[0]] + Normalized(segments[1..])
  {
  }

  lemma NormalizedNothing()
    ensures Normalized([]) == []
  {
  }

  ghost predicate OnTrack(segments: seq<string>, i: nat, normalized: seq<string>) {
    i <= |segments| && Normalized(segments) == normalized + Normalized(segments[i..])
  }

  /** One turn of the loop, by the segment it looks at and the one after it. */
  lemma Turn(segments: seq<string>, i: nat, normalized: seq<string>)
    requires i < |segments| && OnTrack(segments, i, normalized)
    ensures var seg := segments[i];
      var more := i + 1 < |segments|;
      && (more && seg == "projects" ==> OnTrack(segments, i + 2, normalized + [seg] + [":project"]))
      && (more && seg == "baselines" && IsName(segments[i + 1])
          ==> OnTrack(segments, i + 2, normalized + [seg] + [":benchmark"]))
      && (more && seg == "versions" ==> OnTrack(segments, i + 2, normalized + [seg] + [":version"]))
      && (!(more && (seg == "projects" || (seg == "baselines" && IsName(segments[i + 1])) || seg == "versions"))
          ==> OnTrack(segments, i + 1, normalized + [seg]))
  {
    hide Normalized;
    var rest := segments[i..];
    var seg := segments[i];
    NormalizedStep(rest);
    assert rest[1..] == segments[i + 1..];
    assert normalized + ([seg] + Normalized(rest[1..])) == normalized + [seg] + Normalized(rest[1..]);
    if i + 1 < |segments| {
      assert rest[2..] == segments[i + 2..];
      var c := Consumes(seg, segments[i + 1]);
      if c.Some? {
        var shown := Shown(c.value);
        assert normalized + ([seg, shown] + Normalized(rest[2..])) == normalized + [seg] + [shown] + Normalized(rest[2..]);
      }
    }
  }

  lemma Starts(segments: seq<string>)
    ensures OnTrack(segments, 0, [])
  {
  }

  lemma Ends(path: string, normalized: seq<string>)
    requires OnTrack(SplitOn(path, '/'), |SplitOn(path, '/')|, normalized)
    ensures JoinWith(normalized, '/') == NormalizePathOf(path)
  {
    hide SplitOn;
    var segments := SplitOn(path, '/');
    assert segments[|segments|..] == [];
    NormalizedNothing();
    assert normalized + [] == normalized;
  }

  method NormalizePath(path: string) returns (normalizedPath: string)
    ensures normalizedPath == NormalizePathOf(path)
  {
    hide *;
    var segments := SplitOn(path, '/');
    var normalized := [];
    var i := 0;
    Starts(segments);
    while i < |segments|
      invariant i <= |segments|
      invariant OnTrack(segments, i, normalized)
    {
      var seg := segments[i];
      Turn(segments, i, normalized);
      if i + 1 < |segments| {
        NameIs(segments[i + 1]);
      }
      normalized := normalized + [seg];
      if seg == "projects" {
        if i + 1 < |segments| {
          normalized := normalized + [":project"];
          i := i + 1;
        }
      } else if seg == "baselines" {
        if i + 1 < |segments| && segments[i + 1] != "" {
          var next := segments[i + 1];
          if next != "latest" && next != "versions" && next != "promote" {
            normalized := normalized + [":benchmark"];
            i := i + 1;
          }
        }
      } else if seg == "versions" {
        if i + 1 < |segments| {
          normalized := normalized + [":version"];
          i := i + 1;
        }
      }
      i := i + 1;
    }
    Ends(path, normalized);
    normalizedPath := JoinWith(normalized, '/');
  }

  lemma NameIs(next: string)
    ensures IsName(next) <==> next != "" && next != "latest" && next != "versions" && next != "promote"
  {
  }

  // ----- the API routes

  /** The route of one stored version, by its segments. */
  function VersionPath(project: string, benchmark: string, version: string): seq<string> {
    ["projects", project, "baselines", benchmark, "versions", version]
  }

  /** Its label, for every benchmark. A fixed sub-path is taken for itself; `versions` then
      takes the segment `versions` for a version, and the version itself is kept. */
  lemma VersionRouteLabel(project: string, benchmark: string, version: string)
    ensures Normalized(VersionPath(project, benchmark, version))
            == ["projects", ":project", "baselines"]
               + (if IsName(benchmark) then [":benchmark", "versions", ":version"]
                  else if benchmark == "versions" then ["versions", ":version", version]
                  else [benchmark, "versions", ":version"])
  {
    hide Normalized;
    var last := [version];
    var tail := ["versions"] + last;
    var middle := ["baselines", benchmark] + tail;
    var all := VersionPath(project, benchmark, version);
    assert all == ["projects", project] + middle;
    NormalizedStep(all);
    NormalizedStep(middle);
    NormalizedStep(middle[1..]);
    NormalizedStep(tail);
    NormalizedStep(last);
    assert all[2..] == middle && middle[1..] == [benchmark] + tail && middle[2..] == tail;
    assert middle[1..][1..] == tail && middle[1..][2..] == last && tail[2..] == [] && last[1..] == [];
    NormalizedNothing();
  }

  /** The route has its one label exactly for the benchmarks that are not a fixed sub-path. */
  lemma VersionRoute(project: string, benchmark: string, version: string)
    ensures Normalized(VersionPath(project, benchmark, version))
            == ["projects", ":project", "baselines", ":benchmark", "versions", ":version"]
            <==> IsName(benchmark)
  {
    hide Normalized;
    VersionRouteLabel(project, benchmark, version);
    var shown := Normalized(VersionPath(project, benchmark, version));
    assert shown[3] == if IsName(benchmark) then ":benchmark" else benchmark;
  }

  ghost predicate SameLabel(project: string, benchmark: string, v: string, w: string) {
    Normalized(VersionPath(project, benchmark, v)) == Normalized(VersionPath(project, benchmark, w))
  }

  /** The label hides the version exactly for benchmarks not named `versions`. */
  lemma VersionIsHiddenIff(project: string, benchmark: string)
    ensures (forall v, w :: SameLabel(project, benchmark, v, w)) <==> benchmark != "versions"
  {
    hide Normalized;
    forall v, w
      ensures SameLabel(project, benchmark, v, w) <==> benchmark != "versions" || v == w
    {
      VersionRouteLabel(project, benchmark, v);
      VersionRouteLabel(project, benchmark, w);
      assert benchmark == "versions" ==> Normalized(VersionPath(project, benchmark, v))[5] == v;
      assert benchmark == "versions" ==> Normalized(VersionPath(project, benchmark, w))[5] == w;
    }
    assert SameLabel(project, benchmark, "1", "2") <==> benchmark != "versions";
  }

  /** One path that shows its version. */
  lemma BenchmarkNamedVersions()
    ensures Normalized(["projects", "p", "baselines", "versions", "versions", "1.2.3"])
            == ["projects", ":project", "baselines", "versions", ":version", "1.2.3"]
  {
    VersionRouteLabel("p", "versions", "1.2.3");
    assert VersionPath("p", "versions", "1.2.3") == ["projects", "p", "baselines", "versions", "versions", "1.2.3"];
  }

  /** A fixed sub-path directly below `baselines` is kept, as is an empty segment. */
  lemma SubPathRoute(project: string, sub: string)
    requires !IsName(sub)
    ensures Normalized(["projects", project, "baselines", sub])
            == ["projects", ":project", "baselines", sub]
  {
    hide Normalized;
    var tail := [sub];
    var middle := ["baselines"] + tail;
    var all := ["projects", project] + middle;
    NormalizedStep(all);
    NormalizedStep(middle);
    NormalizedStep(tail);
    assert all[2..] == middle && middle[1..] == tail && tail[1..] == [];
    NormalizedNothing();
    assert all == ["projects", project, "baselines", sub];
  }

  // ----- idempotence and equal labels

  /** A placeholder is consumed just as the name it stands for. */
  lemma PlaceholderIsConsumed(seg: string, next: string)
    requires Consumes(seg, next).Some?
    ensures Consumes(seg, Shown(Consumes(seg, next).value)) == Consumes(seg, next)
  {
  }

  /** Normalising again reads the same roles. */
  lemma {:induction false} RolesOfNormalized(segments: seq<string>)
    ensures Roles(Normalized(segments)) == Roles(segments)
    decreases |segments|
  {
    hide Consumes, Shown;
    if segments != [] {
      var n := Normalized(segments);
      NormalizedStep(segments);
      if |segments| > 1 && Consumes(segments[0], segments[1]).Some? {
        PlaceholderIsConsumed(segments[0], segments[1]);
        assert n[2..] == Normalized(segments[2..]);
        RolesOfNormalized(segments[2..]);
      } else {
        assert n[1..] == Normalized(segments[1..]);
        if |segments| > 1 {
          NotConsumedStays(segments);
        }
        RolesOfNormalized(segments[1..]);
      }
    }
  }

  /** The segment after one that consumes nothing is kept as it is. */
  lemma NotConsumedStays(segments: seq<string>)
    requires |segments| > 1 && Consumes(segments[0], segments[1]).None?
    ensures Normalized(segments)[1] == segments[1]
  {
    NormalizedStep(segments);
    NormalizedStep(segments[1..]);
  }

  /** Two paths have the same label exactly when they read as the same roles: they may differ
      in consumed project, benchmark and version names and in nothing else. */
  lemma SameLabelIff(a: seq<string>, b: seq<string>)
    ensures Normalized(a) == Normalized(b) <==> Roles(a) == Roles(b)
  {
    RolesOfNormalized(a);
    RolesOfNormalized(b);
  }

  lemma PlaceholderHasNoSlash(seg: string, next: string)
    requires Consumes(seg, next).Some?
    ensures '/' !in Shown(Consumes(seg, next).value)
  {
  }

  lemma {:induction false} NormalizedHasNoSlash(segments: seq<string>)
    requires forall i :: 0 <= i < |segments| ==> '/' !in segments[i]
    ensures forall i :: 0 <= i < |segments| ==> '/' !in Normalized(segments)[i]
    decreases |segments|
  {
    hide Consumes, Normalized;
    if segments == [] {
      NormalizedNothing();
    } else {
      NormalizedStep(segments);
      if |segments| > 1 && Consumes(segments[0], segments[1]).Some? {
        PlaceholderHasNoSlash(segments[0], segments[1]);
        NormalizedHasNoSlash(segments[2..]);
      } else {
        NormalizedHasNoSlash(segments[1..]);
      }
    }
  }

  /** Normalising is idempotent on paths, keeps the number of segments, and splitting the
      label gives the normalised segments. */
  lemma NormalizeIsIdempotent(path: string)
    ensures SplitOn(NormalizePathOf(path), '/') == Normalized(SplitOn(path, '/'))
    ensures |SplitOn(NormalizePathOf(path), '/')| == |SplitOn(path, '/')|
    ensures NormalizePathOf(NormalizePathOf(path)) == NormalizePathOf(path)
  {
    hide Normalized, Roles;
    var segments := SplitOn(path, '/');
    NormalizedHasNoSlash(segments);
    SplitOfJoin(Normalized(segments), '/');
    RolesOfNormalized(segments);
    NormalizedIs(segments);
    NormalizedIs(Normalized(segments));
  }

  lemma NormalizedIs(segments: seq<string>)
    ensures Normalized(segments) == Label(Roles(segments))
  {
  }

  /** The same, for whole paths. */
  lemma SamePathLabelIff(p: string, q: string)
    ensures NormalizePathOf(p) == NormalizePathOf(q) <==> Roles(SplitOn(p, '/')) == Roles(SplitOn(q, '/'))
  {
    NormalizeIsIdempotent(p);
    NormalizeIsIdempotent(q);
    SameLabelIff(SplitOn(p, '/'), SplitOn(q, '/'));
  }
}
