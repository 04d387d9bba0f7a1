/** The architecture check: reachability over workspace dependencies by a worklist, and the
    layering rules read off it. */
module WorkspaceGraph {
  import opened Common

  type Graph = map<string, set<string>>

  /** A path of one or more edges; `via` lists the nodes after the source. */
  ghost predicate Path(graph: Graph, source: string, via: seq<string>)
    decreases |via|
  {
    && via != []
    && source in graph && via[0] in graph[source]
    && (|via| > 1 ==> Path(graph, via[0], via[1..]))
  }

  ghost predicate Reaches(graph: Graph, source: string, target: string) {
    exists via :: Path(graph, source, via) && via[|via| - 1] == target
  }

  /** Everything some edge points to. */
  function Targets(graph: Graph): (t: set<string>)
    ensures forall k, d :: k in graph && d in graph[k] ==> d in t
  {
    set k, d | k in graph && d in graph[k] :: d
  }

  lemma {:induction false} PathExtends(graph: Graph, source: string, via: seq<string>, next: string)
    requires Path(graph, source, via)
    requires via[|via| - 1] in graph && next in graph[via[|via| - 1]]
    ensures Path(graph, source, via + [next])
    decreases |via|
  {
    if |via| > 1 {
      PathExtends(graph, via[0], via[1..], next);
      assert (via + [next])[1..] == via[1..] + [next];
    } else {
      assert (via + [next])[1..] == [next];
    }
  }

  lemma ReachesExtends(graph: Graph, source: string, middle: string, next: string)
    requires Reaches(graph, source, middle)
    requires middle in graph && next in graph[middle]
    ensures Reaches(graph, source, next)
  {
    var via :| Path(graph, source, via) && via[|via| - 1] == middle;
    PathExtends(graph, source, via, next);
    assert (via + [next])[|via + [next]| - 1] == next;
  }

  lemma ReachesDirect(graph: Graph, source: string, next: string)
    requires source in graph && next in graph[source]
    ensures Reaches(graph, source, next)
  {
    assert Path(graph, source, [next]);
  }

  /** A set that contains the direct dependencies and is closed under edges contains
      everything a path leads to. */
  lemma {:induction false} ClosedContainsPath(graph: Graph, source: string, via: seq<string>, s: set<string>)
    requires Path(graph, source, via)
    requires graph[source] <= s
    requires forall p :: p in s && p in graph ==> graph[p] <= s
    ensures via[|via| - 1] in s
    decreases |via|
  {
    if |via| > 1 {
      ClosedContainsPath(graph, via[0], via[1..], s);
    }
  }

  /** The elements of a set, each once, in an order left open. */
  method Enumerate(s: set<string>) returns (q: seq<string>)
    ensures forall x :: x in q <==> x in s
  {
    q := [];
    var todo := s;
    while todo != {}
      invariant todo <= s
      invariant forall x :: x in q <==> x in s - todo
      decreases |todo|
    {
      var x :| x in todo;
      q := q + [x];
      todo := todo - {x};
    }
  }

  /** Everything seen or waiting is reachable. */
  ghost predicate OnlyReachable(graph: Graph, source: string, seen: set<string>, stack: seq<string>) {
    forall p :: p in seen || p in stack ==> Reaches(graph, source, p)
  }

  /** Every edge from the source or from a seen package leads to a seen or waiting one. */
  ghost predicate NothingLost(graph: Graph, source: string, seen: set<string>, stack: seq<string>) {
    && (source in graph ==> forall d :: d in graph[source] ==> d in seen || d in stack)
    && (forall p, d :: p in seen && p in graph && d in graph[p] ==> d in seen || d in stack)
  }

  lemma TargetsAreReached(graph: Graph, source: string, target: string)
    requires Reaches(graph, source, target)
    ensures target in Targets(graph)
  {
    var via :| Path(graph, source, via) && via[|via| - 1] == target;
    PathEndsInTargets(graph, source, via);
  }

  lemma {:induction false} PathEndsInTargets(graph: Graph, source: string, via: seq<string>)
    requires Path(graph, source, via)
    ensures via[|via| - 1] in Targets(graph)
    decreases |via|
  {
    if |via| > 1 {
      PathEndsInTargets(graph, via[0], via[1..]);
    }
  }

  lemma StartOfSearch(graph: Graph, source: string, stack: seq<string>)
    requires if source in graph then forall x :: x in stack <==> x in graph[source] else stack == []
    ensures OnlyReachable(graph, source, {}, stack) && NothingLost(graph, source, {}, stack)
  {
    forall p | p in stack
      ensures Reaches(graph, source, p)
    {
      ReachesDirect(graph, source, p);
    }
  }

  /** Taking a new package moves it to the seen ones and its unseen dependencies to the stack. */
  lemma TakeNew(graph: Graph, source: string, seen: set<string>, rest: seq<string>, package: string, deps: seq<string>)
    requires OnlyReachable(graph, source, seen, rest + [package]) && NothingLost(graph, source, seen, rest + [package])
    requires forall d :: d in deps <==> package in graph && d in graph[package] && d !in seen + {package}
    ensures OnlyReachable(graph, source, seen + {package}, rest + deps)
    ensures NothingLost(graph, source, seen + {package}, rest + deps)
  {
    hide Reaches;
    assert package in rest + [package];
    forall d | d in deps
      ensures Reaches(graph, source, d)
    {
      ReachesExtends(graph, source, package, d);
    }
    assert forall p :: p in rest + [package] <==> p in rest || p == package;
    assert forall p :: p in rest + deps <==> p in rest || p in deps;
  }

  lemma DropSeen(graph: Graph, source: string, seen: set<string>, rest: seq<string>, package: string)
    requires OnlyReachable(graph, source, seen, rest + [package]) && NothingLost(graph, source, seen, rest + [package])
    requires package in seen
    ensures OnlyReachable(graph, source, seen, rest) && NothingLost(graph, source, seen, rest)
  {
  }

  lemma EndOfSearch(graph: Graph, source: string, seen: set<string>)
    requires OnlyReachable(graph, source, seen, []) && NothingLost(graph, source, seen, [])
    ensures forall p :: p in seen <==> Reaches(graph, source, p)
  {
    forall p | Reaches(graph, source, p)
      ensures p in seen
    {
      var via :| Path(graph, source, via) && via[|via| - 1] == p;
      ClosedContainsPath(graph, source, via, seen);
    }
  }

  /** `reachable_workspace_dependencies`: exactly the packages at the end of a path of one or
      more edges, on any graph, cyclic or not. */
  method ReachableWorkspaceDependencies(source: string, graph: Graph) returns (seen: set<string>)
    ensures forall p :: p in seen <==> Reaches(graph, source, p)
  {
    seen := {};
    var stack: seq<string> := [];
    if source in graph {
      stack := Enumerate(graph[source]);
    }
    ghost var all := Targets(graph);
    StartOfSearch(graph, source, stack);
    ReachedIsTarget(graph, source, {}, stack);
    hide *;
    while stack != []
      invariant seen <= all
      invariant OnlyReachable(graph, source, seen, stack)
      invariant NothingLost(graph, source, seen, stack)
      decreases all - seen, |stack|
    {
      var package := stack[|stack| - 1];
      ReachedIsTarget(graph, source, seen, stack);
      assert package in stack && stack == stack[..|stack| - 1] + [package];
      stack := stack[..|stack| - 1];
      if package in seen {
        DropSeen(graph, source, seen, stack, package);
        continue;
      }
      assert all - (seen + {package}) == (all - seen) - {package};
      ghost var before := seen;
      seen := seen + {package};
      var deps := [];
      if package in graph {
        deps := Enumerate(set d | d in graph[package] && d !in seen);
      }
      TakeNew(graph, source, before, stack, package, deps);
      stack := stack + deps;
    }
    EndOfSearch(graph, source, seen);
  }

  lemma ReachedIsTarget(graph: Graph, source: string, seen: set<string>, stack: seq<string>)
    requires OnlyReachable(graph, source, seen, stack)
    ensures forall p :: p in seen || p in stack ==> p in Targets(graph)
  {
    hide Targets, Reaches;
    forall p | p in seen || p in stack
      ensures p in Targets(graph)
    {
      TargetsAreReached(graph, source, p);
    }
  }

  // ----- cargo metadata

  datatype Dependency = Dependency(name: string, kind: Option<string>, path: Option<string>)

  datatype Package = Package(name: string, dependencies: seq<Dependency>)

  function Names(packages: seq<Package>): set<string> {
    set i | 0 <= i < |packages| :: packages[i].name
  }

  /** A dependency that counts: not a dev dependency, by path, on a workspace package. */
  predicate IsWorkspaceEdge(d: Dependency, names: set<string>) {
    d.kind != Some("dev") && d.path.Some? && d.name in names
  }

  function EdgesOf(p: Package, names: set<string>): set<string> {
    set i | 0 <= i < |p.dependencies| && IsWorkspaceEdge(p.dependencies[i], names) :: p.dependencies[i].name
  }

  /** A later package of the same name replaces an earlier one. */
  function GraphOf(packages: seq<Package>, names: set<string>): (g: Graph)
    ensures g.Keys == Names(packages)
    ensures forall n :: n in g ==> exists i :: 0 <= i < |packages| && packages[i].name == n && g[n] == EdgesOf(packages[i], names)
  {
    if packages == [] then map[]
    else
      var n := |packages| - 1;
      assert Names(packages) == Names(packages[..n]) + {packages[n].name};
      GraphOf(packages[..n], names)[packages[n].name := EdgesOf(packages[n], names)]
  }

  method WorkspaceDependencyGraph(packages: seq<Package>) returns (graph: Graph)
    ensures graph == GraphOf(packages, Names(packages))
  {
    var names := Names(packages);
    graph := map[];
    for k := 0 to |packages|
      invariant graph == GraphOf(packages[..k], names)
    {
      var deps: set<string> := {};
      var p := packages[k];
      for j := 0 to |p.dependencies|
        invariant deps == set i | 0 <= i < j && IsWorkspaceEdge(p.dependencies[i], names) :: p.dependencies[i].name
      {
        var d := p.dependencies[j];
        if d.kind != Some("dev") && d.path.Some? && d.name in names {
          deps := deps + {d.name};
        }
      }
      assert packages[..k + 1][..k] == packages[..k];
      graph := graph[p.name := deps];
    }
    assert packages[..|packages|] == packages;
  }

  lemma {:induction false} LastPackageCounts(packages: seq<Package>, names: set<string>, i: nat)
    requires i < |packages| && forall b :: i < b < |packages| ==> packages[b].name != packages[i].name
    ensures packages[i].name in GraphOf(packages, names)
    ensures GraphOf(packages, names)[packages[i].name] == EdgesOf(packages[i], names)
  {
    hide EdgesOf;
    var n := |packages| - 1;
    if i < n {
      assert packages[n].name != packages[i].name;
      LastPackageCounts(packages[..n], names, i);
    }
  }

  /** An edge of the graph is a counted dependency of the package, the last one of its name, and
      nothing else. */
  lemma EdgesAreDependencies(packages: seq<Package>, i: nat, target: string)
    requires i < |packages|
    requires forall b :: i < b < |packages| ==> packages[b].name != packages[i].name
    ensures var g := GraphOf(packages, Names(packages));
      && packages[i].name in g
      && (target in g[packages[i].name]
          <==> exists d :: d in packages[i].dependencies && d.name == target && d.path.Some?
                           && d.kind != Some("dev") && exists k :: 0 <= k < |packages| && packages[k].name == target)
  {
    hide GraphOf;
    LastPackageCounts(packages, Names(packages), i);
  }

  // ----- the rules

  datatype ArchRule = ArchRule(name: string, sources: seq<string>, forbidden: seq<string>)

  datatype ArchError =
    | MissingSource(rule: string, package: string)
    | MissingForbidden(rule: string, package: string)
    | MustNotDepend(rule: string, package: string, forbidden: string)

  /** An error is due: a rule names a package that does not exist, or forbids a dependency
      that some path of counted edges realises. */
  ghost predicate Due(e: ArchError, rules: seq<ArchRule>, packages: seq<Package>) {
    exists k :: 0 <= k < |rules| && DueFor(e, rules[k], packages)
  }

  ghost predicate DueFor(e: ArchError, rule: ArchRule, packages: seq<Package>) {
    var names := Names(packages);
    match e
    case MissingSource(r, p) => r == rule.name && p in rule.sources && p !in names
    case MissingForbidden(r, p) => r == rule.name && p in rule.forbidden && p !in names
    case MustNotDepend(r, p, f) =>
      r == rule.name && p in rule.sources && f in rule.forbidden && Reaches(GraphOf(packages, names), p, f)
  }

  ghost predicate RuleHolds(rule: ArchRule, packages: seq<Package>) {
    var names := Names(packages);
    && (forall p :: p in rule.sources || p in rule.forbidden ==> p in names)
    && (forall p, f :: p in rule.sources && f in rule.forbidden ==> !Reaches(GraphOf(packages, names), p, f))
  }

  /** The part of the loop body that checks one rule. */
  method CheckRule(rule: ArchRule, packages: seq<Package>, graph: Graph) returns (errors: seq<ArchError>)
    requires graph == GraphOf(packages, Names(packages))
    ensures forall e :: e in errors <==> DueFor(e, rule, packages)
  {
    hide GraphOf, Reaches;
    var names := Names(packages);
    errors := [];
    for i := 0 to |rule.sources|
      invariant forall e :: e in errors <==> e.MissingSource? && e.rule == rule.name && e.package in rule.sources[..i] && e.package !in names
    {
      if rule.sources[i] !in names {
        errors := errors + [MissingSource(rule.name, rule.sources[i])];
      }
    }
    assert rule.sources[..|rule.sources|] == rule.sources;
    for i := 0 to |rule.forbidden|
      invariant forall e :: e in errors <==> ((e.MissingSource? && DueFor(e, rule, packages))
        || (e.MissingForbidden? && e.rule == rule.name && e.package in rule.forbidden[..i] && e.package !in names))
    {
      if rule.forbidden[i] !in names {
        errors := errors + [MissingForbidden(rule.name, rule.forbidden[i])];
      }
    }
    assert rule.forbidden[..|rule.forbidden|] == rule.forbidden;
    for i := 0 to |rule.sources|
      invariant forall e :: e in errors <==> ((!e.MustNotDepend? && DueFor(e, rule, packages))
        || (e.MustNotDepend? && e.rule == rule.name && e.package in rule.sources[..i] && e.forbidden in rule.forbidden
            && Reaches(graph, e.package, e.forbidden)))
    {
      var source := rule.sources[i];
      ghost var before := errors;
      if source !in graph {
        assert forall f :: !Reaches(graph, source, f) by { NoEdges(graph, source); }
        continue;
      }
      var reachable := ReachableWorkspaceDependencies(source, graph);
      for j := 0 to |rule.forbidden|
        invariant forall e :: e in errors <==> (e in before
          || (e.MustNotDepend? && e.rule == rule.name && e.package == source && e.forbidden in rule.forbidden[..j]
              && Reaches(graph, source, e.forbidden)))
      {
        if rule.forbidden[j] in reachable {
          errors := errors + [MustNotDepend(rule.name, source, rule.forbidden[j])];
        }
      }
    }
  }

  lemma NoEdges(graph: Graph, source: string)
    requires source !in graph
    ensures forall f :: !Reaches(graph, source, f)
  {
  }

  /** `collect_arch_dependency_errors`: each error that is due and no other, hence none
      exactly when every rule holds. */
  method CollectArchDependencyErrors(packages: seq<Package>, rules: seq<ArchRule>) returns (errors: seq<ArchError>)
    ensures forall e :: e in errors <==> Due(e, rules, packages)
    ensures errors == [] <==> forall k :: 0 <= k < |rules| ==> RuleHolds(rules[k], packages)
  {
    var graph := WorkspaceDependencyGraph(packages);
    errors := [];
    hide GraphOf, Reaches, Names, DueFor, RuleHolds;
    for k := 0 to |rules|
      invariant forall e :: e in errors <==> exists i :: 0 <= i < k && DueFor(e, rules[i], packages)
    {
      var added := CheckRule(rules[k], packages, graph);
      errors := errors + added;
    }
    NothingDueIffRulesHold(rules, packages);
    assert forall e :: e in errors <==> Due(e, rules, packages);
    assert errors != [] ==> errors[0] in errors;
    assert errors == [] ==> forall e :: e !in errors;
  }

  lemma NothingDueIffRulesHold(rules: seq<ArchRule>, packages: seq<Package>)
    ensures (forall e :: !Due(e, rules, packages)) <==> forall k :: 0 <= k < |rules| ==> RuleHolds(rules[k], packages)
  {
    hide GraphOf, Reaches, Names;
    forall k | 0 <= k < |rules|
      ensures RuleHolds(rules[k], packages) <==> forall e :: !DueFor(e, rules[k], packages)
    {
      RuleHoldsIffNothingDue(rules[k], packages);
    }
    if forall k :: 0 <= k < |rules| ==> RuleHolds(rules[k], packages) {
    } else {
      var k :| 0 <= k < |rules| && !RuleHolds(rules[k], packages);
      var e :| DueFor(e, rules[k], packages);
      assert Due(e, rules, packages);
    }
  }

  lemma RuleHoldsIffNothingDue(rule: ArchRule, packages: seq<Package>)
    ensures RuleHolds(rule, packages) <==> forall e :: !DueFor(e, rule, packages)
  {
    hide GraphOf, Reaches, Names;
    if forall e :: !DueFor(e, rule, packages) {
      forall p
        ensures p in rule.sources || p in rule.forbidden ==> p in Names(packages)
      {
        assert !DueFor(MissingSource(rule.name, p), rule, packages);
        assert !DueFor(MissingForbidden(rule.name, p), rule, packages);
      }
      forall p, f
        ensures p in rule.sources && f in rule.forbidden ==> !Reaches(GraphOf(packages, Names(packages)), p, f)
      {
        assert !DueFor(MustNotDepend(rule.name, p, f), rule, packages);
      }
    }
  }
}
