/**
 The workspace package graph of scripts/dev/validate-changed.ts: the dependents
 map and the two work-list closures, each proved to return exactly the names
 reachable by one or more edges, and proved converse to one another.
 */
module PackageGraph {
  datatype Step = Format | Lint | Typecheck | Test

  datatype WorkspacePackage = WorkspacePackage(
    name: string,
    relativePath: string,
    dependencies: set<string>,
    policySteps: set<Step>)

  type Edges = map<string, set<string>>

  // ---------- Reachability, the reference notion ----------

  ghost predicate Edge(edges: Edges, from: string, to: string) {
    from in edges && to in edges[from]
  }

  /** A walk over `steps` edges. */
  ghost predicate Walks(edges: Edges, from: string, to: string, steps: nat)
    decreases steps
  {
    if steps == 0 then from == to
    else exists mid :: Edge(edges, from, mid) && Walks(edges, mid, to, steps - 1)
  }

  /** A walk over at least one edge. */
  ghost predicate Reaches(edges: Edges, from: string, to: string) {
    exists steps: nat :: steps > 0 && Walks(edges, from, to, steps)
  }

  lemma EdgeReaches(edges: Edges, from: string, to: string)
    requires Edge(edges, from, to)
    ensures Reaches(edges, from, to)
  {
    assert Walks(edges, to, to, 0);
    assert Walks(edges, from, to, 1);
  }

  lemma {:induction false} WalkThenEdge(edges: Edges, from: string, mid: string, to: string, steps: nat)
    requires Walks(edges, from, mid, steps) && Edge(edges, mid, to)
    ensures Walks(edges, from, to, steps + 1)
    decreases steps
  {
    if steps == 0 {
      assert Walks(edges, to, to, 0);
    } else {
      var next :| Edge(edges, from, next) && Walks(edges, next, mid, steps - 1);
      WalkThenEdge(edges, next, mid, to, steps - 1);
    }
  }

  lemma ReachesThenEdge(edges: Edges, from: string, mid: string, to: string)
    requires Reaches(edges, from, mid) && Edge(edges, mid, to)
    ensures Reaches(edges, from, to)
  {
    var steps: nat :| steps > 0 && Walks(edges, from, mid, steps);
    WalkThenEdge(edges, from, mid, to, steps);
  }

  lemma {:induction false} WalkThenReaches(edges: Edges, from: string, mid: string, to: string, steps: nat)
    requires Walks(edges, from, mid, steps) && Reaches(edges, mid, to)
    ensures Reaches(edges, from, to)
    decreases steps
  {
    if steps > 0 {
      var next :| Edge(edges, from, next) && Walks(edges, next, mid, steps - 1);
      WalkThenReaches(edges, next, mid, to, steps - 1);
      var n: nat :| n > 0 && Walks(edges, next, to, n);
      assert Walks(edges, from, to, n + 1);
    }
  }

  lemma ReachesTransitively(edges: Edges, from: string, mid: string, to: string)
    requires Reaches(edges, mid, to)
    ensures Reaches(edges, from, mid) ==> Reaches(edges, from, to)
  {
    if Reaches(edges, from, mid) {
      var steps: nat :| steps > 0 && Walks(edges, from, mid, steps);
      WalkThenReaches(edges, from, mid, to, steps);
    }
  }

  lemma ReachesFirstEdge(edges: Edges, from: string, to: string)
    requires Reaches(edges, from, to)
    ensures from in edges && edges[from] != {}
  {
    var steps: nat :| steps > 0 && Walks(edges, from, to, steps);
    var mid :| Edge(edges, from, mid) && Walks(edges, mid, to, steps - 1);
  }

  lemma {:induction false} ReachesLastEdge(edges: Edges, from: string, to: string, steps: nat) returns (last: string)
    requires steps > 0 && Walks(edges, from, to, steps)
    ensures Edge(edges, last, to)
    decreases steps
  {
    var mid :| Edge(edges, from, mid) && Walks(edges, mid, to, steps - 1);
    if steps == 1 {
      last := from;
    } else {
      last := ReachesLastEdge(edges, mid, to, steps - 1);
    }
  }

  /** A set closed under edges holds the end of every walk from within. */
  lemma {:induction false} ClosedSetHoldsWalk(edges: Edges, from: string, to: string, steps: nat, closed: set<string>)
    requires from in closed && Walks(edges, from, to, steps)
    requires forall x, y :: x in closed && Edge(edges, x, y) ==> y in closed
    ensures to in closed
    decreases steps
  {
    if steps > 0 {
      var mid :| Edge(edges, from, mid) && Walks(edges, mid, to, steps - 1);
      ClosedSetHoldsWalk(edges, mid, to, steps - 1, closed);
    }
  }

  /** Walks of one map that lead to `to` are walks of another that has all their edges. */
  lemma {:induction false} WalkAlong(a: Edges, b: Edges, from: string, to: string, steps: nat)
    requires forall x, y, n: nat :: Edge(a, x, y) && Walks(a, y, to, n) ==> Edge(b, x, y)
    requires Walks(a, from, to, steps)
    ensures Walks(b, from, to, steps)
    decreases steps
  {
    if steps > 0 {
      var mid :| Edge(a, from, mid) && Walks(a, mid, to, steps - 1);
      WalkAlong(a, b, mid, to, steps - 1);
    }
  }

  lemma ReachesAlong(a: Edges, b: Edges, from: string, to: string)
    requires forall x, y, n: nat :: Edge(a, x, y) && Walks(a, y, to, n) ==> Edge(b, x, y)
    ensures Reaches(a, from, to) ==> Reaches(b, from, to)
  {
    if Reaches(a, from, to) {
      var steps: nat :| steps > 0 && Walks(a, from, to, steps);
      WalkAlong(a, b, from, to, steps);
    }
  }

  /** Walks of one map are walks back in another that has its edges reversed, as far as they
      stay inside. */
  lemma {:induction false} WalkBack(a: Edges, b: Edges, inside: set<string>, from: string, to: string, steps: nat)
    requires forall x, y :: Edge(a, x, y) ==> x in inside
    requires forall x, y :: Edge(a, x, y) && y in inside ==> Edge(b, y, x)
    requires to in inside && Walks(a, from, to, steps)
    ensures Walks(b, to, from, steps)
    decreases steps
  {
    if steps > 0 {
      var mid :| Edge(a, from, mid) && Walks(a, mid, to, steps - 1);
      assert mid in inside;
      WalkBack(a, b, inside, mid, to, steps - 1);
      WalkThenEdge(b, to, mid, from, steps - 1);
    }
  }

  // ---------- The work-list closures ----------

  ghost function Targets(edges: Edges): set<string> {
    set from, to | from in edges && to in edges[from] :: to
  }

  ghost predicate IsClosureOf(edges: Edges, from: string, names: set<string>) {
    forall name :: name in names <==> Reaches(edges, from, name)
  }

  /** What every round of the work list keeps; `expanded` are the names already taken off
      the queue. */
  ghost predicate WorkList(edges: Edges, from: string, collected: set<string>, queue: seq<string>,
                           expanded: set<string>)
  {
    && (forall name :: name in collected ==> Reaches(edges, from, name))
    && collected <= Targets(edges)
    && (forall name :: name in queue ==> name == from || name in collected)
    && (from in queue || from in expanded)
    && (forall name :: name in collected ==> name in queue || name in expanded)
    && (forall name, next :: name in expanded && Edge(edges, name, next) ==> next in collected)
  }

  lemma ClosedSetHoldsReachable(edges: Edges, from: string, to: string, closed: set<string>)
    requires Reaches(edges, from, to)
    requires forall y :: Edge(edges, from, y) ==> y in closed
    requires forall x, y :: x in closed && Edge(edges, x, y) ==> y in closed
    ensures to in closed
  {
    var steps: nat :| steps > 0 && Walks(edges, from, to, steps);
    var mid :| Edge(edges, from, mid) && Walks(edges, mid, to, steps - 1);
    ClosedSetHoldsWalk(edges, mid, to, steps - 1, closed);
  }

  lemma FinishedWorkList(edges: Edges, from: string, collected: set<string>, expanded: set<string>)
    requires WorkList(edges, from, collected, [], expanded)
    ensures IsClosureOf(edges, from, collected)
  {
    forall name | Reaches(edges, from, name) ensures name in collected {
      ClosedSetHoldsReachable(edges, from, name, collected);
    }
  }

  /** One expansion: the successors of `next` not collected so far are collected and queued. */
  method Expand(ghost edges: Edges, ghost from: string, next: string, successors: set<string>,
                collected0: set<string>, queue0: seq<string>, ghost expanded: set<string>)
    returns (collected: set<string>, queue: seq<string>)
    requires WorkList(edges, from, collected0, [next] + queue0, expanded)
    requires forall to :: Edge(edges, next, to) <==> to in successors
    ensures WorkList(edges, from, collected, queue, expanded + {next})
    ensures collected == collected0 + successors
    ensures collected == collected0 ==> queue == queue0
  {
    collected, queue := collected0, queue0;
    assert next in [next] + queue0;
    assert forall name :: name in [next] + queue0 <==> name == next || name in queue0;
    var remaining := successors;
    while remaining != {}
      invariant remaining <= successors
      invariant collected == collected0 + (successors - remaining)
      invariant forall name :: name in queue ==> name == from || name in collected
      invariant forall name :: name in queue0 ==> name in queue
      invariant forall name :: name in collected ==> name in queue || name in expanded + {next}
      invariant collected == collected0 ==> queue == queue0
    {
      var successor :| successor in remaining;
      remaining := remaining - {successor};
      if successor !in collected {
        collected := collected + {successor};
        queue := queue + [successor];
      }
    }
    forall name | name in collected ensures Reaches(edges, from, name) && name in Targets(edges) {
      if name !in collected0 {
        assert Edge(edges, next, name);
        if next == from {
          EdgeReaches(edges, from, name);
        } else {
          ReachesThenEdge(edges, from, next, name);
        }
      }
    }
  }

  method CollectTransitiveDependents(packageName: string, dependentsMap: Edges)
    returns (collected: set<string>)
    ensures IsClosureOf(dependentsMap, packageName, collected)
  {
    collected := {};
    var queue := [packageName];
    ghost var expanded: set<string> := {};
    while |queue| > 0
      invariant WorkList(dependentsMap, packageName, collected, queue, expanded)
      decreases Targets(dependentsMap) - collected, |queue|
    {
      var nextPackage := queue[0];
      assert queue == [nextPackage] + queue[1..];
      var directDependents := if nextPackage in dependentsMap then dependentsMap[nextPackage] else {};
      collected, queue := Expand(dependentsMap, packageName, nextPackage, directDependents,
                                 collected, queue[1..], expanded);
      expanded := expanded + {nextPackage};
    }
    assert queue == [];
    FinishedWorkList(dependentsMap, packageName, collected, expanded);
  }

  method CollectTransitiveDependencies(packageName: string, packageByName: map<string, WorkspacePackage>)
    returns (collected: set<string>)
    ensures IsClosureOf(DependencyEdges(packageByName), packageName, collected)
  {
    collected := {};
    var queue := [packageName];
    ghost var edges := DependencyEdges(packageByName);
    ghost var expanded: set<string> := {};
    while |queue| > 0
      invariant WorkList(edges, packageName, collected, queue, expanded)
      decreases Targets(edges) - collected, |queue|
    {
      var nextPackage := queue[0];
      assert queue == [nextPackage] + queue[1..];
      var dependencies := if nextPackage in packageByName then packageByName[nextPackage].dependencies else {};
      collected, queue := Expand(edges, packageName, nextPackage, dependencies,
                                 collected, queue[1..], expanded);
      expanded := expanded + {nextPackage};
    }
    assert queue == [];
    FinishedWorkList(edges, packageName, collected, expanded);
  }

  // ---------- The two edge maps of a package list ----------

  function Names(packages: seq<WorkspacePackage>): set<string> {
    set i | 0 <= i < |packages| :: packages[i].name
  }

  predicate UniqueNames(packages: seq<WorkspacePackage>) {
    forall i, j | 0 <= i < j < |packages| :: packages[i].name != packages[j].name
  }

  /** new Map(packages.map(p => [p.name, p])): the last package of a name wins. */
  function PackageByName(packages: seq<WorkspacePackage>): (byName: map<string, WorkspacePackage>)
    ensures byName.Keys == Names(packages)
    ensures forall name :: name in byName ==> byName[name] in packages && byName[name].name == name
  {
    if packages == [] then map[]
    else
      var last := packages[|packages| - 1];
      assert packages == packages[..|packages| - 1] + [last];
      PackageByName(packages[..|packages| - 1])[last.name := last]
  }

  function DependencyEdges(packageByName: map<string, WorkspacePackage>): Edges {
    map name | name in packageByName :: packageByName[name].dependencies
  }

  ghost predicate DependsDirectly(packages: seq<WorkspacePackage>, dependent: string, dependency: string) {
    exists p :: p in packages && p.name == dependent && dependency in p.dependencies
  }

  ghost function DependentsEdges(packages: seq<WorkspacePackage>): Edges {
    map dependency | dependency in Names(packages) ::
      set dependent | dependent in Names(packages) && DependsDirectly(packages, dependent, dependency)
  }

  method BuildDependentsMap(packages: seq<WorkspacePackage>) returns (dependents: Edges)
    ensures dependents == DependentsEdges(packages)
  {
    dependents := map[];
    for i := 0 to |packages|
      invariant dependents.Keys == Names(packages[..i])
      invariant forall name :: name in dependents ==> dependents[name] == {}
    {
      assert packages[..i + 1] == packages[..i] + [packages[i]];
      if packages[i].name !in dependents {
        dependents := dependents[packages[i].name := {}];
      }
    }
    assert packages[..|packages|] == packages;
    for i := 0 to |packages|
      invariant dependents.Keys == Names(packages)
      invariant forall name, dependent :: name in dependents ==>
        (dependent in dependents[name] <==> DependsDirectly(packages[..i], dependent, name))
    {
      assert packages[..i + 1] == packages[..i] + [packages[i]];
      ghost var before := dependents;
      var p := packages[i];
      var remaining := p.dependencies;
      while remaining != {}
        invariant remaining <= p.dependencies
        invariant dependents.Keys == before.Keys
        invariant forall name, dependent :: name in dependents ==>
          (dependent in dependents[name] <==>
            dependent in before[name] || (dependent == p.name && name in p.dependencies - remaining))
      {
        var dependencyName :| dependencyName in remaining;
        remaining := remaining - {dependencyName};
        if dependencyName in dependents {
          dependents := dependents[dependencyName := dependents[dependencyName] + {p.name}];
        }
      }
      forall name, dependent | name in dependents
        ensures dependent in dependents[name] <==> DependsDirectly(packages[..i + 1], dependent, name)
      {
        if dependent == p.name && name in p.dependencies {
          assert p in packages[..i + 1];
        }
      }
    }
    assert packages[..|packages|] == packages;
    forall name | name in dependents
      ensures dependents[name] == DependentsEdges(packages)[name]
    {
      forall dependent | DependsDirectly(packages, dependent, name) ensures dependent in Names(packages) {
        var p :| p in packages && p.name == dependent;
        var i :| 0 <= i < |packages| && packages[i] == p;
      }
    }
  }

  lemma UniqueNameDetermines(packages: seq<WorkspacePackage>, p: WorkspacePackage)
    requires UniqueNames(packages) && p in packages
    ensures p.name in PackageByName(packages) && PackageByName(packages)[p.name] == p
  {
    var i :| 0 <= i < |packages| && packages[i] == p;
    assert packages[i].name in Names(packages);
    var q := PackageByName(packages)[p.name];
    var j :| 0 <= j < |packages| && packages[j] == q;
  }

  /** With unique names an edge between workspace packages is in the one map iff its
      reverse is in the other. */
  lemma EdgesAreConverse(packages: seq<WorkspacePackage>, dependent: string, dependency: string)
    requires UniqueNames(packages) && dependency in Names(packages)
    ensures Edge(DependencyEdges(PackageByName(packages)), dependent, dependency)
            <==> Edge(DependentsEdges(packages), dependency, dependent)
  {
    var byName := PackageByName(packages);
    if DependsDirectly(packages, dependent, dependency) {
      var p :| p in packages && p.name == dependent && dependency in p.dependencies;
      UniqueNameDetermines(packages, p);
    }
  }

  /** d is in the dependents closure of p iff p is in the dependencies closure of d. */
  lemma ClosuresAreConverse(packages: seq<WorkspacePackage>, p: string, d: string)
    requires UniqueNames(packages) && p in Names(packages) && d in Names(packages)
    ensures Reaches(DependentsEdges(packages), p, d)
            <==> Reaches(DependencyEdges(PackageByName(packages)), d, p)
  {
    var up, down := DependentsEdges(packages), DependencyEdges(PackageByName(packages));
    forall x, y | y in Names(packages) ensures Edge(down, x, y) <==> Edge(up, y, x) {
      EdgesAreConverse(packages, x, y);
    }
    ReachesBack(up, down, Names(packages), p, d);
    ReachesBack(down, up, Names(packages), d, p);
  }

  lemma ReachesBack(a: Edges, b: Edges, inside: set<string>, from: string, to: string)
    requires forall x, y :: Edge(a, x, y) ==> x in inside
    requires forall x, y :: Edge(a, x, y) && y in inside ==> Edge(b, y, x)
    requires to in inside
    ensures Reaches(a, from, to) ==> Reaches(b, to, from)
  {
    if Reaches(a, from, to) {
      var steps: nat :| steps > 0 && Walks(a, from, to, steps);
      WalkBack(a, b, inside, from, to, steps);
    }
  }
}
