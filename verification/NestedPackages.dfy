/**
 A workspace with nested packages in which the planner of scripts/dev/validate-changed.ts
 leaves a change untested: the selection is sorted by name and the workspace by path, so the
 first holder of a file need not be the same in both.
 */
module NestedPackages {
  import opened Common
  import opened PackageGraph
  import opened Selection
  import opened Relevance
  import opened TestPlan
  import opened ExecutionPlan

  const DASHBOARD := WorkspacePackage("@mistle/dashboard", "apps/dashboard", {"@mistle/ui"}, ALL_STEPS)
  const APPS := WorkspacePackage("@mistle/apps", "apps", {}, ALL_STEPS)
  const UI := WorkspacePackage("@mistle/ui", "packages/ui", {}, ALL_STEPS)

  // ---------- One edge ----------

  lemma OneEdgeReaches(edges: Edges, from: string, to: string, a: string, b: string)
    requires from != to && forall x, y :: Edge(edges, x, y) <==> x == from && y == to
    ensures Reaches(edges, a, b) <==> a == from && b == to
  {
    if Reaches(edges, a, b) {
      var steps: nat :| steps > 0 && Walks(edges, a, b, steps);
      var mid :| Edge(edges, a, mid) && Walks(edges, mid, b, steps - 1);
    }
    if a == from && b == to {
      EdgeReaches(edges, a, b);
    }
  }

  // ---------- The selection ----------

  /** `inner` lies in `outer` and depends on `other`; one file of each changed. */
  ghost predicate Nested(inner: WorkspacePackage, outer: WorkspacePackage, other: WorkspacePackage,
                         x: string, y: string, z: string)
  {
    && inner.name != outer.name && inner.name != other.name && outer.name != other.name
    && inner.dependencies == {other.name} && outer.dependencies == {} && other.dependencies == {}
    && Contains(inner, x) && Contains(outer, x) && !Contains(other, x)
    && !Contains(inner, y) && Contains(outer, y) && !Contains(other, y)
    && !Contains(inner, z) && !Contains(outer, z) && Contains(other, z)
    && !HasRepoWideConfigChange([x, y, z])
  }

  function ReasonsOf(inner: WorkspacePackage, outer: WorkspacePackage, other: WorkspacePackage)
    : map<string, seq<Reason>>
  {
    map[inner.name := [ChangedFileIn(inner.relativePath), DependsOn(other.name)],
        outer.name := [ChangedFileIn(outer.relativePath)],
        other.name := [ChangedFileIn(other.relativePath)]]
  }

  lemma Owners(inner: WorkspacePackage, outer: WorkspacePackage, other: WorkspacePackage,
               x: string, y: string, z: string)
    requires Nested(inner, outer, other, x, y, z)
    ensures FindWorkspacePackageForFile(x, [inner, outer, other]) == Some(inner)
    ensures FindWorkspacePackageForFile(y, [inner, outer, other]) == Some(outer)
    ensures FindWorkspacePackageForFile(z, [inner, outer, other]) == Some(other)
    ensures FindWorkspacePackageForFile(x, [outer, inner, other]) == Some(outer)
    ensures FindWorkspacePackageForFile(y, [outer, inner, other]) == Some(outer)
    ensures FindWorkspacePackageForFile(z, [outer, inner, other]) == Some(other)
  {
    assert [inner, outer, other][1..] == [outer, other] && [outer, inner, other][1..] == [inner, other];
    assert [outer, other][1..] == [other] && [inner, other][1..] == [other];
  }

  /** The packages of a list in which `inner` depends on `other` and no other dependency is. */
  ghost predicate OneDependency(packages: seq<WorkspacePackage>, inner: WorkspacePackage, other: WorkspacePackage) {
    && UniqueNames(packages) && inner in packages && other in packages && inner.name != other.name
    && inner.dependencies == {other.name}
    && forall p :: p in packages && p != inner ==> p.dependencies == {}
  }

  lemma OneDependent(packages: seq<WorkspacePackage>, inner: WorkspacePackage, other: WorkspacePackage,
                     a: string, b: string)
    requires OneDependency(packages, inner, other)
    ensures Reaches(DependentsEdges(packages), a, b) <==> a == other.name && b == inner.name
  {
    UniqueNameDetermines(packages, inner);
    UniqueNameDetermines(packages, other);
    assert forall x, y :: DependsDirectly(packages, x, y) <==> x == inner.name && y == other.name;
    OneEdgeReaches(DependentsEdges(packages), other.name, inner.name, a, b);
  }

  lemma OneDependencyReaches(packages: seq<WorkspacePackage>, inner: WorkspacePackage, other: WorkspacePackage,
                             a: string, b: string)
    requires OneDependency(packages, inner, other)
    ensures Reaches(DependencyEdges(PackageByName(packages)), a, b) <==> a == inner.name && b == other.name
  {
    UniqueNameDetermines(packages, inner);
    OneEdgeReaches(DependencyEdges(PackageByName(packages)), inner.name, other.name, a, b);
  }

  lemma NestedDependency(inner: WorkspacePackage, outer: WorkspacePackage, other: WorkspacePackage,
                         x: string, y: string, z: string)
    requires Nested(inner, outer, other, x, y, z)
    ensures OneDependency([inner, outer, other], inner, other)
    ensures OneDependency([outer, inner, other], inner, other)
  {
  }

  lemma GivenBy(filePath: string, owner: WorkspacePackage, packages: seq<WorkspacePackage>, name: string,
                reason: Reason, isDependent: bool)
    requires FindWorkspacePackageForFile(filePath, packages) == Some(owner)
    requires Reaches(DependentsEdges(packages), owner.name, name) <==> isDependent
    ensures FileGives(filePath, name, reason, packages)
            <==> || (name == owner.name && reason == ChangedFileIn(owner.relativePath))
                 || (reason == DependsOn(owner.name) && isDependent)
  {
  }

  /** The four reasons. */
  ghost predicate IsReason(inner: WorkspacePackage, outer: WorkspacePackage, other: WorkspacePackage,
                           name: string, reason: Reason)
  {
    || (name == inner.name && reason == ChangedFileIn(inner.relativePath))
    || (name == inner.name && reason == DependsOn(other.name))
    || (name == outer.name && reason == ChangedFileIn(outer.relativePath))
    || (name == other.name && reason == ChangedFileIn(other.relativePath))
  }

  lemma ReasonsAreFour(inner: WorkspacePackage, outer: WorkspacePackage, other: WorkspacePackage,
                       name: string, reason: Reason)
    requires inner.name != outer.name && inner.name != other.name && outer.name != other.name
    ensures HasReason(ReasonsOf(inner, outer, other), name, reason) <==> IsReason(inner, outer, other, name, reason)
  {
  }

  lemma JustifiedAreFour(inner: WorkspacePackage, outer: WorkspacePackage, other: WorkspacePackage,
                         x: string, y: string, z: string, name: string, reason: Reason)
    requires Nested(inner, outer, other, x, y, z)
    ensures Justified(name, reason, [x, y, z], [inner, outer, other])
            <==> IsReason(inner, outer, other, name, reason)
  {
    var packages := [inner, outer, other];
    Owners(inner, outer, other, x, y, z);
    NestedDependency(inner, outer, other, x, y, z);
    OneDependent(packages, inner, other, inner.name, name);
    OneDependent(packages, inner, other, outer.name, name);
    OneDependent(packages, inner, other, other.name, name);
    GivenBy(x, inner, packages, name, reason, false);
    GivenBy(y, outer, packages, name, reason, false);
    GivenBy(z, other, packages, name, reason, name == inner.name);
    JustifiedByThree(x, y, z, name, reason, packages);
  }

  lemma JustifiedByThree(x: string, y: string, z: string, name: string, reason: Reason,
                         packages: seq<WorkspacePackage>)
    requires !HasRepoWideConfigChange([x, y, z])
    ensures Justified(name, reason, [x, y, z], packages)
            <==> || FileGives(x, name, reason, packages) || FileGives(y, name, reason, packages)
                 || FileGives(z, name, reason, packages)
  {
  }

  lemma SelectionOfNested(inner: WorkspacePackage, outer: WorkspacePackage, other: WorkspacePackage,
                          x: string, y: string, z: string)
    requires Nested(inner, outer, other, x, y, z)
    ensures IsSelection(PackageSelection(ReasonsOf(inner, outer, other), [outer, inner, other]),
                        [x, y, z], [inner, outer, other])
  {
    var packages, reasons := [inner, outer, other], ReasonsOf(inner, outer, other);
    forall name, reason
      ensures HasReason(reasons, name, reason) <==> Justified(name, reason, [x, y, z], packages)
    {
      ReasonsAreFour(inner, outer, other, name, reason);
      JustifiedAreFour(inner, outer, other, x, y, z, name, reason);
    }
    ReasonsAreExactlySelected(reasons, [x, y, z], packages);
    SelectedOfNested(inner, outer, other);
  }

  lemma FoundByName(packages: seq<WorkspacePackage>, p: WorkspacePackage)
    requires UniqueNames(packages)
    ensures p in packages <==> p.name in PackageByName(packages) && PackageByName(packages)[p.name] == p
  {
    if p in packages {
      UniqueNameDetermines(packages, p);
    }
  }

  lemma AmongThree(p: WorkspacePackage, inner: WorkspacePackage, outer: WorkspacePackage, other: WorkspacePackage)
    ensures p in [inner, outer, other] <==> p in [outer, inner, other]
    ensures p in [inner, outer, other] ==> p.name in ReasonsOf(inner, outer, other)
  {
  }

  lemma SelectedOfNested(inner: WorkspacePackage, outer: WorkspacePackage, other: WorkspacePackage)
    requires inner.name != outer.name && inner.name != other.name && outer.name != other.name
    ensures
      var byName := PackageByName([inner, outer, other]);
      && UniqueNames([outer, inner, other])
      && (forall p :: p in [outer, inner, other]
                      <==> p.name in ReasonsOf(inner, outer, other) && p.name in byName && byName[p.name] == p)
  {
    var packages := [inner, outer, other];
    forall p ensures p in [outer, inner, other]
                     <==> p.name in ReasonsOf(inner, outer, other) && p.name in PackageByName(packages)
                          && PackageByName(packages)[p.name] == p
    {
      FoundByName(packages, p);
      AmongThree(p, inner, outer, other);
    }
  }

  // ---------- The plan ----------

  lemma RelevanceOfNested(inner: WorkspacePackage, outer: WorkspacePackage, other: WorkspacePackage,
                          x: string, y: string, z: string)
    requires Nested(inner, outer, other, x, y, z)
    ensures IsRelevant(inner, x, [inner, outer, other])
    ensures !IsRelevant(inner, x, [outer, inner, other])
    ensures !IsRelevant(inner, y, [outer, inner, other])
    ensures IsRelevant(inner, z, [outer, inner, other])
  {
    Owners(inner, outer, other, x, y, z);
    NestedDependency(inner, outer, other, x, y, z);
    OneDependencyReaches([outer, inner, other], inner, other, inner.name, outer.name);
    OneDependencyReaches([outer, inner, other], inner, other, inner.name, other.name);
  }

  function PlanOf(inner: WorkspacePackage, outer: WorkspacePackage, other: WorkspacePackage,
                  x: string, y: string, z: string, extra: ExtraCommands): ValidationPlan
  {
    ValidationPlan([x, y, z], extra, PackageSelection(ReasonsOf(inner, outer, other), [outer, inner, other]))
  }

  lemma NoIntegrationTests(plan: ValidationPlan, p: WorkspacePackage, x: string, y: string, z: string, env: Environment)
    requires plan.changedFiles == [x, y, z]
    requires !IsOwnFile(p, y) && !IsOwnFile(p, z) && !IsIntegrationTestFilePath(x)
    ensures forall f :: !IsChangedIntegrationTest(plan, p, env, f)
  {
    forall f | f in plan.changedFiles ensures !IsChangedIntegrationTest(plan, p, env, f) {
      assert f == x || f == y || f == z;
    }
  }

  /** A package without changed integration tests and repo-wide reason does not run as a whole
      when of three changed files only the third is relevant, and can be run alone. */
  lemma NoWholeRun(plan: ValidationPlan, p: WorkspacePackage, x: string, y: string, z: string, env: Environment)
    requires plan.changedFiles == [x, y, z] && AllPackages !in plan.Reasons(p)
    requires forall f :: !IsChangedIntegrationTest(plan, p, env, f)
    requires !IsRelevant(p, x, plan.selection.selectedPackages) && !IsRelevant(p, y, plan.selection.selectedPackages)
    requires IsRelevant(p, z, plan.selection.selectedPackages) && RunsAlone(p, env, z)
    ensures !AffectedPackageRunsWhole(plan, p, env)
  {
    assert plan.changedFiles[2] == z;
    forall f | f in plan.changedFiles && f != z ensures !IsRelevant(p, f, plan.selection.selectedPackages) {
      assert f == x || f == y;
    }
  }

  /** The inner package, if it is an affected-test package, does not run as a whole. */
  lemma InnerDoesNotRunWhole(inner: WorkspacePackage, outer: WorkspacePackage, other: WorkspacePackage,
                             x: string, y: string, z: string, extra: ExtraCommands, env: Environment)
    requires Nested(inner, outer, other, x, y, z)
    requires !IsIntegrationTestFilePath(x) && IsSupportedAffectedTestInputFilePath(z)
    ensures
      var plan := PlanOf(inner, outer, other, x, y, z, extra);
      && !AffectedPackageRunsWhole(plan, inner, env)
      && (forall f :: !IsChangedIntegrationTest(plan, inner, env, f))
  {
    var plan := PlanOf(inner, outer, other, x, y, z, extra);
    RelevanceOfNested(inner, outer, other, x, y, z);
    assert plan.Reasons(inner) == [ChangedFileIn(inner.relativePath), DependsOn(other.name)];
    assert AllPackages !in plan.Reasons(inner);
    assert !IsOwnFile(inner, y) && !IsOwnFile(inner, z);
    NoIntegrationTests(plan, inner, x, y, z, env);
    NoWholeRun(plan, inner, x, y, z, env);
  }

  /** None of its commands names its own changed file. */
  lemma InnerChangeIsNotNamed(inner: WorkspacePackage, outer: WorkspacePackage, other: WorkspacePackage,
                              x: string, y: string, z: string, extra: ExtraCommands, env: Environment)
    requires Nested(inner, outer, other, x, y, z)
    requires inner.name in env.affected && inner.name !in env.rust && Test in inner.policySteps
    requires !IsIntegrationTestFilePath(x) && IsSupportedAffectedTestInputFilePath(z)
    ensures
      var plan := PlanOf(inner, outer, other, x, y, z, extra);
      var decision := DecisionFor(plan, inner, env, plan.selection.selectedPackages);
      !decision.turbo && forall c :: c in decision.commands ==> x !in c.files
  {
    var plan := PlanOf(inner, outer, other, x, y, z, extra);
    RelevanceOfNested(inner, outer, other, x, y, z);
    InnerDoesNotRunWhole(inner, outer, other, x, y, z, extra, env);
    RunsWholeIff(plan, inner, env);
    IntegrationTestsAreFound(plan, inner, env);
    var relevantFiles := RelevantFiles(inner, plan.changedFiles, plan.selection.selectedPackages);
    var decision := DecisionFor(plan, inner, env, plan.selection.selectedPackages);
    assert decision == PlanAffectedPackage(inner, env, relevantFiles, []);
    forall c | c in decision.commands ensures x !in c.files {
      AffectedCommandsNameRelevantFiles(inner, env, relevantFiles, [], c);
    }
  }

  lemma NestedPlanFits(inner: WorkspacePackage, outer: WorkspacePackage, other: WorkspacePackage,
                       x: string, y: string, z: string, extra: ExtraCommands)
    requires Nested(inner, outer, other, x, y, z)
    ensures PlanFits(PlanOf(inner, outer, other, x, y, z, extra), [inner, outer, other])
  {
    assert UniqueNames([inner, outer, other]);
    SelectionOfNested(inner, outer, other, x, y, z);
    SelectionsFit(PlanOf(inner, outer, other, x, y, z, extra), [inner, outer, other]);
  }

  lemma InnerChangeIsNotTested(inner: WorkspacePackage, outer: WorkspacePackage, other: WorkspacePackage,
                               x: string, y: string, z: string, extra: ExtraCommands, steps: seq<Step>,
                               env: Environment)
    requires Nested(inner, outer, other, x, y, z) && RustStandsAlone(env) && Test in steps
    requires inner.name in env.affected && Test in inner.policySteps
    requires !IsIntegrationTestFilePath(x) && IsSupportedAffectedTestInputFilePath(z)
    ensures
      var plan := PlanOf(inner, outer, other, x, y, z, extra);
      var selected := plan.selection.selectedPackages;
      !ListTestsChange(ExecutionCommands(plan, steps, Decisions(plan, env, selected, |selected|)), inner, x, env)
  {
    var plan := PlanOf(inner, outer, other, x, y, z, extra);
    RelevanceOfNested(inner, outer, other, x, y, z);
    InnerDoesNotRunWhole(inner, outer, other, x, y, z, extra, env);
    assert plan.changedFiles[0] == x && plan.selection.selectedPackages[1] == inner;
    NestedPlanFits(inner, outer, other, x, y, z, extra);
    RelevantChangeIsTestedIff(plan, [inner, outer, other], steps, env, inner, x);
  }

  // ---------- The workspace ----------

  const X := DASHBOARD.relativePath + "/x.ts"
  const Y := APPS.relativePath + "/y.ts"
  const Z := UI.relativePath + "/z.ts"

  lemma TheFilesAreNested()
    ensures Nested(DASHBOARD, APPS, UI, X, Y, Z)
    ensures !IsIntegrationTestFilePath(X) && IsSupportedAffectedTestInputFilePath(Z)
  {
    HeldByTheirPackages();
    NothingRepoWide();
    assert |X| == 19 && EndsWith(Z, ".ts");
    assert |DASHBOARD.name| == 17 && |APPS.name| == 12 && |UI.name| == 10;
  }

  lemma HeldByTheirPackages()
    ensures Contains(DASHBOARD, X) && Contains(APPS, X) && !Contains(UI, X)
    ensures !Contains(DASHBOARD, Y) && Contains(APPS, Y) && !Contains(UI, Y)
    ensures !Contains(DASHBOARD, Z) && !Contains(APPS, Z) && Contains(UI, Z)
  {
    assert X == DASHBOARD.relativePath + "/" + "x.ts";
    assert Y == APPS.relativePath + "/" + "y.ts";
    assert Z == UI.relativePath + "/" + "z.ts";
    assert APPS.relativePath + "/" == X[..5];
    assert X[0] == Y[0] == 'a' && Z[0] == 'p' && |Y| == 9;
  }

  lemma NothingRepoWide()
    ensures !HasRepoWideConfigChange([X, Y, Z])
  {
    assert X[0] == Y[0] == 'a' && Z[0] == 'p' && |Z| == 16;
    assert |"package.json"| == 12 && |"pnpm-lock.yaml"| == 14 && "pnpm-workspace.yaml"[1] != Z[1];
    assert !IsRepoWideConfigPath(X) && !IsRepoWideConfigPath(Y) && !IsRepoWideConfigPath(Z);
  }

  /** The workspace is sorted by path and the selection by name. The dashboard's own changed
      file bears on it, and yet the dashboard does not run as a whole, none of its commands
      names the file, and the final list does not test the change. */
  lemma NestedPathsHideChanges(extra: ExtraCommands, steps: seq<Step>, existing: set<string>)
    requires Test in steps
    ensures
      var packages, env := [DASHBOARD, APPS, UI], MistleEnvironment(existing);
      var plan := PlanOf(DASHBOARD, APPS, UI, X, Y, Z, extra);
      var selected := plan.selection.selectedPackages;
      var decision := DecisionFor(plan, DASHBOARD, env, selected);
      && IsSelection(plan.selection, plan.changedFiles, packages)
      && IsRelevant(DASHBOARD, X, packages) && !IsRelevant(DASHBOARD, X, selected)
      && !decision.turbo && (forall c :: c in decision.commands ==> X !in c.files)
      && !ListTestsChange(ExecutionCommands(plan, steps, Decisions(plan, env, selected, |selected|)),
                          DASHBOARD, X, env)
  {
    var env := MistleEnvironment(existing);
    TheFilesAreNested();
    SelectionOfNested(DASHBOARD, APPS, UI, X, Y, Z);
    RelevanceOfNested(DASHBOARD, APPS, UI, X, Y, Z);
    InnerChangeIsNotNamed(DASHBOARD, APPS, UI, X, Y, Z, extra, env);
    InnerChangeIsNotTested(DASHBOARD, APPS, UI, X, Y, Z, extra, steps, env);
  }
}
