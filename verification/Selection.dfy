/**
 Which workspace packages a change selects, and why: scripts/dev/validate-changed.ts.
 The reference notions are `Selected` and `Justified`; SelectWorkspacePackages is proved
 to compute exactly them, and the selection is proved closed under "depends on".
 */
module Selection {
  import opened Common
  import opened PackageGraph

  /** The texts "root-level or repo-wide config changed", "changed file in <path>" and
      "depends on <name>"; texts of different constructors never coincide. */
  datatype Reason = AllPackages | ChangedFileIn(path: string) | DependsOn(name: string)

  datatype PackageSelection = PackageSelection(
    packageReasons: map<string, seq<Reason>>,
    selectedPackages: seq<WorkspacePackage>)

  const REPO_WIDE_FILES: set<string> := {
    "package.json", "pnpm-lock.yaml", "pnpm-workspace.yaml",
    "turbo.json", "tsconfig.base.json", ".lintstagedrc.json"
  }

  predicate IsRepoWideConfigPath(filePath: string) {
    StartsWith(filePath, ".github/") || filePath in REPO_WIDE_FILES
  }

  predicate HasRepoWideConfigChange(changedFiles: seq<string>) {
    exists filePath | filePath in changedFiles :: IsRepoWideConfigPath(filePath)
  }

  predicate Contains(p: WorkspacePackage, filePath: string) {
    filePath == p.relativePath || StartsWith(filePath, p.relativePath + "/")
  }

  predicate IsFirstHolder(filePath: string, packages: seq<WorkspacePackage>, i: nat) {
    i < |packages| && Contains(packages[i], filePath) && forall j | 0 <= j < i :: !Contains(packages[j], filePath)
  }

  /** The first package of the list whose directory holds the file. */
  function FindWorkspacePackageForFile(filePath: string, packages: seq<WorkspacePackage>)
    : (r: Option<WorkspacePackage>)
    ensures r.Some? ==> exists i: nat :: IsFirstHolder(filePath, packages, i) && r.value == packages[i]
    ensures r.None? ==> forall p | p in packages :: !Contains(p, filePath)
  {
    if packages == [] then None
    else if Contains(packages[0], filePath) then
      assert IsFirstHolder(filePath, packages, 0);
      Some(packages[0])
    else
      assert forall i: nat :: IsFirstHolder(filePath, packages[1..], i) ==> IsFirstHolder(filePath, packages, i + 1);
      FindWorkspacePackageForFile(filePath, packages[1..])
  }

  // ---------- Reference notions ----------

  /** The reasons a changed file of `owner` gives: one for the owner and one for each
      transitive dependent of the owner. */
  ghost predicate FileReason(owner: WorkspacePackage, name: string, reason: Reason, packages: seq<WorkspacePackage>) {
    || (name == owner.name && reason == ChangedFileIn(owner.relativePath))
    || (reason == DependsOn(owner.name) && Reaches(DependentsEdges(packages), owner.name, name))
  }

  ghost predicate FileGives(filePath: string, name: string, reason: Reason, packages: seq<WorkspacePackage>) {
    var owner := FindWorkspacePackageForFile(filePath, packages);
    owner.Some? && FileReason(owner.value, name, reason, packages)
  }

  ghost predicate Justified(name: string, reason: Reason, changedFiles: seq<string>, packages: seq<WorkspacePackage>) {
    || (reason == AllPackages && HasRepoWideConfigChange(changedFiles) && name in Names(packages))
    || exists filePath :: filePath in changedFiles && FileGives(filePath, name, reason, packages)
  }

  /** Every package when a repo-wide file changed, and otherwise the owners of changed files
      with all their transitive dependents. */
  ghost predicate Selected(name: string, changedFiles: seq<string>, packages: seq<WorkspacePackage>) {
    || (HasRepoWideConfigChange(changedFiles) && name in Names(packages))
    || exists filePath :: filePath in changedFiles && Touches(filePath, name, packages)
  }

  ghost predicate Touches(filePath: string, name: string, packages: seq<WorkspacePackage>) {
    var owner := FindWorkspacePackageForFile(filePath, packages);
    owner.Some? && (owner.value.name == name || Reaches(DependentsEdges(packages), owner.value.name, name))
  }

  // ---------- The reason table the selection fills in place ----------

  function WithReason(reasons: map<string, seq<Reason>>, name: string, reason: Reason): map<string, seq<Reason>> {
    var known := if name in reasons then reasons[name] else [];
    reasons[name := if reason in known then known else known + [reason]]
  }

  predicate HasReason(reasons: map<string, seq<Reason>>, name: string, reason: Reason) {
    name in reasons && reason in reasons[name]
  }

  predicate WellKept(reasons: map<string, seq<Reason>>) {
    forall name :: name in reasons ==> reasons[name] != [] && NoDuplicates(reasons[name])
  }

  lemma WithReasonAdds(reasons: map<string, seq<Reason>>, name: string, reason: Reason)
    requires WellKept(reasons)
    ensures WellKept(WithReason(reasons, name, reason))
    ensures forall n, r :: HasReason(WithReason(reasons, name, reason), n, r)
                           <==> HasReason(reasons, n, r) || (n == name && r == reason)
  {
  }

  class ReasonTable {
    var packageReasons: map<string, seq<Reason>>
    var selectedPackageNames: set<string>

    ghost predicate Valid()
      reads this
    {
      selectedPackageNames == packageReasons.Keys && WellKept(packageReasons)
    }

    constructor ()
      ensures Valid() && packageReasons == map[]
    {
      packageReasons, selectedPackageNames := map[], {};
    }

    method AddPackageReason(packageName: string, reason: Reason)
      requires Valid()
      modifies this
      ensures Valid()
      ensures packageReasons == WithReason(old(packageReasons), packageName, reason)
    {
      WithReasonAdds(packageReasons, packageName, reason);
      if packageName !in selectedPackageNames {
        selectedPackageNames := selectedPackageNames + {packageName};
        packageReasons := packageReasons[packageName := []];
      }
      var reasons := packageReasons[packageName];
      if reason !in reasons {
        packageReasons := packageReasons[packageName := reasons + [reason]];
      }
    }
  }

  /** The reasons the first `count` changed files and the repo-wide rule give. */
  ghost predicate Recorded(name: string, reason: Reason, count: nat, changedFiles: seq<string>,
                           packages: seq<WorkspacePackage>)
    requires count <= |changedFiles|
  {
    || (reason == AllPackages && HasRepoWideConfigChange(changedFiles) && name in Names(packages))
    || exists filePath :: filePath in changedFiles[..count] && FileGives(filePath, name, reason, packages)
  }

  method RecordRepoWide(table: ReasonTable, changedFiles: seq<string>, packages: seq<WorkspacePackage>)
    requires table.Valid() && table.packageReasons == map[]
    modifies table
    ensures table.Valid()
    ensures forall name, reason :: HasReason(table.packageReasons, name, reason)
                                   <==> Recorded(name, reason, 0, changedFiles, packages)
  {
    if HasRepoWideConfigChange(changedFiles) {
      for i := 0 to |packages|
        invariant table.Valid()
        invariant forall name, reason :: HasReason(table.packageReasons, name, reason)
                                         <==> reason == AllPackages && name in Names(packages[..i])
      {
        WithReasonAdds(table.packageReasons, packages[i].name, AllPackages);
        assert packages[..i + 1] == packages[..i] + [packages[i]];
        table.AddPackageReason(packages[i].name, AllPackages);
      }
      assert packages[..|packages|] == packages;
    }
  }

  method RecordChangedFile(table: ReasonTable, filePath: string, packages: seq<WorkspacePackage>, dependentsMap: Edges)
    requires table.Valid() && dependentsMap == DependentsEdges(packages)
    modifies table
    ensures table.Valid()
    ensures forall name, reason ::
      HasReason(table.packageReasons, name, reason)
      <==> HasReason(old(table.packageReasons), name, reason) || FileGives(filePath, name, reason, packages)
  {
    var owner := FindWorkspacePackageForFile(filePath, packages);
    if owner.None? {
      return;
    }
    var matchingPackage := owner.value;
    ghost var before := table.packageReasons;
    WithReasonAdds(before, matchingPackage.name, ChangedFileIn(matchingPackage.relativePath));
    table.AddPackageReason(matchingPackage.name, ChangedFileIn(matchingPackage.relativePath));
    var dependents := CollectTransitiveDependents(matchingPackage.name, dependentsMap);
    var remaining := dependents;
    while remaining != {}
      invariant remaining <= dependents && table.Valid()
      invariant forall name, reason ::
        HasReason(table.packageReasons, name, reason)
        <==> || HasReason(before, name, reason)
             || (name == matchingPackage.name && reason == ChangedFileIn(matchingPackage.relativePath))
             || (name in dependents - remaining && reason == DependsOn(matchingPackage.name))
    {
      var dependentName :| dependentName in remaining;
      remaining := remaining - {dependentName};
      WithReasonAdds(table.packageReasons, dependentName, DependsOn(matchingPackage.name));
      table.AddPackageReason(dependentName, DependsOn(matchingPackage.name));
    }
  }

  // ---------- The selection ----------

  /** What selectWorkspacePackages promises of its result. */
  ghost predicate IsSelection(selection: PackageSelection, changedFiles: seq<string>, packages: seq<WorkspacePackage>) {
    var reasons, selected := selection.packageReasons, selection.selectedPackages;
    var byName := PackageByName(packages);
    && WellKept(reasons)
    && (forall name :: name in reasons <==> Selected(name, changedFiles, packages))
    && (forall name, reason :: HasReason(reasons, name, reason) <==> Justified(name, reason, changedFiles, packages))
    && (forall p :: p in selected <==> p.name in reasons && p.name in byName && byName[p.name] == p)
    && UniqueNames(selected)
  }

  /** The reasons a changed file gives are all recorded. */
  ghost predicate RecordsReasons(selection: PackageSelection, changedFiles: seq<string>,
                                 packages: seq<WorkspacePackage>)
  {
    forall filePath, name, reason ::
      filePath in changedFiles && FileGives(filePath, name, reason, packages)
      ==> HasReason(selection.packageReasons, name, reason)
  }

  lemma SelectionsRecordReasons(selection: PackageSelection, changedFiles: seq<string>,
                                packages: seq<WorkspacePackage>)
    requires IsSelection(selection, changedFiles, packages)
    ensures RecordsReasons(selection, changedFiles, packages)
  {
    forall filePath, name, reason | filePath in changedFiles && FileGives(filePath, name, reason, packages)
      ensures HasReason(selection.packageReasons, name, reason)
    {
      assert Justified(name, reason, changedFiles, packages);
    }
  }

  lemma ReasonsAreExactlySelected(reasons: map<string, seq<Reason>>, changedFiles: seq<string>,
                                  packages: seq<WorkspacePackage>)
    requires WellKept(reasons)
    requires forall name, reason ::
      HasReason(reasons, name, reason) <==> Justified(name, reason, changedFiles, packages)
    ensures forall name :: name in reasons <==> Selected(name, changedFiles, packages)
  {
    forall name ensures name in reasons <==> Selected(name, changedFiles, packages) {
      if name in reasons {
        var reason := reasons[name][0];
        assert HasReason(reasons, name, reason);
        if reason != AllPackages {
          var filePath :| filePath in changedFiles && FileGives(filePath, name, reason, packages);
          assert Touches(filePath, name, packages);
        }
      }
      if Selected(name, changedFiles, packages) {
        if HasRepoWideConfigChange(changedFiles) && name in Names(packages) {
          assert HasReason(reasons, name, AllPackages);
        } else {
          var filePath :| filePath in changedFiles && Touches(filePath, name, packages);
          var owner := FindWorkspacePackageForFile(filePath, packages).value;
          var reason := if owner.name == name then ChangedFileIn(owner.relativePath) else DependsOn(owner.name);
          assert FileGives(filePath, name, reason, packages);
          assert HasReason(reasons, name, reason);
        }
      }
    }
  }

  method SelectWorkspacePackages(changedFiles: seq<string>, packages: seq<WorkspacePackage>)
    returns (selection: PackageSelection)
    ensures IsSelection(selection, changedFiles, packages)
  {
    var table := new ReasonTable();
    var dependentsMap := BuildDependentsMap(packages);
    var packageByName := PackageByName(packages);
    RecordRepoWide(table, changedFiles, packages);
    for i := 0 to |changedFiles|
      invariant table.Valid()
      invariant forall name, reason :: HasReason(table.packageReasons, name, reason)
                                       <==> Recorded(name, reason, i, changedFiles, packages)
    {
      assert changedFiles[..i + 1] == changedFiles[..i] + [changedFiles[i]];
      RecordChangedFile(table, changedFiles[i], packages, dependentsMap);
    }
    assert changedFiles[..|changedFiles|] == changedFiles;
    ReasonsAreExactlySelected(table.packageReasons, changedFiles, packages);

    var selectedPackages := FindPackages(table.selectedPackageNames, packageByName);
    selection := PackageSelection(table.packageReasons, selectedPackages);
  }

  /** Array.from(names).map(get).filter(defined), in the order a sort leaves unspecified here. */
  method FindPackages(names: set<string>, packageByName: map<string, WorkspacePackage>)
    returns (selectedPackages: seq<WorkspacePackage>)
    requires forall name :: name in packageByName ==> packageByName[name].name == name
    ensures forall p :: p in selectedPackages
                        <==> p.name in names && p.name in packageByName && packageByName[p.name] == p
    ensures UniqueNames(selectedPackages)
  {
    selectedPackages := [];
    var remaining := names;
    while remaining != {}
      invariant remaining <= names
      invariant forall p :: p in selectedPackages
                            <==> p.name in names - remaining && p.name in packageByName && packageByName[p.name] == p
      invariant UniqueNames(selectedPackages)
    {
      var packageName :| packageName in remaining;
      remaining := remaining - {packageName};
      if packageName in packageByName {
        selectedPackages := selectedPackages + [packageByName[packageName]];
      }
    }
  }

  // ---------- What the selection guarantees ----------

  /** With a selected package come all packages that depend on it. */
  lemma SelectionIsClosed(changedFiles: seq<string>, packages: seq<WorkspacePackage>, dependency: string,
                          dependent: string)
    requires Selected(dependency, changedFiles, packages)
    requires dependency in Names(packages) && DependsDirectly(packages, dependent, dependency)
    ensures Selected(dependent, changedFiles, packages)
  {
    var p :| p in packages && p.name == dependent;
    var i :| 0 <= i < |packages| && packages[i] == p;
    assert dependent in Names(packages);
    if !HasRepoWideConfigChange(changedFiles) {
      var filePath :| filePath in changedFiles && Touches(filePath, dependency, packages);
      var owner := FindWorkspacePackageForFile(filePath, packages).value;
      if owner.name == dependency {
        EdgeReaches(DependentsEdges(packages), dependency, dependent);
      } else {
        ReachesThenEdge(DependentsEdges(packages), owner.name, dependency, dependent);
      }
      assert Touches(filePath, dependent, packages);
    }
  }

  lemma OnlyWorkspaceNamesAreSelected(changedFiles: seq<string>, packages: seq<WorkspacePackage>, name: string)
    requires Selected(name, changedFiles, packages)
    ensures name in Names(packages)
  {
    if !(HasRepoWideConfigChange(changedFiles) && name in Names(packages)) {
      var filePath :| filePath in changedFiles && Touches(filePath, name, packages);
      var owner := FindWorkspacePackageForFile(filePath, packages).value;
      if owner.name != name {
        var edges := DependentsEdges(packages);
        var steps: nat :| steps > 0 && Walks(edges, owner.name, name, steps);
        var last := ReachesLastEdge(edges, owner.name, name, steps);
      } else {
        var i :| 0 <= i < |packages| && packages[i] == owner;
      }
    }
  }

  lemma RepoWideChangeSelectsEverything(changedFiles: seq<string>, packages: seq<WorkspacePackage>, name: string)
    requires HasRepoWideConfigChange(changedFiles)
    ensures Selected(name, changedFiles, packages) <==> name in Names(packages)
  {
    if Selected(name, changedFiles, packages) {
      OnlyWorkspaceNamesAreSelected(changedFiles, packages, name);
    }
  }

  /** The packages are exactly those with a selected name, each once. */
  ghost predicate SelectsExactly(selected: seq<WorkspacePackage>, changedFiles: seq<string>,
                                 packages: seq<WorkspacePackage>)
  {
    && UniqueNames(selected)
    && forall p :: p in selected <==> p in packages && Selected(p.name, changedFiles, packages)
  }

  /** With unique names the selected packages are exactly the packages with a selected name. */
  lemma SelectedPackagesAreExact(selection: PackageSelection, changedFiles: seq<string>,
                                 packages: seq<WorkspacePackage>)
    requires IsSelection(selection, changedFiles, packages) && UniqueNames(packages)
    ensures SelectsExactly(selection.selectedPackages, changedFiles, packages)
  {
    forall p ensures p in selection.selectedPackages <==> p in packages && Selected(p.name, changedFiles, packages) {
      if p in packages {
        UniqueNameDetermines(packages, p);
      }
    }
  }
}
