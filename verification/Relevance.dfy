/**
 The changed files that bear on a package's tests (scripts/dev/validate-changed.ts).
 The planner looks for them in the selected packages only; the main result is that the
 selected subgraph gives the same files as the whole workspace.
 */
module Relevance {
  import opened Common
  import opened PackageGraph
  import opened Selection

  ghost predicate IsRelevant(p: WorkspacePackage, filePath: string, packages: seq<WorkspacePackage>) {
    var owner := FindWorkspacePackageForFile(filePath, packages);
    && owner.Some?
    && (|| owner.value.name == p.name
        || Reaches(DependencyEdges(PackageByName(packages)), p.name, owner.value.name))
  }

  /** The relevant files, in the order of the changed files. */
  ghost function RelevantFiles(p: WorkspacePackage, changedFiles: seq<string>, packages: seq<WorkspacePackage>)
    : (r: seq<string>)
    ensures forall filePath :: filePath in r <==> filePath in changedFiles && IsRelevant(p, filePath, packages)
  {
    if changedFiles == [] then []
    else
      var n := |changedFiles| - 1;
      assert changedFiles == changedFiles[..n] + [changedFiles[n]];
      RelevantFiles(p, changedFiles[..n], packages)
      + (if IsRelevant(p, changedFiles[n], packages) then [changedFiles[n]] else [])
  }

  method GetAffectedTestRelevantFiles(p: WorkspacePackage, changedFiles: seq<string>, packages: seq<WorkspacePackage>)
    returns (relevantFiles: seq<string>)
    ensures relevantFiles == RelevantFiles(p, changedFiles, packages)
  {
    var relevantPackageNames := CollectTransitiveDependencies(p.name, PackageByName(packages));
    relevantPackageNames := relevantPackageNames + {p.name};
    relevantFiles := [];
    for i := 0 to |changedFiles|
      invariant relevantFiles == RelevantFiles(p, changedFiles[..i], packages)
    {
      var matchingPackage := FindWorkspacePackageForFile(changedFiles[i], packages);
      assert changedFiles[..i + 1][..i] == changedFiles[..i];
      if matchingPackage.Some? && matchingPackage.value.name in relevantPackageNames {
        relevantFiles := relevantFiles + [changedFiles[i]];
      }
    }
    assert changedFiles[..|changedFiles|] == changedFiles;
  }

  // ---------- File ownership ----------

  /** No changed file lies in two packages. */
  ghost predicate Unambiguous(changedFiles: seq<string>, packages: seq<WorkspacePackage>) {
    forall filePath, p, q ::
      filePath in changedFiles && p in packages && q in packages && Contains(p, filePath) && Contains(q, filePath)
      ==> p == q
  }

  predicate NotNested(packages: seq<WorkspacePackage>) {
    forall p, q | p in packages && q in packages && p != q :: !Contains(p, q.relativePath)
  }

  lemma NotNestedIsUnambiguous(changedFiles: seq<string>, packages: seq<WorkspacePackage>)
    requires NotNested(packages)
    ensures Unambiguous(changedFiles, packages)
  {
    forall filePath, p, q |
      p in packages && q in packages && Contains(p, filePath) && Contains(q, filePath)
      ensures p == q
    {
      if |p.relativePath| <= |q.relativePath| {
        HeldTogetherIsNested(p, q, filePath);
      } else {
        HeldTogetherIsNested(q, p, filePath);
      }
    }
  }

  lemma HeldTogetherIsNested(outer: WorkspacePackage, inner: WorkspacePackage, filePath: string)
    requires |outer.relativePath| <= |inner.relativePath|
    requires Contains(outer, filePath) && Contains(inner, filePath)
    ensures Contains(outer, inner.relativePath)
  {
    var a, b := outer.relativePath, inner.relativePath;
    assert a == filePath[..|a|] && b == filePath[..|b|];
    if |a| < |b| {
      assert a + "/" == filePath[..|a| + 1];
      assert b[..|a| + 1] == a + "/";
    }
  }

  // ---------- The selected subgraph ----------

  /** A selection that holds the owner of every changed file, and with a package all packages
      that depend on it. */
  ghost predicate Closed(selected: seq<WorkspacePackage>, changedFiles: seq<string>,
                         packages: seq<WorkspacePackage>)
  {
    && UniqueNames(packages) && UniqueNames(selected)
    && (forall p :: p in selected ==> p in packages)
    && (forall filePath :: filePath in changedFiles ==> OwnerIsIn(filePath, selected, packages))
    && (forall p, q :: p in selected && q in packages && p.name in q.dependencies ==> q in selected)
  }

  ghost predicate OwnerIsIn(filePath: string, selected: seq<WorkspacePackage>, packages: seq<WorkspacePackage>) {
    var owner := FindWorkspacePackageForFile(filePath, packages);
    owner.Some? ==> owner.value in selected
  }

  /** What selectWorkspacePackages selects is such a selection. */
  lemma SelectionsAreClosed(selection: PackageSelection, changedFiles: seq<string>, packages: seq<WorkspacePackage>)
    requires IsSelection(selection, changedFiles, packages) && UniqueNames(packages)
    ensures Closed(selection.selectedPackages, changedFiles, packages)
  {
    var selected := selection.selectedPackages;
    SelectedPackagesAreExact(selection, changedFiles, packages);
    forall filePath | filePath in changedFiles ensures OwnerIsIn(filePath, selected, packages) {
      var owner := FindWorkspacePackageForFile(filePath, packages);
      assert owner.Some? ==> Touches(filePath, owner.value.name, packages);
    }
    forall p, q | p in selected && q in packages && p.name in q.dependencies ensures q in selected {
      UniqueNameDetermines(packages, p);
      SelectionIsClosed(changedFiles, packages, p.name, q.name);
    }
  }

  lemma SelectedByName(selected: seq<WorkspacePackage>, packages: seq<WorkspacePackage>, name: string)
    requires UniqueNames(packages) && UniqueNames(selected)
    requires forall p :: p in selected ==> p in packages
    ensures name in PackageByName(selected) ==>
      name in PackageByName(packages) && PackageByName(selected)[name] == PackageByName(packages)[name]
  {
    if name in PackageByName(selected) {
      UniqueNameDetermines(packages, PackageByName(selected)[name]);
    }
  }

  /** Every package from which dependencies lead to a selected package is selected. */
  lemma {:induction false} WalkersAreSelected(selected: seq<WorkspacePackage>, changedFiles: seq<string>,
                                              packages: seq<WorkspacePackage>, name: string,
                                              target: WorkspacePackage, steps: nat)
    requires Closed(selected, changedFiles, packages) && target in selected
    requires Walks(DependencyEdges(PackageByName(packages)), name, target.name, steps)
    ensures name in PackageByName(selected)
    decreases steps
  {
    UniqueNameDetermines(selected, target);
    if steps > 0 {
      var edges := DependencyEdges(PackageByName(packages));
      var mid :| Edge(edges, name, mid) && Walks(edges, mid, target.name, steps - 1);
      WalkersAreSelected(selected, changedFiles, packages, mid, target, steps - 1);
      var q := PackageByName(packages)[name];
      assert PackageByName(selected)[mid] in selected && mid in q.dependencies;
      UniqueNameDetermines(selected, q);
    }
  }

  /** So a selected package is reached in the selected subgraph exactly as in the workspace. */
  lemma SameReach(selected: seq<WorkspacePackage>, changedFiles: seq<string>, packages: seq<WorkspacePackage>,
                  name: string, target: WorkspacePackage)
    requires Closed(selected, changedFiles, packages) && target in selected
    ensures Reaches(DependencyEdges(PackageByName(selected)), name, target.name)
            <==> Reaches(DependencyEdges(PackageByName(packages)), name, target.name)
  {
    var whole, part := DependencyEdges(PackageByName(packages)), DependencyEdges(PackageByName(selected));
    forall x, y, n: nat | Edge(whole, x, y) && Walks(whole, y, target.name, n) ensures Edge(part, x, y) {
      assert Walks(whole, x, target.name, n + 1);
      WalkersAreSelected(selected, changedFiles, packages, x, target, n + 1);
      SelectedByName(selected, packages, x);
    }
    forall x, y, n: nat | Edge(part, x, y) && Walks(part, y, target.name, n) ensures Edge(whole, x, y) {
      SelectedByName(selected, packages, x);
    }
    ReachesAlong(whole, part, name, target.name);
    ReachesAlong(part, whole, name, target.name);
  }

  // ---------- When the selected subgraph is enough ----------

  /** The first package of the selection and the first of the workspace that hold the file are
      the same, or each depends on the other. */
  ghost predicate HoldersAgree(filePath: string, selected: seq<WorkspacePackage>, packages: seq<WorkspacePackage>) {
    var found := FindWorkspacePackageForFile(filePath, selected);
    var owner := FindWorkspacePackageForFile(filePath, packages);
    var edges := DependencyEdges(PackageByName(packages));
    || found == owner
    || (found.Some? && owner.Some?
        && Reaches(edges, found.value.name, owner.value.name) && Reaches(edges, owner.value.name, found.value.name))
  }

  ghost predicate AllHoldersAgree(selected: seq<WorkspacePackage>, changedFiles: seq<string>,
                                  packages: seq<WorkspacePackage>)
  {
    forall filePath :: filePath in changedFiles ==> HoldersAgree(filePath, selected, packages)
  }

  /** A file held by no two packages has the same owner among the selected packages. */
  lemma SameOwner(selected: seq<WorkspacePackage>, changedFiles: seq<string>, packages: seq<WorkspacePackage>,
                  filePath: string)
    requires Closed(selected, changedFiles, packages) && Unambiguous(changedFiles, packages)
    requires filePath in changedFiles
    ensures FindWorkspacePackageForFile(filePath, selected) == FindWorkspacePackageForFile(filePath, packages)
    ensures HoldersAgree(filePath, selected, packages)
  {
    assert OwnerIsIn(filePath, selected, packages);
    var found := FindWorkspacePackageForFile(filePath, selected);
    assert found.Some? ==> found.value in packages;
  }

  /** The first holder of a changed file in a selection and the one in the workspace. */
  lemma Holders(selected: seq<WorkspacePackage>, changedFiles: seq<string>, packages: seq<WorkspacePackage>,
                filePath: string)
    requires Closed(selected, changedFiles, packages) && filePath in changedFiles
    ensures
      var found := FindWorkspacePackageForFile(filePath, selected);
      var owner := FindWorkspacePackageForFile(filePath, packages);
      && (found.Some? <==> owner.Some?)
      && (owner.Some? ==> owner.value in selected && found.value in selected)
  {
    assert OwnerIsIn(filePath, selected, packages);
  }

  /** Whether a file is relevant is the same in the selection and in the workspace for every
      selected package iff the two holders of the file agree. */
  lemma SameRelevanceIff(selected: seq<WorkspacePackage>, changedFiles: seq<string>, packages: seq<WorkspacePackage>,
                         filePath: string)
    requires Closed(selected, changedFiles, packages) && filePath in changedFiles
    ensures (forall p :: p in selected ==> (IsRelevant(p, filePath, selected) <==> IsRelevant(p, filePath, packages)))
            <==> HoldersAgree(filePath, selected, packages)
  {
    var found := FindWorkspacePackageForFile(filePath, selected);
    var owner := FindWorkspacePackageForFile(filePath, packages);
    Holders(selected, changedFiles, packages, filePath);
    if HoldersAgree(filePath, selected, packages) {
      forall p | p in selected ensures IsRelevant(p, filePath, selected) <==> IsRelevant(p, filePath, packages) {
        SameRelevance(selected, changedFiles, packages, p, filePath);
      }
    } else {
      SameReach(selected, changedFiles, packages, owner.value.name, found.value);
      assert found != owner && found.value.name != owner.value.name by {
        UniqueNameDetermines(selected, found.value);
        UniqueNameDetermines(selected, owner.value);
      }
      assert IsRelevant(found.value, filePath, selected) && IsRelevant(owner.value, filePath, packages);
      assert !IsRelevant(found.value, filePath, packages) || !IsRelevant(owner.value, filePath, selected);
    }
  }

  lemma SameRelevance(selected: seq<WorkspacePackage>, changedFiles: seq<string>, packages: seq<WorkspacePackage>,
                      p: WorkspacePackage, filePath: string)
    requires Closed(selected, changedFiles, packages) && filePath in changedFiles
    requires HoldersAgree(filePath, selected, packages)
    ensures IsRelevant(p, filePath, selected) <==> IsRelevant(p, filePath, packages)
  {
    Holders(selected, changedFiles, packages, filePath);
    var found := FindWorkspacePackageForFile(filePath, selected);
    var owner := FindWorkspacePackageForFile(filePath, packages);
    if owner.Some? {
      SameReach(selected, changedFiles, packages, p.name, found.value);
      if found != owner {
        var edges := DependencyEdges(PackageByName(packages));
        ReachesTransitively(edges, p.name, found.value.name, owner.value.name);
        ReachesTransitively(edges, p.name, owner.value.name, found.value.name);
      }
    }
  }

  lemma {:induction false} SameRelevantFiles(selected: seq<WorkspacePackage>, changedFiles: seq<string>,
                                             packages: seq<WorkspacePackage>, p: WorkspacePackage, count: nat)
    requires Closed(selected, changedFiles, packages) && count <= |changedFiles|
    requires AllHoldersAgree(selected, changedFiles, packages)
    ensures RelevantFiles(p, changedFiles[..count], selected) == RelevantFiles(p, changedFiles[..count], packages)
  {
    if count > 0 {
      assert changedFiles[..count][..count - 1] == changedFiles[..count - 1];
      SameRelevantFiles(selected, changedFiles, packages, p, count - 1);
      SameRelevance(selected, changedFiles, packages, p, changedFiles[count - 1]);
    }
  }

  /** Relevance computed on a selection is relevance computed on the workspace, for every
      selected package, iff the two holders of each changed file agree. */
  lemma RelevanceOnSelectionIsExactIff(selected: seq<WorkspacePackage>, changedFiles: seq<string>,
                                       packages: seq<WorkspacePackage>)
    requires Closed(selected, changedFiles, packages)
    ensures
      (forall p :: p in selected ==>
         RelevantFiles(p, changedFiles, selected) == RelevantFiles(p, changedFiles, packages))
      <==> AllHoldersAgree(selected, changedFiles, packages)
  {
    assert changedFiles[..|changedFiles|] == changedFiles;
    if AllHoldersAgree(selected, changedFiles, packages) {
      forall p | p in selected
        ensures RelevantFiles(p, changedFiles, selected) == RelevantFiles(p, changedFiles, packages)
      {
        SameRelevantFiles(selected, changedFiles, packages, p, |changedFiles|);
      }
    } else {
      var filePath :| filePath in changedFiles && !HoldersAgree(filePath, selected, packages);
      SameRelevanceIff(selected, changedFiles, packages, filePath);
      var p :| p in selected && (IsRelevant(p, filePath, selected) <==> !IsRelevant(p, filePath, packages));
      assert filePath in RelevantFiles(p, changedFiles, selected)
             <==> filePath !in RelevantFiles(p, changedFiles, packages);
    }
  }

  /** In particular when no changed file lies in two packages. */
  lemma {:induction false} RelevanceOnSelectionIsRelevanceOnWorkspace(
      selected: seq<WorkspacePackage>, changedFiles: seq<string>, packages: seq<WorkspacePackage>,
      p: WorkspacePackage)
    requires Closed(selected, changedFiles, packages) && Unambiguous(changedFiles, packages)
    ensures RelevantFiles(p, changedFiles, selected) == RelevantFiles(p, changedFiles, packages)
  {
    forall filePath | filePath in changedFiles ensures HoldersAgree(filePath, selected, packages) {
      SameOwner(selected, changedFiles, packages, filePath);
    }
    SameRelevantFiles(selected, changedFiles, packages, p, |changedFiles|);
    assert changedFiles[..|changedFiles|] == changedFiles;
  }

  /** The first holder of the file in the selection is the package of that name, or one it
      depends on in the workspace. */
  ghost predicate HolderTouches(filePath: string, name: string, selected: seq<WorkspacePackage>,
                                packages: seq<WorkspacePackage>)
  {
    var found := FindWorkspacePackageForFile(filePath, selected);
    found.Some? && (found.value.name == name || Reaches(DependentsEdges(packages), found.value.name, name))
  }

  /** The planner's empty-relevance branch is reached for a selected package exactly when no
      changed file touches it by way of its first holder in the selection. */
  lemma RelevanceIsEmptyIff(selected: seq<WorkspacePackage>, changedFiles: seq<string>,
                            packages: seq<WorkspacePackage>, p: WorkspacePackage)
    requires Closed(selected, changedFiles, packages) && p in selected
    ensures RelevantFiles(p, changedFiles, selected) == []
            <==> forall filePath :: filePath in changedFiles ==> !HolderTouches(filePath, p.name, selected, packages)
  {
    var relevantFiles := RelevantFiles(p, changedFiles, selected);
    forall filePath | filePath in changedFiles
      ensures filePath in relevantFiles <==> HolderTouches(filePath, p.name, selected, packages)
    {
      RelevantMeansTouched(selected, changedFiles, packages, p, filePath);
    }
    if relevantFiles != [] {
      assert relevantFiles[0] in relevantFiles;
    }
  }

  lemma RelevantMeansTouched(selected: seq<WorkspacePackage>, changedFiles: seq<string>,
                             packages: seq<WorkspacePackage>, p: WorkspacePackage, filePath: string)
    requires Closed(selected, changedFiles, packages) && p in selected
    ensures IsRelevant(p, filePath, selected) <==> HolderTouches(filePath, p.name, selected, packages)
  {
    var found := FindWorkspacePackageForFile(filePath, selected);
    if found.Some? {
      SameReach(selected, changedFiles, packages, p.name, found.value);
      UniqueNameDetermines(packages, found.value);
      UniqueNameDetermines(packages, p);
      ClosuresAreConverse(packages, found.value.name, p.name);
    }
  }

  /** When nothing repo-wide changed and the holders agree, a selected package has a relevant
      file, so the planner's empty-relevance branch is not taken. */
  lemma RelevanceIsNeverEmpty(selected: seq<WorkspacePackage>, changedFiles: seq<string>,
                              packages: seq<WorkspacePackage>, p: WorkspacePackage)
    requires Closed(selected, changedFiles, packages)
    requires AllHoldersAgree(selected, changedFiles, packages)
    requires p in selected && Selected(p.name, changedFiles, packages) && !HasRepoWideConfigChange(changedFiles)
    ensures RelevantFiles(p, changedFiles, selected) != []
  {
    var filePath := SomeRelevantFile(changedFiles, packages, p);
    SameRelevance(selected, changedFiles, packages, p, filePath);
  }

  lemma SomeRelevantFile(changedFiles: seq<string>, packages: seq<WorkspacePackage>, p: WorkspacePackage)
    returns (filePath: string)
    requires UniqueNames(packages) && p in packages
    requires Selected(p.name, changedFiles, packages) && !HasRepoWideConfigChange(changedFiles)
    ensures filePath in changedFiles && IsRelevant(p, filePath, packages)
  {
    filePath :| filePath in changedFiles && Touches(filePath, p.name, packages);
    var owner := FindWorkspacePackageForFile(filePath, packages).value;
    UniqueNameDetermines(packages, owner);
    UniqueNameDetermines(packages, p);
    ClosuresAreConverse(packages, owner.name, p.name);
  }
}
