/**
 The whole validation of scripts/dev/validate-changed.ts: from changed files and the
 workspace to the list of commands. The main results are that every requested step of every
 selected package is carried out by one of them, and exactly which changes that bear on a
 package its tests are run for.
 */
module ExecutionPlan {
  import opened PackageGraph
  import opened Selection
  import opened Relevance
  import opened TestPlan

  datatype Execution =
    | Turbo(step: Step, packages: set<string>)
    | Affected(command: Command)
    | Extra(words: seq<string>)
    | RepoCheck(step: Step)

  /** turbo run <step> over the packages whose policy has the step, if there are any. */
  function WorkspaceTurboCommand(step: Step, packages: seq<WorkspacePackage>): seq<Execution> {
    var names := set p | p in packages && step in p.policySteps :: p.name;
    if exists p | p in packages :: step in p.policySteps then [Turbo(step, names)] else []
  }

  function ExtraCommandsOf(plan: ValidationPlan, step: Step): seq<seq<string>> {
    match step
    case Format => plan.extraCommands.format
    case Lint => plan.extraCommands.lint
    case Typecheck => plan.extraCommands.typecheck
    case Test => plan.extraCommands.test
  }

  function AsExtras(commands: seq<seq<string>>): (r: seq<Execution>)
    ensures forall words :: Extra(words) in r <==> words in commands
    ensures forall c :: c in r ==> c.Extra?
  {
    if commands == [] then [] else AsExtras(commands[..|commands| - 1]) + [Extra(commands[|commands| - 1])]
  }

  function AsAffected(commands: seq<Command>): (r: seq<Execution>)
    ensures forall command :: Affected(command) in r <==> command in commands
    ensures forall c :: c in r ==> c.Affected?
  {
    if commands == [] then [] else AsAffected(commands[..|commands| - 1]) + [Affected(commands[|commands| - 1])]
  }

  function AffectedOf(commands: seq<Execution>): (r: seq<Command>)
    ensures forall command :: command in r <==> Affected(command) in commands
  {
    if commands == [] then []
    else
      var last := commands[|commands| - 1];
      AffectedOf(commands[..|commands| - 1]) + (if last.Affected? then [last.command] else [])
  }

  predicate IsRootRepoCheckStep(step: Step) {
    step == Format
  }

  // ---------- The command list, part by part ----------

  function FormatCommands(plan: ValidationPlan, steps: seq<Step>): (r: seq<Execution>)
    ensures forall c :: c in r ==> c.Extra?
  {
    if steps == [] then []
    else
      var n := |steps| - 1;
      FormatCommands(plan, steps[..n]) + (if steps[n] == Format then AsExtras(plan.extraCommands.format) else [])
  }

  function TurboFor(plan: ValidationPlan, steps: seq<Step>, step: Step): seq<Execution> {
    if step in steps then WorkspaceTurboCommand(step, plan.selection.selectedPackages) else []
  }

  function TestCommands(plan: ValidationPlan, steps: seq<Step>, decisions: seq<PackagePlan>): seq<Execution>
    requires |decisions| == |plan.selection.selectedPackages|
  {
    if Test !in steps then []
    else WorkspaceTurboCommand(Test, TurboPackages(plan.selection.selectedPackages, decisions))
         + AsAffected(AllCommands(decisions))
  }

  function OtherExtraCommands(plan: ValidationPlan, steps: seq<Step>): (r: seq<Execution>)
    ensures forall c :: c in r ==> c.Extra?
  {
    if steps == [] then []
    else
      var n := |steps| - 1;
      OtherExtraCommands(plan, steps[..n])
      + (if steps[n] == Format then [] else AsExtras(ExtraCommandsOf(plan, steps[n])))
  }

  function ExecutionCommands(plan: ValidationPlan, steps: seq<Step>, decisions: seq<PackagePlan>): seq<Execution>
    requires |decisions| == |plan.selection.selectedPackages|
  {
    FormatCommands(plan, steps) + TurboFor(plan, steps, Typecheck) + TurboFor(plan, steps, Lint)
    + TestCommands(plan, steps, decisions) + OtherExtraCommands(plan, steps)
  }

  lemma {:induction false} FormatExtras(plan: ValidationPlan, steps: seq<Step>, words: seq<string>)
    ensures Extra(words) in FormatCommands(plan, steps) <==> Format in steps && words in plan.extraCommands.format
  {
    if steps != [] {
      var n := |steps| - 1;
      FormatExtras(plan, steps[..n], words);
      assert steps == steps[..n] + [steps[n]];
    }
  }

  /** An extra command of a requested step other than format. */
  predicate IsOtherExtra(plan: ValidationPlan, steps: seq<Step>, words: seq<string>) {
    || (Lint in steps && words in plan.extraCommands.lint)
    || (Typecheck in steps && words in plan.extraCommands.typecheck)
    || (Test in steps && words in plan.extraCommands.test)
  }

  lemma ExtrasOfOneStep(plan: ValidationPlan, step: Step, words: seq<string>)
    ensures Extra(words) in (if step == Format then [] else AsExtras(ExtraCommandsOf(plan, step)))
            <==> IsOtherExtra(plan, [step], words)
  {
  }

  lemma OneMoreStep(plan: ValidationPlan, steps: seq<Step>, step: Step, words: seq<string>)
    ensures IsOtherExtra(plan, steps + [step], words)
            <==> IsOtherExtra(plan, steps, words) || IsOtherExtra(plan, [step], words)
  {
  }

  lemma {:induction false} OtherExtras(plan: ValidationPlan, steps: seq<Step>, words: seq<string>)
    ensures Extra(words) in OtherExtraCommands(plan, steps) <==> IsOtherExtra(plan, steps, words)
  {
    if steps != [] {
      var n := |steps| - 1;
      OtherExtras(plan, steps[..n], words);
      ExtrasOfOneStep(plan, steps[n], words);
      OneMoreStep(plan, steps[..n], steps[n], words);
      assert steps == steps[..n] + [steps[n]];
    }
  }

  /** The extra commands of exactly the requested steps are in the list. */
  lemma ExtrasOfRequestedSteps(plan: ValidationPlan, steps: seq<Step>, decisions: seq<PackagePlan>,
                               words: seq<string>)
    requires |decisions| == |plan.selection.selectedPackages|
    ensures Extra(words) in ExecutionCommands(plan, steps, decisions)
            <==> (Format in steps && words in plan.extraCommands.format) || IsOtherExtra(plan, steps, words)
  {
    FormatExtras(plan, steps, words);
    OtherExtras(plan, steps, words);
    InOneOf(FormatCommands(plan, steps), TurboFor(plan, steps, Typecheck), TurboFor(plan, steps, Lint),
            TestCommands(plan, steps, decisions), OtherExtraCommands(plan, steps), Extra(words));
  }

  /** Where a command stands between the extra commands. */
  function Place(c: Execution): nat {
    match c
    case Turbo(step, _) => if step == Typecheck then 1 else if step == Lint then 2 else 3
    case Affected(_) => 4
    case _ => 0
  }

  ghost predicate InOrder(commands: seq<Execution>, low: nat, high: nat) {
    && (forall c :: c in commands ==> low <= Place(c) <= high)
    && (forall i, j :: 0 <= i < j < |commands| ==>
          Place(commands[i]) < Place(commands[j]) || (commands[i].Affected? && commands[j].Affected?))
  }

  lemma InOrderTogether(a: seq<Execution>, b: seq<Execution>, low: nat, middle: nat, high: nat)
    requires InOrder(a, low, middle) && InOrder(b, middle + 1, high) && low <= middle < high
    ensures InOrder(a + b, low, high)
  {
    assert forall i :: 0 <= i < |a| ==> a[i] in a;
    assert forall i :: 0 <= i < |b| ==> b[i] in b;
    assert forall c :: c in a + b <==> c in a || c in b;
  }

  /** The list is in order: extra commands of the format step, then the turbo runs for typecheck,
      lint and test, each at most once, then the affected tests, then the other extra commands. */
  lemma ListIsInOrder(plan: ValidationPlan, steps: seq<Step>, decisions: seq<PackagePlan>)
    returns (before: seq<Execution>, middle: seq<Execution>, after: seq<Execution>)
    requires |decisions| == |plan.selection.selectedPackages|
    ensures ExecutionCommands(plan, steps, decisions) == before + middle + after
    ensures forall c :: c in before ==> c.Extra? && Format in steps && c.words in plan.extraCommands.format
    ensures InOrder(middle, 1, 4)
    ensures forall c :: c in after ==> c.Extra? && IsOtherExtra(plan, steps, c.words)
  {
    before, after := FormatCommands(plan, steps), OtherExtraCommands(plan, steps);
    var typecheck, lint := TurboFor(plan, steps, Typecheck), TurboFor(plan, steps, Lint);
    var tests := TestCommands(plan, steps, decisions);
    middle := typecheck + lint + tests;
    assert before + middle + after == before + typecheck + lint + tests + after;
    TestsAreInOrder(plan, steps, decisions);
    InOrderTogether(typecheck, lint, 1, 1, 2);
    InOrderTogether(typecheck + lint, tests, 1, 2, 4);
    forall c | c in before ensures c.Extra? && Format in steps && c.words in plan.extraCommands.format {
      FormatExtras(plan, steps, c.words);
    }
    forall c | c in after ensures c.Extra? && IsOtherExtra(plan, steps, c.words) {
      OtherExtras(plan, steps, c.words);
    }
  }

  lemma TestsAreInOrder(plan: ValidationPlan, steps: seq<Step>, decisions: seq<PackagePlan>)
    requires |decisions| == |plan.selection.selectedPackages|
    ensures InOrder(TestCommands(plan, steps, decisions), 3, 4)
  {
    if Test in steps {
      var turbo := WorkspaceTurboCommand(Test, TurboPackages(plan.selection.selectedPackages, decisions));
      var affected := AsAffected(AllCommands(decisions));
      assert forall i :: 0 <= i < |affected| ==> affected[i] in affected;
      InOrderTogether(turbo, affected, 3, 3, 4);
    }
  }

  method BuildExecutionCommands(plan: ValidationPlan, steps: seq<Step>, env: Environment)
    returns (commands: seq<Execution>)
    ensures commands == ExecutionCommands(plan, steps,
      Decisions(plan, env, plan.selection.selectedPackages, |plan.selection.selectedPackages|))
  {
    var formatCommands := BuildFormatCommands(plan, steps);
    var typecheckCommands := BuildTurboCommands(plan, steps, Typecheck);
    var lintCommands := BuildTurboCommands(plan, steps, Lint);
    var testCommands := BuildTestCommands(plan, steps, env);
    var otherCommands := BuildOtherExtraCommands(plan, steps);
    commands := formatCommands + typecheckCommands + lintCommands + testCommands + otherCommands;
  }

  method BuildTurboCommands(plan: ValidationPlan, steps: seq<Step>, step: Step) returns (commands: seq<Execution>)
    ensures commands == TurboFor(plan, steps, step)
  {
    commands := [];
    if step in steps {
      commands := commands + WorkspaceTurboCommand(step, plan.selection.selectedPackages);
    }
  }

  /** The first loop over the steps. Its root check is for the format step alone, which an
      earlier branch has already handled, so no root check is ever added. */
  method BuildFormatCommands(plan: ValidationPlan, steps: seq<Step>) returns (commands: seq<Execution>)
    ensures commands == FormatCommands(plan, steps)
  {
    commands := [];
    for i := 0 to |steps|
      invariant commands == FormatCommands(plan, steps[..i])
    {
      var step := steps[i];
      assert steps[..i + 1][..i] == steps[..i];
      if step == Format {
        commands := commands + AsExtras(plan.extraCommands.format);
      } else if step == Typecheck {
      } else if IsRootRepoCheckStep(step) && plan.changedFiles != [] {
        commands := commands + [RepoCheck(step)];
      }
    }
    assert steps[..|steps|] == steps;
  }

  method BuildOtherExtraCommands(plan: ValidationPlan, steps: seq<Step>) returns (commands: seq<Execution>)
    ensures commands == OtherExtraCommands(plan, steps)
  {
    commands := [];
    for i := 0 to |steps|
      invariant commands == OtherExtraCommands(plan, steps[..i])
    {
      var step := steps[i];
      assert steps[..i + 1][..i] == steps[..i];
      if step == Format {
        continue;
      }
      commands := commands + AsExtras(ExtraCommandsOf(plan, step));
    }
    assert steps[..|steps|] == steps;
  }

  method BuildTestCommands(plan: ValidationPlan, steps: seq<Step>, env: Environment) returns (commands: seq<Execution>)
    ensures commands == TestCommands(plan, steps,
      Decisions(plan, env, plan.selection.selectedPackages, |plan.selection.selectedPackages|))
  {
    commands := [];
    if Test in steps {
      var affectedCommands, turboPackages := BuildAffectedTestCommands(plan, plan.selection.selectedPackages, env);
      commands := commands + WorkspaceTurboCommand(Test, turboPackages);
      commands := commands + AsAffected(affectedCommands);
    }
  }

  // ---------- What the list guarantees ----------

  /** The step of the package is run as a whole, or some command tests the package. */
  ghost predicate CarriedOut(commands: seq<Execution>, p: WorkspacePackage, step: Step) {
    || (exists c: Execution :: c in commands && c.Turbo? && c.step == step && p.name in c.packages)
    || (step == Test && exists c: Execution :: c in commands && c.Affected? && c.command.package == p.name)
  }

  lemma TurboCarriesOut(commands: seq<Execution>, packages: seq<WorkspacePackage>, p: WorkspacePackage, step: Step)
    requires p in packages && step in p.policySteps
    requires forall c :: c in WorkspaceTurboCommand(step, packages) ==> c in commands
    ensures CarriedOut(commands, p, step)
  {
    var c := WorkspaceTurboCommand(step, packages)[0];
    assert c in commands && c.Turbo? && p.name in c.packages;
  }

  lemma TestsAreCarriedOut(plan: ValidationPlan, steps: seq<Step>, decisions: seq<PackagePlan>, i: nat)
    requires |decisions| == |plan.selection.selectedPackages| && i < |decisions| && Test in steps
    requires Test in plan.selection.selectedPackages[i].policySteps
    requires decisions[i].turbo || decisions[i].commands != []
    requires forall c :: c in decisions[i].commands ==> c.package == plan.selection.selectedPackages[i].name
    ensures CarriedOut(ExecutionCommands(plan, steps, decisions), plan.selection.selectedPackages[i], Test)
  {
    AllCommandsAre(decisions);
    TurboPackagesAre(plan.selection.selectedPackages, decisions);
    var p := plan.selection.selectedPackages[i];
    var commands := ExecutionCommands(plan, steps, decisions);
    if decisions[i].turbo {
      TurboCarriesOut(commands, TurboPackages(plan.selection.selectedPackages, decisions), p, Test);
    } else {
      var c := decisions[i].commands[0];
      assert c in AllCommands(decisions);
      assert Affected(c) in TestCommands(plan, steps, decisions);
      assert Affected(c) in commands;
    }
  }

  /** Every requested step in the policy of a selected package is carried out, except the
      tests of a Rust package selected repo-wide without a changed file of its own. */
  lemma {:induction false} EveryStepIsCarriedOut(plan: ValidationPlan, steps: seq<Step>, env: Environment,
                                                 p: WorkspacePackage, step: Step)
    requires p in plan.selection.selectedPackages
    requires step in steps && step in p.policySteps && step != Format
    requires !(step == Test && ShouldSkipRustPackageTest(env, plan, p))
    ensures var selected := plan.selection.selectedPackages;
      CarriedOut(ExecutionCommands(plan, steps, Decisions(plan, env, selected, |selected|)), p, step)
  {
    var selected := plan.selection.selectedPackages;
    var decisions := Decisions(plan, env, selected, |selected|);
    if step == Test {
      var i :| 0 <= i < |selected| && selected[i] == p;
      DecisionAt(plan, env, selected, |selected|, i);
      var relevantFiles := RelevantFiles(p, plan.changedFiles, selected);
      TestsAreNotDropped(plan, p, env, relevantFiles);
      forall c | c in decisions[i].commands ensures c.package == p.name {
        CommandsNameChangedFilesOnly(plan, p, env, relevantFiles, c);
      }
      TestsAreCarriedOut(plan, steps, decisions, i);
    } else {
      assert forall c :: c in TurboFor(plan, steps, step) ==> c in ExecutionCommands(plan, steps, decisions);
      TurboCarriesOut(ExecutionCommands(plan, steps, decisions), selected, p, step);
    }
  }

  // ---------- Which changes are tested ----------

  /** The package's tests run as a whole, or the file is given to the runs that must have it. */
  ghost predicate ListTestsChange(commands: seq<Execution>, p: WorkspacePackage, filePath: string, env: Environment) {
    || (exists c: Execution :: c in commands && c.Turbo? && c.step == Test && p.name in c.packages)
    || NamedInItsRuns(AffectedOf(commands), p, filePath, env)
  }

  ghost predicate CommandsStayInTheirPackage(selected: seq<WorkspacePackage>, decisions: seq<PackagePlan>) {
    && |decisions| == |selected|
    && forall i, c :: 0 <= i < |decisions| && c in decisions[i].commands ==> c.package == selected[i].name
  }

  lemma DecisionsStayInTheirPackage(plan: ValidationPlan, env: Environment, packages: seq<WorkspacePackage>)
    ensures
      var selected := plan.selection.selectedPackages;
      CommandsStayInTheirPackage(selected, Decisions(plan, env, packages, |selected|))
  {
    var selected := plan.selection.selectedPackages;
    var decisions := Decisions(plan, env, packages, |selected|);
    forall i, c | 0 <= i < |decisions| && c in decisions[i].commands ensures c.package == selected[i].name {
      DecisionAt(plan, env, packages, |selected|, i);
      CommandsNameChangedFilesOnly(plan, selected[i], env, RelevantFiles(selected[i], plan.changedFiles, packages), c);
    }
  }

  /** Where the turbo run of the tests and the affected commands of the list come from. */
  lemma TestsOfTheList(plan: ValidationPlan, steps: seq<Step>, decisions: seq<PackagePlan>, c: Execution)
    requires |decisions| == |plan.selection.selectedPackages| && Test in steps
    ensures c.Turbo? && c.step == Test ==>
      (c in ExecutionCommands(plan, steps, decisions)
       <==> c in WorkspaceTurboCommand(Test, TurboPackages(plan.selection.selectedPackages, decisions)))
    ensures c.Affected? ==>
      (c in ExecutionCommands(plan, steps, decisions) <==> c.command in AllCommands(decisions))
  {
    var format, typecheck := FormatCommands(plan, steps), TurboFor(plan, steps, Typecheck);
    var lint, tests := TurboFor(plan, steps, Lint), TestCommands(plan, steps, decisions);
    InOneOf(format, typecheck, lint, tests, OtherExtraCommands(plan, steps), c);
    var turbo := WorkspaceTurboCommand(Test, TurboPackages(plan.selection.selectedPackages, decisions));
    assert c in tests <==> c in turbo || c in AsAffected(AllCommands(decisions));
  }

  lemma InOneOf<T>(a: seq<T>, b: seq<T>, c: seq<T>, d: seq<T>, e: seq<T>, x: T)
    ensures x in a + b + c + d + e <==> x in a || x in b || x in c || x in d || x in e
  {
    assert x in a + b + c + d + e <==> x in a + b + c + d || x in e;
    assert x in a + b + c + d <==> x in a + b + c || x in d;
  }

  lemma SameNameSameIndex(selected: seq<WorkspacePackage>, i: nat, k: nat)
    requires UniqueNames(selected) && i < |selected| && k < |selected| && selected[i].name == selected[k].name
    ensures i == k
  {
  }

  lemma TurboDecidedIff(selected: seq<WorkspacePackage>, decisions: seq<PackagePlan>, i: nat)
    requires |decisions| == |selected| && i < |decisions| && UniqueNames(selected)
    ensures decisions[i].turbo ==> selected[i] in TurboPackages(selected, decisions)
    ensures (exists p :: p in TurboPackages(selected, decisions) && p.name == selected[i].name) ==> decisions[i].turbo
  {
    TurboPackagesAre(selected, decisions);
    if p :| p in TurboPackages(selected, decisions) && p.name == selected[i].name {
      var k :| 0 <= k < |decisions| && p == selected[k] && decisions[k].turbo;
      SameNameSameIndex(selected, i, k);
    }
  }

  /** The list runs a package as a whole iff that was decided for it. */
  lemma TurboRunIff(plan: ValidationPlan, steps: seq<Step>, decisions: seq<PackagePlan>, i: nat)
    requires |decisions| == |plan.selection.selectedPackages| && i < |decisions| && Test in steps
    requires UniqueNames(plan.selection.selectedPackages)
    requires Test in plan.selection.selectedPackages[i].policySteps
    ensures
      (exists c: Execution :: c in ExecutionCommands(plan, steps, decisions) && c.Turbo? && c.step == Test
                              && plan.selection.selectedPackages[i].name in c.packages)
      <==> decisions[i].turbo
  {
    var selected := plan.selection.selectedPackages;
    var commands := ExecutionCommands(plan, steps, decisions);
    var turboPackages := TurboPackages(selected, decisions);
    TurboDecidedIff(selected, decisions, i);
    if decisions[i].turbo {
      var c := WorkspaceTurboCommand(Test, turboPackages)[0];
      TestsOfTheList(plan, steps, decisions, c);
      assert c in commands && selected[i].name in c.packages;
    }
    if c: Execution :| c in commands && c.Turbo? && c.step == Test && selected[i].name in c.packages {
      TestsOfTheList(plan, steps, decisions, c);
      var p :| p in turboPackages && p.name == selected[i].name;
    }
  }

  lemma CommandDecidedIff(selected: seq<WorkspacePackage>, decisions: seq<PackagePlan>, i: nat, c: Command)
    requires CommandsStayInTheirPackage(selected, decisions)
    requires i < |decisions| && UniqueNames(selected) && c.package == selected[i].name
    ensures c in AllCommands(decisions) <==> c in decisions[i].commands
  {
    AllCommandsAre(decisions);
    if c in AllCommands(decisions) {
      var k :| 0 <= k < |decisions| && c in decisions[k].commands;
      SameNameSameIndex(selected, i, k);
    }
  }

  /** A command of the list is in a package iff it was decided for the package. */
  lemma CommandsOfAPackage(plan: ValidationPlan, steps: seq<Step>, decisions: seq<PackagePlan>, i: nat, c: Command)
    requires CommandsStayInTheirPackage(plan.selection.selectedPackages, decisions)
    requires i < |decisions| && Test in steps && UniqueNames(plan.selection.selectedPackages)
    requires c.package == plan.selection.selectedPackages[i].name
    ensures c in AffectedOf(ExecutionCommands(plan, steps, decisions)) <==> c in decisions[i].commands
  {
    CommandDecidedIff(plan.selection.selectedPackages, decisions, i, c);
    TestsOfTheList(plan, steps, decisions, Affected(c));
  }

  lemma SameNamesSameRuns(a: seq<Command>, b: seq<Command>, p: WorkspacePackage, filePath: string, env: Environment)
    requires forall c :: NamesFile(a, p, c, filePath) <==> NamesFile(b, p, c, filePath)
    ensures NamedInItsRuns(a, p, filePath, env) <==> NamedInItsRuns(b, p, filePath, env)
  {
  }

  /** So the list tests a change to a package iff the decision for the package does. */
  lemma DecisionIsCarriedOut(plan: ValidationPlan, steps: seq<Step>, decisions: seq<PackagePlan>, i: nat,
                             filePath: string, env: Environment)
    requires CommandsStayInTheirPackage(plan.selection.selectedPackages, decisions)
    requires i < |decisions| && Test in steps && UniqueNames(plan.selection.selectedPackages)
    requires Test in plan.selection.selectedPackages[i].policySteps
    ensures
      var p := plan.selection.selectedPackages[i];
      ListTestsChange(ExecutionCommands(plan, steps, decisions), p, filePath, env)
      <==> TestsChange(decisions[i], p, filePath, env)
  {
    var p := plan.selection.selectedPackages[i];
    var listed := AffectedOf(ExecutionCommands(plan, steps, decisions));
    TurboRunIff(plan, steps, decisions, i);
    forall c ensures NamesFile(listed, p, c, filePath) <==> NamesFile(decisions[i].commands, p, c, filePath) {
      if c.package == p.name {
        CommandsOfAPackage(plan, steps, decisions, i, c);
      }
    }
    SameNamesSameRuns(listed, decisions[i].commands, p, filePath, env);
  }

  /** The list runs a file of a selected package in a lane iff it belongs there. */
  lemma ListLanesIff(plan: ValidationPlan, steps: seq<Step>, env: Environment, p: WorkspacePackage, lane: Lane,
                     filePath: string)
    requires UniqueNames(plan.selection.selectedPackages) && p in plan.selection.selectedPackages
    requires RustStandsAlone(env) && Test in steps
    ensures
      var selected := plan.selection.selectedPackages;
      var commands := ExecutionCommands(plan, steps, Decisions(plan, env, selected, |selected|));
      RunsInLane(AffectedOf(commands), p, lane, filePath) <==> BelongsInLane(plan, p, env, lane, filePath)
  {
    var selected := plan.selection.selectedPackages;
    var decisions := Decisions(plan, env, selected, |selected|);
    var listed := AffectedOf(ExecutionCommands(plan, steps, decisions));
    var i :| 0 <= i < |selected| && selected[i] == p;
    DecisionAt(plan, env, selected, |selected|, i);
    DecisionsStayInTheirPackage(plan, env, selected);
    forall c ensures NamesFile(listed, p, c, filePath) <==> NamesFile(decisions[i].commands, p, c, filePath) {
      if c.package == p.name {
        CommandsOfAPackage(plan, steps, decisions, i, c);
      }
    }
    DecisionLanesIff(plan, p, env, lane, filePath);
  }

  /** A change that bears on a package selects it, and gives a reason for it beside its own
      files unless it is one of them. */
  lemma RelevantChangeSelects(changedFiles: seq<string>, packages: seq<WorkspacePackage>, p: WorkspacePackage,
                              filePath: string)
    requires UniqueNames(packages) && p in packages
    requires filePath in changedFiles && IsRelevant(p, filePath, packages)
    ensures Selected(p.name, changedFiles, packages)
    ensures Contains(p, filePath) || exists name :: FileGives(filePath, p.name, DependsOn(name), packages)
  {
    var owner := FindWorkspacePackageForFile(filePath, packages).value;
    UniqueNameDetermines(packages, owner);
    UniqueNameDetermines(packages, p);
    ClosuresAreConverse(packages, owner.name, p.name);
    assert Touches(filePath, p.name, packages);
    assert owner.name != p.name ==> FileGives(filePath, p.name, DependsOn(owner.name), packages);
  }

  /** What is used of a selection: it is closed and records the reasons of the changed files. */
  ghost predicate PlanFits(plan: ValidationPlan, packages: seq<WorkspacePackage>) {
    && Closed(plan.selection.selectedPackages, plan.changedFiles, packages)
    && RecordsReasons(plan.selection, plan.changedFiles, packages)
  }

  lemma SelectionsFit(plan: ValidationPlan, packages: seq<WorkspacePackage>)
    requires IsSelection(plan.selection, plan.changedFiles, packages) && UniqueNames(packages)
    ensures PlanFits(plan, packages)
  {
    SelectionsAreClosed(plan.selection, plan.changedFiles, packages);
    SelectionsRecordReasons(plan.selection, plan.changedFiles, packages);
  }

  /** The decision for one package tests a change that bears on it iff the change is testable. */
  lemma DecisionTestsChangeIff(plan: ValidationPlan, packages: seq<WorkspacePackage>, env: Environment,
                               p: WorkspacePackage, filePath: string)
    requires PlanFits(plan, packages) && p in plan.selection.selectedPackages
    requires RustStandsAlone(env) && Test in p.policySteps
    requires filePath in plan.changedFiles && IsRelevant(p, filePath, packages)
    ensures
      TestsChange(DecisionFor(plan, p, env, plan.selection.selectedPackages), p, filePath, env)
      <==> ChangeIsTestable(plan, p, filePath, env)
  {
    var selected := plan.selection.selectedPackages;
    var relevantFiles := RelevantFiles(p, plan.changedFiles, selected);
    if p.name in env.rust {
      RustChangeIsTestedIff(plan, p, env, relevantFiles, filePath);
    } else if p.name in env.affected {
      AffectedChangeIsTestedIff(plan, p, env, filePath);
    } else {
      RelevantChangeSelects(plan.changedFiles, packages, p, filePath);
      if !Contains(p, filePath) {
        var name :| FileGives(filePath, p.name, DependsOn(name), packages);
        assert HasReason(plan.selection.packageReasons, p.name, DependsOn(name));
        assert DependsOn(name) in plan.Reasons(p);
      }
      PlainChangeIsTestedIff(plan, p, env, relevantFiles, filePath);
    }
  }

  /** The final list tests a change that bears on a package, as the whole workspace sees it,
      iff the change is testable. */
  lemma RelevantChangeIsTestedIff(plan: ValidationPlan, packages: seq<WorkspacePackage>, steps: seq<Step>,
                                  env: Environment, p: WorkspacePackage, filePath: string)
    requires PlanFits(plan, packages) && p in plan.selection.selectedPackages
    requires RustStandsAlone(env) && Test in steps && Test in p.policySteps
    requires filePath in plan.changedFiles && IsRelevant(p, filePath, packages)
    ensures
      var selected := plan.selection.selectedPackages;
      ListTestsChange(ExecutionCommands(plan, steps, Decisions(plan, env, selected, |selected|)), p, filePath, env)
      <==> ChangeIsTestable(plan, p, filePath, env)
  {
    var selected := plan.selection.selectedPackages;
    var i :| 0 <= i < |selected| && selected[i] == p;
    DecisionAt(plan, env, selected, |selected|, i);
    DecisionsStayInTheirPackage(plan, env, selected);
    DecisionIsCarriedOut(plan, steps, Decisions(plan, env, selected, |selected|), i, filePath, env);
    DecisionTestsChangeIff(plan, packages, env, p, filePath);
  }

  /** The list tests every change that bears on a package. */
  ghost predicate TestsEveryRelevantChange(commands: seq<Execution>, plan: ValidationPlan, p: WorkspacePackage,
                                           packages: seq<WorkspacePackage>, env: Environment)
  {
    forall filePath :: filePath in plan.changedFiles && IsRelevant(p, filePath, packages) ==>
                         ListTestsChange(commands, p, filePath, env)
  }

  /** With the packages of this workspace that have test rules of their own, all changes that
      bear on an affected-test package are tested iff it runs as a whole or each of them bears
      on it as the selected packages see it too, or is a changed integration test. They are when
      the holders of all changed files agree. */
  lemma EveryRelevantChangeIsTestedIff(plan: ValidationPlan, packages: seq<WorkspacePackage>, steps: seq<Step>,
                                       existing: set<string>, p: WorkspacePackage)
    requires PlanFits(plan, packages) && p in plan.selection.selectedPackages
    requires Test in steps && Test in p.policySteps && p.name in MistleEnvironment(existing).affected
    ensures
      var env, selected := MistleEnvironment(existing), plan.selection.selectedPackages;
      var commands := ExecutionCommands(plan, steps, Decisions(plan, env, selected, |selected|));
      && (TestsEveryRelevantChange(commands, plan, p, packages, env)
          <==> || AffectedPackageRunsWhole(plan, p, env)
               || forall f :: f in plan.changedFiles && IsRelevant(p, f, packages) ==>
                    IsRelevant(p, f, selected) || IsChangedIntegrationTest(plan, p, env, f))
      && (AllHoldersAgree(selected, plan.changedFiles, packages) ==>
            TestsEveryRelevantChange(commands, plan, p, packages, env))
  {
    var env, selected := MistleEnvironment(existing), plan.selection.selectedPackages;
    var commands := ExecutionCommands(plan, steps, Decisions(plan, env, selected, |selected|));
    forall filePath | filePath in plan.changedFiles && IsRelevant(p, filePath, packages)
      ensures ListTestsChange(commands, p, filePath, env) <==> ChangeIsTestable(plan, p, filePath, env)
      ensures HoldersAgree(filePath, selected, packages) ==> IsRelevant(p, filePath, selected)
    {
      RelevantChangeIsTestedIff(plan, packages, steps, env, p, filePath);
      if HoldersAgree(filePath, selected, packages) {
        SameRelevance(selected, plan.changedFiles, packages, p, filePath);
      }
    }
  }

  /** Nothing beyond the request: a turbo run is for a requested step and names selected
      packages with that step only; no repository check is ever added. */
  lemma OnlyRequestedStepsRun(plan: ValidationPlan, steps: seq<Step>, decisions: seq<PackagePlan>, c: Execution,
                              name: string)
    requires |decisions| == |plan.selection.selectedPackages|
    requires c in ExecutionCommands(plan, steps, decisions)
    ensures !c.RepoCheck?
    ensures c.Turbo? ==> c.step in steps && c.step != Format
    ensures c.Turbo? && name in c.packages ==>
      exists p :: p in plan.selection.selectedPackages && p.name == name && c.step in p.policySteps
    ensures c.Affected? ==> Test in steps && c.command in AllCommands(decisions)
  {
    TurboPackagesAre(plan.selection.selectedPackages, decisions);
  }

  /** Whoever has a name of the workspace is the one package of that name. */
  lemma SameNameSamePackage(packages: seq<WorkspacePackage>, p: WorkspacePackage, q: WorkspacePackage)
    requires UniqueNames(packages) && p in packages && q in packages && p.name == q.name
    ensures p == q
  {
    UniqueNameDetermines(packages, p);
    UniqueNameDetermines(packages, q);
  }

  /** A decision without the test step or for a skipped Rust package carries no tests out. */
  lemma NoTestsWithoutTheStep(plan: ValidationPlan, env: Environment, p: WorkspacePackage, relevantFiles: seq<string>)
    ensures
      var decision := PlanPackage(plan, p, env, relevantFiles);
      && (decision.commands != [] ==> Test in p.policySteps)
      && (Test in p.policySteps && ShouldSkipRustPackageTest(env, plan, p) ==>
            !decision.turbo && decision.commands == [])
  {
  }

  /** What is carried out for a package of the workspace is for a selected package, a requested
      step of its policy, and not the tests of a skipped Rust package. */
  lemma CarriedOutOnlyIf(plan: ValidationPlan, packages: seq<WorkspacePackage>, steps: seq<Step>, env: Environment,
                         p: WorkspacePackage, step: Step)
    requires UniqueNames(packages) && p in packages && UniqueNames(plan.selection.selectedPackages)
    requires forall q :: q in plan.selection.selectedPackages ==> q in packages
    requires var selected := plan.selection.selectedPackages;
      CarriedOut(ExecutionCommands(plan, steps, Decisions(plan, env, selected, |selected|)), p, step)
    ensures p in plan.selection.selectedPackages && step in steps && step in p.policySteps && step != Format
    ensures !(step == Test && ShouldSkipRustPackageTest(env, plan, p))
  {
    var selected := plan.selection.selectedPackages;
    var decisions := Decisions(plan, env, selected, |selected|);
    var commands := ExecutionCommands(plan, steps, decisions);
    if c: Execution :| c in commands && c.Turbo? && c.step == step && p.name in c.packages {
      OnlyRequestedStepsRun(plan, steps, decisions, c, p.name);
      var q :| q in selected && q.name == p.name && c.step in q.policySteps;
      SameNameSamePackage(packages, p, q);
      if step == Test {
        var i :| 0 <= i < |selected| && selected[i] == p;
        TurboRunIff(plan, steps, decisions, i);
        DecisionAt(plan, env, selected, |selected|, i);
        NoTestsWithoutTheStep(plan, env, p, RelevantFiles(p, plan.changedFiles, selected));
      }
    } else {
      var c: Execution :| c in commands && c.Affected? && c.command.package == p.name;
      OnlyRequestedStepsRun(plan, steps, decisions, c, p.name);
      AllCommandsAre(decisions);
      var i :| 0 <= i < |decisions| && c.command in decisions[i].commands;
      DecisionsStayInTheirPackage(plan, env, selected);
      SameNameSamePackage(packages, p, selected[i]);
      DecisionAt(plan, env, selected, |selected|, i);
      NoTestsWithoutTheStep(plan, env, p, RelevantFiles(p, plan.changedFiles, selected));
    }
  }

  /** So exactly the requested steps of selected packages are carried out. */
  lemma StepIsCarriedOutIff(plan: ValidationPlan, packages: seq<WorkspacePackage>, steps: seq<Step>, env: Environment,
                            p: WorkspacePackage, step: Step)
    requires SelectsExactly(plan.selection.selectedPackages, plan.changedFiles, packages)
    requires UniqueNames(packages) && p in packages
    ensures
      var selected := plan.selection.selectedPackages;
      CarriedOut(ExecutionCommands(plan, steps, Decisions(plan, env, selected, |selected|)), p, step)
      <==> && Selected(p.name, plan.changedFiles, packages)
           && step in steps && step in p.policySteps && step != Format
           && !(step == Test && ShouldSkipRustPackageTest(env, plan, p))
  {
    var selected := plan.selection.selectedPackages;
    if CarriedOut(ExecutionCommands(plan, steps, Decisions(plan, env, selected, |selected|)), p, step) {
      CarriedOutOnlyIf(plan, packages, steps, env, p, step);
    }
    if && p in selected && step in steps && step in p.policySteps && step != Format
       && !(step == Test && ShouldSkipRustPackageTest(env, plan, p)) {
      EveryStepIsCarriedOut(plan, steps, env, p, step);
    }
  }

  // ---------- From changed files to commands ----------

  /** A step is carried out for exactly the selected packages that have it in their policy when
      it is requested, apart from formatting and the tests of skipped Rust packages. */
  ghost predicate StepsAreCarriedOut(commands: seq<Execution>, plan: ValidationPlan, steps: seq<Step>,
                                     packages: seq<WorkspacePackage>, env: Environment)
  {
    forall p, step :: p in packages ==>
      (CarriedOut(commands, p, step) <==>
        && Selected(p.name, plan.changedFiles, packages)
        && step in steps && step in p.policySteps && step != Format
        && !(step == Test && ShouldSkipRustPackageTest(env, plan, p)))
  }

  /** Exactly the testable ones of the changes that bear on a package are tested. */
  ghost predicate ChangesAreTested(commands: seq<Execution>, plan: ValidationPlan,
                                   packages: seq<WorkspacePackage>, env: Environment)
  {
    forall p, filePath ::
      && p in packages && Test in p.policySteps
      && filePath in plan.changedFiles && IsRelevant(p, filePath, packages)
      ==> (ListTestsChange(commands, p, filePath, env) <==> ChangeIsTestable(plan, p, filePath, env))
  }

  /** Exactly the files that belong in a lane of a selected package are run in it. */
  ghost predicate LanesAreExact(commands: seq<Execution>, plan: ValidationPlan, steps: seq<Step>,
                                packages: seq<WorkspacePackage>, env: Environment)
  {
    forall p, lane, filePath :: p in packages ==>
      (RunsInLane(AffectedOf(commands), p, lane, filePath)
       <==> && Test in steps && Selected(p.name, plan.changedFiles, packages)
            && BelongsInLane(plan, p, env, lane, filePath))
  }

  method ValidateChanged(changedFiles: seq<string>, packages: seq<WorkspacePackage>, steps: seq<Step>,
                         extraCommands: ExtraCommands, existing: set<string>)
    returns (plan: ValidationPlan, commands: seq<Execution>)
    ensures plan.changedFiles == changedFiles && plan.extraCommands == extraCommands
    ensures IsSelection(plan.selection, changedFiles, packages)
    ensures UniqueNames(packages) ==> StepsAreCarriedOut(commands, plan, steps, packages, MistleEnvironment(existing))
    ensures forall words ::
      Extra(words) in commands
      <==> (Format in steps && words in extraCommands.format) || IsOtherExtra(plan, steps, words)
    ensures UniqueNames(packages) ==> LanesAreExact(commands, plan, steps, packages, MistleEnvironment(existing))
    ensures UniqueNames(packages) && Test in steps ==>
      ChangesAreTested(commands, plan, packages, MistleEnvironment(existing))
  {
    var env := MistleEnvironment(existing);
    var selection := SelectWorkspacePackages(changedFiles, packages);
    plan := ValidationPlan(changedFiles, extraCommands, selection);
    commands := BuildExecutionCommands(plan, steps, env);
    forall words ensures Extra(words) in commands
                         <==> (Format in steps && words in extraCommands.format) || IsOtherExtra(plan, steps, words)
    {
      ghost var selected := plan.selection.selectedPackages;
      ExtrasOfRequestedSteps(plan, steps, Decisions(plan, env, selected, |selected|), words);
    }
    if UniqueNames(packages) {
      SelectedPackagesAreExact(plan.selection, changedFiles, packages);
      AllStepsAreCarriedOut(plan, packages, steps, env);
      AllLanesAreExact(plan, packages, steps, env);
      if Test in steps {
        AllChangesAreTested(plan, packages, steps, env);
      }
    }
  }

  lemma AllStepsAreCarriedOut(plan: ValidationPlan, packages: seq<WorkspacePackage>, steps: seq<Step>,
                              env: Environment)
    requires SelectsExactly(plan.selection.selectedPackages, plan.changedFiles, packages) && UniqueNames(packages)
    ensures
      var selected := plan.selection.selectedPackages;
      StepsAreCarriedOut(ExecutionCommands(plan, steps, Decisions(plan, env, selected, |selected|)),
                         plan, steps, packages, env)
  {
    var selected := plan.selection.selectedPackages;
    var commands := ExecutionCommands(plan, steps, Decisions(plan, env, selected, |selected|));
    forall p, step | p in packages
      ensures CarriedOut(commands, p, step) <==>
        && Selected(p.name, plan.changedFiles, packages)
        && step in steps && step in p.policySteps && step != Format
        && !(step == Test && ShouldSkipRustPackageTest(env, plan, p))
    {
      StepIsCarriedOutIff(plan, packages, steps, env, p, step);
    }
  }

  lemma AllLanesAreExact(plan: ValidationPlan, packages: seq<WorkspacePackage>, steps: seq<Step>, env: Environment)
    requires SelectsExactly(plan.selection.selectedPackages, plan.changedFiles, packages) && UniqueNames(packages)
    requires RustStandsAlone(env)
    ensures
      var selected := plan.selection.selectedPackages;
      LanesAreExact(ExecutionCommands(plan, steps, Decisions(plan, env, selected, |selected|)),
                    plan, steps, packages, env)
  {
    var selected := plan.selection.selectedPackages;
    var commands := ExecutionCommands(plan, steps, Decisions(plan, env, selected, |selected|));
    forall p, lane, filePath | p in packages
      ensures RunsInLane(AffectedOf(commands), p, lane, filePath)
              <==> && Test in steps && Selected(p.name, plan.changedFiles, packages)
                   && BelongsInLane(plan, p, env, lane, filePath)
    {
      if RunsInLane(AffectedOf(commands), p, lane, filePath) {
        var c :| NamesFile(AffectedOf(commands), p, c, filePath) && LaneOf(c) == lane;
        assert Affected(c) in commands && CarriedOut(commands, p, Test);
        CarriedOutOnlyIf(plan, packages, steps, env, p, Test);
      }
      if p in selected && Test in steps {
        ListLanesIff(plan, steps, env, p, lane, filePath);
      }
    }
  }

  lemma AllChangesAreTested(plan: ValidationPlan, packages: seq<WorkspacePackage>, steps: seq<Step>, env: Environment)
    requires IsSelection(plan.selection, plan.changedFiles, packages) && UniqueNames(packages)
    requires RustStandsAlone(env) && Test in steps
    ensures
      var selected := plan.selection.selectedPackages;
      ChangesAreTested(ExecutionCommands(plan, steps, Decisions(plan, env, selected, |selected|)),
                       plan, packages, env)
  {
    var selected := plan.selection.selectedPackages;
    var commands := ExecutionCommands(plan, steps, Decisions(plan, env, selected, |selected|));
    SelectionsFit(plan, packages);
    SelectedPackagesAreExact(plan.selection, plan.changedFiles, packages);
    forall p, filePath |
      && p in packages && Test in p.policySteps
      && filePath in plan.changedFiles && IsRelevant(p, filePath, packages)
      ensures ListTestsChange(commands, p, filePath, env) <==> ChangeIsTestable(plan, p, filePath, env)
    {
      RelevantChangeSelects(plan.changedFiles, packages, p, filePath);
      RelevantChangeIsTestedIff(plan, packages, steps, env, p, filePath);
    }
  }
}
