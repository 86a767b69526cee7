/**
 The test planner of scripts/dev/validate-changed.ts: how each selected package's tests
 are run. `PlanPackage` is the decision for one package; its lemmas say what no decision may
 lose, and BuildAffectedTestCommands is proved to carry those decisions out.
 */
module TestPlan {
  import opened Common
  import opened PackageGraph
  import opened Selection
  import opened Relevance

  /** A command names the package it runs in and the files it is given. */
  datatype Command =
    | RustTests(package: string, files: seq<string>)
    | IntegrationRun(package: string, files: seq<string>)
    | UnitRun(package: string, files: seq<string>)
    | ComponentRun(package: string, files: seq<string>)
    | UnitRelated(package: string, files: seq<string>)
    | ComponentRelated(package: string, files: seq<string>)

  datatype ExtraCommands = ExtraCommands(
    format: seq<seq<string>>, lint: seq<seq<string>>, typecheck: seq<seq<string>>, test: seq<seq<string>>)

  datatype ValidationPlan = ValidationPlan(
    changedFiles: seq<string>,
    extraCommands: ExtraCommands,
    selection: PackageSelection)
  {
    function Reasons(p: WorkspacePackage): seq<Reason> {
      if p.name in selection.packageReasons then selection.packageReasons[p.name] else []
    }
  }

  /** What the planner looks up: the files existsSync finds, and the four sets of package
      names with test rules of their own. All results hold for any such sets. */
  datatype Environment = Environment(
    existing: set<string>,
    affected: set<string>,
    component: set<string>,
    integration: set<string>,
    rust: set<string>)

  /** Rust packages are in no other set. */
  predicate RustStandsAlone(env: Environment) {
    env.rust !! env.affected && env.rust !! env.integration
  }

  function MistleEnvironment(existing: set<string>): (env: Environment)
    ensures env.existing == existing && RustStandsAlone(env)
  {
    Environment(
      existing,
      {"@mistle/dashboard", "@mistle/ui"},
      {"@mistle/dashboard"},
      {"@mistle/cache", "@mistle/config", "@mistle/control-plane-api", "@mistle/control-plane-worker",
       "@mistle/dashboard", "@mistle/data-plane-api", "@mistle/data-plane-gateway", "@mistle/data-plane-worker",
       "@mistle/db", "@mistle/emails", "@mistle/integrations-core", "@mistle/integrations-definitions",
       "@mistle/object-store", "@mistle/sandbox", "@mistle/test-harness"},
      {"@mistle/commit-sign", "@mistle/sandboxd"})
  }

  // ---------- File kinds ----------

  predicate IsTestFilePath(filePath: string) {
    EndsWith(filePath, ".test.ts") || EndsWith(filePath, ".test.tsx")
  }

  predicate IsComponentTestFilePath(filePath: string) {
    EndsWith(filePath, ".component.test.ts") || EndsWith(filePath, ".component.test.tsx")
  }

  predicate IsIntegrationTestFilePath(filePath: string) {
    && (EndsWith(filePath, ".integration.test.ts") || EndsWith(filePath, ".integration.test.tsx"))
    && Includes(filePath, "/integration/")
  }

  /** The pattern /\.(?:[cm]?ts|tsx|[cm]?js|jsx)$/ */
  predicate IsSupportedAffectedTestInputFilePath(filePath: string) {
    || EndsWith(filePath, ".ts") || EndsWith(filePath, ".cts") || EndsWith(filePath, ".mts")
    || EndsWith(filePath, ".tsx")
    || EndsWith(filePath, ".js") || EndsWith(filePath, ".cjs") || EndsWith(filePath, ".mjs")
    || EndsWith(filePath, ".jsx")
  }

  predicate IsRustIntegrationTargetFilePath(p: WorkspacePackage, filePath: string) {
    var testsDirectoryPrefix := p.relativePath + "/tests/";
    && StartsWith(filePath, testsDirectoryPrefix)
    && EndsWith(filePath, ".rs")
    && !Includes(filePath[|testsDirectoryPrefix|..], "/")
  }

  predicate IsOwnFile(p: WorkspacePackage, filePath: string) {
    StartsWith(filePath, p.relativePath + "/")
  }

  predicate IsOwnTestFile(p: WorkspacePackage, filePath: string) {
    IsOwnFile(p, filePath) && IsTestFilePath(filePath)
  }

  predicate RunsAsIntegration(env: Environment, p: WorkspacePackage, filePath: string) {
    IsIntegrationTestFilePath(filePath) && p.name in env.integration
  }

  predicate RunsAsComponent(env: Environment, p: WorkspacePackage, filePath: string) {
    IsComponentTestFilePath(filePath) && p.name in env.component
  }

  // ---------- The filters of the planner; `existing` answers existsSync ----------

  function PackageChangedFiles(plan: ValidationPlan, p: WorkspacePackage): seq<string> {
    Filter(plan.changedFiles, f => IsOwnFile(p, f))
  }

  function ChangedExistingIntegrationTestFiles(p: WorkspacePackage, packageChangedFiles: seq<string>,
                                               env: Environment): seq<string>
  {
    if p.name !in env.integration then []
    else Filter(packageChangedFiles, f => IsIntegrationTestFilePath(f) && f in env.existing)
  }

  predicate ShouldRunFullPackageTest(p: WorkspacePackage, packageChangedFiles: seq<string>,
                                     integrationTestFiles: seq<string>, reasons: seq<Reason>)
  {
    || (exists f | f in packageChangedFiles :: f !in integrationTestFiles)
    || (exists reason | reason in reasons :: reason != ChangedFileIn(p.relativePath))
  }

  function ChangedExistingRustTestFiles(p: WorkspacePackage, packageChangedFiles: seq<string>,
                                        env: Environment): seq<string>
  {
    Filter(packageChangedFiles, f => IsRustIntegrationTargetFilePath(p, f) && f in env.existing)
  }

  function AffectedRustTestCommand(plan: ValidationPlan, p: WorkspacePackage, env: Environment): Option<Command> {
    var packageChangedFiles := PackageChangedFiles(plan, p);
    var rustTestFiles := ChangedExistingRustTestFiles(p, packageChangedFiles, env);
    if p.name !in env.rust then None
    else if AllPackages in plan.Reasons(p) then None
    else if packageChangedFiles == [] then None
    else if |rustTestFiles| != |packageChangedFiles| then None
    else Some(RustTests(p.name, rustTestFiles))
  }

  predicate ShouldSkipRustPackageTest(env: Environment, plan: ValidationPlan, p: WorkspacePackage) {
    && p.name in env.rust
    && AllPackages in plan.Reasons(p)
    && PackageChangedFiles(plan, p) == []
  }

  function ChangedTestFiles(p: WorkspacePackage, relevantFiles: seq<string>): seq<string> {
    Filter(relevantFiles, f => IsOwnTestFile(p, f))
  }

  function ExistingFiles(files: seq<string>, env: Environment): seq<string> {
    Filter(files, f => f in env.existing)
  }

  function IntegrationFiles(env: Environment, p: WorkspacePackage, testFiles: seq<string>): seq<string> {
    Filter(testFiles, f => RunsAsIntegration(env, p, f))
  }

  function ComponentFiles(env: Environment, p: WorkspacePackage, testFiles: seq<string>): seq<string> {
    Filter(testFiles, f => RunsAsComponent(env, p, f))
  }

  function Without(files: seq<string>, removed: seq<string>): seq<string> {
    Filter(files, f => f !in removed)
  }

  function UnitFiles(env: Environment, p: WorkspacePackage, testFiles: seq<string>): seq<string> {
    Without(Without(testFiles, IntegrationFiles(env, p, testFiles)), ComponentFiles(env, p, testFiles))
  }

  /** What the filters over the package's own changed files keep. */
  lemma OwnFilesAre(plan: ValidationPlan, p: WorkspacePackage, env: Environment)
    ensures forall f :: f in PackageChangedFiles(plan, p) <==> f in plan.changedFiles && IsOwnFile(p, f)
    ensures forall f :: f in ChangedExistingIntegrationTestFiles(p, PackageChangedFiles(plan, p), env)
                        <==> && f in plan.changedFiles && IsOwnFile(p, f)
                             && RunsAsIntegration(env, p, f) && f in env.existing
    ensures forall f :: f in ChangedExistingRustTestFiles(p, PackageChangedFiles(plan, p), env) ==>
      f in plan.changedFiles && IsOwnFile(p, f) && f in env.existing
  {
    FilterTakesExactly(plan.changedFiles, f => IsOwnFile(p, f));
    var files := PackageChangedFiles(plan, p);
    FilterTakesExactly(files, f => IsIntegrationTestFilePath(f) && f in env.existing);
    FilterTakesExactly(files, f => IsRustIntegrationTargetFilePath(p, f) && f in env.existing);
  }

  lemma LanesSplit(p: WorkspacePackage, env: Environment, tests: seq<string>)
    ensures forall f :: f in ComponentFiles(env, p, tests) <==> f in tests && RunsAsComponent(env, p, f)
    ensures forall f :: f in UnitFiles(env, p, tests)
                        <==> f in tests && !RunsAsIntegration(env, p, f) && !RunsAsComponent(env, p, f)
  {
    FilterTakesExactly(tests, f => RunsAsIntegration(env, p, f));
    FilterTakesExactly(tests, f => RunsAsComponent(env, p, f));
    var integration, component := IntegrationFiles(env, p, tests), ComponentFiles(env, p, tests);
    FilterTakesExactly(tests, f => f !in integration);
    FilterTakesExactly(Without(tests, integration), f => f !in component);
  }

  /** What the filters over the relevant files keep. */
  lemma RelevantFilesSplit(p: WorkspacePackage, env: Environment, relevantFiles: seq<string>)
    ensures var changed := ChangedTestFiles(p, relevantFiles);
      var tests := ExistingFiles(changed, env);
      && (forall f :: f in changed <==> f in relevantFiles && IsOwnTestFile(p, f))
      && (forall f :: f in tests <==> f in changed && f in env.existing)
      && (|tests| == |changed| <==> forall f :: f in changed ==> f in env.existing)
      && (forall f :: f in ComponentFiles(env, p, tests) <==> f in tests && RunsAsComponent(env, p, f))
      && (forall f :: f in UnitFiles(env, p, tests)
                      <==> f in tests && !RunsAsIntegration(env, p, f) && !RunsAsComponent(env, p, f))
      && (forall f :: f in Without(relevantFiles, changed) <==> f in relevantFiles && !IsOwnTestFile(p, f))
  {
    FilterTakesExactly(relevantFiles, f => IsOwnTestFile(p, f));
    var changed := ChangedTestFiles(p, relevantFiles);
    FilterTakesExactly(changed, f => f in env.existing);
    var tests := ExistingFiles(changed, env);
    LanesSplit(p, env, tests);
    FilterTakesExactly(relevantFiles, f => f !in changed);
  }

  // ---------- The decision for one package ----------

  datatype PackagePlan = PackagePlan(turbo: bool, commands: seq<Command>)

  function LaneCommands(p: WorkspacePackage, componentLane: bool, unitFiles: seq<string>, componentFiles: seq<string>,
                        relatedFiles: seq<string>): seq<Command>
  {
    (if unitFiles == [] then [] else [UnitRun(p.name, unitFiles)])
    + (if componentFiles == [] then [] else [ComponentRun(p.name, componentFiles)])
    + (if relatedFiles == [] then [] else [UnitRelated(p.name, relatedFiles)])
    + (if relatedFiles == [] || !componentLane then [] else [ComponentRelated(p.name, relatedFiles)])
  }

  function PlanAffectedPackage(p: WorkspacePackage, env: Environment, relevantFiles: seq<string>,
                               commands: seq<Command>): PackagePlan
  {
    var changedTestFiles := ChangedTestFiles(p, relevantFiles);
    var existingTestFiles := ExistingFiles(changedTestFiles, env);
    var componentFiles := ComponentFiles(env, p, existingTestFiles);
    var unitFiles := UnitFiles(env, p, existingTestFiles);
    var relatedFiles := Without(relevantFiles, changedTestFiles);
    if exists f | f in relatedFiles :: !IsSupportedAffectedTestInputFilePath(f) then PackagePlan(true, commands)
    else if |existingTestFiles| != |changedTestFiles| then PackagePlan(true, commands)
    else
      PackagePlan(changedTestFiles == [] && relatedFiles == [],
                  commands + LaneCommands(p, p.name in env.component, unitFiles, componentFiles, relatedFiles))
  }

  function PlanPackage(plan: ValidationPlan, p: WorkspacePackage, env: Environment, relevantFiles: seq<string>)
    : PackagePlan
  {
    var packageChangedFiles := PackageChangedFiles(plan, p);
    var integrationFiles := ChangedExistingIntegrationTestFiles(p, packageChangedFiles, env);
    var integration := if integrationFiles == [] then [] else [IntegrationRun(p.name, integrationFiles)];
    var full := ShouldRunFullPackageTest(p, packageChangedFiles, integrationFiles, plan.Reasons(p));
    var rust := AffectedRustTestCommand(plan, p, env);
    if Test !in p.policySteps then PackagePlan(true, [])
    else if ShouldSkipRustPackageTest(env, plan, p) then PackagePlan(false, [])
    else if rust.Some? then PackagePlan(false, [rust.value])
    else if p.name !in env.affected then PackagePlan(integrationFiles == [] || full, integration)
    else if integrationFiles != [] && full then PackagePlan(true, integration)
    else if AllPackages in plan.Reasons(p) then PackagePlan(true, integration)
    else if relevantFiles == [] then PackagePlan(true, integration)
    else PlanAffectedPackage(p, env, relevantFiles, integration)
  }

  // ---------- What a decision may not lose ----------

  /** A package with the test step runs as a whole, or gets a command, or is a Rust package
      selected repo-wide without a changed file of its own. */
  lemma TestsAreNotDropped(plan: ValidationPlan, p: WorkspacePackage, env: Environment, relevantFiles: seq<string>)
    requires Test in p.policySteps
    requires forall f :: f in relevantFiles ==> f in plan.changedFiles
    ensures var decision := PlanPackage(plan, p, env, relevantFiles);
      decision.turbo || decision.commands != [] || ShouldSkipRustPackageTest(env, plan, p)
    ensures var decision := PlanPackage(plan, p, env, relevantFiles);
      ShouldSkipRustPackageTest(env, plan, p) ==> !decision.turbo && decision.commands == []
  {
    OwnFilesAre(plan, p, env);
    var integrationFiles := ChangedExistingIntegrationTestFiles(p, PackageChangedFiles(plan, p), env);
    if relevantFiles != [] && integrationFiles == [] {
      forall f | f in relevantFiles && IsOwnTestFile(p, f) && f in env.existing
        ensures !RunsAsIntegration(env, p, f)
      {
        assert RunsAsIntegration(env, p, f) ==> f in integrationFiles;
      }
      AffectedPackageHasWork(p, env, relevantFiles);
    }
  }

  lemma AffectedPackageHasWork(p: WorkspacePackage, env: Environment, relevantFiles: seq<string>)
    requires relevantFiles != []
    requires forall f | f in relevantFiles && IsOwnTestFile(p, f) && f in env.existing :: !RunsAsIntegration(env, p, f)
    ensures var decision := PlanAffectedPackage(p, env, relevantFiles, []);
      decision.turbo || decision.commands != []
  {
    RelevantFilesSplit(p, env, relevantFiles);
    var f := relevantFiles[0];
    var changedTestFiles := ChangedTestFiles(p, relevantFiles);
    var tests := ExistingFiles(changedTestFiles, env);
    if IsOwnTestFile(p, f) {
      assert f in changedTestFiles;
      if f in env.existing {
        assert f in tests;
        assert f in ComponentFiles(env, p, tests) || f in UnitFiles(env, p, tests);
      }
    } else {
      assert f in Without(relevantFiles, changedTestFiles);
    }
  }

  ghost predicate NamesFile(commands: seq<Command>, p: WorkspacePackage, command: Command, filePath: string) {
    command in commands && command.package == p.name && filePath in command.files
  }

  /** The lanes a relevant file of an affected-test package must run in. */
  ghost predicate RunsInItsLanes(commands: seq<Command>, p: WorkspacePackage, filePath: string, env: Environment) {
    && (IsOwnTestFile(p, filePath) && RunsAsIntegration(env, p, filePath) ==>
          exists c: Command :: c.IntegrationRun? && NamesFile(commands, p, c, filePath))
    && RunsInUnitAndComponentLanes(commands, p, filePath, env)
  }

  ghost predicate RunsInUnitAndComponentLanes(commands: seq<Command>, p: WorkspacePackage, filePath: string,
                                              env: Environment)
  {
    if IsOwnTestFile(p, filePath) then
      && filePath in env.existing
      && (RunsAsComponent(env, p, filePath) ==>
            exists c: Command :: c.ComponentRun? && NamesFile(commands, p, c, filePath))
      && (!RunsAsIntegration(env, p, filePath) && !RunsAsComponent(env, p, filePath) ==>
            exists c: Command :: c.UnitRun? && NamesFile(commands, p, c, filePath))
    else
      && (exists c: Command :: c.UnitRelated? && NamesFile(commands, p, c, filePath))
      && (p.name in env.component ==> exists c: Command :: c.ComponentRelated? && NamesFile(commands, p, c, filePath))
  }

  /** Unless the package runs as a whole, every relevant file of an affected-test package is
      named in each of its lanes, and none of its test files is missing on disk. */
  lemma RelevantFilesRunInTheirLanes(plan: ValidationPlan, p: WorkspacePackage, env: Environment,
                                     relevantFiles: seq<string>, filePath: string)
    requires Test in p.policySteps && p.name in env.affected && p.name !in env.rust
    requires filePath in relevantFiles && filePath in plan.changedFiles
    requires !PlanPackage(plan, p, env, relevantFiles).turbo
    ensures RunsInItsLanes(PlanPackage(plan, p, env, relevantFiles).commands, p, filePath, env)
  {
    OwnFilesAre(plan, p, env);
    var integrationFiles := ChangedExistingIntegrationTestFiles(p, PackageChangedFiles(plan, p), env);
    var integration := if integrationFiles == [] then [] else [IntegrationRun(p.name, integrationFiles)];
    var decision := PlanAffectedPackage(p, env, relevantFiles, integration);
    assert PlanPackage(plan, p, env, relevantFiles) == decision;
    AffectedFilesRunInTheirLanes(p, env, relevantFiles, integration, filePath);
    if IsOwnTestFile(p, filePath) && RunsAsIntegration(env, p, filePath) {
      assert filePath in integrationFiles;
      assert NamesFile(integration, p, IntegrationRun(p.name, integrationFiles), filePath);
      AffectedPackageKeepsCommands(p, env, relevantFiles, integration, IntegrationRun(p.name, integrationFiles));
      assert NamesFile(decision.commands, p, IntegrationRun(p.name, integrationFiles), filePath);
    }
  }

  lemma AffectedPackageKeepsCommands(p: WorkspacePackage, env: Environment, relevantFiles: seq<string>,
                                     commands: seq<Command>, command: Command)
    requires command in commands
    ensures command in PlanAffectedPackage(p, env, relevantFiles, commands).commands
  {
  }

  lemma AffectedFilesRunInTheirLanes(p: WorkspacePackage, env: Environment, relevantFiles: seq<string>,
                                     commands: seq<Command>, filePath: string)
    requires filePath in relevantFiles && !PlanAffectedPackage(p, env, relevantFiles, commands).turbo
    ensures RunsInUnitAndComponentLanes(PlanAffectedPackage(p, env, relevantFiles, commands).commands, p, filePath, env)
  {
    RelevantFilesSplit(p, env, relevantFiles);
    var changedTestFiles := ChangedTestFiles(p, relevantFiles);
    var tests := ExistingFiles(changedTestFiles, env);
    var unitFiles, componentFiles := UnitFiles(env, p, tests), ComponentFiles(env, p, tests);
    var relatedFiles := Without(relevantFiles, changedTestFiles);
    LanesAreFilled(commands, p, p.name in env.component, unitFiles, componentFiles, relatedFiles, filePath);
    if IsOwnTestFile(p, filePath) {
      assert filePath in changedTestFiles && filePath in tests;
    } else {
      assert filePath in relatedFiles;
    }
  }

  lemma LanesAreFilled(commands: seq<Command>, p: WorkspacePackage, componentLane: bool, unitFiles: seq<string>,
                       componentFiles: seq<string>, relatedFiles: seq<string>, filePath: string)
    ensures var r := commands + LaneCommands(p, componentLane, unitFiles, componentFiles, relatedFiles);
      && (filePath in unitFiles ==> NamesFile(r, p, UnitRun(p.name, unitFiles), filePath))
      && (filePath in componentFiles ==> NamesFile(r, p, ComponentRun(p.name, componentFiles), filePath))
      && (filePath in relatedFiles ==> NamesFile(r, p, UnitRelated(p.name, relatedFiles), filePath))
      && (filePath in relatedFiles && componentLane ==>
            NamesFile(r, p, ComponentRelated(p.name, relatedFiles), filePath))
  {
  }

  /** Commands run in the package they were planned for, on changed files only, and files
      that are run rather than looked up exist. */
  lemma CommandsNameChangedFilesOnly(plan: ValidationPlan, p: WorkspacePackage, env: Environment,
                                     relevantFiles: seq<string>, command: Command)
    requires forall f :: f in relevantFiles ==> f in plan.changedFiles
    requires command in PlanPackage(plan, p, env, relevantFiles).commands
    ensures command.package == p.name && command.files != []
    ensures forall f :: f in command.files ==> f in plan.changedFiles
    ensures !command.UnitRelated? && !command.ComponentRelated? ==>
      forall f :: f in command.files ==> f in env.existing && IsOwnFile(p, f)
  {
    OwnFilesAre(plan, p, env);
    var integrationFiles := ChangedExistingIntegrationTestFiles(p, PackageChangedFiles(plan, p), env);
    var integration := if integrationFiles == [] then [] else [IntegrationRun(p.name, integrationFiles)];
    if command in integration {
    } else if command in PlanAffectedPackage(p, env, relevantFiles, integration).commands {
      AffectedCommandsNameRelevantFiles(p, env, relevantFiles, integration, command);
    } else {
      assert AffectedRustTestCommand(plan, p, env) == Some(command);
    }
  }

  lemma AffectedCommandsNameRelevantFiles(p: WorkspacePackage, env: Environment, relevantFiles: seq<string>,
                                          commands: seq<Command>, command: Command)
    requires command in PlanAffectedPackage(p, env, relevantFiles, commands).commands && command !in commands
    ensures command.package == p.name && command.files != []
    ensures forall f :: f in command.files ==> f in relevantFiles
    ensures !command.UnitRelated? && !command.ComponentRelated? ==>
      forall f :: f in command.files ==> f in env.existing && IsOwnFile(p, f)
  {
    RelevantFilesSplit(p, env, relevantFiles);
    var changedTestFiles := ChangedTestFiles(p, relevantFiles);
    var tests := ExistingFiles(changedTestFiles, env);
    LanesAreFaithful(p, p.name in env.component, UnitFiles(env, p, tests), ComponentFiles(env, p, tests),
                     Without(relevantFiles, changedTestFiles), command);
  }

  lemma LanesAreFaithful(p: WorkspacePackage, componentLane: bool, unitFiles: seq<string>,
                         componentFiles: seq<string>, relatedFiles: seq<string>, command: Command)
    requires command in LaneCommands(p, componentLane, unitFiles, componentFiles, relatedFiles)
    ensures command.package == p.name && command.files != []
    ensures || command == UnitRun(p.name, unitFiles)
            || command == ComponentRun(p.name, componentFiles)
            || command == UnitRelated(p.name, relatedFiles)
            || command == ComponentRelated(p.name, relatedFiles)
  {
  }

  /** A relevant file that can be given to a test run of its own: a test file of the package
      that exists, or an input the test runner can relate. */
  predicate RunsAlone(p: WorkspacePackage, env: Environment, filePath: string) {
    if IsOwnTestFile(p, filePath) then filePath in env.existing else IsSupportedAffectedTestInputFilePath(filePath)
  }

  /** An existing integration test file of the package that changed. */
  ghost predicate IsChangedIntegrationTest(plan: ValidationPlan, p: WorkspacePackage, env: Environment,
                                           filePath: string)
  {
    && filePath in plan.changedFiles && IsOwnFile(p, filePath)
    && RunsAsIntegration(env, p, filePath) && filePath in env.existing
  }

  /** A reason to run everything beside the changed integration tests. */
  ghost predicate MoreThanIntegrationTests(plan: ValidationPlan, p: WorkspacePackage, env: Environment) {
    || SelectedFromOutside(plan, p)
    || exists f :: f in plan.changedFiles && IsOwnFile(p, f) && !IsChangedIntegrationTest(plan, p, env, f)
  }

  /** When a package outside the Rust rules runs as a whole. */
  lemma WholePackageRunsIff(plan: ValidationPlan, p: WorkspacePackage, env: Environment, relevantFiles: seq<string>)
    requires Test in p.policySteps && p.name !in env.rust
    ensures PlanPackage(plan, p, env, relevantFiles).turbo
            <==>
            var integration := exists f :: IsChangedIntegrationTest(plan, p, env, f);
            if p.name !in env.affected then !integration || MoreThanIntegrationTests(plan, p, env)
            else
              || (integration && MoreThanIntegrationTests(plan, p, env))
              || AllPackages in plan.Reasons(p)
              || relevantFiles == []
              || exists f :: f in relevantFiles && !RunsAlone(p, env, f)
  {
    var packageChangedFiles := PackageChangedFiles(plan, p);
    var integrationFiles := ChangedExistingIntegrationTestFiles(p, packageChangedFiles, env);
    IntegrationTestsAreFound(plan, p, env);
    FullRunMeansMore(plan, p, env);
    var commands := if integrationFiles == [] then [] else [IntegrationRun(p.name, integrationFiles)];
    if relevantFiles != [] {
      AffectedPackageRunsWholeIff(p, env, relevantFiles, commands);
    }
  }

  lemma IntegrationTestsAreFound(plan: ValidationPlan, p: WorkspacePackage, env: Environment)
    ensures forall f :: f in ChangedExistingIntegrationTestFiles(p, PackageChangedFiles(plan, p), env)
                        <==> IsChangedIntegrationTest(plan, p, env, f)
    ensures ChangedExistingIntegrationTestFiles(p, PackageChangedFiles(plan, p), env) != []
            <==> exists f :: IsChangedIntegrationTest(plan, p, env, f)
  {
    OwnFilesAre(plan, p, env);
    var files := ChangedExistingIntegrationTestFiles(p, PackageChangedFiles(plan, p), env);
    if files != [] {
      assert files[0] in files;
    }
  }

  lemma FullRunMeansMore(plan: ValidationPlan, p: WorkspacePackage, env: Environment)
    ensures var packageChangedFiles := PackageChangedFiles(plan, p);
      ShouldRunFullPackageTest(p, packageChangedFiles,
                               ChangedExistingIntegrationTestFiles(p, packageChangedFiles, env), plan.Reasons(p))
      <==> MoreThanIntegrationTests(plan, p, env)
  {
    OwnFilesAre(plan, p, env);
    IntegrationTestsAreFound(plan, p, env);
  }

  lemma AffectedPackageRunsWholeIff(p: WorkspacePackage, env: Environment, relevantFiles: seq<string>,
                                    commands: seq<Command>)
    requires relevantFiles != []
    ensures PlanAffectedPackage(p, env, relevantFiles, commands).turbo
            <==> exists f :: f in relevantFiles && !RunsAlone(p, env, f)
  {
    RelevantFilesSplit(p, env, relevantFiles);
    var changedTestFiles := ChangedTestFiles(p, relevantFiles);
    var tests := ExistingFiles(changedTestFiles, env);
    var relatedFiles := Without(relevantFiles, changedTestFiles);
    var f := relevantFiles[0];
    assert f in changedTestFiles || f in relatedFiles;
    assert forall g :: g in relatedFiles <==> g in relevantFiles && !IsOwnTestFile(p, g);
    assert |tests| != |changedTestFiles| <==> exists g :: g in changedTestFiles && g !in env.existing;
  }

  ghost predicate SelectedFromOutside(plan: ValidationPlan, p: WorkspacePackage) {
    exists reason :: reason in plan.Reasons(p) && reason != ChangedFileIn(p.relativePath)
  }

  /** A package outside the affected-test set that is selected for any reason other than its
      own files is tested as a whole, exactly unless the Rust rules replace or skip it. */
  lemma OutsideReasonRunsWholePackage(plan: ValidationPlan, p: WorkspacePackage, env: Environment,
                                      relevantFiles: seq<string>)
    requires Test in p.policySteps && p.name !in env.affected
    requires SelectedFromOutside(plan, p)
    ensures PlanPackage(plan, p, env, relevantFiles).turbo
            <==> AffectedRustTestCommand(plan, p, env).None? && !ShouldSkipRustPackageTest(env, plan, p)
  {
    var reason :| reason in plan.Reasons(p) && reason != ChangedFileIn(p.relativePath);
  }

  ghost predicate HasOwnChange(plan: ValidationPlan, p: WorkspacePackage) {
    exists f :: f in plan.changedFiles && IsOwnFile(p, f)
  }

  /** Files of the package changed, and all of them are existing Rust test targets. */
  ghost predicate OnlyRustTargetsChanged(plan: ValidationPlan, p: WorkspacePackage, env: Environment) {
    && HasOwnChange(plan, p)
    && forall f :: f in plan.changedFiles && IsOwnFile(p, f) ==>
         IsRustIntegrationTargetFilePath(p, f) && f in env.existing
  }

  /** When changed Rust test targets replace the whole run: exactly when every changed file of
      the package is an existing target and nothing repo-wide changed. */
  lemma RustTargetsReplaceTheWholeRunIff(plan: ValidationPlan, p: WorkspacePackage, env: Environment)
    ensures AffectedRustTestCommand(plan, p, env).Some?
            <==>
            && p.name in env.rust && AllPackages !in plan.Reasons(p)
            && OnlyRustTargetsChanged(plan, p, env)
  {
    OwnFilesAre(plan, p, env);
    var files := PackageChangedFiles(plan, p);
    FilterTakesExactly(files, f => IsRustIntegrationTargetFilePath(p, f) && f in env.existing);
    if files != [] {
      assert files[0] in files;
    }
  }

  lemma SkippedIff(plan: ValidationPlan, p: WorkspacePackage, env: Environment)
    ensures ShouldSkipRustPackageTest(env, plan, p)
            <==> p.name in env.rust && AllPackages in plan.Reasons(p) && !HasOwnChange(plan, p)
  {
    OwnFilesAre(plan, p, env);
    var files := PackageChangedFiles(plan, p);
    if files != [] {
      assert files[0] in files;
    }
  }

  /** A Rust package selected for more than its own files loses its whole run exactly when
      nothing of it changed beside a repo-wide change, or when only test targets of it changed
      without one. */
  lemma RustPackageLosesTheWholeRunIff(plan: ValidationPlan, p: WorkspacePackage, env: Environment,
                                       relevantFiles: seq<string>)
    requires RustStandsAlone(env) && p.name in env.rust
    requires Test in p.policySteps && SelectedFromOutside(plan, p)
    ensures !PlanPackage(plan, p, env, relevantFiles).turbo
            <==> if AllPackages in plan.Reasons(p) then !HasOwnChange(plan, p)
                 else OnlyRustTargetsChanged(plan, p, env)
  {
    OutsideReasonRunsWholePackage(plan, p, env, relevantFiles);
    RustTargetsReplaceTheWholeRunIff(plan, p, env);
    SkippedIff(plan, p, env);
  }

  // ---------- When a change that bears on a package is tested ----------

  /** The file is given to the runs of its package that must have it. */
  ghost predicate NamedInItsRuns(commands: seq<Command>, p: WorkspacePackage, filePath: string, env: Environment) {
    if p.name in env.rust then exists c: Command :: c.RustTests? && NamesFile(commands, p, c, filePath)
    else if p.name in env.affected then RunsInItsLanes(commands, p, filePath, env)
    else exists c: Command :: c.IntegrationRun? && NamesFile(commands, p, c, filePath)
  }

  ghost predicate TestsChange(decision: PackagePlan, p: WorkspacePackage, filePath: string, env: Environment) {
    decision.turbo || NamedInItsRuns(decision.commands, p, filePath, env)
  }

  /** When an affected-test package runs as a whole. Relevance is looked for among the selected
      packages, as the planner does. */
  ghost predicate AffectedPackageRunsWhole(plan: ValidationPlan, p: WorkspacePackage, env: Environment) {
    var selected := plan.selection.selectedPackages;
    || ((exists f :: IsChangedIntegrationTest(plan, p, env, f)) && MoreThanIntegrationTests(plan, p, env))
    || AllPackages in plan.Reasons(p)
    || (forall f :: f in plan.changedFiles ==> !IsRelevant(p, f, selected))
    || (exists f :: f in plan.changedFiles && IsRelevant(p, f, selected) && !RunsAlone(p, env, f))
  }

  /** What the planner needs to test a change that bears on the package. A Rust package loses
      it when skipped repo-wide, or when its own changed targets replace the whole run and the
      change is elsewhere; an affected-test package when it does not run as a whole and the
      change does not bear on it as the selected packages see it, unless it is a changed
      integration test; any other package when the changed path is the package's directory
      itself and beside it only integration tests changed. */
  ghost predicate ChangeIsTestable(plan: ValidationPlan, p: WorkspacePackage, filePath: string, env: Environment) {
    if p.name in env.rust then
      if AllPackages in plan.Reasons(p) then HasOwnChange(plan, p)
      else OnlyRustTargetsChanged(plan, p, env) ==> IsOwnFile(p, filePath)
    else if p.name in env.affected then
      || IsRelevant(p, filePath, plan.selection.selectedPackages)
      || IsChangedIntegrationTest(plan, p, env, filePath)
      || AffectedPackageRunsWhole(plan, p, env)
    else
      filePath == p.relativePath ==>
        || !(exists f :: IsChangedIntegrationTest(plan, p, env, f))
        || MoreThanIntegrationTests(plan, p, env)
  }

  lemma RustChangeIsTestedIff(plan: ValidationPlan, p: WorkspacePackage, env: Environment,
                              relevantFiles: seq<string>, filePath: string)
    requires RustStandsAlone(env) && p.name in env.rust
    requires Test in p.policySteps && filePath in plan.changedFiles
    ensures TestsChange(PlanPackage(plan, p, env, relevantFiles), p, filePath, env)
            <==> ChangeIsTestable(plan, p, filePath, env)
  {
    OwnFilesAre(plan, p, env);
    RustTargetsReplaceTheWholeRunIff(plan, p, env);
    SkippedIff(plan, p, env);
    var rust := AffectedRustTestCommand(plan, p, env);
    if rust.Some? {
      RustCommandNames(plan, p, env, filePath);
      assert PlanPackage(plan, p, env, relevantFiles).commands == [rust.value];
      assert IsOwnFile(p, filePath) ==> NamesFile([rust.value], p, rust.value, filePath);
    }
  }

  lemma RustCommandNames(plan: ValidationPlan, p: WorkspacePackage, env: Environment, filePath: string)
    requires AffectedRustTestCommand(plan, p, env).Some? && filePath in plan.changedFiles
    ensures
      var command := AffectedRustTestCommand(plan, p, env).value;
      && command.RustTests? && command.package == p.name
      && (filePath in command.files <==> IsOwnFile(p, filePath))
  {
    RustTargetsReplaceTheWholeRunIff(plan, p, env);
    OwnFilesAre(plan, p, env);
    FilterTakesExactly(PackageChangedFiles(plan, p), f => IsRustIntegrationTargetFilePath(p, f) && f in env.existing);
  }

  lemma EndOfAnEnd(s: string, a: string, b: string)
    requires EndsWith(s, a) && |b| <= |a|
    ensures EndsWith(s, b) <==> EndsWith(a, b)
  {
    assert s[|s| - |b|..] == s[|s| - |a|..][|a| - |b|..];
  }

  /** The names of integration tests are names of tests, and not of component tests. */
  lemma IntegrationTestsAreTests(filePath: string)
    requires IsIntegrationTestFilePath(filePath)
    ensures IsTestFilePath(filePath) && !IsComponentTestFilePath(filePath)
  {
    if EndsWith(filePath, ".integration.test.ts") {
      EndOfAnEnd(filePath, ".integration.test.ts", ".test.ts");
      EndOfAnEnd(filePath, ".integration.test.ts", ".component.test.ts");
      EndOfAnEnd(filePath, ".integration.test.ts", ".component.test.tsx");
    } else {
      EndOfAnEnd(filePath, ".integration.test.tsx", ".test.tsx");
      EndOfAnEnd(filePath, ".integration.test.tsx", ".component.test.ts");
      EndOfAnEnd(filePath, ".integration.test.tsx", ".component.test.tsx");
    }
  }

  /** A file that is not relevant is given to its runs iff it is a changed integration test. */
  lemma IrrelevantFilesAreNamedIff(plan: ValidationPlan, p: WorkspacePackage, env: Environment,
                                   relevantFiles: seq<string>, filePath: string)
    requires filePath !in relevantFiles
    ensures
      var files := ChangedExistingIntegrationTestFiles(p, PackageChangedFiles(plan, p), env);
      var integration := if files == [] then [] else [IntegrationRun(p.name, files)];
      RunsInItsLanes(PlanAffectedPackage(p, env, relevantFiles, integration).commands, p, filePath, env)
      <==> IsChangedIntegrationTest(plan, p, env, filePath)
  {
    IntegrationTestsAreFound(plan, p, env);
    var files := ChangedExistingIntegrationTestFiles(p, PackageChangedFiles(plan, p), env);
    var integration := if files == [] then [] else [IntegrationRun(p.name, files)];
    var commands := PlanAffectedPackage(p, env, relevantFiles, integration).commands;
    forall c | NamesFile(commands, p, c, filePath) ensures c.IntegrationRun? && filePath in files {
      if c !in integration {
        AffectedCommandsNameRelevantFiles(p, env, relevantFiles, integration, c);
      }
    }
    if IsChangedIntegrationTest(plan, p, env, filePath) {
      IntegrationTestsAreTests(filePath);
      var run := IntegrationRun(p.name, files);
      AffectedPackageKeepsCommands(p, env, relevantFiles, integration, run);
      assert NamesFile(commands, p, run, filePath);
    }
  }

  /** Exactly which changes the decision for an affected-test package tests, relevant or not. */
  lemma AffectedChangeIsTestedIff(plan: ValidationPlan, p: WorkspacePackage, env: Environment, filePath: string)
    requires p.name in env.affected && p.name !in env.rust
    requires Test in p.policySteps && filePath in plan.changedFiles
    ensures
      var relevantFiles := RelevantFiles(p, plan.changedFiles, plan.selection.selectedPackages);
      TestsChange(PlanPackage(plan, p, env, relevantFiles), p, filePath, env)
      <==> ChangeIsTestable(plan, p, filePath, env)
  {
    var relevantFiles := RelevantFiles(p, plan.changedFiles, plan.selection.selectedPackages);
    RunsWholeIff(plan, p, env);
    if !AffectedPackageRunsWhole(plan, p, env) {
      if filePath in relevantFiles {
        RelevantFilesRunInTheirLanes(plan, p, env, relevantFiles, filePath);
      } else {
        IrrelevantFilesAreNamedIff(plan, p, env, relevantFiles, filePath);
      }
    }
  }

  lemma RunsWholeIff(plan: ValidationPlan, p: WorkspacePackage, env: Environment)
    requires p.name in env.affected && p.name !in env.rust && Test in p.policySteps
    ensures
      var relevantFiles := RelevantFiles(p, plan.changedFiles, plan.selection.selectedPackages);
      PlanPackage(plan, p, env, relevantFiles).turbo <==> AffectedPackageRunsWhole(plan, p, env)
  {
    var relevantFiles := RelevantFiles(p, plan.changedFiles, plan.selection.selectedPackages);
    WholePackageRunsIff(plan, p, env, relevantFiles);
    if relevantFiles != [] {
      assert relevantFiles[0] in relevantFiles;
    }
  }

  lemma PlainChangeIsTestedIff(plan: ValidationPlan, p: WorkspacePackage, env: Environment,
                               relevantFiles: seq<string>, filePath: string)
    requires p.name !in env.rust && p.name !in env.affected
    requires Test in p.policySteps && filePath in plan.changedFiles
    requires Contains(p, filePath) || SelectedFromOutside(plan, p)
    ensures TestsChange(PlanPackage(plan, p, env, relevantFiles), p, filePath, env)
            <==> ChangeIsTestable(plan, p, filePath, env)
  {
    WholePackageRunsIff(plan, p, env, relevantFiles);
    IntegrationTestsAreFound(plan, p, env);
    var decision := PlanPackage(plan, p, env, relevantFiles);
    if !decision.turbo {
      var files := ChangedExistingIntegrationTestFiles(p, PackageChangedFiles(plan, p), env);
      assert decision.commands == [IntegrationRun(p.name, files)];
      assert IsOwnFile(p, filePath) <==> filePath in files;
      assert filePath in files ==> NamesFile(decision.commands, p, IntegrationRun(p.name, files), filePath);
    }
  }

  // ---------- Which files are given to which runs ----------

  datatype Lane = RustLane | IntegrationLane | UnitLane | ComponentLane | UnitRelatedLane | ComponentRelatedLane

  function LaneOf(c: Command): Lane {
    match c
    case RustTests(_, _) => RustLane
    case IntegrationRun(_, _) => IntegrationLane
    case UnitRun(_, _) => UnitLane
    case ComponentRun(_, _) => ComponentLane
    case UnitRelated(_, _) => UnitRelatedLane
    case ComponentRelated(_, _) => ComponentRelatedLane
  }

  ghost predicate RunsInLane(commands: seq<Command>, p: WorkspacePackage, lane: Lane, filePath: string) {
    exists c :: NamesFile(commands, p, c, filePath) && LaneOf(c) == lane
  }

  /** Where a changed file belongs. Rust targets: in a Rust package of which nothing else changed,
      without a repo-wide change. Integration tests: existing ones of a package with that lane.
      The other lanes are for the relevant files of an affected-test package that does not run
      as a whole: its own test files are run in one lane, and all other files are related in the
      unit lane and, if the package has one, in the component lane. */
  ghost predicate BelongsInLane(plan: ValidationPlan, p: WorkspacePackage, env: Environment, lane: Lane,
                                filePath: string)
  {
    && Test in p.policySteps && filePath in plan.changedFiles
    && match lane
       case RustLane =>
         && p.name in env.rust && AllPackages !in plan.Reasons(p)
         && OnlyRustTargetsChanged(plan, p, env) && IsOwnFile(p, filePath)
       case IntegrationLane =>
         && p.name in env.integration && IsOwnFile(p, filePath)
         && IsIntegrationTestFilePath(filePath) && filePath in env.existing
       case _ =>
         && p.name in env.affected && !AffectedPackageRunsWhole(plan, p, env)
         && IsRelevant(p, filePath, plan.selection.selectedPackages)
         && BelongsInVitestLane(p, env, lane, filePath)
  }

  ghost predicate BelongsInVitestLane(p: WorkspacePackage, env: Environment, lane: Lane, filePath: string) {
    var ownTest := IsOwnFile(p, filePath) && IsTestFilePath(filePath);
    var asIntegration := IsIntegrationTestFilePath(filePath) && p.name in env.integration;
    var asComponent := IsComponentTestFilePath(filePath) && p.name in env.component;
    match lane
    case UnitLane => ownTest && !asIntegration && !asComponent
    case ComponentLane => ownTest && asComponent
    case UnitRelatedLane => !ownTest
    case ComponentRelatedLane => !ownTest && p.name in env.component
    case _ => false
  }

  /** The lanes of a list of commands for one package. */
  lemma LanesHold(p: WorkspacePackage, componentLane: bool, unitFiles: seq<string>, componentFiles: seq<string>,
                  relatedFiles: seq<string>, lane: Lane, filePath: string)
    ensures RunsInLane(LaneCommands(p, componentLane, unitFiles, componentFiles, relatedFiles), p, lane, filePath)
            <==> match lane
                 case UnitLane => filePath in unitFiles
                 case ComponentLane => filePath in componentFiles
                 case UnitRelatedLane => filePath in relatedFiles
                 case ComponentRelatedLane => filePath in relatedFiles && componentLane
                 case _ => false
  {
    var commands := LaneCommands(p, componentLane, unitFiles, componentFiles, relatedFiles);
    LanesAreFilled([], p, componentLane, unitFiles, componentFiles, relatedFiles, filePath);
    assert [] + commands == commands;
    forall c | c in commands
      ensures c.package == p.name && (LaneOf(c) == ComponentRelatedLane ==> componentLane)
      ensures LaneOf(c) == UnitLane ==> c.files == unitFiles
      ensures LaneOf(c) == ComponentLane ==> c.files == componentFiles
      ensures LaneOf(c) == UnitRelatedLane || LaneOf(c) == ComponentRelatedLane ==> c.files == relatedFiles
      ensures LaneOf(c) != RustLane && LaneOf(c) != IntegrationLane
    {
      LanesAreFaithful(p, componentLane, unitFiles, componentFiles, relatedFiles, c);
    }
  }

  lemma LanesOfBoth(a: seq<Command>, b: seq<Command>, p: WorkspacePackage, lane: Lane, filePath: string)
    ensures RunsInLane(a + b, p, lane, filePath)
            <==> RunsInLane(a, p, lane, filePath) || RunsInLane(b, p, lane, filePath)
  {
    assert forall c :: c in a + b <==> c in a || c in b;
    forall c
      ensures NamesFile(a + b, p, c, filePath) <==> NamesFile(a, p, c, filePath) || NamesFile(b, p, c, filePath)
    {
    }
  }

  /** The changed integration tests alone, as a list of commands. */
  function IntegrationCommands(plan: ValidationPlan, p: WorkspacePackage, env: Environment): seq<Command> {
    var files := ChangedExistingIntegrationTestFiles(p, PackageChangedFiles(plan, p), env);
    if files == [] then [] else [IntegrationRun(p.name, files)]
  }

  lemma IntegrationLaneIff(plan: ValidationPlan, p: WorkspacePackage, env: Environment, lane: Lane, filePath: string)
    ensures RunsInLane(IntegrationCommands(plan, p, env), p, lane, filePath)
            <==> lane == IntegrationLane && IsChangedIntegrationTest(plan, p, env, filePath)
  {
    IntegrationTestsAreFound(plan, p, env);
    var files := ChangedExistingIntegrationTestFiles(p, PackageChangedFiles(plan, p), env);
    if files != [] {
      var run := IntegrationRun(p.name, files);
      assert NamesFile([run], p, run, filePath) <==> filePath in files;
      assert forall c :: c in [run] <==> c == run;
    }
  }

  lemma RustLaneIff(plan: ValidationPlan, p: WorkspacePackage, env: Environment, relevantFiles: seq<string>,
                    lane: Lane, filePath: string)
    requires RustStandsAlone(env) && p.name in env.rust && Test in p.policySteps
    ensures RunsInLane(PlanPackage(plan, p, env, relevantFiles).commands, p, lane, filePath)
            <==> && lane == RustLane && filePath in plan.changedFiles && IsOwnFile(p, filePath)
                 && AllPackages !in plan.Reasons(p) && OnlyRustTargetsChanged(plan, p, env)
  {
    RustTargetsReplaceTheWholeRunIff(plan, p, env);
    SkippedIff(plan, p, env);
    var rust := AffectedRustTestCommand(plan, p, env);
    var commands := PlanPackage(plan, p, env, relevantFiles).commands;
    if rust.Some? {
      assert commands == [rust.value];
      OwnFilesAre(plan, p, env);
      if filePath in plan.changedFiles {
        RustCommandNames(plan, p, env, filePath);
      }
      assert NamesFile(commands, p, rust.value, filePath) <==> filePath in rust.value.files;
      assert forall c :: c in commands <==> c == rust.value;
    } else {
      assert commands == [];
    }
  }

  /** A package that runs as a whole gets nothing but its changed integration tests beside. */
  lemma WholeRunsAddNoLanes(p: WorkspacePackage, env: Environment, relevantFiles: seq<string>, commands: seq<Command>)
    requires PlanAffectedPackage(p, env, relevantFiles, commands).turbo
    ensures PlanAffectedPackage(p, env, relevantFiles, commands).commands == commands
  {
    RelevantFilesSplit(p, env, relevantFiles);
    var changedTestFiles := ChangedTestFiles(p, relevantFiles);
    var tests := ExistingFiles(changedTestFiles, env);
    var unitFiles, componentFiles := UnitFiles(env, p, tests), ComponentFiles(env, p, tests);
    if changedTestFiles == [] {
      assert tests == [];
      assert unitFiles == [] && componentFiles == [];
    }
  }

  lemma VitestLaneIff(p: WorkspacePackage, env: Environment, relevantFiles: seq<string>, commands: seq<Command>,
                      lane: Lane, filePath: string)
    requires !PlanAffectedPackage(p, env, relevantFiles, commands).turbo
    ensures RunsInLane(PlanAffectedPackage(p, env, relevantFiles, commands).commands, p, lane, filePath)
            <==> || RunsInLane(commands, p, lane, filePath)
                 || (filePath in relevantFiles && BelongsInVitestLane(p, env, lane, filePath))
  {
    RelevantFilesSplit(p, env, relevantFiles);
    var changedTestFiles := ChangedTestFiles(p, relevantFiles);
    var tests := ExistingFiles(changedTestFiles, env);
    LanesSplit(p, env, tests);
    var unitFiles, componentFiles := UnitFiles(env, p, tests), ComponentFiles(env, p, tests);
    var relatedFiles := Without(relevantFiles, changedTestFiles);
    var lanes := LaneCommands(p, p.name in env.component, unitFiles, componentFiles, relatedFiles);
    LanesHold(p, p.name in env.component, unitFiles, componentFiles, relatedFiles, lane, filePath);
    LanesOfBoth(commands, lanes, p, lane, filePath);
  }

  lemma AffectedLaneIff(plan: ValidationPlan, p: WorkspacePackage, env: Environment, lane: Lane, filePath: string)
    requires p.name in env.affected && p.name !in env.rust && Test in p.policySteps
    ensures
      var relevantFiles := RelevantFiles(p, plan.changedFiles, plan.selection.selectedPackages);
      RunsInLane(PlanPackage(plan, p, env, relevantFiles).commands, p, lane, filePath)
      <==> || RunsInLane(IntegrationCommands(plan, p, env), p, lane, filePath)
           || (!AffectedPackageRunsWhole(plan, p, env) && filePath in relevantFiles
               && BelongsInVitestLane(p, env, lane, filePath))
  {
    var relevantFiles := RelevantFiles(p, plan.changedFiles, plan.selection.selectedPackages);
    var integration := IntegrationCommands(plan, p, env);
    var decision := PlanPackage(plan, p, env, relevantFiles);
    RunsWholeIff(plan, p, env);
    if decision.turbo {
      if PlanAffectedPackage(p, env, relevantFiles, integration).turbo {
        WholeRunsAddNoLanes(p, env, relevantFiles, integration);
      }
      assert decision.commands == integration;
    } else {
      assert decision == PlanAffectedPackage(p, env, relevantFiles, integration);
      VitestLaneIff(p, env, relevantFiles, integration, lane, filePath);
    }
  }

  /** For every package, lane and file: the decision runs the file in the lane iff it belongs
      there. */
  lemma DecisionLanesIff(plan: ValidationPlan, p: WorkspacePackage, env: Environment, lane: Lane, filePath: string)
    requires RustStandsAlone(env)
    ensures
      var relevantFiles := RelevantFiles(p, plan.changedFiles, plan.selection.selectedPackages);
      RunsInLane(PlanPackage(plan, p, env, relevantFiles).commands, p, lane, filePath)
      <==> BelongsInLane(plan, p, env, lane, filePath)
  {
    var relevantFiles := RelevantFiles(p, plan.changedFiles, plan.selection.selectedPackages);
    if Test !in p.policySteps {
      assert PlanPackage(plan, p, env, relevantFiles).commands == [];
    } else if p.name in env.rust {
      RustLaneIff(plan, p, env, relevantFiles, lane, filePath);
    } else {
      IntegrationLaneIff(plan, p, env, lane, filePath);
      if p.name in env.affected {
        AffectedLaneIff(plan, p, env, lane, filePath);
      } else {
        assert PlanPackage(plan, p, env, relevantFiles).commands == IntegrationCommands(plan, p, env);
      }
    }
  }

  function Rank(lane: Lane): nat {
    match lane
    case RustLane => 0
    case IntegrationLane => 1
    case UnitLane => 2
    case ComponentLane => 3
    case UnitRelatedLane => 4
    case ComponentRelatedLane => 5
  }

  ghost predicate LanesAscend(commands: seq<Command>) {
    forall i, j :: 0 <= i < j < |commands| ==> Rank(LaneOf(commands[i])) < Rank(LaneOf(commands[j]))
  }

  /** Commands in ascending lanes, none beyond a rank. */
  ghost predicate AscendTo(commands: seq<Command>, rank: nat) {
    LanesAscend(commands) && forall c :: c in commands ==> Rank(LaneOf(c)) <= rank
  }

  lemma OneMoreLane(commands: seq<Command>, rank: nat, more: seq<Command>)
    requires AscendTo(commands, rank) && |more| <= 1
    requires forall c :: c in more ==> Rank(LaneOf(c)) == rank + 1
    ensures AscendTo(commands + more, rank + 1)
  {
    if more != [] {
      assert more[0] in more;
      assert forall i :: 0 <= i < |commands| ==> commands[i] in commands;
    } else {
      assert commands + more == commands;
    }
  }

  lemma LaneCommandsAscend(commands: seq<Command>, p: WorkspacePackage, componentLane: bool, unitFiles: seq<string>,
                           componentFiles: seq<string>, relatedFiles: seq<string>)
    requires AscendTo(commands, 1)
    ensures LanesAscend(commands + LaneCommands(p, componentLane, unitFiles, componentFiles, relatedFiles))
  {
    var unit := if unitFiles == [] then [] else [UnitRun(p.name, unitFiles)];
    var component := if componentFiles == [] then [] else [ComponentRun(p.name, componentFiles)];
    var unitRelated := if relatedFiles == [] then [] else [UnitRelated(p.name, relatedFiles)];
    var componentRelated :=
      if relatedFiles == [] || !componentLane then [] else [ComponentRelated(p.name, relatedFiles)];
    OneMoreLane(commands, 1, unit);
    OneMoreLane(commands + unit, 2, component);
    OneMoreLane(commands + unit + component, 3, unitRelated);
    OneMoreLane(commands + unit + component + unitRelated, 4, componentRelated);
    assert commands + unit + component + unitRelated + componentRelated
           == commands + (unit + component + unitRelated + componentRelated);
  }

  /** The commands of a package come in the order of the lanes, each lane at most once. */
  lemma LanesComeInOrder(plan: ValidationPlan, p: WorkspacePackage, env: Environment, relevantFiles: seq<string>)
    ensures LanesAscend(PlanPackage(plan, p, env, relevantFiles).commands)
  {
    var integration := IntegrationCommands(plan, p, env);
    assert AscendTo(integration, 1);
    var changedTestFiles := ChangedTestFiles(p, relevantFiles);
    var tests := ExistingFiles(changedTestFiles, env);
    LaneCommandsAscend(integration, p, p.name in env.component, UnitFiles(env, p, tests), ComponentFiles(env, p, tests),
                       Without(relevantFiles, changedTestFiles));
  }

  // ---------- A dependency's change that is not tested ----------

  const ALL_STEPS: set<Step> := {Format, Lint, Typecheck, Test}

  const SANDBOXD := WorkspacePackage("@mistle/sandboxd", "packages/sandboxd", {"@mistle/d"}, ALL_STEPS)
  const DEPENDENCY := WorkspacePackage("@mistle/d", "packages/d", {}, ALL_STEPS)
  const SOURCE := DEPENDENCY.relativePath + "/x.ts"
  const TARGET := SANDBOXD.relativePath + "/tests/a.rs"

  /** A changed Rust test target hides the change of a dependency: whatever the selection, the
      package is selected for the dependency too, and yet only the target is run. */
  lemma RustTargetsHideDependencyChanges(selection: PackageSelection, relevantFiles: seq<string>)
    requires IsSelection(selection, [SOURCE, TARGET], [DEPENDENCY, SANDBOXD])
    ensures
      var plan := ValidationPlan([SOURCE, TARGET], ExtraCommands([], [], [], []), selection);
      var decision := PlanPackage(plan, SANDBOXD, MistleEnvironment({SOURCE, TARGET}), relevantFiles);
      && SANDBOXD in selection.selectedPackages && DependsOn("@mistle/d") in plan.Reasons(SANDBOXD)
      && !decision.turbo && decision.commands == [RustTests("@mistle/sandboxd", [TARGET])]
  {
    var plan := ValidationPlan([SOURCE, TARGET], ExtraCommands([], [], [], []), selection);
    ExampleFiles();
    ExampleIsNotRepoWide();
    ExampleSelection(DEPENDENCY, SANDBOXD, SOURCE, TARGET, selection);
    assert plan.Reasons(SANDBOXD) == selection.packageReasons[SANDBOXD.name];
    ExampleCommand(SANDBOXD, SOURCE, TARGET, plan, MistleEnvironment({SOURCE, TARGET}), relevantFiles);
  }

  lemma ExampleFiles()
    ensures IsOwnFile(DEPENDENCY, SOURCE) && !IsOwnFile(SANDBOXD, SOURCE) && !Contains(DEPENDENCY, TARGET)
    ensures IsOwnFile(SANDBOXD, TARGET) && IsRustIntegrationTargetFilePath(SANDBOXD, TARGET)
  {
    var prefix := SANDBOXD.relativePath + "/tests/";
    assert SOURCE == DEPENDENCY.relativePath + "/" + "x.ts" && TARGET == prefix + "a.rs";
    assert TARGET == SANDBOXD.relativePath + "/" + "tests/a.rs";
    assert SOURCE[9] == DEPENDENCY.relativePath[9] == 'd' && TARGET[9] == SANDBOXD.relativePath[9] == 's';
    assert TARGET[|prefix|..] == "a.rs" && EndsWith(TARGET, ".rs");
    IncludesOneCharacter("a.rs", '/');
  }

  lemma ExampleIsNotRepoWide()
    ensures !HasRepoWideConfigChange([SOURCE, TARGET])
  {
    assert SOURCE[0] == TARGET[0] == 'p' && |SOURCE| == 15 && |TARGET| == 28;
    assert !IsRepoWideConfigPath(SOURCE) && !IsRepoWideConfigPath(TARGET);
  }

  lemma ExampleSelection(d: WorkspacePackage, r: WorkspacePackage, x: string, a: string, selection: PackageSelection)
    requires IsSelection(selection, [x, a], [d, r])
    requires d.name != r.name && d.name in r.dependencies
    requires IsOwnFile(d, x) && !Contains(d, a) && IsOwnFile(r, a) && !HasRepoWideConfigChange([x, a])
    ensures r in selection.selectedPackages
    ensures HasReason(selection.packageReasons, r.name, DependsOn(d.name))
    ensures !HasReason(selection.packageReasons, r.name, AllPackages)
  {
    var packages := [d, r];
    assert packages[0] == d && packages[1] == r;
    UniqueNameDetermines(packages, r);
    assert DependsDirectly(packages, r.name, d.name);
    assert packages[0].name in Names(packages) && packages[1].name in Names(packages);
    EdgeReaches(DependentsEdges(packages), d.name, r.name);
    assert x in [x, a] && FindWorkspacePackageForFile(x, packages) == Some(d);
    assert FileGives(x, r.name, DependsOn(d.name), packages);
    assert Justified(r.name, DependsOn(d.name), [x, a], packages);
    assert !Justified(r.name, AllPackages, [x, a], packages);
  }

  lemma ExampleCommand(p: WorkspacePackage, x: string, a: string, plan: ValidationPlan, env: Environment,
                       relevantFiles: seq<string>)
    requires plan.changedFiles == [x, a] && AllPackages !in plan.Reasons(p) && Test in p.policySteps
    requires !IsOwnFile(p, x) && IsOwnFile(p, a) && IsRustIntegrationTargetFilePath(p, a)
    requires a in env.existing && p.name in env.rust
    ensures PlanPackage(plan, p, env, relevantFiles) == PackagePlan(false, [RustTests(p.name, [a])])
  {
    FilterOfPair(x, a, f => IsOwnFile(p, f));
    assert PackageChangedFiles(plan, p) == [a];
    FilterOfOne(a, f => IsRustIntegrationTargetFilePath(p, f) && f in env.existing);
    assert ChangedExistingRustTestFiles(p, [a], env) == [a];
  }

  // ---------- Carrying the decisions out ----------

  ghost function DecisionFor(plan: ValidationPlan, p: WorkspacePackage, env: Environment,
                             packages: seq<WorkspacePackage>): PackagePlan
  {
    PlanPackage(plan, p, env, RelevantFiles(p, plan.changedFiles, packages))
  }

  ghost function Decisions(plan: ValidationPlan, env: Environment, packages: seq<WorkspacePackage>, count: nat)
    : (r: seq<PackagePlan>)
    requires count <= |plan.selection.selectedPackages|
    ensures |r| == count
  {
    if count == 0 then []
    else
      Decisions(plan, env, packages, count - 1)
      + [DecisionFor(plan, plan.selection.selectedPackages[count - 1], env, packages)]
  }

  lemma {:induction false} DecisionAt(plan: ValidationPlan, env: Environment, packages: seq<WorkspacePackage>,
                                      count: nat, i: nat)
    requires i < count <= |plan.selection.selectedPackages|
    ensures Decisions(plan, env, packages, count)[i]
            == DecisionFor(plan, plan.selection.selectedPackages[i], env, packages)
  {
    if i < count - 1 {
      DecisionAt(plan, env, packages, count - 1, i);
    }
  }

  function AllCommands(decisions: seq<PackagePlan>): seq<Command> {
    if decisions == [] then []
    else
      var n := |decisions| - 1;
      AllCommands(decisions[..n]) + decisions[n].commands
  }

  function TurboPackages(selected: seq<WorkspacePackage>, decisions: seq<PackagePlan>): seq<WorkspacePackage>
    requires |selected| == |decisions|
  {
    if decisions == [] then []
    else
      var n := |decisions| - 1;
      TurboPackages(selected[..n], decisions[..n]) + (if decisions[n].turbo then [selected[n]] else [])
  }

  /** Every command of a decision is carried out, and nothing else. */
  lemma {:induction false} AllCommandsAre(decisions: seq<PackagePlan>)
    ensures forall c :: c in AllCommands(decisions) <==> exists i :: 0 <= i < |decisions| && c in decisions[i].commands
  {
    if decisions != [] {
      AllCommandsAre(decisions[..|decisions| - 1]);
    }
  }

  lemma {:induction false} TurboPackagesAre(selected: seq<WorkspacePackage>, decisions: seq<PackagePlan>)
    requires |selected| == |decisions|
    ensures forall p :: p in TurboPackages(selected, decisions) <==>
      exists i :: 0 <= i < |decisions| && p == selected[i] && decisions[i].turbo
  {
    if decisions != [] {
      TurboPackagesAre(selected[..|decisions| - 1], decisions[..|decisions| - 1]);
    }
  }

  /** The body of the planner's loop, for one selected package. */
  method PlanOnePackage(plan: ValidationPlan, p: WorkspacePackage, packages: seq<WorkspacePackage>, env: Environment)
    returns (affectedCommands: seq<Command>, turbo: bool)
    ensures PackagePlan(turbo, affectedCommands) == DecisionFor(plan, p, env, packages)
  {
    affectedCommands, turbo := [], false;
    if Test !in p.policySteps {
      turbo := true;
      return;
    }
    if ShouldSkipRustPackageTest(env, plan, p) {
      return;
    }
    var rustTestCommand := AffectedRustTestCommand(plan, p, env);
    if rustTestCommand.Some? {
      affectedCommands := affectedCommands + [rustTestCommand.value];
      return;
    }
    var packageChangedFiles := PackageChangedFiles(plan, p);
    var integrationFiles := ChangedExistingIntegrationTestFiles(p, packageChangedFiles, env);
    if integrationFiles != [] {
      affectedCommands := affectedCommands + [IntegrationRun(p.name, integrationFiles)];
    }
    var full := ShouldRunFullPackageTest(p, packageChangedFiles, integrationFiles, plan.Reasons(p));
    if p.name !in env.affected {
      if integrationFiles == [] || full {
        turbo := true;
      }
      return;
    }
    if integrationFiles != [] && full {
      turbo := true;
      return;
    }
    if AllPackages in plan.Reasons(p) {
      turbo := true;
      return;
    }
    var relevantFiles := GetAffectedTestRelevantFiles(p, plan.changedFiles, packages);
    if relevantFiles == [] {
      turbo := true;
      return;
    }
    affectedCommands, turbo := PlanRelevantFiles(p, env, relevantFiles, affectedCommands);
  }

  method PushLaneCommands(p: WorkspacePackage, componentLane: bool, unitFiles: seq<string>, componentFiles: seq<string>,
                          relatedFiles: seq<string>)
    returns (commands: seq<Command>)
    ensures commands == LaneCommands(p, componentLane, unitFiles, componentFiles, relatedFiles)
  {
    commands := [];
    if unitFiles != [] {
      commands := commands + [UnitRun(p.name, unitFiles)];
    }
    if componentFiles != [] {
      commands := commands + [ComponentRun(p.name, componentFiles)];
    }
    if relatedFiles != [] {
      commands := commands + [UnitRelated(p.name, relatedFiles)];
      if componentLane {
        commands := commands + [ComponentRelated(p.name, relatedFiles)];
      }
    }
  }

  method PlanRelevantFiles(p: WorkspacePackage, env: Environment, relevantFiles: seq<string>, commands0: seq<Command>)
    returns (affectedCommands: seq<Command>, turbo: bool)
    ensures PackagePlan(turbo, affectedCommands) == PlanAffectedPackage(p, env, relevantFiles, commands0)
  {
    affectedCommands, turbo := commands0, false;
    var changedTestFiles := ChangedTestFiles(p, relevantFiles);
    var existingTestFiles := ExistingFiles(changedTestFiles, env);
    var componentFiles := ComponentFiles(env, p, existingTestFiles);
    var unitFiles := UnitFiles(env, p, existingTestFiles);
    var relatedFiles := Without(relevantFiles, changedTestFiles);
    if exists f | f in relatedFiles :: !IsSupportedAffectedTestInputFilePath(f) {
      turbo := true;
      return;
    }
    if |existingTestFiles| != |changedTestFiles| {
      turbo := true;
      return;
    }
    var lanes := PushLaneCommands(p, p.name in env.component, unitFiles, componentFiles, relatedFiles);
    affectedCommands := affectedCommands + lanes;
    if changedTestFiles == [] && relatedFiles == [] {
      turbo := true;
    }
  }

  method BuildAffectedTestCommands(plan: ValidationPlan, packages: seq<WorkspacePackage>, env: Environment)
    returns (affectedCommands: seq<Command>, turboPackages: seq<WorkspacePackage>)
    ensures affectedCommands == AllCommands(Decisions(plan, env, packages, |plan.selection.selectedPackages|))
    ensures turboPackages == TurboPackages(plan.selection.selectedPackages,
                                           Decisions(plan, env, packages, |plan.selection.selectedPackages|))
  {
    affectedCommands, turboPackages := [], [];
    var selected := plan.selection.selectedPackages;
    for i := 0 to |selected|
      invariant affectedCommands == AllCommands(Decisions(plan, env, packages, i))
      invariant turboPackages == TurboPackages(selected[..i], Decisions(plan, env, packages, i))
    {
      var commands, turbo := PlanOnePackage(plan, selected[i], packages, env);
      OneMoreDecision(plan, env, packages, i);
      affectedCommands := affectedCommands + commands;
      if turbo {
        turboPackages := turboPackages + [selected[i]];
      }
    }
    assert selected[..|selected|] == selected;
  }

  lemma OneMoreDecision(plan: ValidationPlan, env: Environment, packages: seq<WorkspacePackage>, i: nat)
    requires i < |plan.selection.selectedPackages|
    ensures
      var selected := plan.selection.selectedPackages;
      var before, after := Decisions(plan, env, packages, i), Decisions(plan, env, packages, i + 1);
      var decision := DecisionFor(plan, selected[i], env, packages);
      && AllCommands(after) == AllCommands(before) + decision.commands
      && TurboPackages(selected[..i + 1], after)
         == TurboPackages(selected[..i], before) + (if decision.turbo then [selected[i]] else [])
  {
    var selected := plan.selection.selectedPackages;
    var before := Decisions(plan, env, packages, i);
    OneMoreInLists(selected[..i], before, selected[i], DecisionFor(plan, selected[i], env, packages));
    assert selected[..i + 1] == selected[..i] + [selected[i]];
  }

  lemma OneMoreInLists(selected: seq<WorkspacePackage>, decisions: seq<PackagePlan>, p: WorkspacePackage,
                       decision: PackagePlan)
    requires |selected| == |decisions|
    ensures AllCommands(decisions + [decision]) == AllCommands(decisions) + decision.commands
    ensures TurboPackages(selected + [p], decisions + [decision])
            == TurboPackages(selected, decisions) + if decision.turbo then [p] else []
  {
    assert (decisions + [decision])[..|decisions|] == decisions;
    assert (selected + [p])[..|selected|] == selected;
  }
}
