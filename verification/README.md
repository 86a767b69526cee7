# Verification of Mistle's stateful cores

A Dafny 4.11 model of the parts of Mistle whose behaviour depends on order, closure or exact
text, with proofs over every input and every run. `dafny verify dfyconfig.toml` checks it.

- **Claude Code runtime server** (`QueryRuns`, `QuerySafety`, `CatalogLoads`, `Permissions`,
  `Idempotency`). The session object, the catalog fields, the permission table and the server
  are classes; each method is one stretch of code between two awaits, proved against a function
  on values. A `System` adds what lives in suspended calls (phases of runs, loads and reads in
  flight) and a history, and `Step` lets the environment choose the next stretch. Random ids
  are parameters that must be fresh; SDK streams are message, end and failure events.
- **Change validation** (`PackageGraph`, `Selection`, `Relevance`, `TestPlan`,
  `ExecutionPlan`, `NestedPackages`). Work-list closures, selection with reasons, relevance on
  the selected subgraph, the per-package test decision and the final command list. File
  existence is an input; the package-name sets are those of the source in `ValidateChanged` and
  any others in the lemmas (`Environment`); a command names a package and files.
- **Release versions** (`ReleaseVersion`, `ReleaseInference`). Pattern, parser, printer and
  order after Semantic Versioning 2.0.0 (items 2, 9 and 11), and inference from tags and a
  summary of the commits, which are inputs.
- **Smaller cores** (`TtlCache`, `GeneratedSecrets`, `ScheduleDispatcher`, `DockerReference`,
  `CloseReason`, the last after sections 5.5 and 5.5.1 of RFC 6455). `Common` holds shared
  string and sequence helpers.

Some statements describe the code as it is, not as one might wish it. Each has its exact
condition beside it:

- an older run's end takes a newer run's SDK handle (`OlderEndTakesTheHandle`; condition in
  `InterruptIsExact` and `HandleIsLostIff`);
- a hydrating read can erase a submitted query (`HydrationCanEraseASubmission`;
  `HydrationExtendsLogIffEmpty` for one read and `LogGrowsIff` for whole runs);
- an older catalog load can overwrite what a refresh found (`OlderLoadOverwritesARefresh`;
  `ResultSurvivesIff`);
- two idempotency keys of one method can be composed to the same text
  (`KeysCanCoincideIffOneContinuesTheOther`);
- changed Rust test targets hide the change of a dependency
  (`RustTargetsHideDependencyChanges`; `RustPackageLosesTheWholeRunIff`, and
  `RelevantChangeIsTestedIff` for every kind of package);
- nested package paths hide changes from the planner (`NestedPathsHideChanges`;
  `EveryRelevantChangeIsTestedIff`, and `RelevanceOnSelectionIsExactIff` for relevance alone);
- a clock that turns back shows that the cache removes records lazily
  (`TurnedBackClockShowsTheRemoval`; `LazyExpiryIsUnobservableIff`);
- a clock that is not finite ends the dispatcher's timers (`NonFiniteClockEndsTheTimers`;
  `DispatcherStaysAlive`), and a negative one delays a dispatch by more than a minute
  (`NegativeClockWaitsAMinuteMore`; `DelayEndsOnTheMinute`).

## Model

| member | source | states |
|---|---|---|
| QueryRuns.EveryInterleavingStaysInStep | packages/claude-code-runtime-server/src/runtime-server-bundle.ts:511-577 | After every sequence of starts, steers, messages, run endings, catch handlers, interrupts and reads of a new session: the active query id is the newest begun run while that is in flight and null otherwise; the abort controller is that run's; the SDK handle is that run's unless some run ended since its stream opened; the error is the recorded failure of the latest submitted query and nothing else |
| QueryRuns.RunKeepsInvariant | packages/claude-code-runtime-server/src/runtime-server-bundle.ts:511-577 | The same facts are kept by any run from any state in which they hold |
| QueryRuns.StepKeepsInvariant | packages/claude-code-runtime-server/src/runtime-server-bundle.ts:511-577 | Each single stretch of code between two awaits keeps them |
| QueryRuns.StartKeepsInvariant | packages/claude-code-runtime-server/src/runtime-server-bundle.ts:946-957 | Starting a query keeps them, whether building options throws, calling the SDK throws, or the stream opens |
| QueryRuns.EndKeepsInvariant | packages/claude-code-runtime-server/src/runtime-server-bundle.ts:566-577 | The finally block of any run, current or superseded, keeps them |
| QueryRuns.ConversationState.constructor | packages/claude-code-runtime-server/src/runtime-server-bundle.ts:222-242 | A new session has no query, log, error, controller or catalog |
| QueryRuns.ConversationState.StartQuery | packages/claude-code-runtime-server/src/runtime-server-bundle.ts:946-957 | Whole new session state of a start up to the first await of its run, for each of the three ways that can go |
| QueryRuns.ConversationState.SteerQuery | packages/claude-code-runtime-server/src/runtime-server-bundle.ts:1120-1150 | Starts the new query iff the expected query is the active one, and otherwise reports the active one and changes nothing |
| QueryRuns.ConversationState.ReceiveMessage | packages/claude-code-runtime-server/src/runtime-server-bundle.ts:533-565 | Whole new state after one streamed message: session id, log, command catalog, context usage; fails exactly when mapping announced commands throws |
| QueryRuns.ConversationState.EndRun | packages/claude-code-runtime-server/src/runtime-server-bundle.ts:566-576 | Clears the id and the controller only if they are this run's, and the SDK handle whoever owns it |
| QueryRuns.ConversationState.CatchFailure | packages/claude-code-runtime-server/src/runtime-server-bundle.ts:951-955 | Records a failure only for the latest submitted query |
| QueryRuns.ConversationState.Interrupt | packages/claude-code-runtime-server/src/runtime-server-bundle.ts:1152-1178 | Reports a stale query unless the named one is active, and then aborts and closes exactly the controller and handle the session holds |
| QueryRuns.ConversationState.ReadQueries | packages/claude-code-runtime-server/src/runtime-server-bundle.ts:867-870 | Answers with the log unless it is empty and an SDK session is known, and exactly then hydrates |
| QueryRuns.ConversationState.FinishHydration | packages/claude-code-runtime-server/src/runtime-server-bundle.ts:872-902 | Replaces the log by the stored user and assistant messages, each once and in order, with its id, its text and whose it is |
| QueryRuns.HydrationIsFaithful | packages/claude-code-runtime-server/src/runtime-server-bundle.ts:876-897 | The log a read hydrates is in one-to-one, increasing correspondence with the stored user and assistant messages; each entry has the id and text of its message and is from the user iff that is |
| QuerySafety.StatusTellsTheNewestRun | packages/claude-code-runtime-server/src/runtime-server-bundle.ts:959-964 | After every run of a new session the status is active iff the newest begun run is in flight, and error iff it is not and a failure of the latest submitted query was caught |
| QuerySafety.AtMostOneSteerBegins | packages/claude-code-runtime-server/src/runtime-server-bundle.ts:1120-1150 | Over whole runs, of all steers naming the same query at most one is accepted and begins a run |
| QuerySafety.ActiveQueryNeverReturns | packages/claude-code-runtime-server/src/runtime-server-bundle.ts:524-525 | Once the active query id has left a begun run it never comes back to it |
| QuerySafety.ActiveUntilOwnEndOrNewRun | packages/claude-code-runtime-server/src/runtime-server-bundle.ts:566-576 | Over whole runs, only its own end or the beginning of a newer run takes a run's id and controller out of the session |
| QuerySafety.OlderEndTakesTheHandle | packages/claude-code-runtime-server/src/runtime-server-bundle.ts:570-572 | A run in which an older run's end takes a newer run's SDK handle, so that interrupting the newer one closes nothing |
| QuerySafety.InterruptIsExact | packages/claude-code-runtime-server/src/runtime-server-bundle.ts:1152-1178 | After every run of a new session an interrupt aborts the named run iff it is active, and closes its handle iff moreover no run ended and no SDK call threw since the last stream opened; the session is unchanged |
| QuerySafety.HandleIsLostIff | packages/claude-code-runtime-server/src/runtime-server-bundle.ts:570-572 | The handle is lost iff some run ended, or an SDK call threw, after the last stream opened, or it was lost before and no stream opened |
| QuerySafety.OnlyNamedRunsAreAborted | packages/claude-code-runtime-server/src/runtime-server-bundle.ts:1161-1174 | Over whole runs nothing is aborted or closed that no interrupt named |
| QuerySafety.HydrationExtendsLogIffEmpty | packages/claude-code-runtime-server/src/runtime-server-bundle.ts:900-900 | Replacing the log at the end of a hydrating read extends it for every stored history iff the log is still empty then |
| QuerySafety.LogGrowsIff | packages/claude-code-runtime-server/src/runtime-server-bundle.ts:867-902 | Over every run of a new session, failing reads included, every step extends the log whatever is stored iff no hydrating read finishes after a submission, a message or a non-empty hydration that came since it began |
| QuerySafety.LogIsAppendOnly | packages/claude-code-runtime-server/src/runtime-server-bundle.ts:867-902 | Under that condition the log is append-only over the run, from every point of it on |
| QuerySafety.HydrationCanEraseASubmission | packages/claude-code-runtime-server/src/runtime-server-bundle.ts:867-902 | A run in which a hydrating read that began before a start erases the submitted query from the log while it is active |
| QuerySafety.LatestMessageNamesTheSession | packages/claude-code-runtime-server/src/runtime-server-bundle.ts:534-541 | Over whole runs the SDK session id is that of the last message that carried one |
| QuerySafety.LatestMessagesAnnounceAndMeasure | packages/claude-code-runtime-server/src/runtime-server-bundle.ts:546-565 | Over whole runs the command catalog is that of the last message whose announced commands could be mapped, and the context usage that of the last message that measured it and whose commands, if any, could be mapped |
| QuerySafety.StepsLogExactly | packages/claude-code-runtime-server/src/runtime-server-bundle.ts:511-565 | What each step puts into the log: a submission its text, a message itself, a hydrating read the stored messages in place of all that was there, any other step nothing |
| CatalogLoads.LoadsAreShared | packages/claude-code-runtime-server/src/runtime-server-bundle.ts:373-393 | In every run the load promise is exactly the newest load until its owner finishes; fetches started are at most one more than refreshes and failed loads together; without refreshes at most one load is in flight |
| CatalogLoads.RunKeepsInvariant | packages/claude-code-runtime-server/src/runtime-server-bundle.ts:373-393 | The inductive form of the same, from any state in which it holds |
| CatalogLoads.CatalogIsNeverForgotten | packages/claude-code-runtime-server/src/runtime-server-bundle.ts:386-387 | Once there is a catalog there is one after every further run |
| CatalogLoads.OlderEndsLeaveThePromise | packages/claude-code-runtime-server/src/runtime-server-bundle.ts:389-391 | While no newer load starts, only its own end takes a load out of the promise field |
| CatalogLoads.CatalogIsTheLastWritten | packages/claude-code-runtime-server/src/runtime-server-bundle.ts:384-387 | After every run the catalog is that of the last load to finish with success or of the last announcement |
| CatalogLoads.ResultSurvivesIff | packages/claude-code-runtime-server/src/runtime-server-bundle.ts:384-387 | The result of a load, the newest too, is the one kept in the end iff after its finish no other load finishes with success and nothing is announced |
| CatalogLoads.OlderLoadOverwritesARefresh | packages/claude-code-runtime-server/src/runtime-server-bundle.ts:386-386 | A run in which a load started first finishes last and overwrites what a refresh found |
| CatalogLoads.RequestsAreAnswered | packages/claude-code-runtime-server/src/runtime-server-bundle.ts:373-383 | After every run a request that is no refresh is answered with the catalog written last iff there is one; else it joins the newest load iff that is unfinished; else, and always as a refresh, it starts a load |
| CatalogLoads.RequestsEndWithTheirLoad | packages/claude-code-runtime-server/src/runtime-server-bundle.ts:380-387 | Over every run a request ends with the result of the load it joined or started, keeps what it ended with, and can end once that load has settled |
| CatalogLoads.StepKeepsAsks | packages/claude-code-runtime-server/src/runtime-server-bundle.ts:373-393 | Each step keeps that every load in flight has the request that started it and that settled results never change |
| CatalogLoads.CatalogSlot.RequestCatalog | packages/claude-code-runtime-server/src/runtime-server-bundle.ts:373-383 | Answers from the catalog, joins the load in flight or starts a fetch, and changes only the promise field |
| CatalogLoads.CatalogSlot.FinishLoad | packages/claude-code-runtime-server/src/runtime-server-bundle.ts:384-393 | Writes the catalog on success, clears the promise only if it is this load's, and answers with the result |
| CatalogLoads.CatalogSlot.Announce | packages/claude-code-runtime-server/src/runtime-server-bundle.ts:546-557 | A commands_changed message sets the catalog and leaves the promise |
| Permissions.RequestsAreConserved | packages/claude-code-runtime-server/src/runtime-server-bundle.ts:600-632 | In every run the requests are the disjoint union of pending and resolved ones, handlers are attached exactly to the pending requests with a signal, and a resolved request keeps its outcome |
| Permissions.StepConserves | packages/claude-code-runtime-server/src/runtime-server-bundle.ts:600-632 | Each request, reply and abort keeps that |
| Permissions.FirstDecisionWins | packages/claude-code-runtime-server/src/runtime-server-bundle.ts:1082-1099 | Over whole runs a request is pending iff no event decided it, and its outcome is what the first valid reply or abort says, looking at the request alone |
| Permissions.RepliesMeanWhatTheySay | packages/claude-code-runtime-server/src/runtime-server-bundle.ts:650-726 | Exactly which replies are accepted; rejections are the only denials; a tool other than the question tool is allowed once or always as the decision says; the allowed input is the one asked with, iff it is not answered or its questions are an array, and otherwise differs in the questions alone if it is an object; answers mean the last value given to each question |
| Permissions.RejectionsSayWhy | packages/claude-code-runtime-server/src/runtime-server-bundle.ts:651-706 | A rejection carries the message of the reply if that is not empty, and else the text for an input request or a tool request |
| Permissions.RefusalsSayWhy | packages/claude-code-runtime-server/src/runtime-server-bundle.ts:643-720 | Which error a refused reply gives |
| Permissions.FirstBadAnswerIsReported | packages/claude-code-runtime-server/src/runtime-server-bundle.ts:670-688 | Answers are refused for the first one that names no question, as malformed or as naming none |
| Permissions.NewRequestsArePendingUnlessAborted | packages/claude-code-runtime-server/src/runtime-server-bundle.ts:612-631 | A new request is denied as cancelled if its signal has aborted, and else pending |
| Permissions.AnswersMeanTheLastOfEach | packages/claude-code-runtime-server/src/runtime-server-bundle.ts:664-690 | Answers are accepted iff each names a question with text, and each question named gets the value of the last answer that names it |
| Permissions.ReadAnswers | packages/claude-code-runtime-server/src/runtime-server-bundle.ts:670-690 | The loop over the answers gives that map or the error of the first bad answer |
| Permissions.PermissionTable.RequestPermission | packages/claude-code-runtime-server/src/runtime-server-bundle.ts:600-632 | Whole new table: pending and listening, or denied at once if the signal has aborted |
| Permissions.PermissionTable.ReplyTo | packages/claude-code-runtime-server/src/runtime-server-bundle.ts:1090-1098 | Succeeds iff the request is pending and the reply valid; a reply that throws leaves the table as it was |
| Permissions.PermissionTable.Abort | packages/claude-code-runtime-server/src/runtime-server-bundle.ts:621-631 | Denies exactly the requests listening to the signal and deletes them |
| Permissions.PermissionTable.SettleAndDelete | packages/claude-code-runtime-server/src/runtime-server-bundle.ts:612-616 | Removes the request and its handler; the first resolution of its promise counts |
| Idempotency.ReplaysHaveNoEffect | packages/claude-code-runtime-server/src/runtime-server-bundle.ts:481-491 | For every list of requests handled one after another, with any steps of the sessions in between, the final sessions and table are those of the list without the requests whose key had succeeded before |
| Idempotency.ReplayGetsTheFirstAnswer | packages/claude-code-runtime-server/src/runtime-server-bundle.ts:481-485 | A request whose key succeeded earlier gets that answer and changes nothing, whatever happened in between |
| Idempotency.TableRecordsSuccesses | packages/claude-code-runtime-server/src/runtime-server-bundle.ts:486-490 | The table's keys are exactly the keys that succeeded; failures are not recorded; no entry is overwritten |
| Idempotency.TableIsWriteOnce | packages/claude-code-runtime-server/src/runtime-server-bundle.ts:486-490 | Over whole lists an entry of the table never changes |
| Idempotency.MethodsNeverShareKeys | packages/claude-code-runtime-server/src/runtime-server-bundle.ts:460-479 | Composed keys of requests of different methods never coincide |
| Idempotency.KeysCanCoincideIffOneContinuesTheOther | packages/claude-code-runtime-server/src/runtime-server-bundle.ts:478-478 | Two different keys of one method can be composed to the same text iff one of them followed by a colon begins the other |
| Idempotency.KeysAreAcceptedIff | packages/claude-code-runtime-server/src/runtime-server-bundle.ts:460-473 | An idempotency field is refused iff it is there without a key that is a text and not empty |
| Idempotency.SameKeyIff | packages/claude-code-runtime-server/src/runtime-server-bundle.ts:474-478 | For one method and one key text the composed keys coincide iff the fingerprints brought along, or else the texts of the params, are equal |
| Idempotency.FreshRequestsAreExecuted | packages/claude-code-runtime-server/src/runtime-server-bundle.ts:481-491 | Over every list of inputs a request is executed when no success before it was of its method with its key and its fingerprint or params, and none with a key that continues or is continued by its key |
| Idempotency.RepeatedRequestsAreReplayed | packages/claude-code-runtime-server/src/runtime-server-bundle.ts:481-485 | A later request of the same method with the same key and fingerprint as a success gets that answer and changes nothing |
| Idempotency.RequestsWithoutKeyAreExecuted | packages/claude-code-runtime-server/src/runtime-server-bundle.ts:481-491 | Without a key every request is executed, and every resume is, and the table stays as it was |
| Idempotency.RuntimeServer.HandleRequest | packages/claude-code-runtime-server/src/runtime-server-bundle.ts:481-491 | Whole new server state and answer of one request; a failed request leaves the server as it was |
| Idempotency.OperationsTouchOneSession | packages/claude-code-runtime-server/src/runtime-server-bundle.ts:972-1010 | A failed operation changes no session; one that succeeds changes at most the session it names or creates and removes none |
| Idempotency.CreateSucceedsIff | packages/claude-code-runtime-server/src/runtime-server-bundle.ts:972-984 | A create succeeds iff the directory is absent or a text that is not empty; the new session is empty and has the drawn id and no SDK session |
| Idempotency.SteerSucceedsIff | packages/claude-code-runtime-server/src/runtime-server-bundle.ts:1120-1150 | A steer succeeds iff its fields are texts, its session exists and the query it names is the active one; the whole new session by launch, and which error otherwise |
| Idempotency.SteersTheSession | packages/claude-code-runtime-server/src/runtime-server-bundle.ts:1120-1150 | Steering through the server is steering the session |
| Idempotency.StartSucceedsIff | packages/claude-code-runtime-server/src/runtime-server-bundle.ts:1100-1118 | A start succeeds iff its fields are texts and its session exists; the whole new session by launch, and which error otherwise |
| Idempotency.ResumeNeverReplaces | packages/claude-code-runtime-server/src/runtime-server-bundle.ts:995-1010 | A resume leaves every session there is, succeeds iff the id is text and either known or the directory valid, and a session it adds is empty and resumes the SDK session of its name; resuming twice is resuming once |
| PackageGraph.BuildDependentsMap | scripts/dev/validate-changed.ts:319-340 | The map from each workspace package to the workspace packages that name it as a dependency |
| PackageGraph.CollectTransitiveDependents | scripts/dev/validate-changed.ts:342-371 | Terminates with exactly the names reachable by one or more dependent edges, cycles included |
| PackageGraph.CollectTransitiveDependencies | scripts/dev/validate-changed.ts:373-402 | Terminates with exactly the names reachable by one or more dependency edges, cycles included |
| PackageGraph.Expand | scripts/dev/validate-changed.ts:353-368 | One round of the work list keeps its invariant and collects exactly the new successors |
| PackageGraph.ClosuresAreConverse | scripts/dev/validate-changed.ts:342-402 | With unique names, d is in the dependents closure of p iff p is in the dependencies closure of d |
| Selection.FindWorkspacePackageForFile | scripts/dev/validate-changed.ts:437-446 | The first package of the list that holds the file, or none when no package does |
| Selection.ReasonTable.AddPackageReason | scripts/dev/validate-changed.ts:448-463 | Adds the name and the reason once and leaves all other reasons |
| Selection.WithReasonAdds | scripts/dev/validate-changed.ts:448-463 | Reasons stay non-empty and duplicate-free, and exactly the given one is added |
| Selection.RecordChangedFile | scripts/dev/validate-changed.ts:632-655 | A changed file adds exactly a reason for its owner and one for each transitive dependent of the owner |
| Selection.SelectWorkspacePackages | scripts/dev/validate-changed.ts:609-667 | The reason map's keys are exactly the selected names, its reasons exactly the justified ones, non-empty and duplicate-free; the packages are those names' packages, each once |
| Selection.ReasonsAreExactlySelected | scripts/dev/validate-changed.ts:632-655 | Having a justified reason and being selected are the same |
| Selection.SelectionIsClosed | scripts/dev/validate-changed.ts:646-654 | A package that depends on a selected package is selected |
| Selection.RepoWideChangeSelectsEverything | scripts/dev/validate-changed.ts:619-630 | A repo-wide change selects exactly all workspace names |
| Selection.OnlyWorkspaceNamesAreSelected | scripts/dev/validate-changed.ts:609-667 | Only names of workspace packages are selected |
| Selection.SelectionsRecordReasons | scripts/dev/validate-changed.ts:632-655 | Every reason a changed file gives is recorded for its package |
| Selection.SelectedPackagesAreExact | scripts/dev/validate-changed.ts:657-662 | With unique names the selected packages are exactly the workspace packages with a selected name |
| Relevance.GetAffectedTestRelevantFiles | scripts/dev/validate-changed.ts:774-787 | Exactly the changed files owned by the package or by one of its transitive dependencies, in order |
| Relevance.RelevanceOnSelectionIsExactIff | scripts/dev/validate-changed.ts:1176-1176 | With unique names, relevance computed on a selection is relevance computed on the workspace for every selected package iff for each changed file the first holder in the selection and the first in the workspace are the same package or depend on each other |
| Relevance.RelevanceOnSelectionIsRelevanceOnWorkspace | scripts/dev/validate-changed.ts:1176-1176 | In particular when no changed file lies in two packages |
| Relevance.SameRelevanceIff | scripts/dev/validate-changed.ts:774-787 | The same if and only if for one file |
| Relevance.SelectionsAreClosed | scripts/dev/validate-changed.ts:609-667 | The selection holds the owner of every changed file and, with a package, all packages that depend on it |
| Relevance.WalkersAreSelected | scripts/dev/validate-changed.ts:774-787 | Every package from which dependencies lead to a selected package, over any number of edges, is selected |
| Relevance.SameReach | scripts/dev/validate-changed.ts:774-787 | The selected subgraph reaches a selected package exactly from where the workspace does |
| Relevance.SameOwner | scripts/dev/validate-changed.ts:437-446 | A changed file has the same owner among the selected packages as in the workspace |
| Relevance.RelevanceIsEmptyIff | scripts/dev/validate-changed.ts:1055-1069 | A selected package has no relevant file, so that the empty-relevance branch is reached, iff no changed file has its first holder in the selection among the package and what it depends on in the workspace |
| Relevance.RelevanceIsNeverEmpty | scripts/dev/validate-changed.ts:1055-1069 | In particular never when nothing repo-wide changed and the holders of the changed files agree |
| Relevance.NotNestedIsUnambiguous | scripts/dev/validate-changed.ts:437-446 | Package paths that do not nest never hold a file twice |
| TestPlan.MistleEnvironment | scripts/dev/validate-changed.ts:48-68 | The four name sets with test rules of their own; Rust packages are in neither of the affected-test and integration sets |
| TestPlan.TestsAreNotDropped | scripts/dev/validate-changed.ts:997-1141 | A package with the test step runs as a whole, or gets a command, or is exactly the skipped kind of Rust package |
| TestPlan.WholePackageRunsIff | scripts/dev/validate-changed.ts:997-1141 | Exactly when a package outside the Rust rules runs as a whole, in terms of files and reasons |
| TestPlan.RelevantFilesRunInTheirLanes | scripts/dev/validate-changed.ts:1071-1137 | Unless the package runs as a whole, every relevant file is named in each lane that must run it and its test files exist |
| TestPlan.CommandsNameChangedFilesOnly | scripts/dev/validate-changed.ts:997-1137 | Commands run in their own package, on changed files only, and files that are run exist |
| TestPlan.DecisionLanesIff | scripts/dev/validate-changed.ts:997-1141 | For every package, lane and file: the decision gives the file to a run of that lane iff it belongs there; component lanes for packages that have one, integration and Rust runs for their packages, unit runs for own tests of neither other lane, related runs for files that are no own test |
| TestPlan.LanesComeInOrder | scripts/dev/validate-changed.ts:997-1137 | The commands of a package come in the order of the lanes, each lane at most once |
| TestPlan.OutsideReasonRunsWholePackage | scripts/dev/validate-changed.ts:862-876 | A package selected for more than its own files runs as a whole exactly unless the Rust rules replace or skip it |
| TestPlan.RustTargetsReplaceTheWholeRunIff | scripts/dev/validate-changed.ts:925-968 | Exactly when changed Rust test targets replace the whole run |
| TestPlan.RustPackageLosesTheWholeRunIff | scripts/dev/validate-changed.ts:925-988 | A Rust package selected for more than its own files loses its whole run iff a repo-wide file changed and nothing of the package, or no repo-wide file changed and, of the package, only existing test targets |
| TestPlan.RustTargetsHideDependencyChanges | scripts/dev/validate-changed.ts:925-968 | A workspace and changed files for which every selection holds a Rust package for the sake of a changed dependency, and yet only its changed test target is run |
| TestPlan.RustChangeIsTestedIff | scripts/dev/validate-changed.ts:925-1004 | Exactly which changes the decision for a Rust package tests |
| TestPlan.AffectedChangeIsTestedIff | scripts/dev/validate-changed.ts:1020-1139 | Exactly which changes, relevant or not, the decision for an affected-test package tests |
| TestPlan.IrrelevantFilesAreNamedIff | scripts/dev/validate-changed.ts:1071-1137 | Unless the package runs as a whole, a file that is not relevant in the selection is given to its runs iff it is a changed integration test |
| TestPlan.PlainChangeIsTestedIff | scripts/dev/validate-changed.ts:1020-1043 | Exactly which changes the decision for a package without rules of its own tests |
| TestPlan.PlanOnePackage | scripts/dev/validate-changed.ts:997-1069 | The body of the planner's loop takes the decision that the lemmas above are about |
| TestPlan.PlanRelevantFiles | scripts/dev/validate-changed.ts:1071-1139 | The rest of that body: lanes for test files and related files, or a whole run |
| TestPlan.BuildAffectedTestCommands | scripts/dev/validate-changed.ts:990-1141 | Commands and turbo packages are the decisions of all selected packages, in order |
| ExecutionPlan.RelevantChangeIsTestedIff | scripts/dev/validate-changed.ts:990-1199 | From selection to final command list: every change that bears on a package is tested, by a whole run or by being named in each run that must have it, iff it is not lost to a skipped Rust package, to Rust targets that replace the whole run, to selected packages that hold the file differently from the workspace, or to integration tests that replace the whole run while the changed path is the package directory itself |
| ExecutionPlan.EveryRelevantChangeIsTestedIff | scripts/dev/validate-changed.ts:990-1199 | With the name sets of this workspace all changes that bear on an affected-test package are tested by the final command list iff it runs as a whole or each bears on it as the selected packages see it too or is a changed integration test; they are when the holders of the changed files agree |
| NestedPackages.NestedPathsHideChanges | scripts/dev/validate-changed.ts:1055-1139 | A workspace sorted by path with what is selected of it sorted by name, in which the dashboard does not run as a whole and none of its commands names its own changed file, although that bears on it |
| ExecutionPlan.RelevantChangeSelects | scripts/dev/validate-changed.ts:632-655 | A change that bears on a package selects it, and is one of its own files or gives it a reason beside them |
| ExecutionPlan.DecisionTestsChangeIff | scripts/dev/validate-changed.ts:990-1141 | The decision for one package tests a change that bears on it under the same condition as the whole list |
| ExecutionPlan.DecisionIsCarriedOut | scripts/dev/validate-changed.ts:1175-1187 | The final command list tests a change to a package iff the decision for that package does |
| ExecutionPlan.StepIsCarriedOutIff | scripts/dev/validate-changed.ts:1143-1199 | A step is carried out for a package of the workspace iff the package is selected, the step is requested, in its policy and not formatting, and it is not the tests of a skipped Rust package |
| ExecutionPlan.EveryStepIsCarriedOut | scripts/dev/validate-changed.ts:1143-1199 | One half of that, for selected packages whose names need not be unique |
| ExecutionPlan.OnlyRequestedStepsRun | scripts/dev/validate-changed.ts:1143-1199 | Turbo runs are for requested steps and name selected packages with that step only; the root check is never reached |
| ExecutionPlan.ExtrasOfRequestedSteps | scripts/dev/validate-changed.ts:1146-1197 | The extra commands of exactly the requested steps are in the list |
| ExecutionPlan.ListIsInOrder | scripts/dev/validate-changed.ts:1143-1199 | Extra format commands come first, then the turbo runs for typecheck, lint and test, each at most once, then affected tests, then the other extra commands |
| ExecutionPlan.ListLanesIff | scripts/dev/validate-changed.ts:1143-1199 | The final list runs a file of a selected package in a lane iff it belongs there |
| ExecutionPlan.BuildExecutionCommands | scripts/dev/validate-changed.ts:1143-1199 | The command list: format commands, typecheck, lint, tests, then the other extra commands |
| ExecutionPlan.ValidateChanged | scripts/dev/validate-changed.ts:669-702 | From changed files and workspace to commands: the selection is exact, exactly the requested steps of selected packages are carried out, exactly the files that belong in a lane are run in it, of all changes that bear on a package exactly the testable ones are tested, and the extra commands are those of the requested steps |
| ReleaseVersion.PatternIsExact | scripts/release/lib.ts:1-2 | Greedy matching accepts exactly the texts made of canonical numerals with the dots and the alpha part of the pattern |
| ReleaseVersion.ParserAcceptsThePattern | scripts/release/lib.ts:31-50 | The parser succeeds exactly on those texts |
| ReleaseVersion.ParseReadsSegments | scripts/release/lib.ts:31-50 | Splitting finds the numerals, and each is read as its number |
| ReleaseVersion.ParseOfFormat | scripts/release/lib.ts:31-59 | Parsing undoes printing, for every version |
| ReleaseVersion.FormatOfParse | scripts/release/lib.ts:31-59 | Printing undoes parsing, for every accepted text |
| ReleaseVersion.ComparisonIsPrecedence | scripts/release/lib.ts:61-100 | The comparison is precedence by the first difference (item 11 of Semantic Versioning 2.0.0), is 0 for equal texts only, and turns its sign with its arguments |
| ReleaseVersion.CompareIsTransitive | scripts/release/lib.ts:61-100 | The order is transitive, with equality only if both steps are equal |
| ReleaseVersion.AlphasPrecedeTheirStable | scripts/release/lib.ts:84-92 | An alpha precedes its stable version (item 9) |
| ReleaseVersion.DigitsHavePlaces | scripts/release/lib.ts:43-48 | Digits are read in base ten, the most significant first |
| ReleaseInference.SortPutsTheGreatestLast | scripts/release/prepare.ts:72-78 | Sorting by the comparison puts a greatest version last |
| ReleaseInference.InferenceSucceedsIff | scripts/release/prepare.ts:117-171 | For every list of tags, inference on a channel succeeds iff all stable tags are canonical, there are commits since the latest, and for an alpha all alpha tags are canonical |
| ReleaseInference.LatestIsGreatest | scripts/release/prepare.ts:72-78 | The latest stable version is a stable tag's version and none is greater |
| ReleaseInference.NextStableExceedsEveryStableTag | scripts/release/prepare.ts:117-141 | The next stable version is stable and above every stable tag, and so are its alphas |
| ReleaseInference.NextAlphaExceedsAlphasOfItsBase | scripts/release/prepare.ts:153-170 | The next alpha has the next stable base and an alpha number above every alpha tag of that base |
| ReleaseInference.InferredStableIsNew | scripts/release/prepare.ts:143-151 | For every list of tags an inferred stable version is above every stable tag and not tagged |
| ReleaseInference.InferredAlphaIsNewAndBetween | scripts/release/prepare.ts:143-171 | For every list of tags an inferred alpha is above every alpha of its base, above every stable tag, below the next stable version, and not tagged |
| ReleaseInference.InferredStableIsExact | scripts/release/prepare.ts:117-151 | With x.y.z the greatest stable tag, the inferred text is x.(y+1).0 iff a feature or breaking change is among the commits and x.y.(z+1) iff none is; without stable tags it is 0.1.0 |
| ReleaseInference.NothingIsSkipped | scripts/release/prepare.ts:126-140 | No stable version lies strictly between the greatest tag and an inferred patch release, and only patches of the same minor below an inferred minor release |
| ReleaseInference.InferredAlphaIsExact | scripts/release/prepare.ts:143-171 | The inferred alpha is the text of the next stable version with number 1 if no alpha tag has its numbers, and else one more than the greatest of those |
| ReleaseInference.StableTagsAre | scripts/release/prepare.ts:68-70 | A tag is a stable one iff it is a v and three texts of digits with dots between them |
| ReleaseInference.OverrideSucceedsIff | scripts/release/prepare.ts:33-52 | An override is taken as it is iff it is a release version whose tag does not exist, and which error otherwise |
| ReleaseInference.ChannelReleasesNeverCollide | scripts/release/prepare.ts:173-196 | The existing-tag check never refuses a channel release |
| TtlCache.LazyExpiryIsUnobservableIff | packages/cache/src/in-memory-cache-adapter.ts:11-34 | For every history and every clock, a get answers the last undeleted value set while its deadline is absent or later than now, else nothing, iff the record was not removed by a get at or after its deadline and live again now |
| TtlCache.LazyExpiryIsUnobservable | packages/cache/src/in-memory-cache-adapter.ts:11-34 | So with a clock that does not run backwards every get answers that |
| TtlCache.StoredIffNotRemoved | packages/cache/src/in-memory-cache-adapter.ts:11-34 | For every history and every clock, a key is stored iff it has a last undeleted set that no get at or after its deadline has removed, and then that is its record |
| TtlCache.TurnedBackClockShowsTheRemoval | packages/cache/src/in-memory-cache-adapter.ts:17-20 | With a clock that turns back the answer differs |
| TtlCache.InMemoryCache.GetValue | packages/cache/src/in-memory-cache-adapter.ts:11-23 | Answer and new records of a get, including the removal of an expired record |
| TtlCache.InMemoryCache.SetValue | packages/cache/src/in-memory-cache-adapter.ts:25-30 | New records of a set |
| TtlCache.InMemoryCache.DeleteValue | packages/cache/src/in-memory-cache-adapter.ts:32-34 | New records of a delete |
| GeneratedSecrets.FileHasALinePerName | packages/config/src/container-runtime.ts:179-188 | The printed file has a line NAME=value for each name, in order, and ends in a newline |
| GeneratedSecrets.LinesAssign | packages/config/src/container-runtime.ts:155-168 | A line is skipped iff blank, and else must be a non-empty name without equals sign, an equals sign and a value |
| GeneratedSecrets.LastAssignmentCounts | packages/config/src/container-runtime.ts:152-168 | A file is read iff each line is blank or assigns a value, and the last line that assigns a name decides its value |
| GeneratedSecrets.FirstBadLineIsReported | packages/config/src/container-runtime.ts:155-164 | A file that cannot be read is refused for its first line that is neither blank nor assigns a value |
| GeneratedSecrets.FirstMissingNameIsReported | packages/config/src/container-runtime.ts:171-175 | A file that was read is accepted iff every name has a value that is not blank, and else refused for the first name that has none |
| GeneratedSecrets.SecretsReadBackIff | packages/config/src/container-runtime.ts:152-188 | Printed values are read back iff each is non-blank and on one line; they may contain an equals sign |
| GeneratedSecrets.PrintedSecretsAreRead | packages/config/src/container-runtime.ts:152-188 | Such a file parses to exactly the printed values and no other names |
| GeneratedSecrets.ParseGeneratedSecretsFile | packages/config/src/container-runtime.ts:152-177 | The two loops give the parsed record, the first invalid line or the first missing variable |
| GeneratedSecrets.TargetIsAbsentOrComplete | packages/config/src/container-runtime.ts:179-202 | With crashes between any two steps the target is absent or complete, and once present it never changes |
| GeneratedSecrets.SecretsSurviveRestarts | packages/config/src/container-runtime.ts:190-202 | The values a process once ran with are those of every later process, for any good variable names |
| GeneratedSecrets.TheNamesAreGood | packages/config/src/container-runtime.ts:16-27 | The ten names of the source are distinct, non-blank and free of equals signs and newlines |
| GeneratedSecrets.GeneratedSecretsSurviveRestarts | packages/config/src/container-runtime.ts:16-202 | So the values of the ten variables survive restarts |
| ScheduleDispatcher.DelayEndsOnTheMinute | apps/control-plane-api/scripts/schedule-dispatcher-dev.ts:25-32 | The delay is non-negative and ends on a minute; it is below one minute iff the clock is not negative or on a minute; for a clock not negative it is the shortest |
| ScheduleDispatcher.NegativeClockWaitsAMinuteMore | apps/control-plane-api/scripts/schedule-dispatcher-dev.ts:25-32 | A clock of minus one millisecond waits 60001 milliseconds for a minute that is one millisecond away |
| ScheduleDispatcher.DispatcherStaysAlive | apps/control-plane-api/scripts/schedule-dispatcher-dev.ts:64-124 | In every run armed timers and ticks in flight are at most one, and while not stopped exactly one iff no tick has read a clock that is not finite; after stop no timer is armed and no dispatch begins |
| ScheduleDispatcher.NonFiniteClockEndsTheTimers | apps/control-plane-api/scripts/schedule-dispatcher-dev.ts:25-112 | A run after which, not stopped, there is neither a timer nor a tick |
| ScheduleDispatcher.SuccessIsRemembered | apps/control-plane-api/scripts/schedule-dispatcher-dev.ts:86-88 | The success flag is set iff some dispatch has succeeded |
| ScheduleDispatcher.RetriesUntilTheFirstSuccess | apps/control-plane-api/scripts/schedule-dispatcher-dev.ts:108-112 | The next timer is due after one second until the first success and on the next minute from then on; with a clock that is not finite none is armed |
| ScheduleDispatcher.DevScheduleDispatcher.AfterDispatch | apps/control-plane-api/scripts/schedule-dispatcher-dev.ts:86-112 | Whole new state after a dispatch; throws iff it has to read a clock that is not finite |
| ScheduleDispatcher.DevScheduleDispatcher.Fire | apps/control-plane-api/scripts/schedule-dispatcher-dev.ts:81-84 | A fired timer is gone, and it dispatches iff not stopped |
| ScheduleDispatcher.DevScheduleDispatcher.Stop | apps/control-plane-api/scripts/schedule-dispatcher-dev.ts:117-122 | Stops and cancels the timer it knows |
| DockerReference.AcceptedReferencesPrintBack | scripts/dev/local-registry-publisher.ts:104-137 | Every accepted reference prints back to itself |
| DockerReference.PrintedPartsParseBackIff | packages/config/src/sandbox-base-images.ts:198-204 | Printed parts parse back to themselves iff the host is explicit and slash-free, the repository non-empty and not ending in a slash, and the tag non-empty without colon or slash |
| DockerReference.AcceptedIff | scripts/dev/local-registry-publisher.ts:104-137 | Exactly which references are accepted and with which parts |
| DockerReference.HostIsMissedIff | scripts/dev/local-registry-publisher.ts:104-137 | The registry host is missed iff no explicit host stands before the first slash |
| CloseReason.NormalizeWebSocketCloseReason | apps/data-plane-gateway/src/websocket-close.ts:3-18 | The result is the longest prefix that parts no surrogate pair and has at most 123 bytes of UTF-8, so that with its code a close frame has at most 125 |
| CloseReason.BoundaryIff | apps/data-plane-gateway/src/websocket-close.ts:7-7 | Stepping by characters stops exactly at the cuts that part no surrogate pair |
| CloseReason.ByteLengthCountsBytes | apps/data-plane-gateway/src/websocket-close.ts:8-8 | The bytes counted are those of the UTF-8 text, lone surrogates as U+FFFD |
| CloseReason.BytesGiveTheCodePoint | apps/data-plane-gateway/src/websocket-close.ts:8-8 | The bytes of a code point give it back and their first one tells how many they are |
| CloseReason.LongestFitIsUnique | apps/data-plane-gateway/src/websocket-close.ts:3-18 | There is only one such prefix |
| CloseReason.KeptWholeIffInBound | apps/data-plane-gateway/src/websocket-close.ts:3-18 | A reason is kept whole iff it is in bound |
| CloseReason.NormalizingTwiceIsNormalizingOnce | apps/data-plane-gateway/src/websocket-close.ts:3-18 | Normalizing is idempotent |

## Left out

- Idempotency.ReplaysHaveNoEffect: covers requests handled one after another; duplicates whose handling overlaps both execute, because the table is written after an await.
- Idempotency.RuntimeServer.HandleRequest: the server holds snapshots of its sessions instead of references to session objects, so aliasing of a session object between two suspended handlers is not captured there (QueryRuns covers those interleavings within one session).
- Relevance.RelevanceOnSelectionIsExactIff: needs unique package names.
- ExecutionPlan.ValidateChanged: takes changed files that are normalized already; the steps and changes it speaks of need unique package names.
- QuerySafety.LatestMessagesAnnounceAndMeasure: in that model the command catalog is written by messages and the context usage by results alone; catalog loads are in CatalogLoads, and session/configure, which clears the usage, is not modelled.
- ScheduleDispatcher.DevScheduleDispatcher.constructor: starting with a clock that is not finite throws before there is a dispatcher; only finite starts are modelled.
- ReleaseVersion.ParseOfFormat: numbers are exact naturals, as the source's are below 2^53; rounding of larger numbers is not modelled.
- GeneratedSecrets.SecretsSurviveRestarts: one process at a time; two processes creating the file at once are not modelled.
- TtlCache.LazyExpiryIsUnobservable: times are integers; a time-to-live that is not a number is not modelled.
- Selection.SelectWorkspacePackages: the locale sort of the selected packages is left as an unspecified order.
- Permissions.ReadAnswers: the number read from an answer's id by Number.parseInt is an input.
- session/configure and the model checks behind it, session/list, title generation, skill discovery and context-usage arithmetic are not modelled.
- Interrupting a query: the await of the SDK handle's close is an environment step and has no further effect on the session.
- Git, docker, pnpm and cargo calls, argument parsing, printing, and the rules for format, lint and typecheck extra commands; those commands are inputs.
- Recognising conventional commits in commit texts; the summary is an input.
- HTTP and WebSocket servers, JSON framing, the Postgres, Valkey and S3 wrappers, token handling, configuration tables, the dashboard and all test harnesses.
