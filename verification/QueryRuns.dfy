/**
 The queries of one Claude Code session
 (packages/claude-code-runtime-server/src/runtime-server-bundle.ts).

 `ConversationState` is the mutable session object; each method is one stretch of code
 between two awaits and is proved against a function on `Snapshot`. `System` adds what
 lives in the suspended calls (the phase of every run, the reads in flight) together with
 a history, and `Step` lets the environment choose the next stretch. The results below hold
 after every sequence of steps.
 */
module QueryRuns {
  import opened Common

  type Id = string

  /** Objects that the source compares by identity; every run creates its own. */
  datatype AbortController = AbortController(owner: Id)
  datatype SdkQuery = SdkQuery(owner: Id)

  /** The parts of a streamed message the session reads. `commands` is present for a
      commands_changed message and is Err when mapping its entries throws; `usage` is present
      for a result message with model usage. */
  datatype Message = Message(
    text: string,
    sessionId: Option<Id>,
    commands: Option<Result<seq<string>, string>>,
    usage: Option<Option<nat>>)

  datatype LogEntry =
    | Submitted(queryId: Id, text: string)
    | Streamed(queryId: Id, message: Message)
    | Hydrated(messageId: Id, fromUser: bool, text: string)

  /** What getSessionMessages returns. */
  datatype StoredMessage =
    | StoredUser(uuid: Id, text: string)
    | StoredAssistant(uuid: Id, text: string)
    | StoredOther

  datatype Snapshot = Snapshot(
    activeQueryId: Option<Id>,
    latestSubmittedQueryId: Option<Id>,
    queries: seq<LogEntry>,
    lastError: Option<string>,
    sdkSessionId: Option<Id>,
    activeQueryAbortController: Option<AbortController>,
    activeQuery: Option<SdkQuery>,
    commandCatalog: Option<seq<string>>,
    contextUsage: Option<nat>)

  /** How the synchronous start of a run ends: building its options throws, calling the SDK
      throws, or the stream is open. */
  datatype Launch = OptionsThrow(error: string) | QueryThrows(error: string) | Streams

  datatype Status = ActiveStatus | IdleStatus | ErrorStatus

  // ---------- One stretch of code, as a function on snapshots ----------

  function Submit(c: Snapshot, queryId: Id, text: string): Snapshot {
    c.(lastError := None, latestSubmittedQueryId := Some(queryId), queries := c.queries + [Submitted(queryId, text)])
  }

  /** The finally block of a run. The query handle is dropped whoever owns it. */
  function Leave(c: Snapshot, queryId: Id): Snapshot {
    c.(activeQueryId := if c.activeQueryId == Some(queryId) then None else c.activeQueryId,
       activeQuery := None,
       activeQueryAbortController :=
         if c.activeQueryAbortController == Some(AbortController(queryId)) then None else c.activeQueryAbortController)
  }

  function Start(c: Snapshot, queryId: Id, text: string, launch: Launch): Snapshot {
    var submitted := Submit(c, queryId, text);
    var entered := submitted.(activeQueryId := Some(queryId),
                              activeQueryAbortController := Some(AbortController(queryId)));
    match launch
    case OptionsThrow(_) => submitted
    case QueryThrows(_) => Leave(entered, queryId)
    case Streams => entered.(activeQuery := Some(SdkQuery(queryId)))
  }

  function Steer(c: Snapshot, expectedQueryId: Id, queryId: Id, text: string, launch: Launch): Snapshot {
    if c.activeQueryId == Some(expectedQueryId) then Start(c, queryId, text, launch) else c
  }

  function Receive(c: Snapshot, queryId: Id, message: Message): Snapshot {
    var logged := c.(
      sdkSessionId := if message.sessionId.Some? then message.sessionId else c.sdkSessionId,
      queries := c.queries + [Streamed(queryId, message)]);
    if message.commands.Some? && message.commands.value.Err? then logged
    else
      logged.(
        commandCatalog := if message.commands.Some? then Some(message.commands.value.value) else logged.commandCatalog,
        contextUsage := if message.usage.Some? then message.usage.value else logged.contextUsage)
  }

  function RecordFailure(c: Snapshot, queryId: Id, error: string): Snapshot {
    if c.latestSubmittedQueryId == Some(queryId) then c.(lastError := Some(error)) else c
  }

  predicate NeedsHydration(c: Snapshot) {
    c.queries == [] && c.sdkSessionId.Some?
  }

  function EntriesOf(message: StoredMessage): seq<LogEntry> {
    match message
    case StoredUser(uuid, text) => [Hydrated(uuid, true, text)]
    case StoredAssistant(uuid, text) => [Hydrated(uuid, false, text)]
    case StoredOther => []
  }

  function HydratedLog(messages: seq<StoredMessage>): seq<LogEntry> {
    if messages == [] then []
    else
      EntriesOf(messages[0]) + HydratedLog(messages[1..])
  }

  /** `log` holds the user and assistant messages among the stored ones, each once and in
      order: `at` are the places they come from. */
  ghost predicate HoldsStored(log: seq<LogEntry>, messages: seq<StoredMessage>, at: seq<nat>) {
    && |at| == |log|
    && (forall i :: 0 <= i < |at| ==> at[i] < |messages| && IsEntryOf(log[i], messages[at[i]]))
    && (forall i, j :: 0 <= i < j < |at| ==> at[i] < at[j])
    && (forall k: nat :: k < |messages| && !messages[k].StoredOther? ==> k in at)
  }

  /** The entry carries the id and the text of the message, and is from the user iff that is. */
  ghost predicate IsEntryOf(entry: LogEntry, message: StoredMessage) {
    && !message.StoredOther? && entry.Hydrated?
    && entry.messageId == message.uuid && entry.text == message.text
    && (entry.fromUser <==> message.StoredUser?)
  }

  lemma {:induction false} LastMessageIsLogged(messages: seq<StoredMessage>)
    requires messages != []
    ensures HydratedLog(messages) == HydratedLog(messages[..|messages| - 1]) + EntriesOf(messages[|messages| - 1])
  {
    var n := |messages| - 1;
    if n > 0 {
      LastMessageIsLogged(messages[1..]);
      assert messages[..n][0] == messages[0] && messages[..n][1..] == messages[1..][..n - 1];
      assert messages[1..][n - 1] == messages[n];
    } else {
      assert messages[..0] == [] && messages[1..] == [];
    }
  }

  lemma {:induction false} HydrationIsFaithful(messages: seq<StoredMessage>) returns (at: seq<nat>)
    ensures HoldsStored(HydratedLog(messages), messages, at)
  {
    at := [];
    if messages != [] {
      var n := |messages| - 1;
      var earlier := HydrationIsFaithful(messages[..n]);
      LastMessageIsLogged(messages);
      at := OneMorePlace(HydratedLog(messages[..n]), messages, earlier);
    }
  }

  lemma OneMorePlace(log: seq<LogEntry>, messages: seq<StoredMessage>, earlier: seq<nat>) returns (at: seq<nat>)
    requires messages != [] && HoldsStored(log, messages[..|messages| - 1], earlier)
    ensures HoldsStored(log + EntriesOf(messages[|messages| - 1]), messages, at)
  {
    var n := |messages| - 1;
    var last := messages[n];
    forall i | 0 <= i < |earlier| ensures earlier[i] < n && IsEntryOf(log[i], messages[earlier[i]]) {
      assert messages[..n][earlier[i]] == messages[earlier[i]];
    }
    forall k: nat | k < n && !messages[k].StoredOther? ensures k in earlier {
      assert messages[..n][k] == messages[k];
    }
    if last.StoredOther? {
      at := earlier;
      assert log + EntriesOf(last) == log;
    } else {
      at := earlier + [n];
      AppendedPlace(log, messages, earlier, EntriesOf(last)[0]);
    }
  }

  lemma AppendedPlace(log: seq<LogEntry>, messages: seq<StoredMessage>, earlier: seq<nat>, entry: LogEntry)
    requires messages != [] && |earlier| == |log| && IsEntryOf(entry, messages[|messages| - 1])
    requires forall i :: 0 <= i < |earlier| ==>
               earlier[i] < |messages| - 1 && IsEntryOf(log[i], messages[earlier[i]])
    requires forall i, j :: 0 <= i < j < |earlier| ==> earlier[i] < earlier[j]
    requires forall k: nat :: k < |messages| - 1 && !messages[k].StoredOther? ==> k in earlier
    ensures HoldsStored(log + [entry], messages, earlier + [(|messages| - 1) as nat])
  {
    var at: seq<nat> := earlier + [|messages| - 1];
    assert at[|earlier|] == |messages| - 1;
    forall k: nat | k < |messages| && !messages[k].StoredOther? ensures k in at {
      if k < |messages| - 1 {
        assert k in earlier;
      }
    }
  }

  // ---------- The session object ----------

  class ConversationState {
    var activeQueryId: Option<Id>
    var latestSubmittedQueryId: Option<Id>
    var queries: seq<LogEntry>
    var lastError: Option<string>
    var sdkSessionId: Option<Id>
    var activeQueryAbortController: Option<AbortController>
    var activeQuery: Option<SdkQuery>
    var commandCatalog: Option<seq<string>>
    var contextUsage: Option<nat>

    ghost function View(): Snapshot
      reads this
    {
      Snapshot(activeQueryId, latestSubmittedQueryId, queries, lastError, sdkSessionId,
               activeQueryAbortController, activeQuery, commandCatalog, contextUsage)
    }

    constructor (sdkSessionId: Option<Id>)
      ensures View() == NewSession(sdkSessionId)
    {
      this.sdkSessionId := sdkSessionId;
      activeQueryId, latestSubmittedQueryId, queries, lastError := None, None, [], None;
      activeQueryAbortController, activeQuery, commandCatalog, contextUsage := None, None, None, None;
    }

    /** startQuery, up to the first await of the run it begins. */
    method StartQuery(queryId: Id, inputText: string, launch: Launch)
      modifies this
      ensures View() == Start(old(View()), queryId, inputText, launch)
    {
      lastError := None;
      latestSubmittedQueryId := Some(queryId);
      queries := queries + [Submitted(queryId, inputText)];
      var abortController := AbortController(queryId);
      if launch.OptionsThrow? {
        return;
      }
      activeQueryId := Some(queryId);
      activeQueryAbortController := Some(abortController);
      if launch.QueryThrows? {
        EndRun(queryId, abortController);
        return;
      }
      activeQuery := Some(SdkQuery(queryId));
    }

    method SteerQuery(expectedQueryId: Id, queryId: Id, inputText: string, launch: Launch)
      returns (result: Result<Id, Option<Id>>)
      modifies this
      ensures View() == Steer(old(View()), expectedQueryId, queryId, inputText, launch)
      ensures result == if old(activeQueryId) == Some(expectedQueryId) then Ok(queryId) else Err(old(activeQueryId))
    {
      if activeQueryId != Some(expectedQueryId) {
        return Err(activeQueryId);
      }
      StartQuery(queryId, inputText, launch);
      result := Ok(queryId);
    }

    /** The body of the stream loop; Err when mapping the announced commands throws. */
    method ReceiveMessage(queryId: Id, message: Message) returns (outcome: Result<(), string>)
      modifies this
      ensures View() == Receive(old(View()), queryId, message)
      ensures outcome.Err? <==> message.commands.Some? && message.commands.value.Err?
    {
      if message.sessionId.Some? {
        sdkSessionId := message.sessionId;
      }
      queries := queries + [Streamed(queryId, message)];
      if message.commands.Some? {
        if message.commands.value.Err? {
          return Err(message.commands.value.error);
        }
        commandCatalog := Some(message.commands.value.value);
      }
      if message.usage.Some? {
        contextUsage := message.usage.value;
      }
      outcome := Ok(());
    }

    /** The finally block of runClaudeQuery. */
    method EndRun(queryId: Id, abortController: AbortController)
      requires abortController == AbortController(queryId)
      modifies this
      ensures View() == Leave(old(View()), queryId)
    {
      if activeQueryId == Some(queryId) {
        activeQueryId := None;
      }
      if activeQuery.Some? {
        activeQuery := None;
      }
      if activeQueryAbortController == Some(abortController) {
        activeQueryAbortController := None;
      }
    }

    method CatchFailure(queryId: Id, error: string)
      modifies this
      ensures View() == RecordFailure(old(View()), queryId, error)
    {
      if latestSubmittedQueryId == Some(queryId) {
        lastError := Some(error);
      }
    }

    /** query/interrupt: what it aborts and what it closes, if the named query is active. */
    method Interrupt(queryId: Id)
      returns (interrupted: bool, aborted: Option<AbortController>, closed: Option<SdkQuery>)
      ensures interrupted <==> activeQueryId == Some(queryId)
      ensures interrupted ==> aborted == activeQueryAbortController && closed == activeQuery
      ensures !interrupted ==> aborted == None && closed == None
    {
      if activeQueryId != Some(queryId) {
        return false, None, None;
      }
      interrupted, aborted, closed := true, None, None;
      if activeQueryAbortController.Some? {
        aborted := activeQueryAbortController;
      }
      if activeQuery.Some? {
        closed := activeQuery;
      }
    }

    /** readConversationQueries before its await: the log, or None when it must hydrate. */
    method ReadQueries() returns (log: Option<seq<LogEntry>>)
      ensures log == if NeedsHydration(View()) then None else Some(queries)
      ensures log.None? <==> queries == [] && sdkSessionId.Some?
    {
      if |queries| > 0 || sdkSessionId.None? {
        return Some(queries);
      }
      log := None;
    }

    /** readConversationQueries after its await: the log is replaced, not extended. */
    method FinishHydration(messages: seq<StoredMessage>) returns (log: seq<LogEntry>)
      modifies this
      ensures View() == old(View()).(queries := HydratedLog(messages)) && log == queries
      ensures exists at :: HoldsStored(log, messages, at)
    {
      log := [];
      for i := 0 to |messages|
        invariant log == HydratedLog(messages[..i])
        invariant View() == old(View())
      {
        LastMessageIsLogged(messages[..i + 1]);
        assert messages[..i + 1][..i] == messages[..i];
        var entries: seq<LogEntry> := match messages[i]
          case StoredUser(uuid, text) => [Hydrated(uuid, true, text)]
          case StoredAssistant(uuid, text) => [Hydrated(uuid, false, text)]
          case StoredOther => [];
        log := log + entries;
      }
      assert messages[..|messages|] == messages;
      queries := log;
      ghost var at := HydrationIsFaithful(messages);
    }

    method ResolveStatus() returns (status: Status)
      ensures status == StatusOf(View())
    {
      if activeQueryId.Some? {
        return ActiveStatus;
      }
      status := if lastError.None? then IdleStatus else ErrorStatus;
    }
  }

  function NewSession(sdkSessionId: Option<Id>): Snapshot {
    Snapshot(None, None, [], None, sdkSessionId, None, None, None, None)
  }

  function StatusOf(c: Snapshot): Status {
    if c.activeQueryId.Some? then ActiveStatus
    else if c.lastError.None? then IdleStatus
    else ErrorStatus
  }

  // ---------- Interleavings ----------

  /** Where a submitted query's run is: its stream is open; the loop body threw and the
      stream is being closed; it has rejected and its catch handler is still to run; done. */
  datatype Phase = Streaming | Closing(error: string) | Rejected(error: string) | Settled

  datatype System = System(
    session: Snapshot,
    runs: map<Id, Phase>,
    hydrations: set<Id>,
    // history
    submitted: seq<Id>,
    begun: seq<Id>,
    handleLost: bool,
    failures: map<Id, string>,
    aborted: set<Id>,
    closed: set<Id>)

  datatype Event =
    | StartEvent(queryId: Id, text: string, launch: Launch)
    | SteerEvent(expectedQueryId: Id, queryId: Id, text: string, launch: Launch)
    | MessageEvent(queryId: Id, message: Message)
    | StreamEndEvent(queryId: Id, failure: Option<string>)
    | StreamClosedEvent(queryId: Id)
    | CatchEvent(queryId: Id)
    | InterruptEvent(queryId: Id)
    | ReadEvent(readId: Id)
    | HydrateEvent(readId: Id, messages: seq<StoredMessage>)
    | ReadFailedEvent(readId: Id)

  /** A fresh query id is one never submitted before; a stretch of code of a run or a read
      happens only in its own phase. */
  ghost predicate Enabled(s: System, e: Event) {
    match e
    case StartEvent(q, _, _) => q !in s.submitted
    case SteerEvent(_, q, _, _) => q !in s.submitted
    case MessageEvent(q, _) => q in s.runs && s.runs[q] == Streaming
    case StreamEndEvent(q, _) => q in s.runs && s.runs[q] == Streaming
    case StreamClosedEvent(q) => q in s.runs && s.runs[q].Closing?
    case CatchEvent(q) => q in s.runs && s.runs[q].Rejected?
    case InterruptEvent(_) => true
    case ReadEvent(r) => r !in s.hydrations
    case HydrateEvent(r, _) => r in s.hydrations
    case ReadFailedEvent(r) => r in s.hydrations
  }

  /** A start: the session steps as the code does, and the history records the submission
      and, when the options were built, the beginning of a run. */
  function StartSystem(s: System, q: Id, text: string, launch: Launch): System {
    var next := s.(session := Start(s.session, q, text, launch), submitted := s.submitted + [q]);
    match launch
    case OptionsThrow(error) => next.(runs := s.runs[q := Rejected(error)])
    case QueryThrows(error) => next.(runs := s.runs[q := Rejected(error)], begun := s.begun + [q], handleLost := true)
    case Streams => next.(runs := s.runs[q := Streaming], begun := s.begun + [q], handleLost := false)
  }

  function EndSystem(s: System, q: Id, failure: Option<string>): System {
    s.(session := Leave(s.session, q), handleLost := true,
       runs := s.runs[q := if failure.Some? then Rejected(failure.value) else Settled])
  }

  function Owners(controller: Option<AbortController>): set<Id> {
    if controller.Some? then {controller.value.owner} else {}
  }

  function HandleOwners(handle: Option<SdkQuery>): set<Id> {
    if handle.Some? then {handle.value.owner} else {}
  }

  ghost function Step(s: System, e: Event): System
    requires Enabled(s, e)
  {
    match e
    case StartEvent(q, text, launch) => StartSystem(s, q, text, launch)
    case SteerEvent(expected, q, text, launch) =>
      if s.session.activeQueryId == Some(expected) then StartSystem(s, q, text, launch) else s
    case MessageEvent(q, message) =>
      s.(session := Receive(s.session, q, message),
         runs := if message.commands.Some? && message.commands.value.Err?
                 then s.runs[q := Closing(message.commands.value.error)] else s.runs)
    case StreamEndEvent(q, failure) => EndSystem(s, q, failure)
    case StreamClosedEvent(q) => EndSystem(s, q, Some(s.runs[q].error))
    case CatchEvent(q) =>
      s.(session := RecordFailure(s.session, q, s.runs[q].error), runs := s.runs[q := Settled],
         failures := s.failures[q := s.runs[q].error])
    case InterruptEvent(q) =>
      if s.session.activeQueryId != Some(q) then s
      else s.(aborted := s.aborted + Owners(s.session.activeQueryAbortController),
              closed := s.closed + HandleOwners(s.session.activeQuery))
    case ReadEvent(r) => if NeedsHydration(s.session) then s.(hydrations := s.hydrations + {r}) else s
    case HydrateEvent(r, messages) =>
      s.(session := s.session.(queries := HydratedLog(messages)), hydrations := s.hydrations - {r})
    case ReadFailedEvent(r) => s.(hydrations := s.hydrations - {r})
  }

  function Initial(sdkSessionId: Option<Id>): System {
    System(NewSession(sdkSessionId), map[], {}, [], [], true, map[], {}, {})
  }

  ghost predicate Runnable(s: System, events: seq<Event>)
    decreases |events|
  {
    events == [] || (Enabled(s, events[0]) && Runnable(Step(s, events[0]), events[1..]))
  }

  ghost function Run(s: System, events: seq<Event>): System
    requires Runnable(s, events)
    decreases |events|
  {
    if events == [] then s else Run(Step(s, events[0]), events[1..])
  }

  // ---------- What every interleaving keeps ----------

  predicate InFlight(s: System, q: Id) {
    q in s.runs && (s.runs[q].Streaming? || s.runs[q].Closing?)
  }

  function Last(ids: seq<Id>): Option<Id> {
    if ids == [] then None else Some(ids[|ids| - 1])
  }

  /** The most recently begun run, while it is in flight. */
  function Current(s: System): Option<Id> {
    var latest := Last(s.begun);
    if latest.Some? && InFlight(s, latest.value) then latest else None
  }

  /** The exact value of every field the races are about. */
  ghost predicate InStep(s: System) {
    var c := s.session;
    && c.activeQueryId == Current(s)
    && c.activeQueryAbortController == (if Current(s).Some? then Some(AbortController(Current(s).value)) else None)
    && c.activeQuery == (if Current(s).Some? && !s.handleLost then Some(SdkQuery(Current(s).value)) else None)
    && c.latestSubmittedQueryId == Last(s.submitted)
    && c.lastError == (var latest := Last(s.submitted);
                       if latest.Some? && latest.value in s.failures then Some(s.failures[latest.value]) else None)
  }

  ghost predicate WellRecorded(s: System) {
    && (forall q :: q in s.runs <==> q in s.submitted)
    && (forall q :: q in s.begun ==> q in s.submitted)
    && (forall q :: InFlight(s, q) ==> q in s.begun)
    && (forall q :: q in s.failures ==> q in s.runs && s.runs[q].Settled?)
  }

  ghost predicate Invariant(s: System) {
    InStep(s) && WellRecorded(s)
  }

  lemma StartKeepsRecord(s: System, q: Id, text: string, launch: Launch)
    requires Invariant(s) && q !in s.submitted
    ensures WellRecorded(StartSystem(s, q, text, launch))
  {
    match launch
    case OptionsThrow(_) =>
    case QueryThrows(_) =>
    case Streams =>
  }

  lemma StartKeepsInvariant(s: System, q: Id, text: string, launch: Launch)
    requires Invariant(s) && q !in s.submitted
    ensures Invariant(StartSystem(s, q, text, launch))
  {
    StartKeepsRecord(s, q, text, launch);
    var next := StartSystem(s, q, text, launch);
    assert Last(next.submitted) == Some(q);
    assert q !in s.failures;
    if launch.OptionsThrow? {
      assert Last(s.begun).Some? ==> Last(s.begun).value in s.begun;
    } else {
      assert Last(next.begun) == Some(q);
    }
  }

  lemma EndKeepsInvariant(s: System, q: Id, failure: Option<string>)
    requires Invariant(s) && InFlight(s, q)
    ensures Invariant(EndSystem(s, q, failure))
  {
    var next := EndSystem(s, q, failure);
    assert forall r :: r != q ==> (InFlight(next, r) <==> InFlight(s, r));
  }

  lemma CatchKeepsInvariant(s: System, q: Id)
    requires Invariant(s) && Enabled(s, CatchEvent(q))
    ensures Invariant(Step(s, CatchEvent(q)))
  {
    var next := Step(s, CatchEvent(q));
    assert forall r :: InFlight(next, r) <==> InFlight(s, r);
  }

  lemma MessageKeepsInvariant(s: System, q: Id, message: Message)
    requires Invariant(s) && Enabled(s, MessageEvent(q, message))
    ensures Invariant(Step(s, MessageEvent(q, message)))
  {
    var next := Step(s, MessageEvent(q, message));
    assert forall r :: InFlight(next, r) <==> InFlight(s, r);
  }

  lemma StepKeepsInvariant(s: System, e: Event)
    requires Invariant(s) && Enabled(s, e)
    ensures Invariant(Step(s, e))
  {
    match e
    case StartEvent(q, text, launch) => StartKeepsInvariant(s, q, text, launch);
    case SteerEvent(_, q, text, launch) => StartKeepsInvariant(s, q, text, launch);
    case StreamEndEvent(q, failure) => EndKeepsInvariant(s, q, failure);
    case StreamClosedEvent(q) => EndKeepsInvariant(s, q, Some(s.runs[q].error));
    case CatchEvent(q) => CatchKeepsInvariant(s, q);
    case MessageEvent(q, message) => MessageKeepsInvariant(s, q, message);
    case InterruptEvent(_) =>
    case ReadEvent(_) =>
    case HydrateEvent(_, _) =>
    case ReadFailedEvent(_) =>
  }

  lemma {:induction false} RunKeepsInvariant(s: System, events: seq<Event>)
    requires Invariant(s) && Runnable(s, events)
    ensures Invariant(Run(s, events))
    decreases |events|
  {
    if events != [] {
      StepKeepsInvariant(s, events[0]);
      RunKeepsInvariant(Step(s, events[0]), events[1..]);
    }
  }

  /** Over every interleaving, from a new session. */
  lemma EveryInterleavingStaysInStep(sdkSessionId: Option<Id>, events: seq<Event>)
    requires Runnable(Initial(sdkSessionId), events)
    ensures Invariant(Run(Initial(sdkSessionId), events))
  {
    RunKeepsInvariant(Initial(sdkSessionId), events);
  }
}
