/**
 Idempotent requests of the Claude Code runtime server, handled one after another
 (packages/claude-code-runtime-server/src/runtime-server-bundle.ts). Between requests the
 runs of all sessions may step. The main result is that a replayed request has no effect:
 dropping every replay from the input list changes neither sessions nor the result table.
 */
module Idempotency {
  import opened Common
  import opened QueryRuns

  // ---------- Requests ----------

  /** A JSON field: absent (or null), a string, or something else. */
  datatype Field = Absent | Text(text: string) | Other

  /** The idempotency field of a request. */
  datatype IdempotencyField =
    | NoKey
    | PlainKey(plain: string)
    | ObjectKey(key: Field, requestFingerprint: Field)
    | InvalidKey

  datatype Operation =
    | CreateSession(cwd: Field)
    | StartQuery(sessionId: Field, inputText: Field)
    | SteerQuery(sessionId: Field, expectedQueryId: Field, inputText: Field)
    | ResumeSession(sessionId: Field, cwd: Field)

  /** `paramsText` is JSON.stringify of the request's params. */
  datatype Request = Request(operation: Operation, idempotency: IdempotencyField, paramsText: string)

  /** What the environment supplies: the next random id, and how the start of a run ends. */
  datatype Draw = Draw(id: Id, launch: Launch)

  datatype Response = SessionCreated(sessionId: Id) | QueryRunning(queryId: Id) | Resumed

  datatype RequestError =
    | EmptyKey | InvalidCwd | MissingSessionId | MissingInputText | MissingExpectedQueryId
    | SessionNotFound | UnexpectedActiveQuery(active: Option<Id>)

  type Sessions = map<Id, Snapshot>

  predicate NonEmptyText(field: Field) {
    field.Text? && field.text != ""
  }

  // ---------- Operations, without idempotency ----------

  function Create(sessions: Sessions, cwd: Field, draw: Draw): (Sessions, Result<Response, RequestError>) {
    if cwd == Other || cwd == Text("") then (sessions, Err(InvalidCwd))
    else (sessions[draw.id := NewSession(None)], Ok(SessionCreated(draw.id)))
  }

  function Execute(sessions: Sessions, operation: Operation, draw: Draw): (Sessions, Result<Response, RequestError>) {
    match operation
    case CreateSession(cwd) => Create(sessions, cwd, draw)
    case StartQuery(sessionId, inputText) =>
      if !NonEmptyText(sessionId) then (sessions, Err(MissingSessionId))
      else if !inputText.Text? then (sessions, Err(MissingInputText))
      else if sessionId.text !in sessions then (sessions, Err(SessionNotFound))
      else
        (sessions[sessionId.text := Start(sessions[sessionId.text], draw.id, inputText.text, draw.launch)],
         Ok(QueryRunning(draw.id)))
    case SteerQuery(sessionId, expectedQueryId, inputText) =>
      if !NonEmptyText(sessionId) then (sessions, Err(MissingSessionId))
      else if !NonEmptyText(expectedQueryId) then (sessions, Err(MissingExpectedQueryId))
      else if !inputText.Text? then (sessions, Err(MissingInputText))
      else if sessionId.text !in sessions then (sessions, Err(SessionNotFound))
      else
        var session := sessions[sessionId.text];
        if session.activeQueryId != Some(expectedQueryId.text) then
          (sessions, Err(UnexpectedActiveQuery(session.activeQueryId)))
        else
          (sessions[sessionId.text := Start(session, draw.id, inputText.text, draw.launch)], Ok(QueryRunning(draw.id)))
    case ResumeSession(sessionId, cwd) =>
      if !NonEmptyText(sessionId) then (sessions, Err(MissingSessionId))
      else if sessionId.text in sessions then (sessions, Ok(Resumed))
      else if cwd == Other then (sessions, Err(InvalidCwd))
      else (sessions[sessionId.text := NewSession(Some(sessionId.text))], Ok(Resumed))
  }

  /** A request that fails changes no session; one that succeeds touches only the session it
      names or creates, and removes none. */
  lemma OperationsTouchOneSession(sessions: Sessions, operation: Operation, draw: Draw, other: Id)
    ensures var (after, result) := Execute(sessions, operation, draw);
      && (result.Err? ==> after == sessions)
      && (other in sessions ==> other in after)
      && (other != Target(operation, draw) ==>
            (other in after ==> other in sessions && after[other] == sessions[other]))
  {
  }

  function Target(operation: Operation, draw: Draw): Id {
    if operation.CreateSession? then draw.id
    else if operation.sessionId.Text? then operation.sessionId.text
    else ""
  }

  /** Creating succeeds iff the directory is absent or a text that is not empty. The new session
      is empty, has no SDK session, and carries the drawn id. */
  lemma CreateSucceedsIff(sessions: Sessions, cwd: Field, draw: Draw)
    ensures
      var (after, result) := Execute(sessions, CreateSession(cwd), draw);
      && (result.Ok? <==> cwd.Absent? || (cwd.Text? && cwd.text != ""))
      && (result.Err? ==> result.error == InvalidCwd)
      && (result.Ok? ==>
            && result.value == SessionCreated(draw.id)
            && after.Keys == sessions.Keys + {draw.id}
            && IsEmptySession(after[draw.id]) && after[draw.id].sdkSessionId == None)
  {
  }

  predicate IsEmptySession(session: Snapshot) {
    && session.activeQueryId == None && session.latestSubmittedQueryId == None && session.queries == []
    && session.lastError == None && session.activeQueryAbortController == None && session.activeQuery == None
    && session.commandCatalog == None && session.contextUsage == None
  }

  /** What a query that starts leaves in its session: the submission, and the run if its stream
      opened; a launch that throws after the run began drops the SDK handle too. */
  predicate HasStarted(before: Snapshot, after: Snapshot, queryId: Id, inputText: string, launch: Launch) {
    && after.latestSubmittedQueryId == Some(queryId) && after.lastError == None
    && after.queries == before.queries + [Submitted(queryId, inputText)]
    && after.sdkSessionId == before.sdkSessionId
    && after.commandCatalog == before.commandCatalog && after.contextUsage == before.contextUsage
    && (launch.Streams? ==>
          && after.activeQueryId == Some(queryId) && after.activeQuery == Some(SdkQuery(queryId))
          && after.activeQueryAbortController == Some(AbortController(queryId)))
    && (launch.OptionsThrow? ==>
          && after.activeQueryId == before.activeQueryId && after.activeQuery == before.activeQuery
          && after.activeQueryAbortController == before.activeQueryAbortController)
    && (launch.QueryThrows? ==>
          after.activeQueryId == None && after.activeQuery == None && after.activeQueryAbortController == None)
  }

  /** A start succeeds iff it names a session there is and carries a text. */
  lemma StartSucceedsIff(sessions: Sessions, sessionId: Field, inputText: Field, draw: Draw)
    ensures
      var (after, result) := Execute(sessions, StartQuery(sessionId, inputText), draw);
      && (result.Ok? <==> NonEmptyText(sessionId) && inputText.Text? && sessionId.text in sessions)
      && (result.Ok? ==>
            && result.value == QueryRunning(draw.id) && after.Keys == sessions.Keys
            && HasStarted(sessions[sessionId.text], after[sessionId.text], draw.id, inputText.text, draw.launch))
      && (result.Err? ==>
            result.error == if !NonEmptyText(sessionId) then MissingSessionId
                            else if !inputText.Text? then MissingInputText
                            else SessionNotFound)
  {
  }

  /** A steer succeeds iff moreover the query it names is the active one of that session. */
  lemma SteerSucceedsIff(sessions: Sessions, sessionId: Field, expectedQueryId: Field, inputText: Field, draw: Draw)
    ensures
      var (after, result) := Execute(sessions, SteerQuery(sessionId, expectedQueryId, inputText), draw);
      && (result.Ok? <==>
            && NonEmptyText(sessionId) && NonEmptyText(expectedQueryId) && inputText.Text?
            && sessionId.text in sessions && sessions[sessionId.text].activeQueryId == Some(expectedQueryId.text))
      && (result.Ok? ==>
            && result.value == QueryRunning(draw.id) && after.Keys == sessions.Keys
            && HasStarted(sessions[sessionId.text], after[sessionId.text], draw.id, inputText.text, draw.launch))
      && (result.Err? ==>
            result.error == if !NonEmptyText(sessionId) then MissingSessionId
                            else if !NonEmptyText(expectedQueryId) then MissingExpectedQueryId
                            else if !inputText.Text? then MissingInputText
                            else if sessionId.text !in sessions then SessionNotFound
                            else UnexpectedActiveQuery(sessions[sessionId.text].activeQueryId))
  {
  }

  /** Steering through the server is steering the session. */
  lemma SteersTheSession(sessions: Sessions, sessionId: Id, expectedQueryId: Id, inputText: string, draw: Draw)
    requires sessionId != "" && expectedQueryId != "" && sessionId in sessions
    ensures
      Execute(sessions, SteerQuery(Text(sessionId), Text(expectedQueryId), Text(inputText)), draw).0
      == sessions[sessionId := Steer(sessions[sessionId], expectedQueryId, draw.id, inputText, draw.launch)]
  {
    assert sessions == sessions[sessionId := sessions[sessionId]];
  }

  /** Resuming never replaces a session, so resuming twice is resuming once; a session it adds
      resumes the SDK session of its own name. */
  lemma ResumeNeverReplaces(sessions: Sessions, sessionId: Field, cwd: Field, draw: Draw)
    ensures
      var (after, result) := Execute(sessions, ResumeSession(sessionId, cwd), draw);
      && (forall id :: id in sessions ==> id in after && after[id] == sessions[id])
      && (result.Ok? <==> NonEmptyText(sessionId) && (sessionId.text in sessions || cwd != Other))
      && (result.Ok? ==> sessionId.text in after)
      && (result.Ok? && sessionId.text !in sessions ==>
            && after.Keys == sessions.Keys + {sessionId.text}
            && IsEmptySession(after[sessionId.text]) && after[sessionId.text].sdkSessionId == Some(sessionId.text))
      && Execute(after, ResumeSession(sessionId, cwd), draw) == (after, result)
  {
  }

  // ---------- Keys ----------

  function MethodOf(operation: Operation): string {
    match operation
    case CreateSession(_) => "session/create"
    case StartQuery(_, _) => "query/start"
    case SteerQuery(_, _, _) => "query/steer"
    case ResumeSession(_, _) => "session/resume"
  }

  predicate IsIdempotent(operation: Operation) {
    !operation.ResumeSession?
  }

  function ComposeKey(method_: string, key: string, fingerprint: string): string {
    method_ + ":" + key + ":" + fingerprint
  }

  function KeyText(idempotency: IdempotencyField): Option<string> {
    match idempotency
    case PlainKey(key) => Some(key)
    case ObjectKey(Text(key), _) => Some(key)
    case _ => None
  }

  function FingerprintOf(request: Request): string {
    if request.idempotency.ObjectKey? && request.idempotency.requestFingerprint.Text?
    then request.idempotency.requestFingerprint.text else request.paramsText
  }

  /** idempotencyKeyForRequest */
  function KeyOf(request: Request): Result<Option<string>, RequestError> {
    if request.idempotency.NoKey? then Ok(None)
    else
      var key := KeyText(request.idempotency);
      if key.None? || key.value == "" then Err(EmptyKey)
      else Ok(Some(ComposeKey(MethodOf(request.operation), key.value, FingerprintOf(request))))
  }

  // ---------- What a key is made of ----------

  /** The key text of a request, when it has one that is not empty. */
  predicate HasKeyText(request: Request, key: string) {
    && key != ""
    && match request.idempotency
       case PlainKey(plain) => plain == key
       case ObjectKey(field, _) => field == Text(key)
       case _ => false
  }

  predicate BringsFingerprint(request: Request) {
    request.idempotency.ObjectKey? && request.idempotency.requestFingerprint.Text?
  }

  /** Keys are refused exactly when the idempotency field is there without a key text. */
  lemma KeysAreAcceptedIff(request: Request)
    ensures KeyOf(request).Ok? <==> request.idempotency == NoKey || exists key :: HasKeyText(request, key)
    ensures KeyOf(request) == Ok(None) <==> request.idempotency == NoKey
    ensures KeyOf(request).Err? ==> KeyOf(request).error == EmptyKey
  {
    if KeyOf(request).Ok? && request.idempotency != NoKey {
      assert HasKeyText(request, KeyText(request.idempotency).value);
    }
  }

  /** The fingerprints brought along, or else the texts of the params, are equal. */
  predicate SameFingerprint(r1: Request, r2: Request) {
    if BringsFingerprint(r1) then
      if BringsFingerprint(r2)
      then r1.idempotency.requestFingerprint.text == r2.idempotency.requestFingerprint.text
      else r1.idempotency.requestFingerprint.text == r2.paramsText
    else if BringsFingerprint(r2) then r1.paramsText == r2.idempotency.requestFingerprint.text
    else r1.paramsText == r2.paramsText
  }

  /** For one method and one key text the composed keys coincide exactly when the fingerprints
      do. */
  lemma SameKeyIff(r1: Request, r2: Request, key: string)
    requires MethodOf(r1.operation) == MethodOf(r2.operation) && HasKeyText(r1, key) && HasKeyText(r2, key)
    ensures KeyOf(r1).Ok? && KeyOf(r1).value.Some? && KeyOf(r2).Ok?
    ensures KeyOf(r1) == KeyOf(r2) <==> SameFingerprint(r1, r2)
  {
    SameEnds(MethodOf(r1.operation) + ":" + key + ":", FingerprintOf(r1), FingerprintOf(r2));
  }

  lemma SameEnds(a: string, x: string, y: string)
    ensures a + x == a + y <==> x == y
  {
    if a + x == a + y {
      assert x == (a + x)[|a|..] && y == (a + y)[|a|..];
    }
  }

  lemma FirstColonSplits(a: string, b: string, x: string, y: string)
    requires ':' !in a && ':' !in b && a + ":" + x == b + ":" + y
    ensures a == b && x == y
  {
    IndexAfterOtherText(a, ":", x);
    IndexAfterOtherText(b, ":", y);
    assert a == (a + ":" + x)[..|a|] && b == (b + ":" + y)[..|b|];
    assert x == (a + ":" + x)[|a| + 1..] && y == (b + ":" + y)[|b| + 1..];
  }

  /** Composed keys of requests with different methods never coincide. */
  lemma MethodsNeverShareKeys(r1: Request, r2: Request)
    requires KeyOf(r1).Ok? && KeyOf(r2).Ok? && KeyOf(r1).value.Some?
    requires KeyOf(r1) == KeyOf(r2)
    ensures MethodOf(r1.operation) == MethodOf(r2.operation)
  {
    var k1, k2 := KeyText(r1.idempotency).value, KeyText(r2.idempotency).value;
    var f1, f2 := FingerprintOf(r1), FingerprintOf(r2);
    var m1, m2 := MethodOf(r1.operation), MethodOf(r2.operation);
    assert ComposeKey(m1, k1, f1) == m1 + ":" + (k1 + ":" + f1);
    assert ComposeKey(m2, k2, f2) == m2 + ":" + (k2 + ":" + f2);
    FirstColonSplits(m1, m2, k1 + ":" + f1, k2 + ":" + f2);
  }

  /** Within a method, two different keys can still be composed to the same text: exactly when
      one of them followed by a colon begins the other. */
  lemma KeysCanCoincideIffOneContinuesTheOther(method_: string, k1: string, k2: string)
    requires k1 != k2
    ensures (exists f1, f2 :: ComposeKey(method_, k1, f1) == ComposeKey(method_, k2, f2))
            <==> k1 + ":" <= k2 || k2 + ":" <= k1
  {
    if k1 + ":" <= k2 {
      ContinuedKeyCoincides(method_, k1, k2);
    }
    if k2 + ":" <= k1 {
      ContinuedKeyCoincides(method_, k2, k1);
    }
    forall f1, f2 | ComposeKey(method_, k1, f1) == ComposeKey(method_, k2, f2)
      ensures k1 + ":" <= k2 || k2 + ":" <= k1
    {
      var s := ComposeKey(method_, k1, f1);
      var rest := s[|method_| + 1..];
      assert rest == k1 + ":" + f1 && rest == k2 + ":" + f2;
      assert rest[..|k1|] == k1 && rest[..|k2|] == k2;
      if |k1| < |k2| {
        assert rest[..|k1| + 1] == k1 + ":";
        assert k2[..|k1| + 1] == rest[..|k1| + 1];
      } else {
        assert |k2| < |k1|;
        assert rest[..|k2| + 1] == k2 + ":";
        assert k1[..|k2| + 1] == rest[..|k2| + 1];
      }
    }
  }

  lemma ContinuedKeyCoincides(method_: string, short: string, long: string)
    requires short + ":" <= long
    ensures ComposeKey(method_, short, long[|short| + 1..] + ":") == ComposeKey(method_, long, "")
  {
    var rest := long[|short| + 1..];
    assert long == short + ":" + rest;
  }

  // ---------- The server ----------

  datatype Server = Server(sessions: Sessions, results: map<string, Response>)

  function Handle(server: Server, request: Request, draw: Draw): (Server, Result<Response, RequestError>) {
    if !IsIdempotent(request.operation) then
      var (sessions, result) := Execute(server.sessions, request.operation, draw);
      (server.(sessions := sessions), result)
    else
      match KeyOf(request)
      case Err(error) => (server, Err(error))
      case Ok(key) =>
        if key.Some? && key.value in server.results then (server, Ok(server.results[key.value]))
        else
          var (sessions, result) := Execute(server.sessions, request.operation, draw);
          (Server(sessions,
                  if key.Some? && result.Ok? then server.results[key.value := result.value] else server.results),
           result)
  }

  class RuntimeServer {
    var conversations: Sessions
    var idempotentResults: map<string, Response>

    ghost function View(): Server
      reads this
    {
      Server(conversations, idempotentResults)
    }

    constructor ()
      ensures View() == Server(map[], map[])
    {
      conversations, idempotentResults := map[], map[];
    }

    method RunOperation(operation: Operation, draw: Draw) returns (result: Result<Response, RequestError>)
      modifies this`conversations
      ensures (conversations, result) == Execute(old(conversations), operation, draw)
    {
      match operation
      case CreateSession(cwd) =>
        if cwd == Other || cwd == Text("") {
          return Err(InvalidCwd);
        }
        conversations := conversations[draw.id := NewSession(None)];
        result := Ok(SessionCreated(draw.id));
      case StartQuery(sessionId, inputText) =>
        if !NonEmptyText(sessionId) {
          return Err(MissingSessionId);
        }
        if !inputText.Text? {
          return Err(MissingInputText);
        }
        result := StartIn(sessionId.text, None, inputText.text, draw);
      case SteerQuery(sessionId, expectedQueryId, inputText) =>
        if !NonEmptyText(sessionId) {
          return Err(MissingSessionId);
        }
        if !NonEmptyText(expectedQueryId) {
          return Err(MissingExpectedQueryId);
        }
        if !inputText.Text? {
          return Err(MissingInputText);
        }
        result := StartIn(sessionId.text, Some(expectedQueryId.text), inputText.text, draw);
      case ResumeSession(sessionId, cwd) =>
        if !NonEmptyText(sessionId) {
          return Err(MissingSessionId);
        }
        if sessionId.text !in conversations {
          if cwd == Other {
            return Err(InvalidCwd);
          }
          conversations := conversations[sessionId.text := NewSession(Some(sessionId.text))];
        }
        result := Ok(Resumed);
    }

    /** The end of query/start and, with an expected query, of query/steer. */
    method StartIn(sessionId: Id, expectedQueryId: Option<Id>, inputText: string, draw: Draw)
      returns (result: Result<Response, RequestError>)
      modifies this`conversations
      ensures
        if sessionId !in old(conversations) then
          conversations == old(conversations) && result == Err(SessionNotFound)
        else
          var session := old(conversations)[sessionId];
          if expectedQueryId.Some? && session.activeQueryId != expectedQueryId then
            conversations == old(conversations) && result == Err(UnexpectedActiveQuery(session.activeQueryId))
          else
            && conversations == old(conversations)[sessionId := Start(session, draw.id, inputText, draw.launch)]
            && result == Ok(QueryRunning(draw.id))
    {
      if sessionId !in conversations {
        return Err(SessionNotFound);
      }
      var session := conversations[sessionId];
      if expectedQueryId.Some? && session.activeQueryId != expectedQueryId {
        return Err(UnexpectedActiveQuery(session.activeQueryId));
      }
      conversations := conversations[sessionId := Start(session, draw.id, inputText, draw.launch)];
      result := Ok(QueryRunning(draw.id));
    }

    method HandleRequest(request: Request, draw: Draw) returns (result: Result<Response, RequestError>)
      modifies this
      ensures (View(), result) == Handle(old(View()), request, draw)
      ensures result.Err? ==> View() == old(View())
    {
      if !IsIdempotent(request.operation) {
        result := RunOperation(request.operation, draw);
        return;
      }
      var key := KeyOf(request);
      if key.Err? {
        return Err(key.error);
      }
      if key.value.Some? && key.value.value in idempotentResults {
        return Ok(idempotentResults[key.value.value]);
      }
      result := RunOperation(request.operation, draw);
      if result.Ok? && key.value.Some? {
        idempotentResults := idempotentResults[key.value.value := result.value];
      }
    }
  }

  // ---------- Lists of inputs ----------

  /** A stretch of a run in one session, between two requests. */
  datatype Stretch =
    | Received(queryId: Id, message: Message)
    | Left(queryId: Id)
    | Failed(queryId: Id, error: string)
    | ReadBack(messages: seq<StoredMessage>)

  datatype Input = Ask(request: Request, draw: Draw) | Between(sessionId: Id, stretch: Stretch)

  function Advance(session: Snapshot, stretch: Stretch): Snapshot {
    match stretch
    case Received(queryId, message) => Receive(session, queryId, message)
    case Left(queryId) => Leave(session, queryId)
    case Failed(queryId, error) => RecordFailure(session, queryId, error)
    case ReadBack(messages) => session.(queries := HydratedLog(messages))
  }

  function Next(server: Server, input: Input): Server {
    match input
    case Ask(request, draw) => Handle(server, request, draw).0
    case Between(sessionId, stretch) =>
      if sessionId in server.sessions
      then server.(sessions := server.sessions[sessionId := Advance(server.sessions[sessionId], stretch)])
      else server
  }

  function Final(server: Server, inputs: seq<Input>): Server
    decreases |inputs|
  {
    if inputs == [] then server else Final(Next(server, inputs[0]), inputs[1..])
  }

  // ---------- Replays have no effect ----------

  /** The key under which an input would be answered from the table. */
  function ReplayKey(input: Input): Option<string> {
    if input.Ask? && IsIdempotent(input.request.operation) && KeyOf(input.request).Ok?
    then KeyOf(input.request).value else None
  }

  /** The key an input succeeds with, judged by its answer. */
  function SucceedsWith(server: Server, input: Input): set<string> {
    if ReplayKey(input).Some? && Handle(server, input.request, input.draw).1.Ok? then {ReplayKey(input).value} else {}
  }

  /** The inputs without the requests whose key has succeeded before. */
  function WithoutReplays(server: Server, succeeded: set<string>, inputs: seq<Input>): seq<Input>
    decreases |inputs|
  {
    if inputs == [] then []
    else
      var rest := WithoutReplays(Next(server, inputs[0]), succeeded + SucceedsWith(server, inputs[0]), inputs[1..]);
      if ReplayKey(inputs[0]).Some? && ReplayKey(inputs[0]).value in succeeded then rest else [inputs[0]] + rest
  }

  /** Exactly the keys that have succeeded are in the table, and an entry is written once. */
  lemma TableRecordsSuccesses(server: Server, input: Input)
    ensures Next(server, input).results.Keys == server.results.Keys + SucceedsWith(server, input)
    ensures forall key :: key in server.results ==> Next(server, input).results[key] == server.results[key]
  {
  }

  lemma {:induction false} ReplaysHaveNoEffect(server: Server, succeeded: set<string>, inputs: seq<Input>)
    requires succeeded == server.results.Keys
    ensures Final(server, WithoutReplays(server, succeeded, inputs)) == Final(server, inputs)
    decreases |inputs|
  {
    if inputs != [] {
      var next := Next(server, inputs[0]);
      var seen := succeeded + SucceedsWith(server, inputs[0]);
      var rest := WithoutReplays(next, seen, inputs[1..]);
      TableRecordsSuccesses(server, inputs[0]);
      ReplaysHaveNoEffect(next, seen, inputs[1..]);
      if ReplayKey(inputs[0]).Some? && ReplayKey(inputs[0]).value in succeeded {
        assert next == server;
      } else {
        assert ([inputs[0]] + rest)[1..] == rest;
      }
    }
  }

  lemma {:induction false} TableIsWriteOnce(server: Server, inputs: seq<Input>, key: string)
    requires key in server.results
    ensures key in Final(server, inputs).results && Final(server, inputs).results[key] == server.results[key]
    decreases |inputs|
  {
    if inputs != [] {
      TableRecordsSuccesses(server, inputs[0]);
      TableIsWriteOnce(Next(server, inputs[0]), inputs[1..], key);
    }
  }

  /** However much happens in between, a request with the key of an earlier success gets that
      success's answer and changes nothing. */
  lemma ReplayGetsTheFirstAnswer(server: Server, first: Input, between: seq<Input>, replay: Input)
    requires first.Ask? && replay.Ask? && ReplayKey(first).Some? && ReplayKey(replay) == ReplayKey(first)
    requires Handle(server, first.request, first.draw).1.Ok?
    ensures var later := Final(Next(server, first), between);
      Handle(later, replay.request, replay.draw) == (later, Handle(server, first.request, first.draw).1)
  {
    TableIsWriteOnce(Next(server, first), between, ReplayKey(first).value);
  }

  // ---------- Which requests are executed ----------

  /** The request at `i` was asked with a key, and was answered with success. */
  ghost predicate SucceedsAt(server: Server, inputs: seq<Input>, i: nat) {
    && i < |inputs| && ReplayKey(inputs[i]).Some?
    && Handle(Final(server, inputs[..i]), inputs[i].request, inputs[i].draw).1.Ok?
  }

  lemma {:induction false} EntriesAreSuccesses(server: Server, inputs: seq<Input>, key: string)
    requires key in Final(server, inputs).results
    ensures key in server.results || exists i: nat :: SucceedsAt(server, inputs, i) && ReplayKey(inputs[i]) == Some(key)
    decreases |inputs|
  {
    if inputs != [] && key !in server.results {
      var next := Next(server, inputs[0]);
      TableRecordsSuccesses(server, inputs[0]);
      EntriesAreSuccesses(next, inputs[1..], key);
      if key in next.results {
        assert inputs[..0] == [] && SucceedsAt(server, inputs, 0);
      } else {
        var i: nat :| SucceedsAt(next, inputs[1..], i) && ReplayKey(inputs[1..][i]) == Some(key);
        assert inputs[..i + 1][0] == inputs[0] && inputs[..i + 1][1..] == inputs[1..][..i];
        assert SucceedsAt(server, inputs, i + 1);
      }
    }
  }

  /** Two requests of one method with different keys of which one, followed by a colon, begins
      the other. */
  predicate ContinuesTheOther(k1: string, k2: string) {
    k1 != k2 && (k1 + ":" <= k2 || k2 + ":" <= k1)
  }

  /** The methods are equal, and so are key and fingerprint or params, or else one key continues
      the other. */
  predicate MayShareAnswer(r1: Request, r2: Request, k1: string, k2: string) {
    && MethodOf(r1.operation) == MethodOf(r2.operation)
    && if k1 == k2 then SameFingerprint(r1, r2) else ContinuesTheOther(k1, k2)
  }

  lemma EqualKeysAgree(r1: Request, r2: Request, k1: string, k2: string)
    requires HasKeyText(r1, k1) && HasKeyText(r2, k2) && KeyOf(r1) == KeyOf(r2)
    ensures MayShareAnswer(r1, r2, k1, k2)
  {
    MethodsNeverShareKeys(r1, r2);
    if k1 == k2 {
      SameKeyIff(r1, r2, k1);
    } else {
      KeysCanCoincideIffOneContinuesTheOther(MethodOf(r1.operation), k1, k2);
      assert ComposeKey(MethodOf(r1.operation), k1, FingerprintOf(r1))
             == ComposeKey(MethodOf(r1.operation), k2, FingerprintOf(r2));
    }
  }

  /** A request is executed when no earlier success was of its method with its key and its
      fingerprint or params, and none with a key that continues or is continued by its key. */
  lemma FreshRequestsAreExecuted(sessions: Sessions, inputs: seq<Input>, request: Request, draw: Draw, key: string)
    requires IsIdempotent(request.operation) && HasKeyText(request, key)
    requires forall i: nat, k ::
      SucceedsAt(Server(sessions, map[]), inputs, i) && HasKeyText(inputs[i].request, k)
      ==> !MayShareAnswer(inputs[i].request, request, k, key)
    ensures
      var later := Final(Server(sessions, map[]), inputs);
      var (after, result) := Execute(later.sessions, request.operation, draw);
      Handle(later, request, draw).0.sessions == after && Handle(later, request, draw).1 == result
  {
    var first := Server(sessions, map[]);
    var composed := KeyOf(request).value.value;
    if composed in Final(first, inputs).results {
      EntriesAreSuccesses(first, inputs, composed);
      var i: nat :| SucceedsAt(first, inputs, i) && ReplayKey(inputs[i]) == Some(composed);
      var k := KeyText(inputs[i].request.idempotency).value;
      assert HasKeyText(inputs[i].request, k);
      assert KeyOf(inputs[i].request) == KeyOf(request);
      EqualKeysAgree(inputs[i].request, request, k, key);
      assert false;
    }
  }

  /** A later request of the same method with the same key and fingerprint as a success gets
      that success's answer and changes nothing. */
  lemma RepeatedRequestsAreReplayed(server: Server, first: Input, between: seq<Input>, again: Input, key: string)
    requires first.Ask? && again.Ask? && IsIdempotent(first.request.operation)
    requires MethodOf(first.request.operation) == MethodOf(again.request.operation)
    requires HasKeyText(first.request, key) && HasKeyText(again.request, key)
    requires SameFingerprint(first.request, again.request)
    requires Handle(server, first.request, first.draw).1.Ok?
    ensures var later := Final(Next(server, first), between);
      Handle(later, again.request, again.draw) == (later, Handle(server, first.request, first.draw).1)
  {
    SameKeyIff(first.request, again.request, key);
    SameMethodSameKind(first.request.operation, again.request.operation);
    ReplayGetsTheFirstAnswer(server, first, between, again);
  }

  lemma SameMethodSameKind(a: Operation, b: Operation)
    requires MethodOf(a) == MethodOf(b)
    ensures a.CreateSession? == b.CreateSession? && a.StartQuery? == b.StartQuery?
    ensures a.SteerQuery? == b.SteerQuery? && a.ResumeSession? == b.ResumeSession?
  {
    assert |"session/create"| == 14 && |"session/resume"| == 14 && |"query/start"| == 11 && |"query/steer"| == 11;
    assert "session/create"[8] != "session/resume"[8] && "query/start"[8] != "query/steer"[8];
  }

  /** Without a key every request is executed, and so is every resume. */
  lemma RequestsWithoutKeyAreExecuted(server: Server, request: Request, draw: Draw)
    requires request.idempotency == NoKey || request.operation.ResumeSession?
    ensures
      var (after, result) := Execute(server.sessions, request.operation, draw);
      Handle(server, request, draw) == (server.(sessions := after), result)
  {
  }
}
