/**
 Pending tool permissions of a session
 (packages/claude-code-runtime-server/src/runtime-server-bundle.ts): a request waits for a
 reply or for its abort signal, and its promise is resolved once. The main results are
 conservation over every interleaving, and that the first deciding event fixes the outcome.
 */
module Permissions {
  import opened Common

  type Id = string
  type Signal = nat

  datatype Question = Question(text: string) | MalformedQuestion

  /** The questions field of an input: an array, or any other value and none. */
  datatype QuestionsField = Entries(entries: seq<Question>) | NoEntries(raw: string)

  /** An object with its questions and its other fields, or null or another value without
      fields. */
  datatype ToolInput = ObjectInput(fields: string, questions: QuestionsField) | OtherInput(raw: string)

  datatype PermissionRequest = PermissionRequest(
    toolName: string, toolInput: ToolInput, suggestions: seq<string>, signal: Option<Signal>)

  /** `index` is the number Number.parseInt reads from the answer's id, if any. */
  datatype Answer = Answer(index: Option<int>, value: string) | MalformedAnswer

  datatype ReplyParams = ReplyParams(decision: Option<string>, message: Option<string>, answers: Option<seq<Answer>>)

  datatype Decision =
    | Deny(message: string)
    | Allow(input: ToolInput)
    | AllowAlways(input: ToolInput, permissions: seq<string>)
    | AllowAnswers(input: ToolInput, answers: map<string, string>)

  datatype ReplyError =
    | RequestNotFound | UnsupportedDecision | AnswersRequired | InvalidAnswer | UnknownQuestion | NoSuggestions

  const CANCELLED: Decision := Deny("Claude Code permission request was cancelled.")

  // ---------- The decision a reply carries ----------

  predicate Names(questions: seq<Question>, answer: Answer) {
    && answer.Answer? && answer.index.Some? && 0 <= answer.index.value < |questions|
    && questions[answer.index.value].Question? && questions[answer.index.value].text != ""
  }

  function QuestionsOf(input: ToolInput): seq<Question> {
    if input.ObjectInput? && input.questions.Entries? then input.questions.entries else []
  }

  /** The input spread into a new object and its questions written over. */
  function WithQuestions(input: ToolInput): ToolInput {
    ObjectInput(if input.ObjectInput? then input.fields else "", Entries(QuestionsOf(input)))
  }

  /** The loop over the answers; a later answer to the same question replaces an earlier. */
  function CollectAnswers(questions: seq<Question>, answers: seq<Answer>): Result<map<string, string>, ReplyError> {
    if answers == [] then Ok(map[])
    else
      var last := answers[|answers| - 1];
      var earlier := CollectAnswers(questions, answers[..|answers| - 1]);
      if earlier.Err? then earlier
      else if last.MalformedAnswer? then Err(InvalidAnswer)
      else if !Names(questions, last) then Err(UnknownQuestion)
      else Ok(earlier.value[questions[last.index.value].text := last.value])
  }

  method ReadAnswers(questions: seq<Question>, answers: seq<Answer>)
    returns (result: Result<map<string, string>, ReplyError>)
    ensures result == CollectAnswers(questions, answers)
  {
    var collected: map<string, string> := map[];
    for i := 0 to |answers|
      invariant CollectAnswers(questions, answers[..i]) == Ok(collected)
    {
      assert answers[..i + 1][..i] == answers[..i];
      if !Names(questions, answers[i]) {
        RejectedAnswerRejectsAll(questions, answers, i + 1);
        return Err(if answers[i].MalformedAnswer? then InvalidAnswer else UnknownQuestion);
      }
      collected := collected[questions[answers[i].index.value].text := answers[i].value];
    }
    assert answers[..|answers|] == answers;
    result := Ok(collected);
  }

  /** Once a prefix is rejected, the whole list is rejected with the same error. */
  lemma {:induction false} RejectedAnswerRejectsAll(questions: seq<Question>, answers: seq<Answer>, k: nat)
    requires k <= |answers| && CollectAnswers(questions, answers[..k]).Err?
    ensures CollectAnswers(questions, answers) == CollectAnswers(questions, answers[..k])
    decreases |answers|
  {
    if k == |answers| {
      assert answers[..k] == answers;
    } else {
      var shorter := answers[..|answers| - 1];
      assert shorter[..k] == answers[..k];
      RejectedAnswerRejectsAll(questions, shorter, k);
    }
  }

  /** What the answers mean: they are accepted iff each names a question, and each question
      named gets the value of the last answer that names it. */
  ghost predicate Answered(questions: seq<Question>, answers: seq<Answer>, text: string, value: string) {
    exists i :: 0 <= i < |answers| && AnsweredLastBy(questions, answers, text, i) && answers[i].value == value
  }

  ghost predicate AnsweredLastBy(questions: seq<Question>, answers: seq<Answer>, text: string, i: int) {
    && 0 <= i < |answers| && Names(questions, answers[i]) && questions[answers[i].index.value].text == text
    && forall j | i < j < |answers| ::
         !(Names(questions, answers[j]) && questions[answers[j].index.value].text == text)
  }

  lemma {:induction false} AcceptedIffAllName(questions: seq<Question>, answers: seq<Answer>)
    ensures CollectAnswers(questions, answers).Ok? <==> forall answer :: answer in answers ==> Names(questions, answer)
  {
    if answers != [] {
      var earlier, last := answers[..|answers| - 1], answers[|answers| - 1];
      AcceptedIffAllName(questions, earlier);
      assert CollectAnswers(questions, answers).Ok?
             <==> CollectAnswers(questions, earlier).Ok? && Names(questions, last);
      assert answers == earlier + [last];
      assert forall answer :: answer in answers <==> answer in earlier || answer == last;
    }
  }

  lemma {:induction false} AnswersMeanTheLastOfEach(questions: seq<Question>, answers: seq<Answer>)
    ensures CollectAnswers(questions, answers).Ok? <==> forall answer :: answer in answers ==> Names(questions, answer)
    ensures CollectAnswers(questions, answers).Ok? ==>
      forall text, value ::
        text in CollectAnswers(questions, answers).value && CollectAnswers(questions, answers).value[text] == value
        <==> Answered(questions, answers, text, value)
  {
    AcceptedIffAllName(questions, answers);
    if answers != [] {
      var n := |answers| - 1;
      var earlier, last := answers[..n], answers[n];
      assert answers == earlier + [last];
      AnswersMeanTheLastOfEach(questions, earlier);
      if CollectAnswers(questions, answers).Ok? {
        var named := questions[last.index.value].text;
        assert AnsweredLastBy(questions, answers, named, n);
        forall text, i | text != named && 0 <= i < n
          ensures AnsweredLastBy(questions, answers, text, i) <==> AnsweredLastBy(questions, earlier, text, i)
        {
        }
        forall text, value | text != named
          ensures Answered(questions, answers, text, value) <==> Answered(questions, earlier, text, value)
        {
        }
        forall value ensures Answered(questions, answers, named, value) <==> value == last.value {
        }
      }
    }
  }

  function MessageOr(message: Option<string>, default: string): string {
    if message.Some? && message.value != "" then message.value else default
  }

  function Resolve(request: PermissionRequest, params: ReplyParams): Result<Decision, ReplyError> {
    if request.toolName == "AskUserQuestion" then
      if params.decision == Some("reject") then
        Ok(Deny(MessageOr(params.message, "User cancelled this Claude Code input request.")))
      else if params.answers.None? then Err(AnswersRequired)
      else
        match CollectAnswers(QuestionsOf(request.toolInput), params.answers.value)
        case Ok(answers) => Ok(AllowAnswers(WithQuestions(request.toolInput), answers))
        case Err(error) => Err(error)
    else if params.decision !in {Some("once"), Some("always"), Some("reject")} then Err(UnsupportedDecision)
    else if params.decision == Some("reject") then
      Ok(Deny(MessageOr(params.message, "User rejected this Claude Code tool request.")))
    else if params.decision == Some("once") then Ok(Allow(request.toolInput))
    else if request.suggestions == [] then Err(NoSuggestions)
    else Ok(AllowAlways(request.toolInput, request.suggestions))
  }

  /** What a reply means. It is refused unless it carries a usable decision; a rejection is the
      only denial; and an allowed tool runs on the input it asked with, except that questions
      that were no array are empty when answered. */
  lemma RepliesMeanWhatTheySay(request: PermissionRequest, params: ReplyParams)
    ensures var asks := request.toolName == "AskUserQuestion";
      var rejects := params.decision == Some("reject");
      var result := Resolve(request, params);
      && (result.Ok? <==>
            || rejects
            || (asks && params.answers.Some?
                && forall answer :: answer in params.answers.value ==> Names(QuestionsOf(request.toolInput), answer))
            || (!asks && params.decision == Some("once"))
            || (!asks && params.decision == Some("always") && request.suggestions != []))
      && (result.Ok? ==> (result.value.Deny? <==> rejects))
      && (result.Ok? && !rejects ==>
            (result.value.input == request.toolInput
             <==> (asks ==> request.toolInput.ObjectInput? && request.toolInput.questions.Entries?)))
      && (result.Ok? && !rejects ==> QuestionsOf(result.value.input) == QuestionsOf(request.toolInput))
      && (result.Ok? && !rejects && request.toolInput.ObjectInput? ==>
            result.value.input.ObjectInput? && result.value.input.fields == request.toolInput.fields)
      && (result.Ok? && !rejects ==> (result.value.AllowAnswers? <==> asks))
      && (result.Ok? ==> (result.value.Allow? <==> !asks && params.decision == Some("once")))
      && (result.Ok? ==> (result.value.AllowAlways? <==> !asks && params.decision == Some("always")))
      && (result.Ok? && result.value.AllowAlways? ==> result.value.permissions == request.suggestions)
      && (result.Ok? && result.value.AllowAnswers? ==> forall text, value ::
            text in result.value.answers && result.value.answers[text] == value
            <==> Answered(QuestionsOf(request.toolInput), params.answers.value, text, value))
  {
    if params.answers.Some? {
      AnswersMeanTheLastOfEach(QuestionsOf(request.toolInput), params.answers.value);
    }
  }

  /** A rejection carries the message of the reply if that is not empty, and otherwise says
      whether an input request or a tool request was turned down. */
  lemma RejectionsSayWhy(request: PermissionRequest, params: ReplyParams)
    requires params.decision == Some("reject")
    ensures
      var said := params.message.Some? && params.message.value != "";
      && Resolve(request, params).Ok? && Resolve(request, params).value.Deny?
      && var message := Resolve(request, params).value.message;
      && (said ==> message == params.message.value)
      && (!said && request.toolName == "AskUserQuestion" ==>
            message == "User cancelled this Claude Code input request.")
      && (!said && request.toolName != "AskUserQuestion" ==>
            message == "User rejected this Claude Code tool request.")
  {
  }

  /** Answers are refused for the first one that names no question. */
  lemma {:induction false} FirstBadAnswerIsReported(questions: seq<Question>, answers: seq<Answer>) returns (i: nat)
    requires CollectAnswers(questions, answers).Err?
    ensures i < |answers| && !Names(questions, answers[i])
    ensures forall j :: 0 <= j < i ==> Names(questions, answers[j])
    ensures CollectAnswers(questions, answers)
            == Err(if answers[i].MalformedAnswer? then InvalidAnswer else UnknownQuestion)
  {
    var n := |answers| - 1;
    var earlier := answers[..n];
    if CollectAnswers(questions, earlier).Err? {
      i := FirstBadAnswerIsReported(questions, earlier);
    } else {
      i := n;
      AcceptedIffAllName(questions, earlier);
      forall j | 0 <= j < n ensures Names(questions, answers[j]) {
        assert earlier[j] in earlier;
      }
    }
  }

  /** Why a reply is refused. */
  lemma RefusalsSayWhy(request: PermissionRequest, params: ReplyParams)
    requires Resolve(request, params).Err?
    ensures
      var asks := request.toolName == "AskUserQuestion";
      var error := Resolve(request, params).error;
      && (error.AnswersRequired? <==> asks && params.answers.None?)
      && (error.InvalidAnswer? || error.UnknownQuestion? <==> asks && params.answers.Some?)
      && (error.NoSuggestions? <==> !asks && params.decision == Some("always"))
      && (error.UnsupportedDecision? <==> !asks && params.decision != Some("always"))
  {
    if params.answers.Some? && CollectAnswers(QuestionsOf(request.toolInput), params.answers.value).Err? {
      var i := FirstBadAnswerIsReported(QuestionsOf(request.toolInput), params.answers.value);
    }
  }

  // ---------- The table of pending permissions ----------

  /** `listening` are the requests with an abort handler attached; `outcomes` are the values
      their promises are resolved with, where the first resolution counts. */
  datatype Table = Table(
    pending: map<Id, PermissionRequest>,
    listening: set<Id>,
    outcomes: map<Id, Decision>)

  function ResolveAndDelete(t: Table, id: Id, decision: Decision): Table {
    Table(t.pending - {id}, t.listening - {id},
          if id in t.outcomes then t.outcomes else t.outcomes[id := decision])
  }

  function Open(t: Table, id: Id, request: PermissionRequest, aborted: set<Signal>): Table {
    var added := t.(pending := t.pending[id := request]);
    if request.signal.None? then added
    else if request.signal.value in aborted then ResolveAndDelete(added, id, CANCELLED)
    else added.(listening := added.listening + {id})
  }

  function Reply(t: Table, id: Id, params: ReplyParams): Table {
    if id !in t.pending then t
    else
      match Resolve(t.pending[id], params)
      case Ok(decision) => ResolveAndDelete(t, id, decision)
      case Err(_) => t
  }

  function HeardBy(t: Table, signal: Signal): set<Id> {
    set id | id in t.listening && id in t.pending && t.pending[id].signal == Some(signal)
  }

  /** All handlers of a signal run when it aborts. */
  function Cancel(t: Table, ids: set<Id>): Table {
    Table(t.pending - ids, t.listening - ids, (map id | id in ids :: CANCELLED) + t.outcomes)
  }

  lemma CancelOneMore(t: Table, ids: set<Id>, id: Id)
    ensures ResolveAndDelete(Cancel(t, ids), id, CANCELLED) == Cancel(t, ids + {id})
  {
    var one, both := ResolveAndDelete(Cancel(t, ids), id, CANCELLED), Cancel(t, ids + {id});
    assert one.pending == both.pending && one.listening == both.listening;
    assert one.outcomes.Keys == both.outcomes.Keys;
  }

  class PermissionTable {
    var pending: map<Id, PermissionRequest>
    var listening: set<Id>
    var outcomes: map<Id, Decision>

    ghost function View(): Table
      reads this
    {
      Table(pending, listening, outcomes)
    }

    constructor ()
      ensures View() == Table(map[], {}, map[])
    {
      pending, listening, outcomes := map[], {}, map[];
    }

    method SettleAndDelete(id: Id, decision: Decision)
      modifies this
      ensures View() == ResolveAndDelete(old(View()), id, decision)
    {
      pending := pending - {id};
      listening := listening - {id};
      if id !in outcomes {
        outcomes := outcomes[id := decision];
      }
    }

    method RequestPermission(id: Id, request: PermissionRequest, aborted: set<Signal>)
      modifies this
      ensures View() == Open(old(View()), id, request, aborted)
    {
      pending := pending[id := request];
      if request.signal.Some? && request.signal.value in aborted {
        SettleAndDelete(id, CANCELLED);
        return;
      }
      if request.signal.Some? {
        listening := listening + {id};
      }
    }

    /** permission/reply. A reply that throws leaves the table as it was. */
    method ReplyTo(id: Id, params: ReplyParams) returns (result: Result<(), ReplyError>)
      modifies this
      ensures View() == Reply(old(View()), id, params)
      ensures result.Err? ==> View() == old(View())
      ensures result.Ok? <==> id in old(pending) && Resolve(old(pending)[id], params).Ok?
    {
      if id !in pending {
        return Err(RequestNotFound);
      }
      var response := Resolve(pending[id], params);
      if response.Err? {
        return Err(response.error);
      }
      SettleAndDelete(id, response.value);
      result := Ok(());
    }

    method Abort(signal: Signal)
      modifies this
      ensures View() == Cancel(old(View()), HeardBy(old(View()), signal))
    {
      var handlers := set id | id in listening && id in pending && pending[id].signal == Some(signal);
      ghost var before := View();
      ghost var done: set<Id> := {};
      var remaining := handlers;
      while remaining != {}
        invariant done + remaining == handlers && done !! remaining
        invariant View() == Cancel(before, done)
        decreases remaining
      {
        var id :| id in remaining;
        remaining := remaining - {id};
        CancelOneMore(before, done, id);
        SettleAndDelete(id, CANCELLED);
        done := done + {id};
      }
      assert done == handlers;
    }
  }

  // ---------- Interleavings ----------

  datatype System = System(table: Table, aborted: set<Signal>, requested: map<Id, PermissionRequest>)

  datatype Event =
    | RequestEvent(id: Id, request: PermissionRequest)
    | ReplyEvent(id: Id, params: ReplyParams)
    | AbortEvent(signal: Signal)

  predicate Enabled(s: System, e: Event) {
    e.RequestEvent? ==> e.id !in s.requested
  }

  function Step(s: System, e: Event): System {
    match e
    case RequestEvent(id, request) =>
      s.(table := Open(s.table, id, request, s.aborted), requested := s.requested[id := request])
    case ReplyEvent(id, params) => s.(table := Reply(s.table, id, params))
    case AbortEvent(signal) =>
      s.(table := Cancel(s.table, HeardBy(s.table, signal)), aborted := s.aborted + {signal})
  }

  const Initial: System := System(Table(map[], {}, map[]), {}, map[])

  predicate Runnable(s: System, events: seq<Event>)
    decreases |events|
  {
    events == [] || (Enabled(s, events[0]) && Runnable(Step(s, events[0]), events[1..]))
  }

  function Run(s: System, events: seq<Event>): System
    decreases |events|
  {
    if events == [] then s else Run(Step(s, events[0]), events[1..])
  }

  // ---------- Conservation ----------

  ghost predicate Conserved(s: System) {
    var t := s.table;
    && t.pending.Keys + t.outcomes.Keys == s.requested.Keys
    && t.pending.Keys !! t.outcomes.Keys
    && (forall id :: id in t.pending ==> t.pending[id] == s.requested[id])
    && (forall id :: id in t.listening <==> id in t.pending && t.pending[id].signal.Some?)
    && (forall id :: id in t.listening ==> t.pending[id].signal.value !in s.aborted)
  }

  lemma StepConserves(s: System, e: Event)
    requires Conserved(s) && Enabled(s, e)
    ensures Conserved(Step(s, e))
    ensures forall id :: id in s.table.outcomes ==>
      id in Step(s, e).table.outcomes && Step(s, e).table.outcomes[id] == s.table.outcomes[id]
  {
  }

  /** In every reachable state each request is either pending or resolved, never both, and a
      resolved request keeps its outcome. */
  lemma {:induction false} RequestsAreConserved(s: System, events: seq<Event>)
    requires Conserved(s) && Runnable(s, events)
    ensures Conserved(Run(s, events))
    ensures forall id :: id in s.table.outcomes ==>
      id in Run(s, events).table.outcomes && Run(s, events).table.outcomes[id] == s.table.outcomes[id]
    decreases |events|
  {
    if events != [] {
      StepConserves(s, events[0]);
      RequestsAreConserved(Step(s, events[0]), events[1..]);
    }
  }

  lemma NewTablesAreConserved()
    ensures Conserved(Initial)
  {
  }

  // ---------- The first deciding event fixes the outcome ----------

  /** The decision an event means for a pending request, looking at the request alone. */
  function DecisionOf(id: Id, request: PermissionRequest, e: Event): Option<Decision> {
    match e
    case RequestEvent(_, _) => None
    case ReplyEvent(replied, params) =>
      if replied != id then None
      else (match Resolve(request, params) case Ok(decision) => Some(decision) case Err(_) => None)
    case AbortEvent(signal) =>
      if request.signal == Some(signal) then Some(Deny("Claude Code permission request was cancelled.")) else None
  }

  function FirstDecision(id: Id, request: PermissionRequest, events: seq<Event>): Option<Decision> {
    if events == [] then None
    else if DecisionOf(id, request, events[0]).Some? then DecisionOf(id, request, events[0])
    else FirstDecision(id, request, events[1..])
  }

  /** A new request is denied at once if its signal has aborted, and otherwise pending. */
  lemma NewRequestsArePendingUnlessAborted(s: System, id: Id, request: PermissionRequest)
    requires Conserved(s) && Enabled(s, RequestEvent(id, request))
    ensures
      var next := Step(s, RequestEvent(id, request));
      if request.signal.Some? && request.signal.value in s.aborted then
        && id !in next.table.pending && id in next.table.outcomes
        && next.table.outcomes[id] == Deny("Claude Code permission request was cancelled.")
      else id in next.table.pending && next.table.pending[id] == request && id !in next.table.outcomes
  {
  }

  lemma StepFollowsDecision(s: System, e: Event, id: Id)
    requires Conserved(s) && Enabled(s, e) && id in s.table.pending
    ensures var decision := DecisionOf(id, s.requested[id], e);
      if decision.Some? then id in Step(s, e).table.outcomes && Step(s, e).table.outcomes[id] == decision.value
      else id in Step(s, e).table.pending
    ensures id in Step(s, e).requested && Step(s, e).requested[id] == s.requested[id]
  {
  }

  /** Over whole runs a request is still pending iff no event decided it, and otherwise its
      outcome is what the first deciding event says. */
  lemma {:induction false} FirstDecisionWins(s: System, events: seq<Event>, id: Id)
    requires Conserved(s) && Runnable(s, events) && id in s.table.pending
    ensures var first := FirstDecision(id, s.requested[id], events);
      if first.Some? then
        id in Run(s, events).table.outcomes && Run(s, events).table.outcomes[id] == first.value
      else id in Run(s, events).table.pending
    decreases |events|
  {
    if events != [] {
      StepConserves(s, events[0]);
      StepFollowsDecision(s, events[0], id);
      var next := Step(s, events[0]);
      if id in next.table.pending {
        FirstDecisionWins(next, events[1..], id);
      } else {
        RequestsAreConserved(next, events[1..]);
      }
    }
  }
}
