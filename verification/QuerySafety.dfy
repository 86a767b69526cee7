/**
 What whole runs of a session guarantee, over every interleaving of starts, steers, stream
 messages, run endings, interrupts and reads
 (packages/claude-code-runtime-server/src/runtime-server-bundle.ts).
 */
module QuerySafety {
  import opened Common
  import opened QueryRuns

  // ---------- Steering is a compare-and-swap ----------

  /** The id of a begun run that is no longer active does not become active again. */
  lemma StepNeverReturns(s: System, e: Event, x: Id)
    requires Invariant(s) && Enabled(s, e)
    requires x in s.begun && s.session.activeQueryId != Some(x)
    ensures x in Step(s, e).begun && Step(s, e).session.activeQueryId != Some(x)
  {
    StepKeepsInvariant(s, e);
    BegunRunsOnlyLand(s, e, x);
    assert Current(s) != Some(x);
    assert Current(Step(s, e)) != Some(x);
  }

  /** A step leaves the list of begun runs or adds a fresh one, and puts no earlier run back
      in flight. */
  lemma BegunRunsOnlyLand(s: System, e: Event, x: Id)
    requires WellRecorded(s) && Enabled(s, e) && x in s.begun
    ensures x in Step(s, e).begun
    ensures Last(Step(s, e).begun) == Last(s.begun) || Last(Step(s, e).begun) != Some(x)
    ensures InFlight(Step(s, e), x) ==> InFlight(s, x)
  {
    assert x in s.submitted;
  }

  lemma {:induction false} ActiveQueryNeverReturns(s: System, events: seq<Event>, x: Id)
    requires Invariant(s) && Runnable(s, events)
    requires x in s.begun && s.session.activeQueryId != Some(x)
    ensures Run(s, events).session.activeQueryId != Some(x)
    decreases |events|
  {
    if events != [] {
      StepNeverReturns(s, events[0], x);
      StepKeepsInvariant(s, events[0]);
      ActiveQueryNeverReturns(Step(s, events[0]), events[1..], x);
    }
  }

  predicate BeginsRun(launch: Launch) {
    !launch.OptionsThrow?
  }

  /** A steer that names `x`, is accepted and begins a run. */
  predicate SteersAway(s: System, e: Event, x: Id) {
    e.SteerEvent? && e.expectedQueryId == x && s.session.activeQueryId == Some(x) && BeginsRun(e.launch)
  }

  ghost function BegunSteers(s: System, events: seq<Event>, x: Id): nat
    requires Runnable(s, events)
    decreases |events|
  {
    if events == [] then 0
    else (if SteersAway(s, events[0], x) then 1 else 0) + BegunSteers(Step(s, events[0]), events[1..], x)
  }

  lemma {:induction false} NoSteerFromAnInactiveQuery(s: System, events: seq<Event>, x: Id)
    requires Invariant(s) && Runnable(s, events)
    requires x in s.begun && s.session.activeQueryId != Some(x)
    ensures BegunSteers(s, events, x) == 0
    decreases |events|
  {
    if events != [] {
      StepNeverReturns(s, events[0], x);
      StepKeepsInvariant(s, events[0]);
      NoSteerFromAnInactiveQuery(Step(s, events[0]), events[1..], x);
    }
  }

  /** Of all steers that name the same query, at most one ever begins a run. */
  lemma {:induction false} AtMostOneSteerBegins(s: System, events: seq<Event>, x: Id)
    requires Invariant(s) && Runnable(s, events)
    ensures BegunSteers(s, events, x) <= 1
    decreases |events|
  {
    if events != [] {
      var e := events[0];
      var next := Step(s, e);
      StepKeepsInvariant(s, e);
      if SteersAway(s, e, x) {
        assert x in s.begun && e.queryId !in s.submitted;
        assert x in next.begun && Last(next.begun) == Some(e.queryId);
        NoSteerFromAnInactiveQuery(next, events[1..], x);
      } else {
        AtMostOneSteerBegins(next, events[1..], x);
      }
    }
  }

  // ---------- A newer run is never disturbed by an older one ----------

  predicate EndsRun(e: Event, x: Id) {
    (e.StreamEndEvent? || e.StreamClosedEvent?) && e.queryId == x
  }

  ghost predicate Begins(s: System, e: Event) {
    || (e.StartEvent? && BeginsRun(e.launch))
    || (e.SteerEvent? && SteersAway(s, e, e.expectedQueryId))
  }

  ghost predicate Undisturbed(s: System, events: seq<Event>, x: Id)
    requires Runnable(s, events)
    decreases |events|
  {
    events != [] ==>
      && !EndsRun(events[0], x) && !Begins(s, events[0])
      && Undisturbed(Step(s, events[0]), events[1..], x)
  }

  lemma StepLeavesActive(s: System, e: Event, x: Id)
    requires Invariant(s) && Enabled(s, e) && s.session.activeQueryId == Some(x)
    requires !EndsRun(e, x) && !Begins(s, e)
    ensures Step(s, e).session.activeQueryId == Some(x)
    ensures Step(s, e).session.activeQueryAbortController == Some(AbortController(x))
    ensures Step(s, e).session.activeQuery == s.session.activeQuery
            || (Step(s, e).session.activeQuery == None && (e.StreamEndEvent? || e.StreamClosedEvent?))
  {
    StepKeepsInvariant(s, e);
  }

  /** Only its own end or the beginning of a newer run takes a run out of its place; the ends,
      failures and messages of all other runs leave its id and its controller alone. */
  lemma {:induction false} ActiveUntilOwnEndOrNewRun(s: System, events: seq<Event>, x: Id)
    requires Invariant(s) && Runnable(s, events) && s.session.activeQueryId == Some(x)
    requires Undisturbed(s, events, x)
    ensures Run(s, events).session.activeQueryId == Some(x)
    ensures Run(s, events).session.activeQueryAbortController == Some(AbortController(x))
    decreases |events|
  {
    if events != [] {
      StepLeavesActive(s, events[0], x);
      StepKeepsInvariant(s, events[0]);
      ActiveUntilOwnEndOrNewRun(Step(s, events[0]), events[1..], x);
    }
  }

  /** The asymmetry of the finally block: an older run's end leaves a newer run active but
      takes its SDK handle, so a later interrupt aborts the newer run and closes nothing. */
  lemma OlderEndTakesTheHandle()
    ensures
      var events := [StartEvent("a", "", Streams), StartEvent("b", "", Streams),
                     StreamEndEvent("a", None), InterruptEvent("b")];
      && Runnable(Initial(None), events)
      && Run(Initial(None), events).session.activeQueryId == Some("b")
      && Run(Initial(None), events).session.activeQuery == None
      && Run(Initial(None), events).aborted == {"b"} && Run(Initial(None), events).closed == {}
  {
    var events := [StartEvent("a", "", Streams), StartEvent("b", "", Streams),
                   StreamEndEvent("a", None), InterruptEvent("b")];
    var s0 := Initial(None);
    var s1 := Step(s0, events[0]);
    assert events[1..][0] == events[1] && events[1..][1..] == events[2..];
    var s2 := Step(s1, events[1]);
    assert events[2..][0] == events[2] && events[2..][1..] == events[3..];
    var s3 := Step(s2, events[2]);
    assert events[3..][0] == events[3] && events[3..][1..] == [];
    var s4 := Step(s3, events[3]);
    assert Runnable(s4, []) && Run(s4, []) == s4;
    assert Runnable(s3, events[3..]) && Run(s3, events[3..]) == s4;
    assert Runnable(s2, events[2..]) && Run(s2, events[2..]) == s4;
    assert Runnable(s1, events[1..]) && Run(s1, events[1..]) == s4;
  }

  // ---------- Interrupts ----------

  ghost predicate Submits(s: System, e: Event) {
    e.StartEvent? || (e.SteerEvent? && s.session.activeQueryId == Some(e.expectedQueryId))
  }

  ghost predicate OpensStream(s: System, e: Event) {
    Submits(s, e) && e.launch.Streams?
  }

  /** A run ends, or the SDK call of a new run throws. */
  ghost predicate LeavesRun(s: System, e: Event) {
    e.StreamEndEvent? || e.StreamClosedEvent? || (Submits(s, e) && e.launch.QueryThrows?)
  }

  ghost predicate AnyStreamOpened(s: System, events: seq<Event>)
    requires Runnable(s, events)
    decreases |events|
  {
    events != [] && (OpensStream(s, events[0]) || AnyStreamOpened(Step(s, events[0]), events[1..]))
  }

  /** Some run was left after the last stream of the list opened. */
  ghost predicate LeftSinceLastOpening(s: System, events: seq<Event>)
    requires Runnable(s, events)
    decreases |events|
  {
    events != [] &&
    var next := Step(s, events[0]);
    || LeftSinceLastOpening(next, events[1..])
    || (LeavesRun(s, events[0]) && !AnyStreamOpened(next, events[1..]))
  }

  /** What the history flag of the invariant means, in terms of the events of the run. */
  lemma {:induction false} HandleIsLostIff(s: System, events: seq<Event>)
    requires Runnable(s, events)
    ensures Run(s, events).handleLost
            <==> LeftSinceLastOpening(s, events) || (s.handleLost && !AnyStreamOpened(s, events))
    decreases |events|
  {
    if events != [] {
      var next := Step(s, events[0]);
      HandleIsLostIff(next, events[1..]);
      assert next.handleLost
        <==> LeavesRun(s, events[0]) || (s.handleLost && !OpensStream(s, events[0]));
    }
  }

  lemma {:induction false} NothingFliesUnopened(s: System, events: seq<Event>, q: Id)
    requires Runnable(s, events) && !AnyStreamOpened(s, events) && !InFlight(s, q)
    ensures !InFlight(Run(s, events), q)
    decreases |events|
  {
    if events != [] {
      assert !InFlight(Step(s, events[0]), q);
      NothingFliesUnopened(Step(s, events[0]), events[1..], q);
    }
  }

  /** One interrupt, given the invariant: it aborts the named run if that is the active one. */
  lemma InterruptOfTheActive(s: System, q: Id)
    requires Invariant(s)
    ensures var hit := s.session.activeQueryId == Some(q);
      && Step(s, InterruptEvent(q)).aborted == (if hit then s.aborted + {q} else s.aborted)
      && Step(s, InterruptEvent(q)).closed == (if hit && !s.handleLost then s.closed + {q} else s.closed)
      && Step(s, InterruptEvent(q)).session == s.session
  {
  }

  /** After any run of a new session an interrupt aborts the named run iff it is active, and
      closes its SDK handle iff moreover no run was left since the last stream opened. */
  lemma InterruptIsExact(sdkSessionId: Option<Id>, events: seq<Event>, q: Id)
    requires Runnable(Initial(sdkSessionId), events)
    ensures
      var s := Run(Initial(sdkSessionId), events);
      var next := Step(s, InterruptEvent(q));
      var hit := s.session.activeQueryId == Some(q);
      && next.session == s.session
      && next.aborted == (if hit then s.aborted + {q} else s.aborted)
      && next.closed
         == (if hit && !LeftSinceLastOpening(Initial(sdkSessionId), events) then s.closed + {q} else s.closed)
  {
    var first := Initial(sdkSessionId);
    var s := Run(first, events);
    EveryInterleavingStaysInStep(sdkSessionId, events);
    InterruptOfTheActive(s, q);
    HandleIsLostIff(first, events);
    if s.session.activeQueryId == Some(q) && !AnyStreamOpened(first, events) {
      NothingFliesUnopened(first, events, q);
    }
  }

  lemma StepAbortsOnlyNamed(s: System, e: Event, x: Id)
    requires Invariant(s) && Enabled(s, e)
    requires x in Step(s, e).aborted + Step(s, e).closed
    ensures x in s.aborted + s.closed || e == InterruptEvent(x)
  {
    if e.InterruptEvent? {
      InterruptOfTheActive(s, e.queryId);
    }
  }

  /** Nothing is ever aborted or closed that no interrupt named. */
  lemma {:induction false} OnlyNamedRunsAreAborted(s: System, events: seq<Event>, x: Id)
    requires Invariant(s) && Runnable(s, events)
    requires x in Run(s, events).aborted + Run(s, events).closed
    ensures x in s.aborted + s.closed || InterruptEvent(x) in events
    decreases |events|
  {
    if events != [] {
      StepKeepsInvariant(s, events[0]);
      OnlyNamedRunsAreAborted(Step(s, events[0]), events[1..], x);
      if x in Step(s, events[0]).aborted + Step(s, events[0]).closed {
        StepAbortsOnlyNamed(s, events[0], x);
      }
    }
  }

  // ---------- The query log ----------

  /** The log only grows as long as its new value extends the old. At the end of a hydrating
      read that holds for every stored history exactly when the log is still empty. */
  lemma HydrationExtendsLogIffEmpty(s: System, r: Id)
    requires r in s.hydrations
    ensures (forall messages :: s.session.queries <= Step(s, HydrateEvent(r, messages)).session.queries)
            <==> s.session.queries == []
  {
    if forall messages :: s.session.queries <= Step(s, HydrateEvent(r, messages)).session.queries {
      assert s.session.queries <= Step(s, HydrateEvent(r, [])).session.queries;
    }
  }

  /** A submission, a streamed message, or the end of a hydrating read that found something. */
  ghost predicate WritesLog(s: System, e: Event) {
    Submits(s, e) || e.MessageEvent? || (e.HydrateEvent? && HydratedLog(e.messages) != [])
  }

  /** The hydrating reads in flight after an event during which something was written: `late`
      are those before it. */
  ghost function LateAfter(s: System, e: Event, late: set<Id>): set<Id>
    requires Enabled(s, e)
  {
    if WritesLog(s, e) then Step(s, e).hydrations else late * Step(s, e).hydrations
  }

  /** No hydrating read finishes after something was written since it began. */
  ghost predicate NoReadEndsLate(s: System, events: seq<Event>, late: set<Id>)
    requires Runnable(s, events)
    decreases |events|
  {
    events != [] ==>
      && (events[0].HydrateEvent? ==> events[0].readId !in late)
      && NoReadEndsLate(Step(s, events[0]), events[1..], LateAfter(s, events[0], late))
  }

  /** The step extends the log; the end of a read does so whatever it finds. */
  ghost predicate StepGrowsLog(s: System, e: Event)
    requires Enabled(s, e)
  {
    if e.HydrateEvent? then
      forall messages :: s.session.queries <= Step(s, HydrateEvent(e.readId, messages)).session.queries
    else s.session.queries <= Step(s, e).session.queries
  }

  ghost predicate LogGrows(s: System, events: seq<Event>)
    requires Runnable(s, events)
    decreases |events|
  {
    events != [] ==> StepGrowsLog(s, events[0]) && LogGrows(Step(s, events[0]), events[1..])
  }

  /** A hydrating read in flight is late iff the log is no longer empty, as it was when the read
      began. */
  ghost predicate LateIffWritten(s: System, late: set<Id>) {
    late == if s.session.queries == [] then {} else s.hydrations
  }

  lemma StepGrowsLogIff(s: System, e: Event, late: set<Id>)
    requires Enabled(s, e) && LateIffWritten(s, late)
    ensures StepGrowsLog(s, e) <==> (e.HydrateEvent? ==> e.readId !in late)
    ensures StepGrowsLog(s, e) ==> LateIffWritten(Step(s, e), LateAfter(s, e, late))
  {
    if e.HydrateEvent? {
      HydrationExtendsLogIffEmpty(s, e.readId);
    }
  }

  lemma {:induction false} LogGrowsIffFrom(s: System, events: seq<Event>, late: set<Id>)
    requires Runnable(s, events) && LateIffWritten(s, late)
    ensures LogGrows(s, events) <==> NoReadEndsLate(s, events, late)
    ensures LogGrows(s, events) ==> s.session.queries <= Run(s, events).session.queries
    decreases |events|
  {
    if events != [] {
      StepGrowsLogIff(s, events[0], late);
      if StepGrowsLog(s, events[0]) {
        LogGrowsIffFrom(Step(s, events[0]), events[1..], LateAfter(s, events[0], late));
      }
    }
  }

  /** Over every run of a new session the log grows at every step, whatever is stored, iff no
      hydrating read finishes after a submission, a message or a non-empty hydration that came
      since it began. */
  lemma LogGrowsIff(sdkSessionId: Option<Id>, events: seq<Event>)
    requires Runnable(Initial(sdkSessionId), events)
    ensures LogGrows(Initial(sdkSessionId), events) <==> NoReadEndsLate(Initial(sdkSessionId), events, {})
  {
    LogGrowsIffFrom(Initial(sdkSessionId), events, {});
  }

  /** Then the log is append-only over the run, and from every point of it on. */
  lemma LogIsAppendOnly(sdkSessionId: Option<Id>, earlier: seq<Event>, later: seq<Event>)
    requires Runnable(Initial(sdkSessionId), earlier + later)
    requires NoReadEndsLate(Initial(sdkSessionId), earlier + later, {})
    ensures Runnable(Initial(sdkSessionId), earlier) && Runnable(Run(Initial(sdkSessionId), earlier), later)
    ensures Run(Initial(sdkSessionId), earlier).session.queries
            <= Run(Run(Initial(sdkSessionId), earlier), later).session.queries
  {
    AppendOnlyFrom(Initial(sdkSessionId), earlier, later, {});
  }

  lemma {:induction false} AppendOnlyFrom(s: System, earlier: seq<Event>, later: seq<Event>, late: set<Id>)
    requires Runnable(s, earlier + later) && LateIffWritten(s, late) && NoReadEndsLate(s, earlier + later, late)
    ensures Runnable(s, earlier) && Runnable(Run(s, earlier), later)
    ensures Run(s, earlier).session.queries <= Run(Run(s, earlier), later).session.queries
    decreases |earlier|
  {
    if earlier == [] {
      assert earlier + later == later;
      LogGrowsIffFrom(s, later, late);
    } else {
      assert (earlier + later)[0] == earlier[0] && (earlier + later)[1..] == earlier[1..] + later;
      StepGrowsLogIff(s, earlier[0], late);
      AppendOnlyFrom(Step(s, earlier[0]), earlier[1..], later, LateAfter(s, earlier[0], late));
    }
  }

  /** Without it the log loses entries: a read that began before a start ends after it. */
  lemma HydrationCanEraseASubmission()
    ensures
      var events := [ReadEvent("r"), StartEvent("q", "hello", Streams), HydrateEvent("r", [])];
      && Runnable(Initial(Some("sdk")), events)
      && Run(Initial(Some("sdk")), events).session.queries == []
      && Run(Initial(Some("sdk")), events).session.activeQueryId == Some("q")
  {
    var events := [ReadEvent("r"), StartEvent("q", "hello", Streams), HydrateEvent("r", [])];
    var s0 := Initial(Some("sdk"));
    var s1 := Step(s0, events[0]);
    assert events[1..][0] == events[1] && events[1..][1..] == events[2..];
    var s2 := Step(s1, events[1]);
    assert events[2..][0] == events[2] && events[2..][1..] == [];
    var s3 := Step(s2, events[2]);
    assert Runnable(s3, []) && Run(s3, []) == s3;
    assert Runnable(s2, events[2..]) && Run(s2, events[2..]) == s3;
    assert Runnable(s1, events[1..]) && Run(s1, events[1..]) == s3;
  }

  /** What each step puts into the log: a submission its text, a message itself, the end of a
      hydrating read the stored messages in place of all that was there, and no other step
      anything. */
  lemma StepsLogExactly(s: System, e: Event)
    requires Enabled(s, e)
    ensures
      var before, after := s.session.queries, Step(s, e).session.queries;
      match e
      case StartEvent(q, text, _) => after == before + [Submitted(q, text)]
      case SteerEvent(expected, q, text, _) =>
        after == if s.session.activeQueryId == Some(expected) then before + [Submitted(q, text)] else before
      case MessageEvent(q, message) => after == before + [Streamed(q, message)]
      case HydrateEvent(_, messages) => exists at :: HoldsStored(after, messages, at)
      case _ => after == before
  {
    if e.HydrateEvent? {
      var at := HydrationIsFaithful(e.messages);
    }
  }

  // ---------- What the session remembers of the stream ----------

  /** What the latest event that says something says. */
  function Latest<T>(before: T, events: seq<Event>, says: Event -> Option<T>): T {
    if events == [] then before
    else
      match says(events[|events| - 1])
      case Some(said) => said
      case None => Latest(before, events[..|events| - 1], says)
  }

  function SaysSession(e: Event): Option<Option<Id>> {
    if e.MessageEvent? && e.message.sessionId.Some? then Some(e.message.sessionId) else None
  }

  /** A message announces commands when mapping them does not throw. */
  function SaysCatalog(e: Event): Option<Option<seq<string>>> {
    if e.MessageEvent? && e.message.commands.Some? && e.message.commands.value.Ok?
    then Some(Some(e.message.commands.value.value)) else None
  }

  /** A message whose commands cannot be mapped is not read as far as its usage. */
  function SaysUsage(e: Event): Option<Option<nat>> {
    if e.MessageEvent? && e.message.usage.Some? && !(e.message.commands.Some? && e.message.commands.value.Err?)
    then Some(e.message.usage.value) else None
  }

  lemma {:induction false} LatestFromTheFront<T>(before: T, events: seq<Event>, says: Event -> Option<T>)
    requires events != []
    ensures Latest(before, events, says)
            == Latest(if says(events[0]).Some? then says(events[0]).value else before, events[1..], says)
  {
    var n := |events| - 1;
    if n > 0 {
      assert events[..n][0] == events[0] && events[..n][1..] == events[1..][..n - 1];
      LatestFromTheFront(before, events[..n], says);
    } else {
      assert events[..0] == [] && events[1..] == [];
    }
  }

  /** The latest message of the run with a session id decides which SDK session is resumed. */
  lemma {:induction false} LatestMessageNamesTheSession(s: System, events: seq<Event>)
    requires Runnable(s, events)
    ensures Run(s, events).session.sdkSessionId == Latest(s.session.sdkSessionId, events, SaysSession)
    decreases |events|
  {
    if events != [] {
      LatestMessageNamesTheSession(Step(s, events[0]), events[1..]);
      LatestFromTheFront(s.session.sdkSessionId, events, SaysSession);
    }
  }

  /** The command catalog is the one announced last, and the context usage the one measured
      last, over every run; no other step touches either. */
  lemma {:induction false} LatestMessagesAnnounceAndMeasure(s: System, events: seq<Event>)
    requires Runnable(s, events)
    ensures Run(s, events).session.commandCatalog == Latest(s.session.commandCatalog, events, SaysCatalog)
    ensures Run(s, events).session.contextUsage == Latest(s.session.contextUsage, events, SaysUsage)
    decreases |events|
  {
    if events != [] {
      LatestMessagesAnnounceAndMeasure(Step(s, events[0]), events[1..]);
      LatestFromTheFront(s.session.commandCatalog, events, SaysCatalog);
      LatestFromTheFront(s.session.contextUsage, events, SaysUsage);
    }
  }

  // ---------- Status ----------

  lemma {:induction false} FailuresAreCaughtRuns(s: System, events: seq<Event>, q: Id)
    requires Runnable(s, events)
    ensures q in Run(s, events).failures <==> q in s.failures || CatchEvent(q) in events
    decreases |events|
  {
    if events != [] {
      FailuresAreCaughtRuns(Step(s, events[0]), events[1..], q);
      assert q in Step(s, events[0]).failures <==> q in s.failures || events[0] == CatchEvent(q);
    }
  }

  ghost predicate NewestRunIsInFlight(s: System) {
    s.begun != [] && InFlight(s, s.begun[|s.begun| - 1])
  }

  /** After any run of a new session the status is active iff the newest begun run is in
      flight, and error iff it is not and the latest submitted query's failure was caught. */
  lemma StatusTellsTheNewestRun(sdkSessionId: Option<Id>, events: seq<Event>)
    requires Runnable(Initial(sdkSessionId), events)
    ensures
      var s := Run(Initial(sdkSessionId), events);
      var failed := s.submitted != [] && CatchEvent(s.submitted[|s.submitted| - 1]) in events;
      && (StatusOf(s.session) == ActiveStatus <==> NewestRunIsInFlight(s))
      && (StatusOf(s.session) == ErrorStatus <==> failed && !NewestRunIsInFlight(s))
  {
    EveryInterleavingStaysInStep(sdkSessionId, events);
    var s := Run(Initial(sdkSessionId), events);
    if s.submitted != [] {
      FailuresAreCaughtRuns(Initial(sdkSessionId), events, s.submitted[|s.submitted| - 1]);
    }
  }
}
