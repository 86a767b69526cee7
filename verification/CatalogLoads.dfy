/**
 Shared loading of a session's model or command catalog: loadConversationCatalog in
 packages/claude-code-runtime-server/src/runtime-server-bundle.ts. `CatalogSlot` is the pair
 of session fields a load works on; `Step` interleaves requests, settling fetches, the
 continuations of their owners, and catalogs announced by a query's messages.
 */
module CatalogLoads {
  import opened Common

  type Catalog = seq<string>

  /** A load promise, compared by identity. */
  type LoadId = nat

  datatype Slot = Slot(catalog: Option<Catalog>, loadPromise: Option<LoadId>)

  /** What a request does before its first await: answer at once, wait for the load in
      flight, or start a fetch of its own. */
  datatype Outcome = Hit(catalog: Catalog) | Join(load: LoadId) | Fetch(load: LoadId)

  function Decide(slot: Slot, refresh: bool, newLoad: LoadId): Outcome {
    if !refresh && slot.catalog.Some? then Hit(slot.catalog.value)
    else if !refresh && slot.loadPromise.Some? then Join(slot.loadPromise.value)
    else Fetch(newLoad)
  }

  function Finish(slot: Slot, load: LoadId, result: Result<Catalog, string>): Slot {
    Slot(if result.Ok? then Some(result.value) else slot.catalog,
         if slot.loadPromise == Some(load) then None else slot.loadPromise)
  }

  class CatalogSlot {
    var catalog: Option<Catalog>
    var loadPromise: Option<LoadId>

    ghost function View(): Slot
      reads this
    {
      Slot(catalog, loadPromise)
    }

    constructor ()
      ensures View() == Slot(None, None)
    {
      catalog, loadPromise := None, None;
    }

    /** loadConversationCatalog up to its await; `newLoad` is the promise a fetch would give. */
    method RequestCatalog(refresh: bool, newLoad: LoadId) returns (outcome: Outcome)
      modifies this
      ensures outcome == Decide(old(View()), refresh, newLoad)
      ensures outcome
              == if !refresh && old(catalog).Some? then Hit(old(catalog).value)
                 else if !refresh && old(loadPromise).Some? then Join(old(loadPromise).value)
                 else Fetch(newLoad)
      ensures View() == old(View()).(loadPromise := if outcome.Fetch? then Some(newLoad) else old(loadPromise))
    {
      var cachedCatalog := catalog;
      if !refresh && cachedCatalog.Some? {
        return Hit(cachedCatalog.value);
      }
      var activeLoadPromise := loadPromise;
      if !refresh && activeLoadPromise.Some? {
        return Join(activeLoadPromise.value);
      }
      loadPromise := Some(newLoad);
      outcome := Fetch(newLoad);
    }

    /** The rest of the call that started the fetch, and its answer. */
    method FinishLoad(load: LoadId, result: Result<Catalog, string>) returns (answer: Result<Catalog, string>)
      modifies this
      ensures View() == Finish(old(View()), load, result) && answer == result
      ensures catalog == if result.Ok? then Some(result.value) else old(catalog)
      ensures loadPromise == if old(loadPromise) == Some(load) then None else old(loadPromise)
    {
      if result.Ok? {
        catalog := Some(result.value);
      }
      if loadPromise == Some(load) {
        loadPromise := None;
      }
      answer := result;
    }

    /** A commands_changed message. */
    method Announce(commands: Catalog)
      modifies this
      ensures View() == old(View()).(catalog := Some(commands))
    {
      catalog := Some(commands);
    }
  }

  // ---------- Interleavings ----------

  /** A load whose owner has not finished: its fetch is running or has settled. */
  datatype Progress = Running | SettledWith(result: Result<Catalog, string>)

  /** Where a request is: it waits for the load in flight that it joined, or for the one it
      started, or it has ended. */
  datatype Ask =
    | Joined(load: LoadId)
    | Started(load: LoadId)
    | Ended(answer: Result<Catalog, string>)

  datatype System = System(
    slot: Slot,
    loads: map<LoadId, Progress>,
    asks: seq<Ask>,
    // history
    started: seq<LoadId>,
    settled: map<LoadId, Result<Catalog, string>>,
    refreshes: nat,
    failed: nat)

  datatype Event =
    | RequestEvent(refresh: bool, newLoad: LoadId)
    | SettleEvent(load: LoadId, result: Result<Catalog, string>)
    | FinishEvent(load: LoadId)
    | JoinEndEvent(ask: nat)
    | AnnounceEvent(commands: Catalog)

  predicate Enabled(s: System, e: Event) {
    match e
    case RequestEvent(_, newLoad) => newLoad !in s.started
    case SettleEvent(load, _) => load in s.loads && s.loads[load] == Running
    case FinishEvent(load) => load in s.loads && s.loads[load].SettledWith?
    case JoinEndEvent(ask) => ask < |s.asks| && s.asks[ask].Joined? && s.asks[ask].load in s.settled
    case AnnounceEvent(_) => true
  }

  /** The asks of one kind end with an answer. */
  function EndAsks(asks: seq<Ask>, ask: Ask, answer: Result<Catalog, string>): (r: seq<Ask>)
    ensures |r| == |asks|
    ensures forall i :: 0 <= i < |asks| ==> r[i] == if asks[i] == ask then Ended(answer) else asks[i]
  {
    seq(|asks|, i requires 0 <= i < |asks| => if asks[i] == ask then Ended(answer) else asks[i])
  }

  function Step(s: System, e: Event): System
    requires Enabled(s, e)
  {
    match e
    case RequestEvent(refresh, newLoad) =>
      var counted := s.(refreshes := s.refreshes + if refresh then 1 else 0);
      (match Decide(s.slot, refresh, newLoad)
       case Hit(catalog) => counted.(asks := s.asks + [Ended(Ok(catalog))])
       case Join(load) => counted.(asks := s.asks + [Joined(load)])
       case Fetch(load) =>
         counted.(slot := s.slot.(loadPromise := Some(load)), asks := s.asks + [Started(load)],
                  loads := s.loads[load := Running], started := s.started + [load]))
    case SettleEvent(load, result) =>
      s.(loads := s.loads[load := SettledWith(result)], settled := s.settled[load := result])
    case FinishEvent(load) =>
      var result := s.loads[load].result;
      s.(slot := Finish(s.slot, load, result), loads := s.loads - {load},
         asks := EndAsks(s.asks, Started(load), result),
         failed := s.failed + if result.Err? then 1 else 0)
    case JoinEndEvent(ask) => s.(asks := s.asks[ask := Ended(s.settled[s.asks[ask].load])])
    case AnnounceEvent(commands) => s.(slot := s.slot.(catalog := Some(commands)))
  }

  const Initial: System := System(Slot(None, None), map[], [], [], map[], 0, 0)

  predicate Runnable(s: System, events: seq<Event>)
    decreases |events|
  {
    events == [] || (Enabled(s, events[0]) && Runnable(Step(s, events[0]), events[1..]))
  }

  function Run(s: System, events: seq<Event>): System
    requires Runnable(s, events)
    decreases |events|
  {
    if events == [] then s else Run(Step(s, events[0]), events[1..])
  }

  // ---------- What every interleaving keeps ----------

  /** The newest load, while its owner has not finished. */
  function NewestUnfinished(s: System): Option<LoadId> {
    if s.started != [] && s.started[|s.started| - 1] in s.loads then Some(s.started[|s.started| - 1]) else None
  }

  ghost predicate Invariant(s: System) {
    && s.slot.loadPromise == NewestUnfinished(s)
    && (forall load :: load in s.loads ==> load in s.started)
    && |s.started| <= s.refreshes + s.failed + (if s.slot.catalog.Some? || s.slot.loadPromise.Some? then 1 else 0)
    && (s.refreshes == 0 ==> forall load :: load in s.loads ==> s.slot.loadPromise == Some(load))
  }

  lemma StepKeepsInvariant(s: System, e: Event)
    requires Invariant(s) && Enabled(s, e)
    ensures Invariant(Step(s, e))
    ensures s.slot.catalog.Some? ==> Step(s, e).slot.catalog.Some?
  {
  }

  lemma {:induction false} RunKeepsInvariant(s: System, events: seq<Event>)
    requires Invariant(s) && Runnable(s, events)
    ensures Invariant(Run(s, events))
    ensures s.slot.catalog.Some? ==> Run(s, events).slot.catalog.Some?
    decreases |events|
  {
    if events != [] {
      StepKeepsInvariant(s, events[0]);
      RunKeepsInvariant(Step(s, events[0]), events[1..]);
    }
  }

  /** In every run the load promise is exactly the newest load until its owner finishes, and
      fetches started are at most one more than the refreshes and the failed loads together.
      Without refreshes at most one load is in flight. */
  lemma LoadsAreShared(events: seq<Event>)
    requires Runnable(Initial, events)
    ensures var s := Run(Initial, events);
      && s.slot.loadPromise == NewestUnfinished(s)
      && |s.started| <= 1 + s.refreshes + s.failed
      && (s.refreshes == 0 ==> forall a, b :: a in s.loads && b in s.loads ==> a == b)
  {
    RunKeepsInvariant(Initial, events);
  }

  /** Once there is a catalog there is one ever after. */
  lemma CatalogIsNeverForgotten(earlier: seq<Event>, later: seq<Event>)
    requires Runnable(Initial, earlier) && Runnable(Run(Initial, earlier), later)
    requires Run(Initial, earlier).slot.catalog.Some?
    ensures Run(Run(Initial, earlier), later).slot.catalog.Some?
  {
    RunKeepsInvariant(Initial, earlier);
    RunKeepsInvariant(Run(Initial, earlier), later);
  }

  /** Until a newer load or its own end, nothing takes a load out of the promise field. */
  lemma {:induction false} OlderEndsLeaveThePromise(s: System, events: seq<Event>, load: LoadId)
    requires Invariant(s) && Runnable(s, events) && s.slot.loadPromise == Some(load)
    requires FinishEvent(load) !in events && Run(s, events).started == s.started
    ensures Run(s, events).slot.loadPromise == Some(load)
    decreases |events|
  {
    if events != [] {
      var next := Step(s, events[0]);
      StepKeepsInvariant(s, events[0]);
      StartedOnlyGrows(next, events[1..]);
      assert |s.started| <= |next.started| <= |s.started|;
      OlderEndsLeaveThePromise(next, events[1..], load);
    }
  }

  lemma {:induction false} StartedOnlyGrows(s: System, events: seq<Event>)
    requires Runnable(s, events)
    ensures s.started <= Run(s, events).started
    decreases |events|
  {
    if events != [] {
      StartedOnlyGrows(Step(s, events[0]), events[1..]);
    }
  }

  // ---------- Whose catalog it is ----------

  datatype Writer = LoadWriter(load: LoadId) | Announcer

  datatype Write = Write(writer: Writer, catalog: Catalog)

  /** What an event writes: a load that finishes with success, or an announcement. */
  function WriteOf(s: System, e: Event): Option<Write>
    requires Enabled(s, e)
  {
    match e
    case FinishEvent(load) =>
      if s.loads[load].result.Ok? then Some(Write(LoadWriter(load), s.loads[load].result.value)) else None
    case AnnounceEvent(commands) => Some(Write(Announcer, commands))
    case _ => None
  }

  /** The last write of a list of events, or `before` when there is none. */
  function LastWrite(before: Option<Write>, s: System, events: seq<Event>): Option<Write>
    requires Runnable(s, events)
    decreases |events|
  {
    if events == [] then before
    else
      var write := WriteOf(s, events[0]);
      LastWrite(if write.Some? then write else before, Step(s, events[0]), events[1..])
  }

  /** No load finishes with success, and nothing is announced. */
  predicate NothingIsWritten(s: System, events: seq<Event>)
    requires Runnable(s, events)
    decreases |events|
  {
    events != [] ==> WriteOf(s, events[0]).None? && NothingIsWritten(Step(s, events[0]), events[1..])
  }

  function CatalogOf(write: Option<Write>): Option<Catalog> {
    if write.Some? then Some(write.value.catalog) else None
  }

  lemma {:induction false} CatalogFollowsWrites(before: Option<Write>, s: System, events: seq<Event>)
    requires Runnable(s, events) && s.slot.catalog == CatalogOf(before)
    ensures Run(s, events).slot.catalog == CatalogOf(LastWrite(before, s, events))
    decreases |events|
  {
    if events != [] {
      var write := WriteOf(s, events[0]);
      CatalogFollowsWrites(if write.Some? then write else before, Step(s, events[0]), events[1..]);
    }
  }

  /** After every run the catalog is that of the last load to finish with success or of the
      last announcement, whichever load was started last. */
  lemma CatalogIsTheLastWritten(events: seq<Event>)
    requires Runnable(Initial, events)
    ensures Run(Initial, events).slot.catalog == CatalogOf(LastWrite(None, Initial, events))
  {
    CatalogFollowsWrites(None, Initial, events);
  }

  /** A finished load is over: it writes nothing more. */
  lemma {:induction false} FinishedLoadsWriteNoMore(before: Option<Write>, s: System, events: seq<Event>, load: LoadId)
    requires Runnable(s, events) && load in s.started && load !in s.loads
    requires before.Some? ==> before.value.writer != LoadWriter(load)
    ensures var last := LastWrite(before, s, events); last.Some? ==> last.value.writer != LoadWriter(load)
    decreases |events|
  {
    if events != [] {
      var write := WriteOf(s, events[0]);
      FinishedLoadsWriteNoMore(if write.Some? then write else before, Step(s, events[0]), events[1..], load);
    }
  }

  lemma {:induction false} WriteSurvivesIff(before: Write, s: System, events: seq<Event>, load: LoadId)
    requires Runnable(s, events) && load in s.started && load !in s.loads
    requires before.writer == LoadWriter(load)
    ensures LastWrite(Some(before), s, events) == Some(before) <==> NothingIsWritten(s, events)
    decreases |events|
  {
    if events != [] {
      var write := WriteOf(s, events[0]);
      var next := Step(s, events[0]);
      if write.Some? {
        FinishedLoadsWriteNoMore(write, next, events[1..], load);
      } else {
        WriteSurvivesIff(before, next, events[1..], load);
      }
    }
  }

  /** The result of a load, the newest one too, is the one kept in the end iff after its own
      finish no other load finishes with success and nothing is announced. */
  lemma ResultSurvivesIff(s: System, load: LoadId, after: seq<Event>)
    requires Invariant(s) && Enabled(s, FinishEvent(load)) && s.loads[load].result.Ok?
    requires Runnable(Step(s, FinishEvent(load)), after)
    ensures
      var write := WriteOf(s, FinishEvent(load));
      var next := Step(s, FinishEvent(load));
      && (LastWrite(write, next, after) == write <==> NothingIsWritten(next, after))
      && Run(next, after).slot.catalog == CatalogOf(LastWrite(write, next, after))
  {
    var write := WriteOf(s, FinishEvent(load));
    var next := Step(s, FinishEvent(load));
    WriteSurvivesIff(write.value, next, after, load);
    CatalogFollowsWrites(write, next, after);
  }

  // ---------- What a request is answered ----------

  /** After every run a request that is no refresh is answered at once, with the catalog written
      last, iff there is one; otherwise it joins the newest load, iff that is unfinished;
      otherwise, and always as a refresh, it starts a load of its own. */
  lemma RequestsAreAnswered(events: seq<Event>, refresh: bool, newLoad: LoadId)
    requires Runnable(Initial, events) && Enabled(Run(Initial, events), RequestEvent(refresh, newLoad))
    ensures
      var s := Run(Initial, events);
      var next := Step(s, RequestEvent(refresh, newLoad));
      var written := LastWrite(None, Initial, events);
      var newest := NewestUnfinished(s);
      && next.asks == s.asks + [if !refresh && written.Some? then Ended(Ok(written.value.catalog))
                                else if !refresh && newest.Some? then Joined(newest.value)
                                else Started(newLoad)]
      && next.started == s.started + (if next.asks[|s.asks|] == Started(newLoad) then [newLoad] else [])
  {
    CatalogIsTheLastWritten(events);
    RunKeepsInvariant(Initial, events);
  }

  /** A started ask is the one of a load in flight, and every other load is settled for good; a
      joined ask waits for a load that was started. */
  ghost predicate AsksInvariant(s: System) {
    && (forall load :: load in s.loads ==> Started(load) in s.asks && load in s.started)
    && (forall i :: 0 <= i < |s.asks| && s.asks[i].Started? ==> s.asks[i].load in s.loads)
    && (forall i :: 0 <= i < |s.asks| && s.asks[i].Joined? ==> s.asks[i].load in s.started)
    && (forall load :: load in s.started ==> (load in s.settled <==> load !in s.loads || s.loads[load].SettledWith?))
    && (forall load :: load in s.settled && load in s.loads ==> s.loads[load] == SettledWith(s.settled[load]))
    && (forall load :: load in s.settled ==> load in s.started)
  }

  /** Asks keep their place, and change only by ending with the settled result of their load;
      settled results never change. */
  ghost predicate AsksFollow(s: System, next: System) {
    && |s.asks| <= |next.asks|
    && (forall i :: 0 <= i < |s.asks| ==>
          || next.asks[i] == s.asks[i]
          || (!s.asks[i].Ended? && s.asks[i].load in s.settled
              && next.asks[i] == Ended(s.settled[s.asks[i].load])))
    && (forall load :: load in s.settled ==> load in next.settled && next.settled[load] == s.settled[load])
  }

  lemma RequestKeepsAsks(s: System, e: Event)
    requires AsksInvariant(s) && Invariant(s) && Enabled(s, e) && e.RequestEvent?
    ensures AsksInvariant(Step(s, e)) && AsksFollow(s, Step(s, e))
  {
    var added := Step(s, e).asks[|s.asks|];
    assert Step(s, e).asks == s.asks + [added] && added in Step(s, e).asks;
  }

  lemma FinishKeepsAsks(s: System, e: Event)
    requires AsksInvariant(s) && Enabled(s, e) && e.FinishEvent?
    ensures AsksInvariant(Step(s, e)) && AsksFollow(s, Step(s, e))
  {
    forall l | l in Step(s, e).loads ensures Started(l) in Step(s, e).asks {
      var i :| 0 <= i < |s.asks| && s.asks[i] == Started(l);
      assert Step(s, e).asks[i] == Started(l);
    }
  }

  lemma JoinEndKeepsAsks(s: System, e: Event)
    requires AsksInvariant(s) && Enabled(s, e) && e.JoinEndEvent?
    ensures AsksInvariant(Step(s, e)) && AsksFollow(s, Step(s, e))
  {
    forall l | l in Step(s, e).loads ensures Started(l) in Step(s, e).asks {
      var i :| 0 <= i < |s.asks| && s.asks[i] == Started(l);
      assert Step(s, e).asks[i] == Started(l);
    }
  }

  lemma StepKeepsAsks(s: System, e: Event)
    requires AsksInvariant(s) && Invariant(s) && Enabled(s, e)
    ensures AsksInvariant(Step(s, e)) && AsksFollow(s, Step(s, e))
  {
    match e
    case RequestEvent(_, _) => RequestKeepsAsks(s, e);
    case FinishEvent(_) => FinishKeepsAsks(s, e);
    case JoinEndEvent(_) => JoinEndKeepsAsks(s, e);
    case SettleEvent(_, _) =>
    case AnnounceEvent(_) =>
  }

  lemma {:induction false} RunKeepsAsks(s: System, events: seq<Event>)
    requires AsksInvariant(s) && Invariant(s) && Runnable(s, events)
    ensures AsksInvariant(Run(s, events)) && Invariant(Run(s, events))
    ensures forall load :: load in s.settled ==>
      load in Run(s, events).settled && Run(s, events).settled[load] == s.settled[load]
    decreases |events|
  {
    if events != [] {
      StepKeepsAsks(s, events[0]);
      StepKeepsInvariant(s, events[0]);
      RunKeepsAsks(Step(s, events[0]), events[1..]);
    }
  }

  lemma {:induction false} AskEndsWithItsLoad(s: System, events: seq<Event>, i: nat)
    requires AsksInvariant(s) && Invariant(s) && Runnable(s, events) && i < |s.asks|
    ensures
      var last := Run(s, events);
      && i < |last.asks|
      && (s.asks[i].Ended? ==> last.asks[i] == s.asks[i])
      && (!s.asks[i].Ended? ==>
            if last.asks[i].Ended? then
              s.asks[i].load in last.settled && last.asks[i].answer == last.settled[s.asks[i].load]
            else last.asks[i] == s.asks[i])
    decreases |events|
  {
    if events != [] {
      var next := Step(s, events[0]);
      StepKeepsAsks(s, events[0]);
      StepKeepsInvariant(s, events[0]);
      AskEndsWithItsLoad(next, events[1..], i);
      RunKeepsAsks(next, events[1..]);
    }
  }

  /** Over every run a request ends with the result of the load it joined or started, or with
      the catalog it was answered at once, and what it ends with never changes. While it has
      not ended it waits for that load, and it can end as soon as the load has settled. */
  lemma RequestsEndWithTheirLoad(earlier: seq<Event>, later: seq<Event>, i: nat)
    requires Runnable(Initial, earlier) && Runnable(Run(Initial, earlier), later)
    requires i < |Run(Initial, earlier).asks|
    ensures
      var ask, last := Run(Initial, earlier).asks[i], Run(Run(Initial, earlier), later);
      && i < |last.asks|
      && (ask.Ended? ==> last.asks[i] == ask)
      && (!ask.Ended? && last.asks[i].Ended? ==>
            ask.load in last.settled && last.asks[i].answer == last.settled[ask.load])
      && (!last.asks[i].Ended? ==>
            && last.asks[i] == ask
            && (ask.load in last.settled ==>
                  Enabled(last, if ask.Joined? then JoinEndEvent(i) else FinishEvent(ask.load))))
  {
    RunKeepsAsks(Initial, earlier);
    AskEndsWithItsLoad(Run(Initial, earlier), later, i);
    RunKeepsAsks(Run(Initial, earlier), later);
  }

  /** So a load that was started first and finishes last overwrites what a refresh found. */
  lemma OlderLoadOverwritesARefresh()
    ensures
      var events := [RequestEvent(false, 0), RequestEvent(true, 1), SettleEvent(1, Ok(["new"])),
                     SettleEvent(0, Ok(["old"])), FinishEvent(1)];
      && Runnable(Initial, events) && Runnable(Run(Initial, events), [FinishEvent(0)])
      && Run(Initial, events).slot.catalog == Some(["new"])
      && Run(Run(Initial, events), [FinishEvent(0)]).slot.catalog == Some(["old"])
  {
    var events := [RequestEvent(false, 0), RequestEvent(true, 1), SettleEvent(1, Ok(["new"])),
                   SettleEvent(0, Ok(["old"])), FinishEvent(1)];
    var s1 := Step(Initial, events[0]);
    var s2 := Step(s1, events[1]);
    var s3 := Step(s2, events[2]);
    var s4 := Step(s3, events[3]);
    var s5 := Step(s4, events[4]);
    assert events[1..][0] == events[1] && events[1..][1..] == events[2..];
    assert events[2..][0] == events[2] && events[2..][1..] == events[3..];
    assert events[3..][0] == events[3] && events[3..][1..] == events[4..];
    assert events[4..][0] == events[4] && events[4..][1..] == [];
    assert Runnable(s5, []) && Runnable(s4, events[4..]) && Runnable(s3, events[3..]);
    assert Runnable(s2, events[2..]) && Runnable(s1, events[1..]);
    assert s5 == Run(s4, events[4..]) == Run(s3, events[3..]) == Run(s2, events[2..]) == Run(s1, events[1..]);
    assert s5.slot.catalog == Some(["new"]) && s5.loads[0] == SettledWith(Ok(["old"]));
    var last := [FinishEvent(0)];
    assert last[1..] == [];
    assert Runnable(Step(s5, last[0]), []);
  }
}
