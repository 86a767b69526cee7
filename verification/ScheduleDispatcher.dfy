/**
 The self-rescheduling dispatcher of apps/control-plane-api/scripts/schedule-dispatcher-dev.ts
 with the scheduler it arms timers on. The main results: while it is not stopped there is
 exactly one timer or one tick iff no tick has read a clock that is not finite, and once
 stopped it never dispatches again.
 */
module ScheduleDispatcher {
  import opened Common

  const MINUTE_MS := 60_000
  const STARTUP_RETRY_DELAY_MS := 1_000

  // ---------- The delay ----------

  /** The remainder of JavaScript, with the sign of the dividend. */
  function Remainder(a: int, b: int): int
    requires b > 0
  {
    if a >= 0 then a % b else -((-a) % b)
  }

  function DelayToNextMinute(nowMs: int): int {
    var remainder := Remainder(nowMs, MINUTE_MS);
    if remainder == 0 then 0 else MINUTE_MS - remainder
  }

  predicate OnTheMinute(ms: int) {
    ms % MINUTE_MS == 0
  }

  /** The delay always ends on a minute. It is the shortest such delay, below one minute,
      exactly when the clock is not negative or already on a minute. */
  lemma DelayEndsOnTheMinute(nowMs: int)
    ensures 0 <= DelayToNextMinute(nowMs) && OnTheMinute(nowMs + DelayToNextMinute(nowMs))
    ensures DelayToNextMinute(nowMs) < MINUTE_MS <==> nowMs >= 0 || OnTheMinute(nowMs)
    ensures nowMs >= 0 ==>
      forall ms :: nowMs <= ms && OnTheMinute(ms) ==> nowMs + DelayToNextMinute(nowMs) <= ms
  {
    var q := nowMs / MINUTE_MS;
    if nowMs >= 0 {
      assert nowMs == q * MINUTE_MS + nowMs % MINUTE_MS;
    } else {
      var k := (-nowMs) / MINUTE_MS;
      assert -nowMs == k * MINUTE_MS + (-nowMs) % MINUTE_MS;
      assert nowMs + DelayToNextMinute(nowMs) == MINUTE_MS * (if (-nowMs) % MINUTE_MS == 0 then -k else 1 - k);
    }
  }

  /** One millisecond before the epoch the next minute is one millisecond away, and the delay is
      a minute longer. */
  lemma NegativeClockWaitsAMinuteMore()
    ensures DelayToNextMinute(-1) == MINUTE_MS + 1 && OnTheMinute(-1 + 1)
  {
    assert 1 % MINUTE_MS == 1;
  }

  // ---------- The dispatcher ----------

  type TimerHandle = nat

  /** The closure's variables; `armed` are the scheduler's timers with their delays. */
  datatype State = State(
    stopped: bool,
    timerHandle: Option<TimerHandle>,
    hasDispatchedSuccessfully: bool,
    armed: map<TimerHandle, int>)

  function ScheduleNext(s: State, handle: TimerHandle, delayMs: int): State {
    s.(timerHandle := Some(handle), armed := s.armed[handle := delayMs])
  }

  function StopState(s: State): State {
    s.(stopped := true, armed := if s.timerHandle.Some? then s.armed - {s.timerHandle.value} else s.armed)
  }

  /** What the clock shows: a finite time, or none, which makes the delay throw. */
  type Clock = Option<int>

  /** The rest of a tick, after its dispatch succeeded or failed. The clock is read once a
      dispatch has succeeded; if it is not finite the tick throws and arms no timer. */
  function FinishTick(s: State, succeeded: bool, nowMs: Clock, handle: TimerHandle): State {
    var noted := s.(hasDispatchedSuccessfully := s.hasDispatchedSuccessfully || succeeded);
    if noted.stopped then noted
    else if !noted.hasDispatchedSuccessfully then ScheduleNext(noted, handle, STARTUP_RETRY_DELAY_MS)
    else if nowMs.None? then noted
    else ScheduleNext(noted, handle, DelayToNextMinute(nowMs.value))
  }

  class DevScheduleDispatcher {
    var stopped: bool
    var timerHandle: Option<TimerHandle>
    var hasDispatchedSuccessfully: bool
    var armed: map<TimerHandle, int>

    ghost function View(): State
      reads this
    {
      State(stopped, timerHandle, hasDispatchedSuccessfully, armed)
    }

    constructor (nowMs: int, handle: TimerHandle)
      ensures View() == ScheduleNext(State(false, None, false, map[]), handle, DelayToNextMinute(nowMs))
    {
      stopped, hasDispatchedSuccessfully := false, false;
      timerHandle, armed := Some(handle), map[handle := DelayToNextMinute(nowMs)];
    }

    method Schedule(handle: TimerHandle, delayMs: int)
      modifies this
      ensures View() == ScheduleNext(old(View()), handle, delayMs)
    {
      armed := armed[handle := delayMs];
      timerHandle := Some(handle);
    }

    /** A timer fires and its tick runs up to the dispatch. */
    method Fire(handle: TimerHandle) returns (dispatches: bool)
      requires handle in armed
      modifies this
      ensures View() == old(View()).(armed := old(armed) - {handle})
      ensures dispatches <==> !stopped
    {
      armed := armed - {handle};
      if stopped {
        return false;
      }
      dispatches := true;
    }

    method AfterDispatch(succeeded: bool, nowMs: Clock, handle: TimerHandle) returns (threw: bool)
      modifies this
      ensures View() == FinishTick(old(View()), succeeded, nowMs, handle)
      ensures threw <==> !stopped && hasDispatchedSuccessfully && nowMs.None?
    {
      if succeeded {
        hasDispatchedSuccessfully := true;
      }
      if stopped {
        return false;
      }
      if hasDispatchedSuccessfully && nowMs.None? {
        return true;
      }
      Schedule(handle, if hasDispatchedSuccessfully then DelayToNextMinute(nowMs.value) else STARTUP_RETRY_DELAY_MS);
      threw := false;
    }

    method Stop()
      modifies this
      ensures View() == StopState(old(View()))
    {
      stopped := true;
      if timerHandle.Some? {
        armed := armed - {timerHandle.value};
      }
    }
  }

  // ---------- Interleavings ----------

  /** `inFlight` counts ticks waiting for their dispatch, `dispatches` those ever begun. */
  datatype System = System(state: State, inFlight: nat, dispatches: nat)

  datatype Event =
    | FireEvent(handle: TimerHandle)
    | DispatchedEvent(succeeded: bool, nowMs: Clock, handle: TimerHandle)
    | StopEvent

  predicate Enabled(s: System, e: Event) {
    match e
    case FireEvent(handle) => handle in s.state.armed
    case DispatchedEvent(_, _, handle) => s.inFlight > 0 && handle !in s.state.armed
    case StopEvent => true
  }

  function Step(s: System, e: Event): System
    requires Enabled(s, e)
  {
    match e
    case FireEvent(handle) =>
      var fired := s.state.(armed := s.state.armed - {handle});
      if s.state.stopped then s.(state := fired) else System(fired, s.inFlight + 1, s.dispatches + 1)
    case DispatchedEvent(succeeded, nowMs, handle) =>
      s.(state := FinishTick(s.state, succeeded, nowMs, handle), inFlight := s.inFlight - 1)
    case StopEvent => s.(state := StopState(s.state))
  }

  function Started(nowMs: int, handle: TimerHandle): System {
    System(ScheduleNext(State(false, None, false, map[]), handle, DelayToNextMinute(nowMs)), 0, 0)
  }

  predicate Runnable(s: System, events: seq<Event>)
    decreases |events|
  {
    events == [] || (Enabled(s, events[0]) && Runnable(Step(s, events[0]), events[1..]))
  }

  function Run(s: System, events: seq<Event>): System
    requires Runnable(s, events)
    decreases |events|
  {
    if events == [] then s else Run(Step(s, events[0]), events[1..])
  }

  /** What every run keeps: never more than one timer or tick, and no timer once stopped. */
  ghost predicate AtMostOne(s: System) {
    && |s.state.armed| + s.inFlight <= 1
    && (s.state.stopped ==> s.state.armed == map[])
    && (forall handle :: handle in s.state.armed ==> s.state.timerHandle == Some(handle))
  }

  ghost predicate Alive(s: System) {
    AtMostOne(s) && (!s.state.stopped ==> |s.state.armed| + s.inFlight == 1)
  }

  /** The rest of this tick reads the clock and finds it not finite. */
  predicate ClockFails(s: System, e: Event) {
    && e.DispatchedEvent? && e.nowMs.None?
    && !s.state.stopped && (s.state.hasDispatchedSuccessfully || e.succeeded)
  }

  predicate AnyClockFails(s: System, events: seq<Event>)
    requires Runnable(s, events)
    decreases |events|
  {
    events != [] && (ClockFails(s, events[0]) || AnyClockFails(Step(s, events[0]), events[1..]))
  }

  lemma StepKeepsAtMostOne(s: System, e: Event)
    requires AtMostOne(s) && Enabled(s, e)
    ensures AtMostOne(Step(s, e))
    ensures s.state.stopped ==> Step(s, e).state.stopped && Step(s, e).dispatches == s.dispatches
    ensures Alive(s) ==>
      var next := Step(s, e);
      if ClockFails(s, e) then next.state.armed == map[] && next.inFlight == 0 else Alive(next)
  {
    match e
    case FireEvent(handle) =>
      assert |s.state.armed - {handle}| == |s.state.armed| - 1 by {
        RemovedOne(s.state.armed, handle);
      }
    case DispatchedEvent(_, _, handle) =>
      assert |s.state.armed| == 0;
      assert s.state.armed == map[];
    case StopEvent =>
      if s.state.armed != map[] {
        var handle :| handle in s.state.armed;
        assert Step(s, e).state.armed == map[];
      }
  }

  lemma RemovedOne(m: map<TimerHandle, int>, handle: TimerHandle)
    requires handle in m
    ensures |m - {handle}| == |m| - 1
  {
    assert (m - {handle}).Keys == m.Keys - {handle};
    assert |m.Keys - {handle}| == |m.Keys| - 1;
    assert |m| == |m.Keys| && |m - {handle}| == |(m - {handle}).Keys|;
  }

  /** Without a timer or a tick nothing ever begins again. */
  lemma {:induction false} LostStaysLost(s: System, events: seq<Event>)
    requires s.state.armed == map[] && s.inFlight == 0 && Runnable(s, events)
    ensures Run(s, events).state.armed == map[] && Run(s, events).inFlight == 0
    ensures AtMostOne(Run(s, events)) && Run(s, events).dispatches == s.dispatches
    decreases |events|
  {
    if events != [] {
      assert Step(s, events[0]).state.armed == map[];
      LostStaysLost(Step(s, events[0]), events[1..]);
    }
  }

  /** Armed timers and ticks in flight are never more than one together, and while not stopped
      exactly one iff no tick has read a clock that is not finite. A stopped dispatcher has no
      timer and begins no dispatch. */
  lemma {:induction false} DispatcherStaysAlive(s: System, events: seq<Event>)
    requires Alive(s) && Runnable(s, events)
    ensures AtMostOne(Run(s, events))
    ensures !Run(s, events).state.stopped ==>
      (|Run(s, events).state.armed| + Run(s, events).inFlight == 1 <==> !AnyClockFails(s, events))
    ensures s.state.stopped ==> Run(s, events).state.stopped && Run(s, events).dispatches == s.dispatches
    decreases |events|
  {
    if events != [] {
      StepKeepsAtMostOne(s, events[0]);
      if ClockFails(s, events[0]) {
        LostStaysLost(Step(s, events[0]), events[1..]);
      } else {
        DispatcherStaysAlive(Step(s, events[0]), events[1..]);
      }
    }
  }

  lemma StartedIsAlive(nowMs: int, handle: TimerHandle)
    ensures Alive(Started(nowMs, handle))
  {
    assert |map[handle := DelayToNextMinute(nowMs)]| == 1;
  }

  /** A run that is lost: the tick of the first success reads a clock that is not finite. */
  lemma NonFiniteClockEndsTheTimers(nowMs: int, handle: TimerHandle, next: TimerHandle)
    ensures
      var started, events := Started(nowMs, handle), [FireEvent(handle), DispatchedEvent(true, None, next)];
      && Runnable(started, events) && !Run(started, events).state.stopped
      && Run(started, events).state.armed == map[] && Run(started, events).inFlight == 0
  {
    var started, events := Started(nowMs, handle), [FireEvent(handle), DispatchedEvent(true, None, next)];
    LostAfterOneSuccess(started, handle, next);
    TwoSteps(started, events);
  }

  lemma LostAfterOneSuccess(s: System, handle: TimerHandle, next: TimerHandle)
    requires s.state.armed.Keys == {handle} && s.inFlight == 0 && !s.state.stopped
    ensures
      var fired := Step(s, FireEvent(handle));
      && Enabled(fired, DispatchedEvent(true, None, next))
      && var lost := Step(fired, DispatchedEvent(true, None, next));
      !lost.state.stopped && lost.state.armed == map[] && lost.inFlight == 0
  {
    var fired := Step(s, FireEvent(handle));
    assert fired.state.armed.Keys == {};
  }

  lemma TwoSteps(s: System, events: seq<Event>)
    requires |events| == 2 && Enabled(s, events[0]) && Enabled(Step(s, events[0]), events[1])
    ensures Runnable(s, events) && Run(s, events) == Step(Step(s, events[0]), events[1])
  {
    var one := Step(s, events[0]);
    var two := Step(one, events[1]);
    assert events[1..][0] == events[1] && events[1..][1..] == [];
    assert Runnable(two, []) && Run(two, []) == two;
    assert Runnable(one, events[1..]) && Run(one, events[1..]) == two;
  }

  predicate IsSuccess(e: Event) {
    e.DispatchedEvent? && e.succeeded
  }

  ghost predicate AnySuccess(events: seq<Event>) {
    exists e :: e in events && IsSuccess(e)
  }

  /** The dispatcher remembers exactly whether any dispatch has succeeded so far. */
  lemma {:induction false} SuccessIsRemembered(s: System, events: seq<Event>)
    requires Runnable(s, events)
    ensures Run(s, events).state.hasDispatchedSuccessfully
            <==> s.state.hasDispatchedSuccessfully || AnySuccess(events)
    decreases |events|
  {
    if events != [] {
      var next := Step(s, events[0]);
      SuccessIsRemembered(next, events[1..]);
      assert next.state.hasDispatchedSuccessfully <==> s.state.hasDispatchedSuccessfully || IsSuccess(events[0]);
      assert AnySuccess(events) <==> IsSuccess(events[0]) || AnySuccess(events[1..]) by {
        assert forall e :: e in events <==> e == events[0] || e in events[1..];
      }
    }
  }

  /** So after every dispatch of a running dispatcher the one armed timer is due after one
      second until a dispatch has succeeded, and on the next minute from then on, as long as
      the clock is finite. */
  lemma RetriesUntilTheFirstSuccess(s: System, events: seq<Event>, e: Event)
    requires Alive(s) && Runnable(s, events) && !s.state.hasDispatchedSuccessfully
    requires e.DispatchedEvent? && Enabled(Run(s, events), e) && !Run(s, events).state.stopped
    ensures Step(Run(s, events), e).state.armed
            == if !AnySuccess(events) && !IsSuccess(e) then map[e.handle := STARTUP_RETRY_DELAY_MS]
               else if e.nowMs.Some? then map[e.handle := DelayToNextMinute(e.nowMs.value)]
               else map[]
  {
    SuccessIsRemembered(s, events);
    DispatcherStaysAlive(s, events);
    assert |Run(s, events).state.armed| == 0;
    assert Run(s, events).state.armed == map[];
  }
}
