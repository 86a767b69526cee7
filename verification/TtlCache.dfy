/**
 The in-memory cache with lazy expiry (packages/cache/src/in-memory-cache-adapter.ts). The
 class is proved against `Handle`; the main results are when exactly its answers are those of
 a plain timed map, which never removes an expired record, and that they always are when the
 clock does not run backwards.
 */
module TtlCache {
  import opened Common

  datatype Record = Record(expiresAtMs: Option<int>, value: string)

  type Records = map<string, Record>

  predicate Live(record: Record, nowMs: int) {
    record.expiresAtMs.None? || record.expiresAtMs.value > nowMs
  }

  datatype Call =
    | Get(key: string)
    | Set(key: string, value: string, ttlMs: Option<int>)
    | Delete(key: string)

  /** The record a set stores. */
  function Stored(call: Call, nowMs: int): Record
    requires call.Set?
  {
    Record(if call.ttlMs.None? then None else Some(nowMs + call.ttlMs.value), call.value)
  }

  /** One call at a time: the new records, and the answer of a get. */
  function Handle(records: Records, call: Call, nowMs: int): (Records, Option<string>) {
    match call
    case Get(key) =>
      if key !in records then (records, None)
      else if !Live(records[key], nowMs) then (records - {key}, None)
      else (records, Some(records[key].value))
    case Set(key, _, _) => (records[key := Stored(call, nowMs)], None)
    case Delete(key) => (records - {key}, None)
  }

  class InMemoryCache {
    var recordsByKey: Records

    constructor ()
      ensures recordsByKey == map[]
    {
      recordsByKey := map[];
    }

    method GetValue(key: string, nowMs: int) returns (value: Option<string>)
      modifies this
      ensures (recordsByKey, value) == Handle(old(recordsByKey), Get(key), nowMs)
    {
      if key !in recordsByKey {
        return None;
      }
      var record := recordsByKey[key];
      if record.expiresAtMs.Some? && record.expiresAtMs.value <= nowMs {
        recordsByKey := recordsByKey - {key};
        return None;
      }
      value := Some(record.value);
    }

    method SetValue(key: string, value: string, ttlMs: Option<int>, nowMs: int)
      modifies this
      ensures recordsByKey == Handle(old(recordsByKey), Set(key, value, ttlMs), nowMs).0
    {
      recordsByKey := recordsByKey[key := Record(if ttlMs.None? then None else Some(nowMs + ttlMs.value), value)];
    }

    method DeleteValue(key: string, nowMs: int)
      modifies this
      ensures recordsByKey == Handle(old(recordsByKey), Delete(key), nowMs).0
    {
      recordsByKey := recordsByKey - {key};
    }
  }

  // ---------- Whole histories ----------

  datatype Timed = At(nowMs: int, call: Call)

  function RecordsAfter(history: seq<Timed>): Records {
    if history == [] then map[]
    else
      var last := history[|history| - 1];
      Handle(RecordsAfter(history[..|history| - 1]), last.call, last.nowMs).0
  }

  /** The last set of `key` that no later delete removed. */
  function LastSet(history: seq<Timed>, key: string): (r: Option<Timed>)
    ensures r.Some? ==> r.value.call.Set? && r.value.call.key == key
  {
    if history == [] then None
    else
      var last := history[|history| - 1];
      if last.call.Set? && last.call.key == key then Some(last)
      else if last.call.Delete? && last.call.key == key then None
      else LastSet(history[..|history| - 1], key)
  }

  /** A value set at some time lives for ever without a time-to-live, and otherwise until that
      much later. */
  predicate LivesAt(set_: Timed, nowMs: int)
    requires set_.call.Set?
  {
    set_.call.ttlMs.None? || nowMs < set_.nowMs + set_.call.ttlMs.value
  }

  /** Some get since the last set of `key` came when its value lived no longer, and so removed
      it. */
  predicate Removed(history: seq<Timed>, key: string) {
    history != [] &&
    var earlier, last := history[..|history| - 1], history[|history| - 1];
    if last.call.key != key then Removed(earlier, key)
    else if last.call.Get? then
      var set_ := LastSet(earlier, key);
      Removed(earlier, key) || (set_.Some? && !LivesAt(set_.value, last.nowMs))
    else false
  }

  /** What the timed map answers. */
  function TimedAnswer(history: seq<Timed>, key: string, nowMs: int): Option<string> {
    var set_ := LastSet(history, key);
    if set_.Some? && LivesAt(set_.value, nowMs) then Some(set_.value.call.value) else None
  }

  /** The record holds the value of that set, and lives exactly as long. */
  ghost predicate IsRecordOf(record: Record, set_: Timed)
    requires set_.call.Set?
  {
    record.value == set_.call.value && forall nowMs :: Live(record, nowMs) <==> LivesAt(set_, nowMs)
  }

  /** For every history and every clock, what is stored is the last set, unless it has been
      removed. */
  lemma {:induction false} StoredIffNotRemoved(history: seq<Timed>, key: string)
    ensures key in RecordsAfter(history) <==> LastSet(history, key).Some? && !Removed(history, key)
    ensures key in RecordsAfter(history) ==> IsRecordOf(RecordsAfter(history)[key], LastSet(history, key).value)
  {
    if history != [] {
      StoredIffNotRemoved(history[..|history| - 1], key);
    }
  }

  /** For every history and every clock, a get answers like the timed map unless its record
      was removed and would be live now. */
  lemma LazyExpiryIsUnobservableIff(history: seq<Timed>, key: string, nowMs: int)
    ensures Handle(RecordsAfter(history), Get(key), nowMs).1 == TimedAnswer(history, key, nowMs)
            <==> !(Removed(history, key) && LastSet(history, key).Some? && LivesAt(LastSet(history, key).value, nowMs))
  {
    StoredIffNotRemoved(history, key);
  }

  ghost predicate ClockNeverTurnsBack(history: seq<Timed>) {
    forall i, j | 0 <= i < j < |history| :: history[i].nowMs <= history[j].nowMs
  }

  /** With a clock that does not run backwards a removed record has expired for good. */
  lemma {:induction false} RemovedStaysExpired(history: seq<Timed>, key: string, nowMs: int)
    requires ClockNeverTurnsBack(history)
    requires history != [] ==> history[|history| - 1].nowMs <= nowMs
    requires Removed(history, key)
    ensures LastSet(history, key).Some? && !LivesAt(LastSet(history, key).value, nowMs)
  {
    var n := |history| - 1;
    var earlier := history[..n];
    if Removed(earlier, key) {
      if n > 0 {
        assert earlier[n - 1].nowMs <= history[n].nowMs;
      }
      RemovedStaysExpired(earlier, key, history[n].nowMs);
    }
  }

  /** So with such a clock every get answers the last undeleted value set for its key while
      that is live, and nothing otherwise. */
  lemma LazyExpiryIsUnobservable(history: seq<Timed>, key: string, nowMs: int)
    requires ClockNeverTurnsBack(history)
    requires history != [] ==> history[|history| - 1].nowMs <= nowMs
    ensures Handle(RecordsAfter(history), Get(key), nowMs).1 == TimedAnswer(history, key, nowMs)
  {
    LazyExpiryIsUnobservableIff(history, key, nowMs);
    if Removed(history, key) {
      RemovedStaysExpired(history, key, nowMs);
    }
  }

  /** A clock that turns back can give the removal away: a value set to live until 10 is gone
      at 5 when someone looked at 10. */
  lemma TurnedBackClockShowsTheRemoval()
    ensures
      var history := [At(0, Set("k", "v", Some(10))), At(10, Get("k"))];
      && Handle(RecordsAfter(history), Get("k"), 5).1 == None
      && TimedAnswer(history, "k", 5) == Some("v")
  {
    var history := [At(0, Set("k", "v", Some(10))), At(10, Get("k"))];
    assert history[..1] == [At(0, Set("k", "v", Some(10)))] && history[..1][..0] == [];
    assert RecordsAfter(history[..1]) == map["k" := Record(Some(10), "v")];
    assert RecordsAfter(history) == map[];
  }
}
