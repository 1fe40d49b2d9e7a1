/**
 * The process-global cache dictionary shared by the three tracker variants:
 * its keys, the values stored under them, and the group of four keys that
 * together make up a running timer. A snapshot is the cache as a value; the
 * cache file holds one.
 */
module TimerState {
  import opened Clockify

  datatype Option<T> = None | Some(value: T)

  /** The cache's keys; `Other` stands for any other key a stored file
    * may carry. */
  datatype Key =
    | CurrentTimeEntry | CurrentTimeEntryId | StartTimestamp | LastActiveTimestamp
    | TodayStartTimestamp | TodayActiveTime | Exit
    | Other(name: string)

  /** The JSON values the tracker stores: the entry body, the remote id,
    * a timestamp or duration in seconds, and the exit flag. */
  datatype Value = EntryVal(entry: TimeEntry) | IdVal(id: nat) | Num(n: int) | Flag(b: bool)

  type Snapshot = map<Key, Value>

  /** The keys `start_timer` adds and `stop_timer` deletes together. */
  const TimerKeys: set<Key> := {CurrentTimeEntry, CurrentTimeEntryId, StartTimestamp, LastActiveTimestamp}

  /** `is_timer_running`: the presence of `current_time_entry` alone. */
  predicate Running(c: Snapshot)
  {
    CurrentTimeEntry in c
  }

  /** A running timer is one unit: its four keys are all there or none is. */
  predicate TimerWhole(c: Snapshot)
  {
    TimerKeys <= c.Keys || TimerKeys !! c.Keys
  }

  /** Each known key holds the kind of value the tracker writes under it. */
  predicate WellTyped(c: Snapshot)
  {
    && (CurrentTimeEntry in c ==> c[CurrentTimeEntry].EntryVal?)
    && (CurrentTimeEntryId in c ==> c[CurrentTimeEntryId].IdVal?)
    && (StartTimestamp in c ==> c[StartTimestamp].Num?)
    && (LastActiveTimestamp in c ==> c[LastActiveTimestamp].Num?)
    && (TodayStartTimestamp in c ==> c[TodayStartTimestamp].Num?)
    && (TodayActiveTime in c ==> c[TodayActiveTime].Num?)
    && (Exit in c ==> c[Exit].Flag?)
  }

  predicate WellFormed(c: Snapshot)
  {
    WellTyped(c) && TimerWhole(c)
  }

  /** `CACHE.get('exit', False)` is true. */
  predicate ExitSet(c: Snapshot)
  {
    Exit in c && c[Exit] == Flag(true)
  }

  function EntryOf(c: Snapshot): TimeEntry
    requires WellFormed(c) && Running(c)
  {
    c[CurrentTimeEntry].entry
  }

  function IdOf(c: Snapshot): nat
    requires WellFormed(c) && Running(c)
  {
    c[CurrentTimeEntryId].id
  }

  function StartOf(c: Snapshot): int
    requires WellFormed(c) && Running(c)
  {
    c[StartTimestamp].n
  }

  function LastActiveOf(c: Snapshot): int
    requires WellFormed(c) && Running(c)
  {
    c[LastActiveTimestamp].n
  }

  /** The four assignments `start_timer` makes after the create call. */
  function Open(c: Snapshot, entry: TimeEntry, id: nat, now: int): (r: Snapshot)
    requires WellFormed(c) && !Running(c)
    ensures WellFormed(r) && Running(r)
    ensures EntryOf(r) == entry && IdOf(r) == id && StartOf(r) == now && LastActiveOf(r) == now
    ensures r.Keys == c.Keys + TimerKeys
    ensures forall k :: k in c && k !in TimerKeys ==> r[k] == c[k]
  {
    c[CurrentTimeEntry := EntryVal(entry)][CurrentTimeEntryId := IdVal(id)]
     [StartTimestamp := Num(now)][LastActiveTimestamp := Num(now)]
  }

  /** The four deletions `stop_timer` makes after the update call. */
  function Close(c: Snapshot): (r: Snapshot)
    requires WellFormed(c)
    ensures WellFormed(r) && !Running(r)
    ensures r.Keys == c.Keys - TimerKeys
    ensures forall k :: k in r ==> r[k] == c[k]
  {
    c - TimerKeys
  }

  /** Closing a timer right after opening it gives back the cache it was
    * opened on. */
  lemma CloseUndoesOpen(c: Snapshot, entry: TimeEntry, id: nat, now: int)
    requires WellFormed(c) && !Running(c)
    ensures Close(Open(c, entry, id, now)) == c
  {
    var r := Close(Open(c, entry, id, now));
    assert r.Keys == c.Keys;
  }

  /** `load_cache`: every stored key/value is copied into the cache,
    * overwriting on a clash; keys the file lacks keep their value. */
  function Merge(c: Snapshot, stored: Snapshot): (r: Snapshot)
    ensures r.Keys == c.Keys + stored.Keys
    ensures forall k :: k in stored ==> r[k] == stored[k]
    ensures forall k :: k in c && k !in stored ==> r[k] == c[k]
  {
    c + stored
  }

  /** Merging two well-formed snapshots keeps the timer a unit. */
  lemma MergeWellFormed(c: Snapshot, stored: Snapshot)
    requires WellFormed(c) && WellFormed(stored)
    ensures WellFormed(Merge(c, stored))
  {
  }

  /** A fresh process that loads a dumped snapshot gets that snapshot back. */
  lemma LoadAfterDump(stored: Snapshot)
    ensures Merge(map[], stored) == stored
  {
  }

  /** The timestamps of a running timer are in order and not ahead of
    * the clock. */
  predicate Ordered(c: Snapshot, now: int)
    requires WellFormed(c)
  {
    Running(c) ==> StartOf(c) <= LastActiveOf(c) <= now
  }

  /** The effect of one operation: the new cache and the requests sent. */
  datatype Step = Step(cache: Snapshot, calls: seq<Call>)

  /** Two operations one after the other. */
  function Then(first: Step, second: Step): Step
  {
    Step(second.cache, first.calls + second.calls)
  }

  /** Number of creates among `calls`. */
  function CreateCount(calls: seq<Call>): (n: nat)
    ensures n <= |calls|
  {
    if calls == [] then 0
    else (if calls[0].Create? then 1 else 0) + CreateCount(calls[1..])
  }

  lemma {:induction false} CreateCountAppend(a: seq<Call>, b: seq<Call>)
    ensures CreateCount(a + b) == CreateCount(a) + CreateCount(b)
  {
    if a == [] {
      assert a + b == b;
    } else {
      assert (a + b)[0] == a[0];
      assert (a + b)[1..] == a[1..] + b;
      CreateCountAppend(a[1..], b);
    }
  }

  lemma CreateCountSingle(call: Call)
    ensures CreateCount([call]) == if call.Create? then 1 else 0
  {
    assert [call][1..] == [];
  }

  /** `LOOP_TIME`, `IDLE_THRESHOLD` (seconds) and the machine's offset from
    * UTC (seconds), which fixes the local calendar. */
  datatype Config = Config(loopTime: int, idleThreshold: int, utcOffset: int)

  function Max(a: int, b: int): int
  {
    if a < b then b else a
  }

  /** Sleep/suspend rule: more than twice the larger of the check period
    * and the idle threshold has passed since the last active tick. */
  predicate Slept(c: Snapshot, now: int, cfg: Config)
    requires WellFormed(c) && Running(c)
  {
    now - LastActiveOf(c) > Max(cfg.loopTime, cfg.idleThreshold) * 2
  }

  /** `get_idle_duration() > IDLE_THRESHOLD`, with the idle reading in
    * milliseconds (the sensor's unit) so the strict comparison is exact. */
  predicate IsIdle(idleMillis: nat, cfg: Config)
  {
    idleMillis > cfg.idleThreshold * 1000
  }

  /** What one tick reads from the outside: the clock and the idle sensor. */
  datatype Reading = Reading(now: int, idleMillis: nat)
}
