/**
 * The newest tracker variant (`clockify_idleless/idleless.py`): an exit
 * flag, a local-date midnight rule, and a daily accumulator of closed
 * entry time (`today_start_timestamp`, `today_active_time`).
 */
module Idleless {
  import opened Clockify
  import opened TimerState
  import opened Calendar

  /** The two keys of the daily accumulator. */
  const DailyKeys: set<Key> := {TodayStartTimestamp, TodayActiveTime}

  /** The cache invariant of this variant: well-formed, and a running timer
    * or a day marker always comes with `today_active_time`, which
    * `stop_timer` adds to. */
  predicate Consistent(c: Snapshot)
  {
    && WellFormed(c)
    && (TodayStartTimestamp in c ==> TodayActiveTime in c)
    && (Running(c) ==> TodayActiveTime in c)
  }

  /** `CACHE.get('today_start_timestamp', 0)`. */
  function TodayStartOr0(c: Snapshot): int
    requires WellTyped(c)
  {
    if TodayStartTimestamp in c then c[TodayStartTimestamp].n else 0
  }

  function ActiveToday(c: Snapshot): int
    requires WellTyped(c) && TodayActiveTime in c
  {
    c[TodayActiveTime].n
  }

  /** The clock reads a time past the local date of the Unix epoch, so a
    * missing day marker always counts as an earlier day. */
  predicate AfterEpochDay(now: int, cfg: Config)
  {
    LocalDay(now, cfg.utcOffset) != LocalDay(0, cfg.utcOffset)
  }

  /** The day marker lies on another local date than `now`. */
  predicate NewDay(c: Snapshot, now: int, cfg: Config)
    requires WellTyped(c)
  {
    LocalDay(TodayStartOr0(c), cfg.utcOffset) != LocalDay(now, cfg.utcOffset)
  }

  /** `start_timer` at time `now`, with `id` the answer of the create. */
  function Start(c: Snapshot, now: int, entry: TimeEntry, id: nat, cfg: Config): (r: Step)
    requires Consistent(c) && AfterEpochDay(now, cfg)
    ensures Consistent(r.cache) && Running(r.cache)
    ensures Running(c) ==> r == Step(c, [])
    ensures !Running(c) ==>
      && r.calls == [Create(id)]
      && EntryOf(r.cache) == entry && IdOf(r.cache) == id
      && StartOf(r.cache) == now && LastActiveOf(r.cache) == now
      && r.cache.Keys == c.Keys + TimerKeys + (if NewDay(c, now, cfg) then DailyKeys else {})
      && (NewDay(c, now, cfg) ==> TodayStartOr0(r.cache) == now && ActiveToday(r.cache) == 0)
      && (forall k :: k in c && k !in TimerKeys && (k in DailyKeys ==> !NewDay(c, now, cfg)) ==>
            r.cache[k] == c[k])
  {
    if Running(c) then Step(c, [])
    else
      var withTimer := Open(c, entry, id, now);
      var reset := withTimer[TodayStartTimestamp := Num(now)][TodayActiveTime := Num(0)];
      Step(if NewDay(c, now, cfg) then reset else withTimer, [Create(id)])
  }

  /** `stop_timer` with end timestamp `end`. */
  function Stop(c: Snapshot, end: int): (r: Step)
    requires Consistent(c)
    ensures Consistent(r.cache) && !Running(r.cache)
    ensures !Running(c) ==> r == Step(c, [])
    ensures Running(c) ==>
      && r.calls == [Update(IdOf(c), end)]
      && r.cache.Keys == c.Keys - TimerKeys
      && ActiveToday(r.cache) == ActiveToday(c) + (end - StartOf(c))
      && (forall k :: k in r.cache && k != TodayActiveTime ==> r.cache[k] == c[k])
  {
    if !Running(c) then Step(c, [])
    else
      var total := ActiveToday(c) + (end - StartOf(c));
      Step(Close(c)[TodayActiveTime := Num(total)], [Update(IdOf(c), end)])
  }

  /** Midnight rule: today's local date is later than the start's. */
  predicate CrossedMidnight(c: Snapshot, now: int, cfg: Config)
    requires WellFormed(c) && Running(c)
  {
    LocalDay(now, cfg.utcOffset) > LocalDay(StartOf(c), cfg.utcOffset)
  }

  /** The first two rules of `idle_check`: the end at which a running timer
    * is closed before idleness is looked at, if it is. */
  function ClosingEnd(c: Snapshot, now: int, cfg: Config): (end: Option<int>)
    requires WellFormed(c)
    ensures end.Some? ==> Running(c)
    ensures Running(c) && Slept(c, now, cfg) ==> end == Some(LastActiveOf(c))
    ensures Running(c) && !Slept(c, now, cfg) ==> (end.Some? <==> CrossedMidnight(c, now, cfg))
    ensures Running(c) && !Slept(c, now, cfg) && end.Some? ==> end.value == now
    ensures Ordered(c, now) && end.Some? ==> StartOf(c) <= end.value <= now
    ensures Ordered(c, now) && Running(c) && end.None? ==>
      LocalDay(StartOf(c), cfg.utcOffset) == LocalDay(now, cfg.utcOffset)
  {
    if !Running(c) then None
    else if Slept(c, now, cfg) then Some(LastActiveOf(c))
    else if CrossedMidnight(c, now, cfg) then Some(now)
    else
      (if StartOf(c) <= now then LocalDayMonotone(StartOf(c), now, cfg.utcOffset); None else None)
  }

  /** The cache after the first two rules. */
  function CloseStale(c: Snapshot, now: int, cfg: Config): (r: Step)
    requires Consistent(c)
    ensures Consistent(r.cache)
  {
    match ClosingEnd(c, now, cfg)
    case Some(end) => Stop(c, end)
    case None => Step(c, [])
  }

  /** `idle_check` at time `now` with idle reading `idleMillis`; `id` is what
    * a create in this tick is answered with. */
  function Tick(c: Snapshot, now: int, idleMillis: nat, entry: TimeEntry, id: nat, cfg: Config): (r: Step)
    requires Consistent(c) && AfterEpochDay(now, cfg)
    ensures Consistent(r.cache)
    ensures ExitSet(c) ==> r == Step(c, [])
    ensures !ExitSet(c) ==> (Running(r.cache) <==> !IsIdle(idleMillis, cfg))
    ensures !ExitSet(c) && Running(r.cache) ==> LastActiveOf(r.cache) == now
    ensures forall k :: k !in TimerKeys && k !in DailyKeys ==>
      (k in r.cache <==> k in c) && (k in c ==> r.cache[k] == c[k])
  {
    if ExitSet(c) then Step(c, [])
    else
      var closed := CloseStale(c, now, cfg);
      if IsIdle(idleMillis, cfg) then Then(closed, Stop(closed.cache, now))
      else
        var started := Then(closed, Start(closed.cache, now, entry, id, cfg));
        Step(started.cache[LastActiveTimestamp := Num(now)], started.calls)
  }

  /** Sleep/suspend: the entry is closed at the last active time, not at
    * `now`, and the current idle reading is then judged in the same tick. */
  lemma TickClosesSleptTimer(c: Snapshot, now: int, idleMillis: nat, entry: TimeEntry, id: nat, cfg: Config)
    requires Consistent(c) && AfterEpochDay(now, cfg)
    requires !ExitSet(c) && Running(c) && Slept(c, now, cfg)
    ensures Tick(c, now, idleMillis, entry, id, cfg).calls ==
      [Update(IdOf(c), LastActiveOf(c))] + (if IsIdle(idleMillis, cfg) then [] else [Create(id)])
  {
  }

  /** Midnight: an entry started on an earlier local date is closed at
    * `now`; if the user is present a new entry starts at `now`, and when the
    * day marker is no later than the old start the accumulator restarts. */
  lemma TickSplitsAtMidnight(c: Snapshot, now: int, idleMillis: nat, entry: TimeEntry, id: nat, cfg: Config)
    requires Consistent(c) && AfterEpochDay(now, cfg)
    requires !ExitSet(c) && Running(c) && !Slept(c, now, cfg) && CrossedMidnight(c, now, cfg)
    requires LocalDay(TodayStartOr0(c), cfg.utcOffset) <= LocalDay(StartOf(c), cfg.utcOffset)
    ensures var r := Tick(c, now, idleMillis, entry, id, cfg);
      && r.calls == [Update(IdOf(c), now)] + (if IsIdle(idleMillis, cfg) then [] else [Create(id)])
      && (!IsIdle(idleMillis, cfg) ==>
            StartOf(r.cache) == now && IdOf(r.cache) == id
            && TodayStartOr0(r.cache) == now && ActiveToday(r.cache) == 0)
  {
  }

  /** A running entry's day marker lies on the local date the entry
    * started on. */
  predicate MarkerOnStartDay(c: Snapshot, cfg: Config)
    requires WellFormed(c)
  {
    Running(c) ==> LocalDay(TodayStartOr0(c), cfg.utcOffset) == LocalDay(StartOf(c), cfg.utcOffset)
  }

  /** Every tick keeps the day marker on the running entry's start date, so
    * the marker condition of `TickSplitsAtMidnight` holds in every state
    * the tracker reaches from one without a running entry. */
  lemma TickKeepsMarkerOnStartDay(c: Snapshot, now: int, idleMillis: nat, entry: TimeEntry, id: nat, cfg: Config)
    requires Consistent(c) && AfterEpochDay(now, cfg) && MarkerOnStartDay(c, cfg)
    ensures MarkerOnStartDay(Tick(c, now, idleMillis, entry, id, cfg).cache, cfg)
  {
    if !ExitSet(c) && !IsIdle(idleMillis, cfg) {
      var closed := CloseStale(c, now, cfg);
      assert Running(closed.cache) ==> closed.cache == c;
    }
  }

  /** Idle past the threshold with no earlier rule firing: the entry is
    * closed at `now` and its whole duration is added to today's total. */
  lemma TickStopsIdleTimer(c: Snapshot, now: int, idleMillis: nat, entry: TimeEntry, id: nat, cfg: Config)
    requires Consistent(c) && AfterEpochDay(now, cfg)
    requires !ExitSet(c) && Running(c) && !Slept(c, now, cfg) && !CrossedMidnight(c, now, cfg)
    requires IsIdle(idleMillis, cfg)
    ensures var r := Tick(c, now, idleMillis, entry, id, cfg);
      && r.calls == [Update(IdOf(c), now)] && !Running(r.cache)
      && ActiveToday(r.cache) == ActiveToday(c) + (now - StartOf(c))
  {
  }

  /** From stopped, a present user gets a new entry started at `now` with
    * the id the service answered. */
  lemma TickStartsWhenPresent(c: Snapshot, now: int, idleMillis: nat, entry: TimeEntry, id: nat, cfg: Config)
    requires Consistent(c) && AfterEpochDay(now, cfg)
    requires !ExitSet(c) && !Running(c) && !IsIdle(idleMillis, cfg)
    ensures var r := Tick(c, now, idleMillis, entry, id, cfg);
      && r.calls == [Create(id)]
      && StartOf(r.cache) == now && IdOf(r.cache) == id && LastActiveOf(r.cache) == now
  {
  }

  /** Heartbeat: a running entry that no rule closes only gets its last
    * active time moved to `now`; no request is sent. */
  lemma TickHeartbeat(c: Snapshot, now: int, idleMillis: nat, entry: TimeEntry, id: nat, cfg: Config)
    requires Consistent(c) && AfterEpochDay(now, cfg)
    requires !ExitSet(c) && Running(c) && !Slept(c, now, cfg) && !CrossedMidnight(c, now, cfg)
    requires !IsIdle(idleMillis, cfg)
    ensures Tick(c, now, idleMillis, entry, id, cfg) == Step(c[LastActiveTimestamp := Num(now)], [])
  {
  }

  /** The requests `r` sent from state `c` are at most one update, for the
    * entry open in `c`, then at most one create, answered with `id`; a timer
    * still running afterwards is the old one with nothing sent, or the new
    * one. */
  predicate CallsFollowOpen(c: Snapshot, r: Step, id: nat)
    requires WellFormed(c) && WellFormed(r.cache)
  {
    && |r.calls| <= 2
    && (forall i :: 0 <= i < |r.calls| && r.calls[i].Update? ==>
          i == 0 && Running(c) && r.calls[i].id == IdOf(c))
    && (forall i :: 0 <= i < |r.calls| && r.calls[i].Create? ==>
          i == |r.calls| - 1 && r.calls[i] == Create(id))
    && (Running(r.cache) ==>
          (Running(c) && IdOf(r.cache) == IdOf(c) && r.calls == [])
          || (IdOf(r.cache) == id && r.calls != [] && r.calls[|r.calls| - 1] == Create(id)))
  }

  /** A tick sends at most one update, for the entry that was open, and at
    * most one create, after it. */
  lemma TickUpdatesOnlyOpenEntry(c: Snapshot, now: int, idleMillis: nat, entry: TimeEntry, id: nat, cfg: Config)
    requires Consistent(c) && AfterEpochDay(now, cfg)
    ensures CallsFollowOpen(c, Tick(c, now, idleMillis, entry, id, cfg), id)
  {
    if !ExitSet(c) {
      if IsIdle(idleMillis, cfg) {
        IdleTickFollowsOpen(c, now, id, cfg);
      } else {
        PresentTickFollowsOpen(c, now, entry, id, cfg);
      }
    }
  }

  /** The idle branch of a tick: the first two rules, then `stop_timer`. */
  lemma IdleTickFollowsOpen(c: Snapshot, now: int, id: nat, cfg: Config)
    requires Consistent(c)
    ensures var closed := CloseStale(c, now, cfg);
      CallsFollowOpen(c, Then(closed, Stop(closed.cache, now)), id)
  {
    var closed := CloseStale(c, now, cfg);
    CloseStaleSendsAtMostUpdate(c, now, cfg);
    var stopped := Stop(closed.cache, now);
    assert closed.calls != [] ==> stopped.calls == [];
  }

  /** The present branch of a tick: the first two rules, `start_timer`,
    * then the heartbeat. */
  lemma PresentTickFollowsOpen(c: Snapshot, now: int, entry: TimeEntry, id: nat, cfg: Config)
    requires Consistent(c) && AfterEpochDay(now, cfg)
    ensures var closed := CloseStale(c, now, cfg);
      var started := Then(closed, Start(closed.cache, now, entry, id, cfg));
      CallsFollowOpen(c, Step(started.cache[LastActiveTimestamp := Num(now)], started.calls), id)
  {
    var closed := CloseStale(c, now, cfg);
    CloseStaleSendsAtMostUpdate(c, now, cfg);
    var started := Start(closed.cache, now, entry, id, cfg);
    var r := Step(started.cache[LastActiveTimestamp := Num(now)], closed.calls + started.calls);
    assert IdOf(r.cache) == IdOf(started.cache);
    StartFollowsOpen(c, closed, started, r, id);
  }

  /** Sending at most one update for the open entry, then `start_timer`'s
    * create if that left no timer running, keeps to `CallsFollowOpen`. */
  lemma StartFollowsOpen(c: Snapshot, closed: Step, started: Step, r: Step, id: nat)
    requires WellFormed(c) && WellFormed(closed.cache) && WellFormed(started.cache) && WellFormed(r.cache)
    requires || (closed.calls == [] && closed.cache == c)
             || (Running(c) && |closed.calls| == 1 && closed.calls[0].Update?
                 && closed.calls[0].id == IdOf(c) && !Running(closed.cache))
    requires Running(closed.cache) ==> started == Step(closed.cache, [])
    requires !Running(closed.cache) ==> started.calls == [Create(id)] && Running(started.cache) && IdOf(started.cache) == id
    requires r.calls == closed.calls + started.calls
    requires Running(r.cache) && IdOf(r.cache) == IdOf(started.cache)
    ensures CallsFollowOpen(c, r, id)
  {
  }

  /** The first two rules send nothing and leave the cache as it was, or
    * send one update for the open entry and leave no timer running. */
  lemma CloseStaleSendsAtMostUpdate(c: Snapshot, now: int, cfg: Config)
    requires Consistent(c)
    ensures var closed := CloseStale(c, now, cfg);
      || (closed.calls == [] && closed.cache == c)
      || (Running(c) && closed.calls == [Update(IdOf(c), ClosingEnd(c, now, cfg).value)]
          && !Running(closed.cache))
  {
  }

  /** With a clock that does not run backwards, today's total never drops,
    * except that it restarts at 0 when a new entry opens on a later local
    * date than the day marker; and a running entry's start stays no later
    * than its last active time. */
  lemma {:induction false} TickAccumulator(c: Snapshot, now: int, idleMillis: nat, entry: TimeEntry, id: nat, cfg: Config)
    requires Consistent(c) && AfterEpochDay(now, cfg) && Ordered(c, now)
    requires TodayActiveTime in c
    ensures var r := Tick(c, now, idleMillis, entry, id, cfg).cache;
      && TodayActiveTime in r
      && (|| ActiveToday(r) >= ActiveToday(c)
          || (ActiveToday(r) == 0 && TodayStartOr0(r) == now && NewDay(c, now, cfg)))
      && Ordered(r, now)
  {
    if !ExitSet(c) {
      var closed := CloseStale(c, now, cfg);
      assert TodayActiveTime in closed.cache && ActiveToday(closed.cache) >= ActiveToday(c);
      assert TodayStartOr0(closed.cache) == TodayStartOr0(c);
    }
  }

  /** The date rule leaves no entry spanning midnight: after a tick, a
    * running entry started on today's local date. */
  lemma TickLeavesNoEntryAcrossMidnight(c: Snapshot, now: int, idleMillis: nat, entry: TimeEntry, id: nat, cfg: Config)
    requires Consistent(c) && AfterEpochDay(now, cfg) && !ExitSet(c) && Ordered(c, now)
    ensures var r := Tick(c, now, idleMillis, entry, id, cfg).cache;
      Running(r) ==> LocalDay(StartOf(r), cfg.utcOffset) == LocalDay(now, cfg.utcOffset)
  {
    if Running(c) {
      LocalDayMonotone(StartOf(c), now, cfg.utcOffset);
    }
  }

  /** What `exit_app` leaves: the cache, the snapshot it wrote (if any) and
    * the requests it sent. */
  datatype Exited = Exited(cache: Snapshot, written: Option<Snapshot>, calls: seq<Call>)

  /** `exit_app` at time `now`: stop any running entry, dump the cache, and
    * only then set the exit flag. */
  function Shutdown(c: Snapshot, now: int): (r: Exited)
    requires Consistent(c)
    ensures r.written.Some? && Consistent(r.written.value) && !Running(r.written.value)
    ensures Consistent(r.cache) && ExitSet(r.cache) && r.cache == r.written.value[Exit := Flag(true)]
    ensures r.calls == if Running(c) then [Update(IdOf(c), now)] else []
    ensures ExitSet(r.written.value) <==> ExitSet(c)
    ensures r.written == Some(Stop(c, now).cache)
  {
    var stopped := Stop(c, now);
    Exited(stopped.cache[Exit := Flag(true)], Some(stopped.cache), stopped.calls)
  }

  /** As written, a second `exit_app` (the SIGINT handler runs it, then the
    * `atexit` hook runs it again) dumps a cache that carries the exit flag. */
  lemma ShutdownTwicePersistsExitFlag(c: Snapshot, now1: int, now2: int)
    requires Consistent(c)
    ensures var second := Shutdown(Shutdown(c, now1).cache, now2);
      second.written.Some? && ExitSet(second.written.value) && second.calls == []
  {
  }

  /** A process that starts from a snapshot carrying the exit flag never
    * tracks: whatever the readings, no tick sends a request or changes the
    * cache. */
  lemma StoredExitFlagStopsTracking(stored: Snapshot, readings: seq<Reading>, entry: TimeEntry, nextId: nat, cfg: Config)
    requires Consistent(stored) && ExitSet(stored)
    requires forall i :: 0 <= i < |readings| ==> AfterEpochDay(readings[i].now, cfg)
    ensures Consistent(Merge(map[], stored))
    ensures Run(Merge(map[], stored), readings, entry, nextId, cfg) == Step(stored, [])
  {
    LoadAfterDump(stored);
  }

  /** `exit_app` guarded so that it runs once: a call after the exit flag
    * is set does nothing. */
  function ShutdownOnce(c: Snapshot, now: int): (r: Exited)
    requires Consistent(c)
    ensures Consistent(r.cache) && ExitSet(r.cache)
    ensures ExitSet(c) ==> r == Exited(c, None, [])
    ensures !ExitSet(c) ==> r == Shutdown(c, now)
  {
    if ExitSet(c) then Exited(c, None, []) else Shutdown(c, now)
  }

  /** With the guard, however often shutdown runs, no snapshot it writes
    * carries the exit flag, so the next process resumes tracking. */
  lemma ShutdownOnceNeverPersistsFlag(c: Snapshot, now1: int, now2: int)
    requires Consistent(c) && !ExitSet(c)
    ensures var first := ShutdownOnce(c, now1);
      var second := ShutdownOnce(first.cache, now2);
      && first.written.Some? && !ExitSet(first.written.value) && !Running(first.written.value)
      && second.written.None? && second.cache == first.cache && second.calls == []
  {
  }

  /** A run of ticks, one per reading, as the scheduler drives them; the
    * service answers creates with consecutive ids from `nextId`. */
  function Run(c: Snapshot, readings: seq<Reading>, entry: TimeEntry, nextId: nat, cfg: Config): (r: Step)
    requires Consistent(c)
    requires forall i :: 0 <= i < |readings| ==> AfterEpochDay(readings[i].now, cfg)
    ensures Consistent(r.cache)
    ensures ExitSet(c) ==> r == Step(c, [])
    decreases |readings|, 1
  {
    if readings == [] then Step(c, []) else RunFrom(c, readings, entry, nextId, cfg)
  }

  /** A nonempty run: its first tick, then the run from the state it leaves. */
  function RunFrom(c: Snapshot, readings: seq<Reading>, entry: TimeEntry, nextId: nat, cfg: Config): (r: Step)
    requires Consistent(c) && readings != []
    requires forall i :: 0 <= i < |readings| ==> AfterEpochDay(readings[i].now, cfg)
    ensures Consistent(r.cache)
    ensures ExitSet(c) ==> r == Step(c, [])
    decreases |readings|, 0
  {
    var s := Tick(c, readings[0].now, readings[0].idleMillis, entry, nextId, cfg);
    Then(s, Run(s.cache, readings[1..], entry, nextId + CreateCount(s.calls), cfg))
  }

  /** The id of the entry open in `c`, if one is. */
  function OpenId(c: Snapshot): Option<nat>
    requires WellFormed(c)
  {
    if Running(c) then Some(IdOf(c)) else None
  }

  /** Every update names the entry `open` at the start or one that an
    * earlier create in `calls` opened. */
  ghost predicate UpdatesKnown(calls: seq<Call>, open: Option<nat>)
  {
    forall i :: 0 <= i < |calls| && calls[i].Update? ==>
      open == Some(calls[i].id) || exists j :: 0 <= j < i && calls[j] == Create(calls[i].id)
  }

  /** Over any run, the service only receives updates for the entry found
    * open at the start or for entries the run itself created. */
  lemma {:induction false} RunUpdatesOnlyKnownEntries(c: Snapshot, readings: seq<Reading>, entry: TimeEntry, nextId: nat, cfg: Config)
    requires Consistent(c)
    requires forall i :: 0 <= i < |readings| ==> AfterEpochDay(readings[i].now, cfg)
    ensures UpdatesKnown(Run(c, readings, entry, nextId, cfg).calls, OpenId(c))
    decreases |readings|
  {
    if readings != [] {
      var s := Tick(c, readings[0].now, readings[0].idleMillis, entry, nextId, cfg);
      var nextId' := nextId + CreateCount(s.calls);
      var rest := Run(s.cache, readings[1..], entry, nextId', cfg);
      RunUpdatesOnlyKnownEntries(s.cache, readings[1..], entry, nextId', cfg);
      TickHandsOver(c, readings[0].now, readings[0].idleMillis, entry, nextId, cfg);
      UpdatesKnownAppend(s.calls, rest.calls, OpenId(c), OpenId(s.cache));
    }
  }

  /** What one tick hands over to the rest of a run: its updates name the
    * entry open before it, and the entry open after it is the one open
    * before (with no request sent) or the one its last request created. */
  lemma TickHandsOver(c: Snapshot, now: int, idleMillis: nat, entry: TimeEntry, id: nat, cfg: Config)
    requires Consistent(c) && AfterEpochDay(now, cfg)
    ensures var s := Tick(c, now, idleMillis, entry, id, cfg);
      && (forall i :: 0 <= i < |s.calls| && s.calls[i].Update? ==> OpenId(c) == Some(s.calls[i].id))
      && UpdatesKnown(s.calls, OpenId(c))
      && (|| OpenId(s.cache).None?
          || (OpenId(s.cache) == OpenId(c) && s.calls == [])
          || (s.calls != [] && s.calls[|s.calls| - 1] == Create(OpenId(s.cache).value)))
  {
    TickUpdatesOnlyOpenEntry(c, now, idleMillis, entry, id, cfg);
  }

  /** A tick creates an entry exactly when the user is present and no timer
    * is left running by the first two rules. */
  lemma TickCreates(c: Snapshot, now: int, idleMillis: nat, entry: TimeEntry, id: nat, cfg: Config)
    requires Consistent(c) && AfterEpochDay(now, cfg) && !ExitSet(c)
    ensures CreateCount(Tick(c, now, idleMillis, entry, id, cfg).calls) ==
      if IsIdle(idleMillis, cfg) || Running(CloseStale(c, now, cfg).cache) then 0 else 1
  {
    var closed := CloseStale(c, now, cfg);
    CloseStaleSendsAtMostUpdate(c, now, cfg);
    CountUpdatesOnly(closed.calls);
    if IsIdle(idleMillis, cfg) {
      var stopped := Stop(closed.cache, now);
      CreateCountAppend(closed.calls, stopped.calls);
      CountUpdatesOnly(stopped.calls);
    } else {
      var started := Start(closed.cache, now, entry, id, cfg);
      CreateCountAppend(closed.calls, started.calls);
      if started.calls != [] {
        CreateCountSingle(Create(id));
      }
    }
  }

  /** Joining the requests of one tick to those of the rest of the run:
    * the tick's updates name the entry open before it, and the entry open
    * after it is the one open before (with no request sent) or the one its
    * last request created. */
  lemma UpdatesKnownAppend(first: seq<Call>, rest: seq<Call>, open: Option<nat>, mid: Option<nat>)
    requires UpdatesKnown(first, open) && UpdatesKnown(rest, mid)
    requires forall i :: 0 <= i < |first| && first[i].Update? ==> open == Some(first[i].id)
    requires || mid.None?
             || (mid == open && first == [])
             || (first != [] && first[|first| - 1] == Create(mid.value))
    ensures UpdatesKnown(first + rest, open)
  {
    var all := first + rest;
    forall i | 0 <= i < |all| && all[i].Update?
      ensures open == Some(all[i].id) || exists j :: 0 <= j < i && all[j] == Create(all[i].id)
    {
      if i < |first| {
        assert first[i] == all[i];
      } else {
        var k := i - |first|;
        assert rest[k] == all[i];
        if mid == Some(all[i].id) {
          if first != [] {
            assert all[|first| - 1] == Create(all[i].id);
          }
        } else {
          var j :| 0 <= j < k && rest[j] == Create(rest[k].id);
          assert all[|first| + j] == rest[j];
        }
      }
    }
  }

  lemma CountUpdatesOnly(calls: seq<Call>)
    requires calls == [] || (|calls| == 1 && calls[0].Update?)
    ensures CreateCount(calls) == 0
  {
    if calls != [] {
      CreateCountSingle(calls[0]);
      assert calls == [calls[0]];
    }
  }

  /** One tracker process of this variant: the global `CACHE`, the cache
    * file, the configuration and the remote service. */
  class Tracker {
    const cfg: Config
    const server: Server
    var cache: Snapshot
    /** The cache file's content; `None` while no file exists. */
    var file: Option<Snapshot>

    ghost predicate Valid()
      reads this, server
    {
      server.Valid() && Consistent(cache) && (file.Some? ==> Consistent(file.value))
    }

    /** A process starting with an empty cache beside the file `file`. */
    constructor (cfg: Config, server: Server, file: Option<Snapshot>)
      requires server.Valid() && (file.Some? ==> Consistent(file.value))
      ensures Valid()
      ensures this.cfg == cfg && this.server == server && cache == map[] && this.file == file
    {
      this.cfg := cfg;
      this.server := server;
      cache := map[];
      this.file := file;
    }

    /** `load_cache`: copies the stored key/values into the cache one by
      * one; a missing file leaves the cache as it is. */
    method LoadCache()
      requires Valid()
      modifies this`cache
      ensures Valid()
      ensures cache == if file.Some? then Merge(old(cache), file.value) else old(cache)
    {
      if file.None? {
        return;
      }
      var stored := file.value;
      var keys := stored.Keys;
      while keys != {}
        invariant keys <= stored.Keys
        invariant cache == old(cache) + map k | k in stored.Keys - keys :: stored[k]
        decreases keys
      {
        var k :| k in keys;
        cache := cache[k := stored[k]];
        keys := keys - {k};
      }
      assert (map k | k in stored.Keys - keys :: stored[k]) == stored;
      MergeWellFormed(old(cache), stored);
    }

    /** `dump_cache`: the file now holds the cache. */
    method DumpCache()
      requires Valid()
      modifies this`file
      ensures Valid() && file == Some(cache)
    {
      file := Some(cache);
    }

    /** `is_timer_running`: one key decides for the whole timer. */
    function IsTimerRunning(): (r: bool)
      reads this, server
      requires Valid()
      ensures r <==> TimerKeys <= cache.Keys
      ensures !r <==> TimerKeys !! cache.Keys
    {
      CurrentTimeEntry in cache
    }

    /** `start_timer` at time `now`. */
    method StartTimer(now: int)
      requires Valid() && AfterEpochDay(now, cfg)
      modifies this, server
      ensures Valid() && file == old(file)
      ensures var s := Start(old(cache), now, TimeEntry(server.details), old(server.issued), cfg);
        cache == s.cache && server.calls == old(server.calls) + s.calls
      ensures server.issued == old(server.issued) + if old(Running(cache)) then 0 else 1
    {
      if IsTimerRunning() {
        return;
      }
      var entry := TimeEntry(server.details);
      var id := server.SendTimeEntry(entry);
      cache := cache[CurrentTimeEntry := EntryVal(entry)];
      cache := cache[CurrentTimeEntryId := IdVal(id)];
      cache := cache[StartTimestamp := Num(now)];
      cache := cache[LastActiveTimestamp := Num(now)];
      if LocalDay(TodayStartOr0(cache), cfg.utcOffset) != LocalDay(now, cfg.utcOffset) {
        cache := cache[TodayStartTimestamp := Num(now)];
        cache := cache[TodayActiveTime := Num(0)];
      }
    }

    /** `stop_timer(end)`; an absent `end` means `now`. */
    method StopTimer(end: Option<int>, now: int)
      requires Valid()
      modifies this, server
      ensures Valid() && file == old(file) && server.issued == old(server.issued)
      ensures var s := Stop(old(cache), if end.Some? then end.value else now);
        cache == s.cache && server.calls == old(server.calls) + s.calls
    {
      if !IsTimerRunning() {
        return;
      }
      var endTime := if end.Some? then end.value else now;
      ghost var c0 := cache;
      server.SendTimeEntryUpdate(cache[CurrentTimeEntry].entry, cache[CurrentTimeEntryId].id, endTime);
      cache := cache[TodayActiveTime := Num(cache[TodayActiveTime].n + (endTime - cache[StartTimestamp].n))];
      cache := cache - {CurrentTimeEntry};
      cache := cache - {CurrentTimeEntryId};
      cache := cache - {LastActiveTimestamp};
      cache := cache - {StartTimestamp};
      assert cache == Stop(c0, endTime).cache;
    }

    /** `exit_app` at time `now`. */
    method ExitApp(now: int)
      requires Valid()
      modifies this, server
      ensures Valid() && server.issued == old(server.issued)
      ensures var r := Shutdown(old(cache), now);
        cache == r.cache && file == r.written && server.calls == old(server.calls) + r.calls
    {
      StopTimer(None, now);
      DumpCache();
      cache := cache[Exit := Flag(true)];
    }

    /** The first two rules of `idle_check`: a running entry is closed at
      * its last active time after a sleep gap, else at `now` when the local
      * date has moved past its start's. */
    method CloseStaleTimer(now: int)
      requires Valid()
      modifies this, server
      ensures Valid() && file == old(file) && server.issued == old(server.issued)
      ensures var s := CloseStale(old(cache), now, cfg);
        cache == s.cache && server.calls == old(server.calls) + s.calls
    {
      if IsTimerRunning() {
        var timeDiff := now - cache[LastActiveTimestamp].n;
        if timeDiff > Max(cfg.loopTime, cfg.idleThreshold) * 2 {
          StopTimer(Some(cache[LastActiveTimestamp].n), now);
        } else if LocalDay(now, cfg.utcOffset) > LocalDay(cache[StartTimestamp].n, cfg.utcOffset) {
          StopTimer(None, now);
        }
      }
    }

    /** `idle_check` at time `now` with idle reading `idleMillis`. */
    method IdleCheck(now: int, idleMillis: nat)
      requires Valid() && AfterEpochDay(now, cfg)
      modifies this, server
      ensures Valid()
      ensures var r := Tick(old(cache), now, idleMillis, TimeEntry(server.details), old(server.issued), cfg);
        && cache == r.cache && server.calls == old(server.calls) + r.calls
        && server.issued == old(server.issued) + CreateCount(r.calls)
      ensures file == if old(ExitSet(cache)) then old(file) else Some(cache)
    {
      if Exit in cache && cache[Exit].b {
        return;
      }
      ghost var c0, calls0, id := cache, server.calls, server.issued;
      ghost var entry := TimeEntry(server.details);
      ghost var closed := CloseStale(c0, now, cfg);
      ghost var r := Tick(c0, now, idleMillis, entry, id, cfg);
      CloseStaleTimer(now);
      TickCreates(c0, now, idleMillis, entry, id, cfg);
      if idleMillis > cfg.idleThreshold * 1000 {
        StopTimer(None, now);
        ghost var stopped := Stop(closed.cache, now);
        assert r == Then(closed, stopped);
        assert server.calls == calls0 + (closed.calls + stopped.calls);
      } else {
        StartTimer(now);
        ghost var started := Start(closed.cache, now, entry, id, cfg);
        assert server.calls == calls0 + (closed.calls + started.calls);
        cache := cache[LastActiveTimestamp := Num(now)];
        assert cache == r.cache;
      }
      DumpCache();
    }
  }
}
