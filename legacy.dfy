/**
 * The older tray variant (`clockify_idleless.py`): an exit flag, a midnight
 * rule that compares only the day of the month, and no daily accumulator.
 * Its `start_timer`, `stop_timer` and tick rules are also those of
 * `clockify_idle.py`, which module Idle builds on.
 */
module Legacy {
  import opened Clockify
  import opened TimerState
  import opened Calendar

  /** `start_timer` at time `now`, with `id` the answer of the create. */
  function Start(c: Snapshot, now: int, entry: TimeEntry, id: nat): (r: Step)
    requires WellFormed(c)
    ensures WellFormed(r.cache) && Running(r.cache)
    ensures Running(c) ==> r == Step(c, [])
    ensures !Running(c) ==>
      && r.calls == [Create(id)]
      && EntryOf(r.cache) == entry && IdOf(r.cache) == id
      && StartOf(r.cache) == now && LastActiveOf(r.cache) == now
      && r.cache.Keys == c.Keys + TimerKeys
      && (forall k :: k in c && k !in TimerKeys ==> r.cache[k] == c[k])
  {
    if Running(c) then Step(c, []) else Step(Open(c, entry, id, now), [Create(id)])
  }

  /** `stop_timer` with end timestamp `end`. */
  function Stop(c: Snapshot, end: int): (r: Step)
    requires WellFormed(c)
    ensures WellFormed(r.cache) && !Running(r.cache)
    ensures !Running(c) ==> r == Step(c, [])
    ensures Running(c) ==>
      && r.calls == [Update(IdOf(c), end)]
      && r.cache.Keys == c.Keys - TimerKeys
      && (forall k :: k in r.cache ==> r.cache[k] == c[k])
  {
    if !Running(c) then Step(c, []) else Step(Close(c), [Update(IdOf(c), end)])
  }

  /** Stopping right after starting restores the cache exactly and closes
    * the entry just created. */
  lemma StopUndoesStart(c: Snapshot, now: int, entry: TimeEntry, id: nat, end: int)
    requires WellFormed(c) && !Running(c)
    ensures var started := Start(c, now, entry, id);
      Then(started, Stop(started.cache, end)) == Step(c, [Create(id), Update(id, end)])
  {
    CloseUndoesOpen(c, entry, id, now);
  }

  /** Midnight rule as written: the local day of the month of `now` is
    * larger than that of the entry's start. */
  predicate CrossedMidnight(c: Snapshot, now: int, cfg: Config)
    requires WellFormed(c) && Running(c)
  {
    DayOfMonth(now, cfg.utcOffset) > DayOfMonth(StartOf(c), cfg.utcOffset)
  }

  /** The first two rules of `idle_check`: the end at which a running timer
    * is closed before idleness is looked at, if it is. */
  function ClosingEnd(c: Snapshot, now: int, cfg: Config): (end: Option<int>)
    requires WellFormed(c)
    ensures end.Some? ==> Running(c)
    ensures Running(c) && Slept(c, now, cfg) ==> end == Some(LastActiveOf(c))
    ensures Running(c) && !Slept(c, now, cfg) ==> (end.Some? <==> CrossedMidnight(c, now, cfg))
    ensures Running(c) && !Slept(c, now, cfg) && end.Some? ==> end.value == now
    ensures Ordered(c, now) && end.Some? ==> StartOf(c) <= end.value <= now
  {
    if !Running(c) then None
    else if Slept(c, now, cfg) then Some(LastActiveOf(c))
    else if CrossedMidnight(c, now, cfg) then Some(now)
    else None
  }

  /** The cache after the first two rules. */
  function CloseStale(c: Snapshot, now: int, cfg: Config): (r: Step)
    requires WellFormed(c)
    ensures WellFormed(r.cache)
  {
    match ClosingEnd(c, now, cfg)
    case Some(end) => Stop(c, end)
    case None => Step(c, [])
  }

  /** The three rules of `idle_check` after its exit guard: close a stale
    * entry, then stop when idle, else start or keep alive. */
  function Check(c: Snapshot, now: int, idleMillis: nat, entry: TimeEntry, id: nat, cfg: Config): (r: Step)
    requires WellFormed(c)
    ensures WellFormed(r.cache)
    ensures Running(r.cache) <==> !IsIdle(idleMillis, cfg)
    ensures Running(r.cache) ==> LastActiveOf(r.cache) == now
    ensures forall k :: k !in TimerKeys ==> (k in r.cache <==> k in c) && (k in c ==> r.cache[k] == c[k])
  {
    var closed := CloseStale(c, now, cfg);
    if IsIdle(idleMillis, cfg) then Then(closed, Stop(closed.cache, now))
    else
      var started := Then(closed, Start(closed.cache, now, entry, id));
      Step(started.cache[LastActiveTimestamp := Num(now)], started.calls)
  }

  /** `idle_check` of this variant: nothing at all once the exit flag is set. */
  function Tick(c: Snapshot, now: int, idleMillis: nat, entry: TimeEntry, id: nat, cfg: Config): (r: Step)
    requires WellFormed(c)
    ensures WellFormed(r.cache)
    ensures ExitSet(c) ==> r == Step(c, [])
    ensures !ExitSet(c) ==> r == Check(c, now, idleMillis, entry, id, cfg)
  {
    if ExitSet(c) then Step(c, []) else Check(c, now, idleMillis, entry, id, cfg)
  }

  /** Sleep/suspend: the entry is closed at the last active time, not at
    * `now`, and the current idle reading is then judged in the same tick. */
  lemma CheckClosesSleptTimer(c: Snapshot, now: int, idleMillis: nat, entry: TimeEntry, id: nat, cfg: Config)
    requires WellFormed(c) && Running(c) && Slept(c, now, cfg)
    ensures Check(c, now, idleMillis, entry, id, cfg).calls ==
      [Update(IdOf(c), LastActiveOf(c))] + (if IsIdle(idleMillis, cfg) then [] else [Create(id)])
  {
  }

  /** Midnight as written: when the day of the month has grown, the entry is
    * closed at `now` and, if the user is present, a new one starts. */
  lemma CheckSplitsAtMidnight(c: Snapshot, now: int, idleMillis: nat, entry: TimeEntry, id: nat, cfg: Config)
    requires WellFormed(c) && Running(c) && !Slept(c, now, cfg) && CrossedMidnight(c, now, cfg)
    ensures var r := Check(c, now, idleMillis, entry, id, cfg);
      && r.calls == [Update(IdOf(c), now)] + (if IsIdle(idleMillis, cfg) then [] else [Create(id)])
      && (!IsIdle(idleMillis, cfg) ==> StartOf(r.cache) == now && IdOf(r.cache) == id)
  {
  }

  /** Idle past the threshold with no earlier rule firing: the entry is
    * closed at `now`. */
  lemma CheckStopsIdleTimer(c: Snapshot, now: int, idleMillis: nat, entry: TimeEntry, id: nat, cfg: Config)
    requires WellFormed(c) && Running(c) && !Slept(c, now, cfg) && !CrossedMidnight(c, now, cfg)
    requires IsIdle(idleMillis, cfg)
    ensures Check(c, now, idleMillis, entry, id, cfg) == Step(Close(c), [Update(IdOf(c), now)])
  {
  }

  /** From stopped, a present user gets a new entry started at `now`; an
    * idle user changes nothing. */
  lemma CheckFromStopped(c: Snapshot, now: int, idleMillis: nat, entry: TimeEntry, id: nat, cfg: Config)
    requires WellFormed(c) && !Running(c)
    ensures var r := Check(c, now, idleMillis, entry, id, cfg);
      && (IsIdle(idleMillis, cfg) ==> r == Step(c, []))
      && (!IsIdle(idleMillis, cfg) ==> r == Step(Open(c, entry, id, now), [Create(id)]))
  {
  }

  /** Heartbeat: a running entry that no rule closes only gets its last
    * active time moved to `now`; no request is sent. */
  lemma CheckHeartbeat(c: Snapshot, now: int, idleMillis: nat, entry: TimeEntry, id: nat, cfg: Config)
    requires WellFormed(c) && Running(c) && !Slept(c, now, cfg) && !CrossedMidnight(c, now, cfg)
    requires !IsIdle(idleMillis, cfg)
    ensures Check(c, now, idleMillis, entry, id, cfg) == Step(c[LastActiveTimestamp := Num(now)], [])
  {
  }

  /** The day-of-month rule misses the end of a month: an entry started at
    * 23:58 on 31 January is still open, uncut, after a tick at 00:02 on
    * 1 February with the user present. */
  lemma MonthEndMissesMidnight()
    ensures var cfg := Config(180, 900, 0);
      var start := 30 * SecondsPerDay + 86280;
      var now := 31 * SecondsPerDay + 120;
      var c := Open(map[], TimeEntry(""), 0, start);
      var r := Check(c, now, 0, TimeEntry(""), 1, cfg);
      && DayOfMonth(start, 0) == 31 && DayOfMonth(now, 0) == 1
      && LocalDay(now, 0) == LocalDay(start, 0) + 1
      && r == Step(c[LastActiveTimestamp := Num(now)], [])
      && LocalDay(StartOf(r.cache), 0) < LocalDay(now, 0)
  {
    var cfg := Config(180, 900, 0);
    var start := 30 * SecondsPerDay + 86280;
    var now := 31 * SecondsPerDay + 120;
    assert LocalDay(start, 0) == 30 && LocalDay(now, 0) == 31;
    MonthEndOf1970January();
    var c := Open(map[], TimeEntry(""), 0, start);
    assert !Slept(c, now, cfg) && !CrossedMidnight(c, now, cfg);
    CheckHeartbeat(c, now, 0, TimeEntry(""), 1, cfg);
  }

  /** What `exit_app` leaves: the cache, the snapshot it wrote (if any) and
    * the requests it sent. */
  datatype Exited = Exited(cache: Snapshot, written: Option<Snapshot>, calls: seq<Call>)

  /** `exit_app` at time `now`: stop any running entry, dump the cache, and
    * only then set the exit flag. */
  function Shutdown(c: Snapshot, now: int): (r: Exited)
    requires WellFormed(c)
    ensures r.written.Some? && WellFormed(r.written.value) && !Running(r.written.value)
    ensures WellFormed(r.cache) && ExitSet(r.cache) && r.cache == r.written.value[Exit := Flag(true)]
    ensures r.calls == if Running(c) then [Update(IdOf(c), now)] else []
    ensures ExitSet(r.written.value) <==> ExitSet(c)
    ensures r.written == Some(Stop(c, now).cache)
  {
    var stopped := Stop(c, now);
    Exited(stopped.cache[Exit := Flag(true)], Some(stopped.cache), stopped.calls)
  }

  /** As written, a second `exit_app` (SIGINT handler, then `atexit`) dumps
    * a cache that carries the exit flag, which stops the next process. */
  lemma ShutdownTwicePersistsExitFlag(c: Snapshot, now1: int, now2: int, later: Reading, entry: TimeEntry, id: nat, cfg: Config)
    requires WellFormed(c)
    ensures var second := Shutdown(Shutdown(c, now1).cache, now2);
      && second.written.Some? && ExitSet(second.written.value) && second.calls == []
      && Tick(Merge(map[], second.written.value), later.now, later.idleMillis, entry, id, cfg)
         == Step(second.written.value, [])
  {
    LoadAfterDump(Shutdown(Shutdown(c, now1).cache, now2).written.value);
  }

  /** `exit_app` guarded so that it runs once: a call after the exit flag
    * is set does nothing. */
  function ShutdownOnce(c: Snapshot, now: int): (r: Exited)
    requires WellFormed(c)
    ensures WellFormed(r.cache) && ExitSet(r.cache)
    ensures ExitSet(c) ==> r == Exited(c, None, [])
    ensures !ExitSet(c) ==> r == Shutdown(c, now)
  {
    if ExitSet(c) then Exited(c, None, []) else Shutdown(c, now)
  }

  /** With the guard, the only snapshot shutdown writes lacks the exit flag. */
  lemma ShutdownOnceNeverPersistsFlag(c: Snapshot, now1: int, now2: int)
    requires WellFormed(c) && !ExitSet(c)
    ensures var first := ShutdownOnce(c, now1);
      var second := ShutdownOnce(first.cache, now2);
      && first.written.Some? && !ExitSet(first.written.value) && !Running(first.written.value)
      && second.written.None? && second.cache == first.cache && second.calls == []
  {
  }

  /** A run of ticks, one per reading; the service answers creates with
    * consecutive ids from `nextId`. */
  function Run(c: Snapshot, readings: seq<Reading>, entry: TimeEntry, nextId: nat, cfg: Config): (r: Step)
    requires WellFormed(c)
    ensures WellFormed(r.cache)
    ensures ExitSet(c) ==> r == Step(c, [])
    decreases |readings|
  {
    if readings == [] then Step(c, [])
    else
      var s := Tick(c, readings[0].now, readings[0].idleMillis, entry, nextId, cfg);
      Then(s, Run(s.cache, readings[1..], entry, nextId + CreateCount(s.calls), cfg))
  }

  lemma CountUpdatesOnly(calls: seq<Call>)
    requires calls == [] || (|calls| == 1 && calls[0].Update?)
    ensures CreateCount(calls) == 0
  {
    if calls != [] {
      CreateCountSingle(calls[0]);
      assert calls == [calls[0]];
    }
  }

  /** One tracker process of this variant: the global `CACHE`, the cache
    * file, the configuration and the remote service. */
  class Tracker {
    const cfg: Config
    const server: Server
    var cache: Snapshot
    /** The cache file's content; `None` while no file exists. */
    var file: Option<Snapshot>

    ghost predicate Valid()
      reads this, server
    {
      server.Valid() && WellFormed(cache) && (file.Some? ==> WellFormed(file.value))
    }

    /** A process starting with an empty cache beside the file `file`. */
    constructor (cfg: Config, server: Server, file: Option<Snapshot>)
      requires server.Valid() && (file.Some? ==> WellFormed(file.value))
      ensures Valid()
      ensures this.cfg == cfg && this.server == server && cache == map[] && this.file == file
    {
      this.cfg := cfg;
      this.server := server;
      cache := map[];
      this.file := file;
    }

    /** `load_cache`: copies the stored key/values into the cache one by
      * one; a missing file leaves the cache as it is. */
    method LoadCache()
      requires Valid()
      modifies this`cache
      ensures Valid()
      ensures cache == if file.Some? then Merge(old(cache), file.value) else old(cache)
    {
      if file.None? {
        return;
      }
      var stored := file.value;
      var keys := stored.Keys;
      while keys != {}
        invariant keys <= stored.Keys
        invariant cache == old(cache) + map k | k in stored.Keys - keys :: stored[k]
        decreases keys
      {
        var k :| k in keys;
        cache := cache[k := stored[k]];
        keys := keys - {k};
      }
      assert (map k | k in stored.Keys - keys :: stored[k]) == stored;
      MergeWellFormed(old(cache), stored);
    }

    /** `dump_cache`: the file now holds the cache. */
    method DumpCache()
      requires Valid()
      modifies this`file
      ensures Valid() && file == Some(cache)
    {
      file := Some(cache);
    }

    /** `is_timer_running`: one key decides for the whole timer. */
    function IsTimerRunning(): (r: bool)
      reads this, server
      requires Valid()
      ensures r <==> TimerKeys <= cache.Keys
      ensures !r <==> TimerKeys !! cache.Keys
    {
      CurrentTimeEntry in cache
    }

    /** `start_timer` at time `now`. */
    method StartTimer(now: int)
      requires Valid()
      modifies this, server
      ensures Valid() && file == old(file)
      ensures var s := Start(old(cache), now, TimeEntry(server.details), old(server.issued));
        cache == s.cache && server.calls == old(server.calls) + s.calls
      ensures server.issued == old(server.issued) + if old(Running(cache)) then 0 else 1
    {
      if IsTimerRunning() {
        return;
      }
      var entry := TimeEntry(server.details);
      var id := server.SendTimeEntry(entry);
      cache := cache[CurrentTimeEntry := EntryVal(entry)];
      cache := cache[CurrentTimeEntryId := IdVal(id)];
      cache := cache[StartTimestamp := Num(now)];
      cache := cache[LastActiveTimestamp := Num(now)];
    }

    /** `stop_timer(end)`; an absent `end` means `now`. */
    method StopTimer(end: Option<int>, now: int)
      requires Valid()
      modifies this, server
      ensures Valid() && file == old(file) && server.issued == old(server.issued)
      ensures var s := Stop(old(cache), if end.Some? then end.value else now);
        cache == s.cache && server.calls == old(server.calls) + s.calls
    {
      if !IsTimerRunning() {
        return;
      }
      var endTime := if end.Some? then end.value else now;
      server.SendTimeEntryUpdate(cache[CurrentTimeEntry].entry, cache[CurrentTimeEntryId].id, endTime);
      cache := cache - {CurrentTimeEntry};
      cache := cache - {CurrentTimeEntryId};
      cache := cache - {LastActiveTimestamp};
      cache := cache - {StartTimestamp};
    }

    /** `exit_app` at time `now`. */
    method ExitApp(now: int)
      requires Valid()
      modifies this, server
      ensures Valid() && server.issued == old(server.issued)
      ensures var r := Shutdown(old(cache), now);
        cache == r.cache && file == r.written && server.calls == old(server.calls) + r.calls
    {
      StopTimer(None, now);
      DumpCache();
      cache := cache[Exit := Flag(true)];
    }

    /** The first two rules of `idle_check`: a running entry is closed at
      * its last active time after a sleep gap, else at `now` when the day of
      * the month has grown since its start. */
    method CloseStaleTimer(now: int)
      requires Valid()
      modifies this, server
      ensures Valid() && file == old(file) && server.issued == old(server.issued)
      ensures var s := CloseStale(old(cache), now, cfg);
        cache == s.cache && server.calls == old(server.calls) + s.calls
    {
      if IsTimerRunning() {
        var timeDiff := now - cache[LastActiveTimestamp].n;
        if timeDiff > Max(cfg.loopTime, cfg.idleThreshold) * 2 {
          StopTimer(Some(cache[LastActiveTimestamp].n), now);
        } else if DayOfMonth(now, cfg.utcOffset) > DayOfMonth(cache[StartTimestamp].n, cfg.utcOffset) {
          StopTimer(None, now);
        }
      }
    }

    /** `idle_check` at time `now` with idle reading `idleMillis`. */
    method IdleCheck(now: int, idleMillis: nat)
      requires Valid()
      modifies this, server
      ensures Valid()
      ensures var r := Tick(old(cache), now, idleMillis, TimeEntry(server.details), old(server.issued), cfg);
        && cache == r.cache && server.calls == old(server.calls) + r.calls
        && server.issued == old(server.issued) + CreateCount(r.calls)
      ensures file == if old(ExitSet(cache)) then old(file) else Some(cache)
    {
      if Exit in cache && cache[Exit].b {
        return;
      }
      ghost var c0, calls0, id := cache, server.calls, server.issued;
      ghost var entry := TimeEntry(server.details);
      ghost var closed := CloseStale(c0, now, cfg);
      ghost var r := Tick(c0, now, idleMillis, entry, id, cfg);
      CloseStaleTimer(now);
      CountUpdatesOnly(closed.calls);
      if idleMillis > cfg.idleThreshold * 1000 {
        StopTimer(None, now);
        ghost var stopped := Stop(closed.cache, now);
        assert r == Then(closed, stopped);
        assert server.calls == calls0 + (closed.calls + stopped.calls);
        CreateCountAppend(closed.calls, stopped.calls);
        CountUpdatesOnly(stopped.calls);
      } else {
        StartTimer(now);
        ghost var started := Start(closed.cache, now, entry, id);
        assert server.calls == calls0 + (closed.calls + started.calls);
        cache := cache[LastActiveTimestamp := Num(now)];
        assert cache == r.cache;
        CreateCountAppend(closed.calls, started.calls);
        if started.calls != [] {
          CreateCountSingle(Create(id));
        }
      }
      DumpCache();
    }
  }
}
