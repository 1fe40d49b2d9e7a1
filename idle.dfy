/**
 * The first, console variant (`clockify_idle.py`): fixed constants, no exit
 * flag, `dump_cache` inside `start_timer`, and a tick that rewrites the
 * cache file only when the user is present. Its `start_timer`,
 * `stop_timer` and tick rules are those of module Legacy.
 */
module Idle {
  import opened Clockify
  import opened TimerState
  import opened Calendar
  import Legacy

  /** `LOOP_TIME` and `IDLE_THRESHOLD`, in seconds. */
  const LOOP_TIME := 10
  const IDLE_THRESHOLD := 10

  function Settings(utcOffset: int): Config
  {
    Config(LOOP_TIME, IDLE_THRESHOLD, utcOffset)
  }

  /** `idle_check` of this variant: the three rules, with no exit guard. */
  function Tick(c: Snapshot, now: int, idleMillis: nat, entry: TimeEntry, id: nat, utcOffset: int): (r: Step)
    requires WellFormed(c)
    ensures WellFormed(r.cache)
    ensures Running(r.cache) <==> idleMillis <= 10000
    ensures r == Legacy.Check(c, now, idleMillis, entry, id, Settings(utcOffset))
  {
    Legacy.Check(c, now, idleMillis, entry, id, Settings(utcOffset))
  }

  /** The cache file after a tick: rewritten with the new cache when the
    * user is present, left as it was when idle. */
  function Persisted(file: Option<Snapshot>, c: Snapshot, now: int, idleMillis: nat, entry: TimeEntry, id: nat, utcOffset: int): (r: Option<Snapshot>)
    requires WellFormed(c)
    ensures idleMillis > 10000 ==> r == file
    ensures idleMillis <= 10000 ==>
      && r == Some(Tick(c, now, idleMillis, entry, id, utcOffset).cache)
      && Running(r.value) && LastActiveOf(r.value) == now
  {
    if IsIdle(idleMillis, Settings(utcOffset)) then file
    else Some(Tick(c, now, idleMillis, entry, id, utcOffset).cache)
  }

  /** An idle stop is not written out: a file that showed the running entry
    * still shows it after the tick, while the cache has none. */
  lemma IdleStopLeavesStaleSnapshot(c: Snapshot, now: int, idleMillis: nat, entry: TimeEntry, id: nat, utcOffset: int)
    requires WellFormed(c) && Running(c) && idleMillis > 10000
    ensures var file := Persisted(Some(c), c, now, idleMillis, entry, id, utcOffset);
      && file == Some(c) && Running(file.value)
      && !Running(Tick(c, now, idleMillis, entry, id, utcOffset).cache)
  {
  }

  /** A process restarted from that stale file closes the same remote entry
    * a second time: an idle tick updates entry `IdOf(c)` with end `now1`, and
    * after the restart a tick past the sleep gap updates it again with end
    * `LastActiveOf(c)`, no later than the first when the clock had not run
    * backwards. */
  lemma RestartClosesEntryTwice(c: Snapshot, now1: int, idle1: nat, now2: int, idle2: nat, entry: TimeEntry, id: nat, utcOffset: int)
    requires WellFormed(c) && Running(c) && idle1 > 10000
    requires !Slept(c, now1, Settings(utcOffset)) && !Legacy.CrossedMidnight(c, now1, Settings(utcOffset))
    requires Slept(c, now2, Settings(utcOffset))
    ensures var first := Tick(c, now1, idle1, entry, id, utcOffset);
      var reloaded := Merge(map[], Persisted(Some(c), c, now1, idle1, entry, id, utcOffset).value);
      var second := Tick(reloaded, now2, idle2, entry, id, utcOffset);
      && first.calls == [Update(IdOf(c), now1)]
      && second.calls[0] == Update(IdOf(c), LastActiveOf(c))
      && (LastActiveOf(c) <= now1 ==> second.calls[0].end <= first.calls[0].end)
  {
    LoadAfterDump(c);
    Legacy.CheckStopsIdleTimer(c, now1, idle1, entry, id, Settings(utcOffset));
    Legacy.CheckClosesSleptTimer(c, now2, idle2, entry, id, Settings(utcOffset));
  }

  /** A run of ticks, one per reading; the service answers creates with
    * consecutive ids from `nextId`. Only the four timer keys ever change;
    * in particular an exit flag in the cache is ignored. */
  function Run(c: Snapshot, readings: seq<Reading>, entry: TimeEntry, nextId: nat, utcOffset: int): (r: Step)
    requires WellFormed(c)
    ensures WellFormed(r.cache)
    ensures forall k :: k !in TimerKeys ==> (k in r.cache <==> k in c) && (k in c ==> r.cache[k] == c[k])
    decreases |readings|
  {
    if readings == [] then Step(c, [])
    else
      var s := Tick(c, readings[0].now, readings[0].idleMillis, entry, nextId, utcOffset);
      Then(s, Run(s.cache, readings[1..], entry, nextId + CreateCount(s.calls), utcOffset))
  }

  /** One process of this variant: the global `CACHE`, the cache file, the
    * machine's UTC offset and the remote service. */
  class Tracker {
    const utcOffset: int
    const server: Server
    var cache: Snapshot
    /** The cache file's content; `None` while no file exists. */
    var file: Option<Snapshot>

    ghost predicate Valid()
      reads this, server
    {
      server.Valid() && WellFormed(cache) && (file.Some? ==> WellFormed(file.value))
    }

    /** A process starting with an empty cache beside the file `file`. */
    constructor (utcOffset: int, server: Server, file: Option<Snapshot>)
      requires server.Valid() && (file.Some? ==> WellFormed(file.value))
      ensures Valid()
      ensures this.utcOffset == utcOffset && this.server == server && cache == map[] && this.file == file
    {
      this.utcOffset := utcOffset;
      this.server := server;
      cache := map[];
      this.file := file;
    }

    /** `load_cache`: copies the stored key/values into the cache one by
      * one; a missing file leaves the cache as it is. */
    method LoadCache()
      requires Valid()
      modifies this`cache
      ensures Valid()
      ensures cache == if file.Some? then Merge(old(cache), file.value) else old(cache)
    {
      if file.None? {
        return;
      }
      var stored := file.value;
      var keys := stored.Keys;
      while keys != {}
        invariant keys <= stored.Keys
        invariant cache == old(cache) + map k | k in stored.Keys - keys :: stored[k]
        decreases keys
      {
        var k :| k in keys;
        cache := cache[k := stored[k]];
        keys := keys - {k};
      }
      assert (map k | k in stored.Keys - keys :: stored[k]) == stored;
      MergeWellFormed(old(cache), stored);
    }

    /** `dump_cache`: the file now holds the cache. */
    method DumpCache()
      requires Valid()
      modifies this`file
      ensures Valid() && file == Some(cache)
    {
      file := Some(cache);
    }

    /** `is_timer_running`: one key decides for the whole timer. */
    function IsTimerRunning(): (r: bool)
      reads this, server
      requires Valid()
      ensures r <==> TimerKeys <= cache.Keys
      ensures !r <==> TimerKeys !! cache.Keys
    {
      CurrentTimeEntry in cache
    }

    /** `start_timer` at time `now`; a started timer is written out at once. */
    method StartTimer(now: int)
      requires Valid()
      modifies this, server
      ensures Valid()
      ensures var s := Legacy.Start(old(cache), now, TimeEntry(server.details), old(server.issued));
        cache == s.cache && server.calls == old(server.calls) + s.calls
      ensures server.issued == old(server.issued) + if old(Running(cache)) then 0 else 1
      ensures file == if old(Running(cache)) then old(file) else Some(cache)
    {
      if IsTimerRunning() {
        return;
      }
      var entry := TimeEntry(server.details);
      var id := server.SendTimeEntry(entry);
      cache := cache[CurrentTimeEntry := EntryVal(entry)];
      cache := cache[CurrentTimeEntryId := IdVal(id)];
      cache := cache[StartTimestamp := Num(now)];
      cache := cache[LastActiveTimestamp := Num(now)];
      DumpCache();
    }

    /** `stop_timer(end)`; an absent `end` means `now`. Nothing is written. */
    method StopTimer(end: Option<int>, now: int)
      requires Valid()
      modifies this, server
      ensures Valid() && file == old(file) && server.issued == old(server.issued)
      ensures var s := Legacy.Stop(old(cache), if end.Some? then end.value else now);
        cache == s.cache && server.calls == old(server.calls) + s.calls
    {
      if !IsTimerRunning() {
        return;
      }
      var endTime := if end.Some? then end.value else now;
      server.SendTimeEntryUpdate(cache[CurrentTimeEntry].entry, cache[CurrentTimeEntryId].id, endTime);
      cache := cache - {CurrentTimeEntry};
      cache := cache - {CurrentTimeEntryId};
      cache := cache - {LastActiveTimestamp};
      cache := cache - {StartTimestamp};
    }

    /** The first two rules of `idle_check`: a running entry is closed at
      * its last active time after a sleep gap, else at `now` when the day of
      * the month has grown since its start. */
    method CloseStaleTimer(now: int)
      requires Valid()
      modifies this, server
      ensures Valid() && file == old(file) && server.issued == old(server.issued)
      ensures var s := Legacy.CloseStale(old(cache), now, Settings(utcOffset));
        cache == s.cache && server.calls == old(server.calls) + s.calls
    {
      if IsTimerRunning() {
        var timeDiff := now - cache[LastActiveTimestamp].n;
        if timeDiff > Max(LOOP_TIME, IDLE_THRESHOLD) * 2 {
          StopTimer(Some(cache[LastActiveTimestamp].n), now);
        } else if DayOfMonth(now, utcOffset) > DayOfMonth(cache[StartTimestamp].n, utcOffset) {
          StopTimer(None, now);
        }
      }
    }

    /** `idle_check` at time `now` with idle reading `idleMillis`. */
    method IdleCheck(now: int, idleMillis: nat)
      requires Valid()
      modifies this, server
      ensures Valid()
      ensures var r := Tick(old(cache), now, idleMillis, TimeEntry(server.details), old(server.issued), utcOffset);
        && cache == r.cache && server.calls == old(server.calls) + r.calls
        && server.issued == old(server.issued) + CreateCount(r.calls)
      ensures file == Persisted(old(file), old(cache), now, idleMillis, TimeEntry(server.details), old(server.issued), utcOffset)
    {
      ghost var c0, calls0, id, file0 := cache, server.calls, server.issued, file;
      ghost var entry := TimeEntry(server.details);
      ghost var cfg := Settings(utcOffset);
      ghost var closed := Legacy.CloseStale(c0, now, cfg);
      ghost var r := Tick(c0, now, idleMillis, entry, id, utcOffset);
      CloseStaleTimer(now);
      Legacy.CountUpdatesOnly(closed.calls);
      if idleMillis > IDLE_THRESHOLD * 1000 {
        StopTimer(None, now);
        ghost var stopped := Legacy.Stop(closed.cache, now);
        assert r == Then(closed, stopped);
        assert server.calls == calls0 + (closed.calls + stopped.calls);
        CreateCountAppend(closed.calls, stopped.calls);
        Legacy.CountUpdatesOnly(stopped.calls);
      } else {
        StartTimer(now);
        ghost var started := Legacy.Start(closed.cache, now, entry, id);
        assert server.calls == calls0 + (closed.calls + started.calls);
        cache := cache[LastActiveTimestamp := Num(now)];
        assert cache == r.cache;
        CreateCountAppend(closed.calls, started.calls);
        if started.calls != [] {
          CreateCountSingle(Create(id));
        }
        DumpCache();
      }
    }
  }
}
