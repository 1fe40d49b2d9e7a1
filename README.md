# Idle-driven Clockify timer, modelled in Dafny

The tracker turns the presence of the user into Clockify time entries. A tick
(`idle_check`) runs periodically. It reads the clock and the time since the
last keyboard or mouse input. While the user is present, a remote time entry
is open; when the user goes idle, sleeps the machine, or midnight passes, the
entry is closed. All state is kept in a process-global dictionary `CACHE`. A
running timer there is four keys: `current_time_entry`,
`current_time_entry_id`, `start_timestamp` and `last_active_timestamp`. The
cache is dumped to a JSON file and merged back in on start-up.

The repository repeats this logic in three near-identical programs, and the
model keeps them apart:

| module | source | differences |
|---|---|---|
| `Idleless` | `clockify_idleless/idleless.py` | exit flag; midnight rule on local dates; daily accumulator (`today_start_timestamp`, `today_active_time`) |
| `Legacy` | `clockify_idleless.py` | exit flag; midnight rule on the day of the month; no accumulator |
| `Idle` | `clockify_idle.py` | no exit flag; constants 10 s and 10 s; dumps inside `start_timer` and only on the not-idle branch of the tick |

Shared modules:
- `TimerState` holds the cache keys and values, the four-key timer unit (`Open`, `Close`), the merge done by `load_cache`, and the thresholds.
- `Calendar` turns timestamps into local dates and days of the month.
- `Clockify` stands for the remote service. A `Server` object hands out fresh ids and records every create and update in a ghost log.

`Idleless` and `Legacy` each have pure specification functions: `Start`,
`Stop`, `Tick` (in `Legacy`, `Check` holds the rules without the exit guard),
`Shutdown` and `Run`. `Idle` has no `exit_app` and shares `start_timer`,
`stop_timer` and the tick rules with `clockify_idleless.py`. So it has only
`Tick` (which is `Legacy.Check` with its fixed constants), `Persisted` (what
its tick writes to the file) and `Run`. Each variant also has a `Tracker` class whose methods change `cache`, `file` and the server step
by step, as the Python does. Each method is proved equal to the corresponding
specification function. The lemmas then prove the properties of the
specification functions. A run of ticks (`Run`) stands for the scheduler
driving `idle_check` again and again.

Modelling choices:
- One `now` (integer POSIX seconds) per tick. The code reads the clock several times, and `datetime.now()` and `datetime.now(timezone.utc)` give the same POSIX timestamp.
- The idle reading is a natural number of milliseconds (the sensor's unit), so `idle > IDLE_THRESHOLD` is `idleMillis > threshold * 1000`.
- Local dates come from a fixed UTC offset (`Config.utcOffset`).
- `LOOP_TIME` and `IDLE_THRESHOLD` are configuration values (`Config`). By default they are 180 s and 900 s in the two newer variants; `clockify_idle.py` fixes both at 10 (`Idle.LOOP_TIME`, `Idle.IDLE_THRESHOLD`).
- `dump_cache` is `file := Some(cache)`. A missing file is `None`.

The model follows the code, including where it is surprising:
- `clockify_idle.py` does not persist after an idle stop.
- The two older variants compare days of the month at midnight, not dates.
- No variant handles transport errors.

## Model

| member | source | states |
|---|---|---|
| TimerState.Open | clockify_idleless/idleless.py:48-53 | the four timer keys are set (entry, id, start = last active = now); the result is well-formed and running; every other key keeps its value |
| TimerState.Close | clockify_idleless/idleless.py:71-74 | exactly the four timer keys are deleted; every remaining key keeps its value; the result is not running |
| TimerState.CloseUndoesOpen | clockify_idleless.py:51-71 | deleting the four keys right after setting them gives back the original cache |
| TimerState.Merge | clockify_idleless/idleless.py:26-33 | every stored key/value is copied in, overwriting on a clash; keys the file lacks keep their value |
| TimerState.MergeWellFormed | clockify_idleless.py:29-36 | merging a well-formed file into a well-formed cache keeps the four timer keys all present or all absent |
| TimerState.LoadAfterDump | clockify_idleless/idleless.py:26-38 | a fresh process that loads a dumped snapshot gets exactly that snapshot |
| Calendar.LocalDayMonotone | clockify_idleless/idleless.py:103 | a later timestamp never has an earlier local date |
| Calendar.CivilDayOfMonth | clockify_idleless.py:100 | the day of the month that `.day` yields lies in 1..31 |
| Calendar.MonthEndOf1970January | clockify_idleless.py:100 | day 30 after the epoch has day-of-month 31 and day 31 has day-of-month 1 |
| Clockify.Server.SendTimeEntry | clockify_idleless/idleless.py:46-47 | a create is logged and answered with an id that no earlier create got |
| Clockify.Server.SendTimeEntryUpdate | clockify_idleless/idleless.py:68-69 | exactly one update with the given id and end is logged |
| Idleless.Start | clockify_idleless/idleless.py:41-56 | no-op without a call when running; from stopped: one create, the four keys set with the answered id and start = last active = now; accumulator reset to (now, 0) exactly when the marker's date (epoch if absent) differs from today's; no other key changes; the invariant holds |
| Idleless.Stop | clockify_idleless/idleless.py:60-74 | no-op without a call when stopped; else one update with the stored id and end, today's total grows by end − start, exactly the four keys go, nothing else changes |
| Idleless.ClosingEnd | clockify_idleless/idleless.py:98-105 | with start ≤ last active ≤ now, a closed entry never ends before its start or after now; an entry the two rules leave open started on today's local date |
| Idleless.CloseStale | clockify_idleless/idleless.py:98-105 | the first two rules keep the cache invariant |
| Idleless.Tick | clockify_idleless/idleless.py:89-117 | with the exit flag nothing changes and nothing is sent; otherwise the timer ends running iff idle ≤ threshold, then with last active = now; only timer and accumulator keys change; the invariant holds |
| Idleless.TickClosesSleptTimer | clockify_idleless/idleless.py:99-113 | after a sleep gap the tick sends the update with end = last active, then a create only if the user is present |
| Idleless.TickSplitsAtMidnight | clockify_idleless/idleless.py:103-113 | on a later local date the entry closes at now; a present user gets a new entry at now and the accumulator restarts at 0 |
| Idleless.TickKeepsMarkerOnStartDay | clockify_idleless/idleless.py:54-56 | every tick keeps the day marker on the running entry's start date, which is the marker condition `TickSplitsAtMidnight` assumes |
| Idleless.TickStopsIdleTimer | clockify_idleless/idleless.py:107-110 | idle over the threshold closes the entry at now, and today's total grows by now − start |
| Idleless.TickStartsWhenPresent | clockify_idleless/idleless.py:111-116 | from stopped, a present user gets one create; start = last active = now and the answered id is stored |
| Idleless.TickHeartbeat | clockify_idleless/idleless.py:111-116 | a running entry that no rule closes only gets last active = now, and no call is sent |
| Idleless.TickUpdatesOnlyOpenEntry | clockify_idleless/idleless.py:98-116 | a tick sends at most an update for the open entry, then at most a create; a timer running afterwards is either the old one with no call sent, or the one just created |
| Idleless.TickAccumulator | clockify_idleless/idleless.py:54-70 | with a clock that does not go backwards, today's total never decreases, except that it restarts at 0 when a date change is seen; start ≤ last active is kept |
| Idleless.TickLeavesNoEntryAcrossMidnight | clockify_idleless/idleless.py:103-105 | after a tick, a running entry started on today's local date |
| Idleless.Shutdown | clockify_idleless/idleless.py:78-81 | any running entry is closed at now; the written snapshot is the cache after that stop (today's total grown, all other keys kept), so it shows no timer and carries the exit flag only if the cache already did; the cache is that snapshot plus the exit flag |
| Idleless.ShutdownTwicePersistsExitFlag | clockify_idleless/idleless.py:78-81 | a second exit_app sends nothing but writes a snapshot that carries the exit flag |
| Idleless.StoredExitFlagStopsTracking | clockify_idleless/idleless.py:89-91 | a process that loads a snapshot carrying the exit flag never changes its cache or sends anything, whatever the readings |
| Idleless.ShutdownOnce | clockify_idleless/idleless.py:78-81 | with a guard on the exit flag, a second shutdown does nothing and writes nothing |
| Idleless.ShutdownOnceNeverPersistsFlag | clockify_idleless/idleless.py:78-81 | with the guard, two shutdowns write one snapshot, which has no timer and no exit flag |
| Idleless.Run | clockify_idleless/idleless.py:89-95 | any run of ticks keeps the cache invariant; once the exit flag is set, a run changes nothing and sends nothing |
| Idleless.RunUpdatesOnlyKnownEntries | clockify_idleless/idleless.py:64-69 | over any run, every update names the entry open at the start or one the run created earlier |
| Idleless.RunFrom | clockify_idleless/idleless.py:89-95 | a nonempty run (its first tick, then the run from the state it leaves) keeps the cache invariant, and is a no-op once the exit flag is set |
| Idleless.TickHandsOver | clockify_idleless/idleless.py:98-116 | a tick's updates all name the entry open before it; afterwards no entry is open, or the same one with no request sent, or the one its last request created |
| Idleless.TickCreates | clockify_idleless/idleless.py:98-116 | with no exit flag, a tick sends exactly one create when the user is present and the sleep and midnight rules left no timer running, and none otherwise |
| Idleless.Tracker.constructor | clockify_idleless/idleless.py:22-23 | a process starts with an empty cache beside its cache file |
| Idleless.Tracker.LoadCache | clockify_idleless/idleless.py:26-33 | the key-by-key copy loop leaves the cache equal to the merge of the file into it; a missing file leaves it unchanged |
| Idleless.Tracker.DumpCache | clockify_idleless/idleless.py:36-38 | the file holds the cache |
| Idleless.Tracker.IsTimerRunning | clockify_idleless/idleless.py:85-86 | the one-key test is true iff all four timer keys are present, and false iff none is |
| Idleless.Tracker.StartTimer | clockify_idleless/idleless.py:41-57 | the cache and the server log become those of Start, with the id the server answers; the file is untouched |
| Idleless.Tracker.StopTimer | clockify_idleless/idleless.py:60-75 | the cache and the log become those of Stop, with end defaulting to now; no id is issued and the file is untouched |
| Idleless.Tracker.ExitApp | clockify_idleless/idleless.py:78-82 | stops, dumps, and only then sets the exit flag, as Shutdown says |
| Idleless.Tracker.CloseStaleTimer | clockify_idleless/idleless.py:98-105 | cache and log become those of the first two rules |
| Idleless.Tracker.IdleCheck | clockify_idleless/idleless.py:89-117 | cache and log become those of Tick; exactly one id is issued per create; after a tick with no exit flag the file equals the cache, and with the flag the file is untouched |
| Legacy.Start | clockify_idleless.py:44-55 | no-op without a call when running; from stopped: one create, exactly the four keys added with the answered id and start = last active = now, other keys unchanged |
| Legacy.Stop | clockify_idleless.py:58-71 | no-op without a call when stopped; else one update with the stored id and end, exactly the four keys deleted, other keys unchanged |
| Legacy.StopUndoesStart | clockify_idleless.py:44-71 | start then stop from stopped restores the cache exactly, after one create and one update for the same id |
| Legacy.ClosingEnd | clockify_idleless.py:95-102 | with start ≤ last active ≤ now, a closed entry never ends before its start or after now |
| Legacy.CloseStale | clockify_idleless.py:95-102 | the first two rules keep the cache well-formed |
| Legacy.Check | clockify_idleless.py:94-113 | the timer ends running iff idle ≤ threshold, then with last active = now; only the four timer keys change |
| Legacy.Tick | clockify_idleless.py:86-114 | with the exit flag nothing changes and nothing is sent; otherwise the three rules apply |
| Legacy.CheckClosesSleptTimer | clockify_idleless.py:96-99 | after a sleep gap: update with end = last active, then a create only if the user is present |
| Legacy.CheckSplitsAtMidnight | clockify_idleless.py:100-113 | when the day of the month has grown: update at now, then a new entry at now if the user is present |
| Legacy.CheckStopsIdleTimer | clockify_idleless.py:104-107 | idle with no earlier rule firing: one update at now, and the four keys go |
| Legacy.CheckFromStopped | clockify_idleless.py:104-113 | from stopped: idle changes nothing; present opens an entry at now with one create |
| Legacy.CheckHeartbeat | clockify_idleless.py:108-113 | a running entry that no rule closes only gets last active = now, and no call is sent |
| Legacy.MonthEndMissesMidnight | clockify_idleless.py:100-102 | an entry started on 31 January 23:58 survives a tick at 1 February 00:02 unsplit |
| Legacy.Shutdown | clockify_idleless.py:75-79 | any running entry is closed at now; the written snapshot is the cache after that stop (all non-timer keys kept), so it shows no timer and carries the exit flag only if the cache already did; the cache is that snapshot plus the exit flag |
| Legacy.ShutdownTwicePersistsExitFlag | clockify_idleless.py:75-79 | a second exit_app writes a snapshot with the exit flag, and a process that loads it does nothing on its tick |
| Legacy.ShutdownOnce | clockify_idleless.py:75-79 | with a guard on the exit flag, a second shutdown does nothing and writes nothing |
| Legacy.ShutdownOnceNeverPersistsFlag | clockify_idleless.py:75-79 | with the guard, the only snapshot written has no timer and no exit flag |
| Legacy.Run | clockify_idleless.py:86-92 | any run keeps the cache well-formed; once the exit flag is set, a run changes nothing and sends nothing |
| Legacy.Tracker.constructor | clockify_idleless.py:25-26 | a process starts with an empty cache beside its cache file |
| Legacy.Tracker.LoadCache | clockify_idleless.py:29-36 | the copy loop leaves the cache equal to the merge of the file into it; a missing file leaves it unchanged |
| Legacy.Tracker.DumpCache | clockify_idleless.py:39-41 | the file holds the cache |
| Legacy.Tracker.IsTimerRunning | clockify_idleless.py:82-83 | the one-key test is true iff all four timer keys are present |
| Legacy.Tracker.StartTimer | clockify_idleless.py:44-55 | cache and log become those of Start with the answered id; the file is untouched |
| Legacy.Tracker.StopTimer | clockify_idleless.py:58-72 | cache and log become those of Stop, with end defaulting to now |
| Legacy.Tracker.ExitApp | clockify_idleless.py:75-79 | stops, dumps, then sets the exit flag, as Shutdown says |
| Legacy.Tracker.CloseStaleTimer | clockify_idleless.py:95-102 | cache and log become those of the first two rules |
| Legacy.Tracker.IdleCheck | clockify_idleless.py:86-114 | cache and log become those of Tick; after a tick with no exit flag the file equals the cache |
| Idle.Tick | clockify_idle.py:73-95 | with the fixed 10 s constants and no exit guard, the timer ends running iff idle ≤ 10 s; the rules are Legacy.Check's |
| Idle.Persisted | clockify_idle.py:86-96 | the file is rewritten with the new cache only when the user is present, then showing a running timer with last active = now; when idle, the file stays as it was |
| Idle.IdleStopLeavesStaleSnapshot | clockify_idle.py:86-89 | after an idle stop, a file that showed the running entry still shows it, while the cache has none |
| Idle.RestartClosesEntryTwice | clockify_idle.py:77-89 | a process restarted from that file sends a second update for the already closed entry; when its last active time was no later than the idle tick, that end is no later than the first |
| Idle.Run | clockify_idle.py:73-74 | any run keeps the cache well-formed and changes only the four timer keys; an exit flag is ignored |
| Idle.Tracker.constructor | clockify_idle.py:18-19 | a process starts with an empty cache beside its cache file |
| Idle.Tracker.LoadCache | clockify_idle.py:22-29 | the copy loop leaves the cache equal to the merge of the file into it; a missing file leaves it unchanged |
| Idle.Tracker.DumpCache | clockify_idle.py:32-34 | the file holds the cache |
| Idle.Tracker.IsTimerRunning | clockify_idle.py:69-70 | the one-key test is true iff all four timer keys are present |
| Idle.Tracker.StartTimer | clockify_idle.py:37-49 | cache and log become those of Legacy.Start; a started timer is written to the file at once, so the file equals the cache |
| Idle.Tracker.StopTimer | clockify_idle.py:52-66 | cache and log become those of Legacy.Stop; the file is untouched |
| Idle.Tracker.CloseStaleTimer | clockify_idle.py:77-84 | cache and log become those of the first two rules |
| Idle.Tracker.IdleCheck | clockify_idle.py:73-96 | cache and log become those of Tick; the file becomes Persisted |

## Left out

- `get_idle_duration` and `LASTINPUTINFO`: these are Windows calls (`GetLastInputInfo`, `GetTickCount`). The idle reading is an input to the tick, in milliseconds.
- The rescheduling through `threading.Timer`: a run of ticks is modelled as a sequence (`Run`). Overlapping ticks, the threads and the unsynchronised access to `CACHE` are concurrency, and are not modelled.
- The signal and `atexit` handlers, `exit_gracefully`, `sys.exit` and `main`: process plumbing. Only `exit_app`'s effect on the state is modelled. The handlers matter only in the finding on calling it twice.
- The wx tray UI (`TaskBarIcon`, `App`, `create_menu_item`, `on_duration`): presentation only.
- The `clockify` client module is not part of this model:
  - The entry body from `get_new_time_entry` is an opaque `TimeEntry`.
  - `send_time_entry` is a logged create or update. The service answers a create with an id that no earlier create got.
  - Transport errors are not modelled. In all three variants each send precedes every key assignment and deletion of its operation. The only earlier change is the `end` field written into the cached entry (next bullet), which a failed update leaves behind.
- The `end` field that `stop_timer` writes into the entry before the update: the update records the end timestamp instead. The entry is deleted from the cache right afterwards. The `strftime` formatting is not modelled.
- The return values of `start_timer` and `stop_timer`: no caller in the core uses them.
- JSON encoding and file I/O errors: `dump_cache` stores the snapshot and `load_cache` merges it. A stored file is assumed to be one the tracker wrote: each known key holds the kind of value the tracker writes under it, and the timer keys are all present or all absent. A malformed file, which would raise in the source, is not modelled.
- `configparser` loading: `LOOP_TIME` and `IDLE_THRESHOLD` are values in `Config`.
- Float timestamps: times are integer seconds. Only idle readings are finer, in milliseconds.
- Calendar: local dates come from one fixed UTC offset. Daylight-saving changes are not modelled.
- `print` logging.
- Idleless.Start: requires the clock to read a time on any local date other than that of the Unix epoch. Only then does a cache without a day marker always reset the accumulator. On that single day the source would start a timer without `today_active_time`, and the next stop would raise `KeyError`.
- Idleless.Tick: the same requirement on the clock, for the start it may make.
- Idleless.Run: the same requirement on every reading's clock.
- Idleless.StoredExitFlagStopsTracking: the same requirement on every reading's clock.
- Idleless.RunUpdatesOnlyKnownEntries: the same requirement on every reading's clock.
- Idleless.Tracker.StartTimer: the same requirement on the clock.
- Idleless.Tracker.IdleCheck: the same requirement on the clock.

## Findings

| source | as written | input that shows it | evidently intended | confidence | as-written member | corrected member |
|---|---|---|---|---|---|---|
| clockify_idleless.py:100 | the midnight rule compares only the day of the month (`.day >`); `clockify_idle.py:82` does the same | an entry started 1970-01-31 23:58 (UTC offset 0) with the user present at a tick on 1970-02-01 00:02: 1 > 31 is false, so the entry runs on across midnight | split at every change of local date, as `clockify_idleless/idleless.py:103` does with `.date() >` | high, not executed | Legacy.MonthEndMissesMidnight | Idleless.TickLeavesNoEntryAcrossMidnight |
| clockify_idleless/idleless.py:78-81 | `exit_app` is not guarded against a second call; the SIGINT handler `exit_gracefully` (lines 195-201) calls it and the hook registered with `atexit` (line 207) calls it again, and the second `dump_cache` writes `'exit': True` | Ctrl-C while running: the first call stops and dumps, the second dumps a cache with the exit flag; the next start loads it and `idle_check` returns at once on every tick | shut down once and never store the exit flag, so the next process tracks again | medium, not executed | Idleless.ShutdownTwicePersistsExitFlag | Idleless.ShutdownOnceNeverPersistsFlag |
| clockify_idleless.py:75-79 | the same unguarded `exit_app`, called by the SIGINT handler (lines 190-196) and by the `atexit` hook (line 203) | as in the row above | as in the row above | medium, not executed | Legacy.ShutdownTwicePersistsExitFlag | Legacy.ShutdownOnceNeverPersistsFlag |

The `Tracker` classes model each program as written. The midnight rule
corrected in the first row is the one `Idleless` uses. The corrected shutdown
is `ShutdownOnce`, defined beside the as-written `Shutdown`.
