# Minecraft server lifecycle bot — verified model

A Discord bot (`Serverbot.py`) starts and stops a Minecraft server on request
and shuts it down on its own after a stretch with nobody connected. This
project models the part with real rules in it:

- the `ServerManager` object: the time a player was last seen
  (`lastPlayerTime`) and the handle of the spawned server process
  (`serverProcess`), with `start_server` and `stop_server`
  (`manager.dfy`, a class whose methods update those two fields);
- the inactivity tick `check_inactivity`, run every 300 seconds: a probe that
  finds the server offline or with players resets the idle clock; otherwise
  the tick warns while the idle time lies in `[600, 900)` and shuts the
  server down (and resets the clock) from 900 seconds on
  (`inactivity.dfy`: the pure decision `Tick`, runs of ticks `Trace`, and the
  method `CheckInactivity` on the manager);
- the commands `abrir` (skip when online, otherwise spawn and poll readiness
  up to 24 times, 5 seconds apart), `cerrar` (ask for confirmation when
  players are connected) and the idle minutes shown by `status`
  (`commands.dfy`).

Time is whole seconds supplied by the caller. The status probe is an input
`Status = Offline | Online(players, maxPlayers)`; the spawn outcome, the stop
outcome (`StopOutcome(terminated, swept)`) and the operator's confirmation are
inputs too. Constants are in `config.dfy`.

The model follows the code, including in these places where it does less than
one might expect:

- The warning is not one-shot: every tick whose idle time falls in
  `[600, 900)` warns again (`WarningIsNotOneShot`). With ticks exactly 300
  seconds apart and the clock reset exactly a multiple of 300 seconds before
  them, only one tick lands in the window, so each idle episode warns once
  (`PeriodicIdleCycle`). The code writes the clock after the probe of the
  tick that reset it and reads it after a later tick's probe, so the measured
  idle time is a multiple of 300 plus the difference of two probe delays. Let
  the resetting tick's probe take d0, the tick near 600 seconds d2 and the
  tick near 900 seconds d3; the idle times are then 600 + d2 - d0 and
  900 + d3 - d0, and four outcomes follow:
  - d2 >= d0 and d3 >= d0: one warning (4 or 5 minutes), shutdown at about 900;
  - d2 < d0 and d3 < d0: the warning is skipped, a "0 minutes" warning comes
    at about 900 and the shutdown at about 1200 (`MisalignedTicksWarnLate`);
  - d2 < d0 <= d3: no warning at all, shutdown at about 900
    (`JitterSkipsWarning`);
  - d2 >= d0 > d3: two warnings (4 minutes, then 0 minutes) and shutdown at
    about 1200 (`JitterWarnsTwice`).

  So with uneven probe delays an idle episode can get no warning or two.
- `stop_server` does not always clear the handle: when terminating or waiting
  for the owned process raises, the handle stays and the call returns
  failure. When the kill sweep raises, the handle is already cleared and the
  call still returns failure.
- `start_server` has no "already running" check: a held handle is replaced.
- `abrir` ignores the result of `start_server` and polls anyway, 24 times
  (up to 120 seconds), although its comment says 12 and its final message
  says one minute.

## Model

| member | source | states |
|---|---|---|
| Manager.Stopped | Serverbot.py:41-54 | a successful stop leaves no handle; a handle remains exactly when one was held and terminating it failed, and it is then the old handle and the stop fails; success iff (no handle or terminate succeeded) and the sweep ran |
| Manager.StopIsIdempotent | Serverbot.py:41-52 | stopping twice in a row succeeds both times and leaves no handle, also when no process was held |
| Manager.ServerManager.constructor | Serverbot.py:25-27 | the idle clock starts at the creation time and no process is held |
| Manager.ServerManager.StartServer | Serverbot.py:29-39 | succeeds iff the spawn succeeds; then the new handle replaces any held one, otherwise the handle is unchanged; the clock is untouched |
| Manager.ServerManager.StopServer | Serverbot.py:41-54 | the new handle and the returned flag are those of `Stopped`; the clock is untouched |
| Inactivity.InWarningWindow | Serverbot.py:95 | the warning window: idle time at least WARNING_TIME and below WARNING_TIME + CHECK_INTERVAL; its contract is carried by `WarningExactly` and `WindowEndsAtShutdown` |
| Inactivity.ShutdownDue | Serverbot.py:104 | the shutdown threshold: idle time at least SHUTDOWN_TIME; its contract is carried by `ShutdownExactly` and `WindowEndsAtShutdown` |
| Inactivity.Tick | Serverbot.py:81-108 | one tick sends at most one notice, leaves the clock where it was or sets it to now, and changes the handle only when it sends the shutdown notice; the exact cases are stated by `ActivityResetsClock`, `QuietBeforeWindow`, `WarningExactly` and `ShutdownExactly` |
| Inactivity.TruncMinutes | Serverbot.py:97-99 | `int(n / 60)`: whole minutes truncated toward zero, for negative `n` too |
| Inactivity.RemainingMinutes | Serverbot.py:97-99 | inside the warning window the announced minutes lie in 0..5, and are 5 exactly at idle 600 |
| Inactivity.ActivityResetsClock | Serverbot.py:81-89 | offline, or online with players: the clock is set to now, the handle kept, nothing sent, idle is 0 |
| Inactivity.WindowEndsAtShutdown | Serverbot.py:16-18 | with 600 + 300 = 900 the warning window and the shutdown range never overlap |
| Inactivity.QuietBeforeWindow | Serverbot.py:91-104 | online with 0 players and idle below 600: nothing is sent and the state, clock included, is unchanged |
| Inactivity.WarningExactly | Serverbot.py:91-101 | the tick sends any warning iff online with 0 players and 600 <= idle < 900, and then the notices are exactly one warning with the remaining minutes; its minutes are in 0..5; the state is untouched then |
| Inactivity.ShutdownExactly | Serverbot.py:103-108 | the tick shuts down iff online with 0 players and idle >= 900; it then sends only the shutdown notice, stops the server and resets the clock to now |
| Inactivity.NoShutdownRightAfterShutdown | Serverbot.py:104-108 | after a shutdown, the next tick cannot shut down unless 900 seconds have passed |
| Inactivity.WarningIsNotOneShot | Serverbot.py:95 | two unoccupied ticks at idle 600 and 700 both warn (5 and 3 minutes left) |
| Inactivity.Trace | Serverbot.py:74-75 | runs `Tick` over a list of inputs, passing the state along; its own contract says only that there is one result per tick (the run lemmas below carry the properties) |
| Inactivity.OccupiedRunStaysQuiet | Serverbot.py:81-89 | in a run where every probe is offline or has players, no tick sends anything, the clock equals each tick's time and the handle never changes |
| Inactivity.ShutdownNeedsIdleSince | Serverbot.py:92-108 | if the clock and all ticks are at or after `t`, any shutdown happens at least 900 seconds after `t` |
| Inactivity.ShutdownsAreSpacedApart | Serverbot.py:104-108 | with time running forward, any two shutdowns in a run are at least 900 seconds apart |
| Inactivity.PeriodicIdleCycle | Serverbot.py:74-108 | unoccupied ticks every 300 seconds from `t + 300` on, with the clock reset exactly `phase` periods before `t` (phase 0 to 2), go: nothing, warning with 5 minutes, shutdown, and repeat |
| Inactivity.JitterSkipsWarning | Serverbot.py:92-108 | unoccupied ticks at 300, 599 and 900 from clock 0 give nothing, nothing, then shutdown with the clock at 900: no warning before the shutdown |
| Inactivity.JitterWarnsTwice | Serverbot.py:92-108 | unoccupied ticks at 601, 899 and 1199 from clock 0 give a 4-minute warning, a 0-minute warning, then shutdown with the clock at 1199 |
| Inactivity.MisalignedTicksWarnLate | Serverbot.py:92-108 | with the clock reset just after a period boundary (ticks at 300, 599, 899, 1199 from clock 0), the ticks give nothing, nothing, a 0-minute warning, then shutdown |
| Inactivity.CheckInactivity | Serverbot.py:74-108 | updates the manager and returns the notices exactly as `Tick` prescribes |
| Commands.ReadinessPoll | Serverbot.py:133-141 | reports ready after 5·i seconds for the first online probe i (1..24) with a progress report for each earlier probe, or not responding iff all 24 probes are offline |
| Commands.PollIsDetermined | Serverbot.py:133-141 | the readiness report is fully determined by the probe answers |
| Commands.Abrir | Serverbot.py:121-141 | online at first: nothing spawned and the manager unchanged; otherwise the spawn sets the handle (on success) and the poll report is as `ReadinessPoll` states |
| Commands.NeedsConfirmation | Serverbot.py:149 | confirmation is needed exactly when the server is online with players; its contract is carried by `Cerrar` |
| Commands.Cerrar | Serverbot.py:143-166 | asks for confirmation (showing the player count) iff online with players; cancels iff asked and not confirmed, leaving the manager unchanged; otherwise stops as `Stopped` says |
| Commands.StatusIdleMinutes | Serverbot.py:190-191 | shown only when online; the floor of the idle seconds divided by 60 |
| Commands.IdleMinutesMatchTick | Serverbot.py:190 | the shown minutes are >= 15 exactly when a tick would shut down, and 10..14 exactly when it would warn |

## Left out

- Discord: bot setup, `on_ready`, message and embed sending, reactions, the `info` command. The notices a tick returns are what it would send; when the notification channel is missing nothing is sent, but the state changes are the same.
- The network status query: its answer is an input, and version, latency and message of the day are dropped.
- Process spawning and the `pkill` sweep: only their outcome (handle present or absent, success flag) is modelled; the messages returned with the flag are not.
- `asyncio` sleeps, the 30-second confirmation timeout and the interleaving of the periodic tick with commands: each tick or command is one atomic step, and the confirmation is an input flag.
- Floating-point time: each tick reads the clock once, in whole seconds, where the code reads it separately at each use.
- The catch-all error handler of `check_inactivity`: it only logs and sends a message; a failure to send a notice, which would skip the rest of the tick, is not modelled.
- Commands.Abrir: requires at least 24 probe answers to be supplied, one per possible probe of the loop.
