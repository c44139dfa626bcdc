/**
 * The periodic inactivity tick (`check_inactivity`). Each tick reads the
 * current time and one probe answer, updates the idle clock, may stop the
 * server, and yields the notices it sends to the notification channel.
 */
module Inactivity {
  import opened Wrappers
  import opened Config
  import opened Probe
  import opened Manager

  datatype Notice = Warning(minutesLeft: int) | ShutdownNotice

  datatype TickResult = TickResult(state: ManagerState, notices: seq<Notice>)

  /** One tick's inputs: the time, the probe answer and what a stop would do. */
  datatype TickInput = TickInput(now: int, probe: Status, outcome: StopOutcome)

  function IdleSeconds(s: ManagerState, now: int): int {
    now - s.lastPlayerTime
  }

  /** The warning is a duration window one tick period wide, not a one-shot flag. */
  predicate InWarningWindow(idle: int) {
    WARNING_TIME <= idle < WARNING_TIME + CHECK_INTERVAL
  }

  predicate ShutdownDue(idle: int) {
    idle >= SHUTDOWN_TIME
  }

  /** Whole minutes in `n` seconds, truncated toward zero as `int(n / 60)` does. */
  function TruncMinutes(n: int): (m: int)
    ensures n >= 0 ==> 0 <= m * 60 <= n < m * 60 + 60
    ensures n < 0 ==> m * 60 - 60 < n <= m * 60 <= 0
  {
    if n >= 0 then n / 60 else -((-n) / 60)
  }

  /** The minutes announced by the warning. */
  function RemainingMinutes(idle: int): (m: int)
    ensures InWarningWindow(idle) ==> 0 <= m <= 5
    ensures InWarningWindow(idle) ==> (m == 5 <==> idle == WARNING_TIME)
  {
    TruncMinutes(SHUTDOWN_TIME - idle)
  }

  /** The decision of one tick, the two checks being independent `if`s. */
  function Tick(s: ManagerState, now: int, probe: Status, outcome: StopOutcome): (r: TickResult)
    ensures |r.notices| <= 1
    ensures r.state.lastPlayerTime == s.lastPlayerTime || r.state.lastPlayerTime == now
    ensures r.state.serverProcess != s.serverProcess ==> r.notices == [ShutdownNotice]
  {
    if !Unoccupied(probe) then
      TickResult(s.(lastPlayerTime := now), [])
    else
      var idle := IdleSeconds(s, now);
      var warning := if InWarningWindow(idle) then [Warning(RemainingMinutes(idle))] else [];
      if ShutdownDue(idle) then
        TickResult(ManagerState(now, Stopped(s.serverProcess, outcome).process), warning + [ShutdownNotice])
      else
        TickResult(s, warning)
  }

  function TickOn(s: ManagerState, input: TickInput): TickResult {
    Tick(s, input.now, input.probe, input.outcome)
  }

  /** The results of running the ticks `inputs` one after another from `s`. */
  function Trace(s: ManagerState, inputs: seq<TickInput>): (t: seq<TickResult>)
    ensures |t| == |inputs|
    decreases |inputs|
  {
    if inputs == [] then []
    else
      var r := TickOn(s, inputs[0]);
      [r] + Trace(r.state, inputs[1..])
  }

  /** An offline server or a connected player resets the idle clock and nothing is sent. */
  lemma ActivityResetsClock(s: ManagerState, now: int, probe: Status, outcome: StopOutcome)
    requires !Unoccupied(probe)
    ensures Tick(s, now, probe, outcome) == TickResult(ManagerState(now, s.serverProcess), [])
    ensures IdleSeconds(Tick(s, now, probe, outcome).state, now) == 0
  {
  }

  /** With the configured constants the warning window closes exactly where shutdown begins. */
  lemma WindowEndsAtShutdown(idle: int)
    ensures !(InWarningWindow(idle) && ShutdownDue(idle))
    ensures InWarningWindow(idle) <==> WARNING_TIME <= idle && !ShutdownDue(idle)
  {
  }

  /** An unoccupied tick before the warning window sends nothing and keeps the idle clock running. */
  lemma QuietBeforeWindow(s: ManagerState, now: int, probe: Status, outcome: StopOutcome)
    requires Unoccupied(probe) && IdleSeconds(s, now) < WARNING_TIME
    ensures Tick(s, now, probe, outcome) == TickResult(s, [])
  {
  }

  /**
   * A tick sends a warning exactly when the server is unoccupied inside the
   * window; the warning is then the only notice and carries the remaining minutes.
   */
  lemma WarningExactly(s: ManagerState, now: int, probe: Status, outcome: StopOutcome)
    ensures (exists n :: n in Tick(s, now, probe, outcome).notices && n.Warning?)
      <==> Unoccupied(probe) && InWarningWindow(IdleSeconds(s, now))
    ensures var idle := IdleSeconds(s, now);
      Tick(s, now, probe, outcome).notices == [Warning(RemainingMinutes(idle))]
      <==> Unoccupied(probe) && InWarningWindow(idle)
    ensures forall n :: n in Tick(s, now, probe, outcome).notices && n.Warning? ==>
      0 <= n.minutesLeft <= 5
    ensures Unoccupied(probe) && InWarningWindow(IdleSeconds(s, now)) ==>
      Tick(s, now, probe, outcome).state == s
  {
    var idle := IdleSeconds(s, now);
    WindowEndsAtShutdown(idle);
    var notices := Tick(s, now, probe, outcome).notices;
    if Unoccupied(probe) && !InWarningWindow(idle) && ShutdownDue(idle) {
      assert notices[0] == ShutdownNotice;
    }
    if Unoccupied(probe) && InWarningWindow(idle) {
      assert Warning(RemainingMinutes(idle)) in notices;
    }
  }

  /** A tick shuts down exactly when the server has been unoccupied for SHUTDOWN_TIME; it then stops the server and resets the clock. */
  lemma ShutdownExactly(s: ManagerState, now: int, probe: Status, outcome: StopOutcome)
    ensures ShutdownNotice in Tick(s, now, probe, outcome).notices
      <==> Unoccupied(probe) && ShutdownDue(IdleSeconds(s, now))
    ensures ShutdownNotice in Tick(s, now, probe, outcome).notices ==>
      Tick(s, now, probe, outcome) == TickResult(ManagerState(now, Stopped(s.serverProcess, outcome).process), [ShutdownNotice])
  {
  }

  /** Right after a shutdown, the next tick cannot shut down again before SHUTDOWN_TIME has passed. */
  lemma NoShutdownRightAfterShutdown(s: ManagerState, first: TickInput, second: TickInput)
    requires ShutdownNotice in TickOn(s, first).notices
    requires second.now < first.now + SHUTDOWN_TIME
    ensures ShutdownNotice !in TickOn(TickOn(s, first).state, second).notices
  {
  }

  /** The warning repeats while ticks keep landing in the window: two ticks 100 seconds apart both warn. */
  lemma WarningIsNotOneShot(outcome: StopOutcome)
    ensures Trace(ManagerState(0, None),
                  [TickInput(600, Online(0, 20), outcome), TickInput(700, Online(0, 20), outcome)])
      == [TickResult(ManagerState(0, None), [Warning(5)]), TickResult(ManagerState(0, None), [Warning(3)])]
  {
  }

  /** The results after the first tick are those of running the rest from the first tick's state. */
  lemma TraceAt(s: ManagerState, inputs: seq<TickInput>, k: nat)
    requires 0 < k < |inputs|
    ensures Trace(s, inputs)[k] == Trace(TickOn(s, inputs[0]).state, inputs[1..])[k - 1]
  {
  }

  /** While a player is connected or the server is offline, nothing is sent and the clock follows the ticks. */
  lemma {:induction false} OccupiedRunStaysQuiet(s: ManagerState, inputs: seq<TickInput>)
    requires forall i :: 0 <= i < |inputs| ==> !Unoccupied(inputs[i].probe)
    ensures forall i :: 0 <= i < |inputs| ==>
      Trace(s, inputs)[i] == TickResult(ManagerState(inputs[i].now, s.serverProcess), [])
    decreases |inputs|
  {
    if inputs != [] {
      var r := TickOn(s, inputs[0]);
      OccupiedRunStaysQuiet(r.state, inputs[1..]);
      forall i | 0 < i < |inputs|
        ensures Trace(s, inputs)[i] == TickResult(ManagerState(inputs[i].now, s.serverProcess), [])
      {
        TraceAt(s, inputs, i);
      }
    }
  }

  /** If the clock and every tick are at or after `t`, a shutdown at tick k is at least SHUTDOWN_TIME after `t`. */
  lemma {:induction false} ShutdownNeedsIdleSince(s: ManagerState, inputs: seq<TickInput>, t: int, k: nat)
    requires s.lastPlayerTime >= t
    requires forall i :: 0 <= i < |inputs| ==> inputs[i].now >= t
    requires k < |inputs| && ShutdownNotice in Trace(s, inputs)[k].notices
    ensures inputs[k].now - t >= SHUTDOWN_TIME
    decreases |inputs|
  {
    var r := TickOn(s, inputs[0]);
    TraceTail(s, inputs);
    if k == 0 {
      ShutdownExactly(s, inputs[0].now, inputs[0].probe, inputs[0].outcome);
    } else {
      assert Trace(s, inputs)[k] == Trace(r.state, inputs[1..])[k - 1];
      assert forall i :: 0 <= i < |inputs| - 1 ==> inputs[1..][i] == inputs[i + 1];
      ShutdownNeedsIdleSince(r.state, inputs[1..], t, k - 1);
    }
  }

  predicate Nondecreasing(inputs: seq<TickInput>) {
    forall i, j :: 0 <= i <= j < |inputs| ==> inputs[i].now <= inputs[j].now
  }

  /** With time running forward, any two shutdowns are at least SHUTDOWN_TIME apart. */
  lemma {:induction false} ShutdownsAreSpacedApart(s: ManagerState, inputs: seq<TickInput>, i: nat, j: nat)
    requires Nondecreasing(inputs)
    requires i < j < |inputs|
    requires ShutdownNotice in Trace(s, inputs)[i].notices
    requires ShutdownNotice in Trace(s, inputs)[j].notices
    ensures inputs[j].now - inputs[i].now >= SHUTDOWN_TIME
    decreases |inputs|
  {
    TraceAt(s, inputs, j);
    var r := TickOn(s, inputs[0]);
    if i == 0 {
      ShutdownNeedsIdleSince(r.state, inputs[1..], inputs[0].now, j - 1);
    } else {
      TraceAt(s, inputs, i);
      ShutdownsAreSpacedApart(r.state, inputs[1..], i - 1, j - 1);
    }
  }

  /** The notices of the k-th tick of a run of evenly spaced unoccupied ticks. */
  function CycleNotices(k: nat): seq<Notice> {
    if k % 3 == 1 then [Warning(5)]
    else if k % 3 == 2 then [ShutdownNotice]
    else []
  }

  /** The phase after one more period: the clock is reset every third period. */
  function NextPhase(phase: nat): nat {
    if phase == 2 then 0 else phase + 1
  }

  /** The ticks come one CHECK_INTERVAL apart, the first one CHECK_INTERVAL after `t`. */
  predicate EvenlySpaced(inputs: seq<TickInput>, t: int) {
    |inputs| > 0 ==>
      inputs[0].now == t + CHECK_INTERVAL &&
      forall i :: 0 < i < |inputs| ==> inputs[i].now == inputs[i - 1].now + CHECK_INTERVAL
  }

  predicate AllUnoccupied(inputs: seq<TickInput>) {
    forall i :: 0 <= i < |inputs| ==> Unoccupied(inputs[i].probe)
  }

  /** What remains of an evenly spaced, unoccupied run after its first tick is again one, a period later. */
  lemma SpacedTail(inputs: seq<TickInput>, t: int)
    requires |inputs| > 0 && EvenlySpaced(inputs, t) && AllUnoccupied(inputs)
    ensures EvenlySpaced(inputs[1..], t + CHECK_INTERVAL) && AllUnoccupied(inputs[1..])
  {
    assert forall i :: 0 <= i < |inputs| - 1 ==> inputs[1..][i] == inputs[i + 1];
  }

  /** A run is its first tick followed by the run of the rest from that tick's state. */
  lemma TraceTail(s: ManagerState, inputs: seq<TickInput>)
    requires |inputs| > 0
    ensures Trace(s, inputs)[0] == TickOn(s, inputs[0])
    ensures Trace(s, inputs)[1..] == Trace(TickOn(s, inputs[0]).state, inputs[1..])
  {
  }

  /** Advancing the phase by one period shifts the cycle by one tick. */
  lemma CycleShift(k: nat, phase: nat)
    requires phase < 3
    ensures CycleNotices(k + NextPhase(phase)) == CycleNotices(k + 1 + phase)
  {
    if phase == 2 {
      assert (k + 3) % 3 == k % 3;
    }
  }

  /** The cycle holds of a run's results when it holds of the first and, one phase on, of the rest. */
  lemma CycleFromRest(results: seq<TickResult>, phase: nat)
    requires phase < 3 && |results| > 0
    requires results[0].notices == CycleNotices(phase)
    requires forall i :: 0 <= i < |results| - 1 ==>
      results[1..][i].notices == CycleNotices(i + NextPhase(phase))
    ensures forall i :: 0 <= i < |results| ==> results[i].notices == CycleNotices(i + phase)
  {
    forall i | 0 < i < |results|
      ensures results[i].notices == CycleNotices(i + phase)
    {
      assert results[1..][i - 1] == results[i];
      CycleShift(i - 1, phase);
    }
  }

  /** One unoccupied tick one period after `t`, the clock reset `phase` periods before `t`. */
  lemma PeriodicTick(s: ManagerState, input: TickInput, t: int, phase: nat)
    requires phase < 3
    requires s.lastPlayerTime == t - CHECK_INTERVAL * phase
    requires input.now == t + CHECK_INTERVAL && Unoccupied(input.probe)
    ensures TickOn(s, input).notices == CycleNotices(phase)
    ensures TickOn(s, input).state.lastPlayerTime == t + CHECK_INTERVAL - CHECK_INTERVAL * NextPhase(phase)
  {
    if phase == 0 {
      assert IdleSeconds(s, input.now) == CHECK_INTERVAL;
    } else if phase == 1 {
      assert IdleSeconds(s, input.now) == 2 * CHECK_INTERVAL;
    } else {
      assert IdleSeconds(s, input.now) == 3 * CHECK_INTERVAL;
    }
  }

  /**
   * Ticks every CHECK_INTERVAL from `t + CHECK_INTERVAL` on with nobody
   * connected, the clock having been reset exactly `phase` periods before `t`,
   * for phase 0 to 2: quiet, warn with 5 minutes left, shut down, and over
   * again. So, when the clock resets line up exactly with the ticks, each idle
   * episode warns once (compare `MisalignedTicksWarnLate`, `JitterSkipsWarning`
   * and `JitterWarnsTwice`).
   */
  lemma {:induction false} PeriodicIdleCycle(s: ManagerState, inputs: seq<TickInput>, t: int, phase: nat)
    requires phase < 3
    requires s.lastPlayerTime == t - CHECK_INTERVAL * phase
    requires EvenlySpaced(inputs, t)
    requires AllUnoccupied(inputs)
    ensures forall i :: 0 <= i < |inputs| ==> Trace(s, inputs)[i].notices == CycleNotices(i + phase)
    decreases |inputs|
  {
    if inputs != [] {
      var r := TickOn(s, inputs[0]);
      PeriodicTick(s, inputs[0], t, phase);
      SpacedTail(inputs, t);
      TraceTail(s, inputs);
      PeriodicIdleCycle(r.state, inputs[1..], t + CHECK_INTERVAL, NextPhase(phase));
      CycleFromRest(Trace(s, inputs), phase);
    }
  }

  /**
   * When the clock was reset a little after the tick period's boundary (the
   * time of one probe differs from the next), ticks 300 seconds apart miss the
   * 600-second mark: the warning comes one period late, saying 0 minutes,
   * and the shutdown a period after that.
   */
  lemma MisalignedTicksWarnLate(outcome: StopOutcome)
    ensures Trace(ManagerState(0, None),
                  [TickInput(300, Online(0, 20), outcome), TickInput(599, Online(0, 20), outcome),
                   TickInput(899, Online(0, 20), outcome), TickInput(1199, Online(0, 20), outcome)])
      == [TickResult(ManagerState(0, None), []), TickResult(ManagerState(0, None), []),
          TickResult(ManagerState(0, None), [Warning(0)]),
          TickResult(ManagerState(1199, None), [ShutdownNotice])]
  {
    var s0 := ManagerState(0, None);
    var a, b := TickInput(300, Online(0, 20), outcome), TickInput(599, Online(0, 20), outcome);
    var c, d := TickInput(899, Online(0, 20), outcome), TickInput(1199, Online(0, 20), outcome);
    var quiet, warned := TickResult(s0, []), TickResult(s0, [Warning(0)]);
    var stopped := TickResult(ManagerState(1199, None), [ShutdownNotice]);
    assert Trace(s0, [d]) == [stopped] by {
      ShutdownExactly(s0, 1199, d.probe, outcome);
      TraceTail(s0, [d]);
    }
    assert Trace(s0, [c, d]) == [warned, stopped] by {
      WarningExactly(s0, 899, c.probe, outcome);
      TraceTail(s0, [c, d]);
      assert [c, d][1..] == [d];
    }
    assert Trace(s0, [b, c, d]) == [quiet, warned, stopped] by {
      QuietBeforeWindow(s0, 599, b.probe, outcome);
      TraceTail(s0, [b, c, d]);
      assert [b, c, d][1..] == [c, d];
    }
    QuietBeforeWindow(s0, 300, a.probe, outcome);
    TraceTail(s0, [a, b, c, d]);
    assert [a, b, c, d][1..] == [b, c, d];
  }

  /**
   * A tick just short of the 600-second mark followed by one at the 900-second
   * mark: no warning is ever sent before the shutdown.
   */
  lemma JitterSkipsWarning(outcome: StopOutcome)
    ensures Trace(ManagerState(0, None),
                  [TickInput(300, Online(0, 20), outcome), TickInput(599, Online(0, 20), outcome),
                   TickInput(900, Online(0, 20), outcome)])
      == [TickResult(ManagerState(0, None), []), TickResult(ManagerState(0, None), []),
          TickResult(ManagerState(900, None), [ShutdownNotice])]
  {
    var s0 := ManagerState(0, None);
    var a, b := TickInput(300, Online(0, 20), outcome), TickInput(599, Online(0, 20), outcome);
    var c := TickInput(900, Online(0, 20), outcome);
    var quiet, stopped := TickResult(s0, []), TickResult(ManagerState(900, None), [ShutdownNotice]);
    assert Trace(s0, [c]) == [stopped] by {
      ShutdownExactly(s0, 900, c.probe, outcome);
      TraceTail(s0, [c]);
    }
    assert Trace(s0, [b, c]) == [quiet, stopped] by {
      QuietBeforeWindow(s0, 599, b.probe, outcome);
      TraceTail(s0, [b, c]);
      assert [b, c][1..] == [c];
    }
    QuietBeforeWindow(s0, 300, a.probe, outcome);
    TraceTail(s0, [a, b, c]);
    assert [a, b, c][1..] == [b, c];
  }

  /**
   * A tick just past the 600-second mark followed by one just short of the
   * 900-second mark: two warnings, then the shutdown a period later.
   */
  lemma JitterWarnsTwice(outcome: StopOutcome)
    ensures Trace(ManagerState(0, None),
                  [TickInput(601, Online(0, 20), outcome), TickInput(899, Online(0, 20), outcome),
                   TickInput(1199, Online(0, 20), outcome)])
      == [TickResult(ManagerState(0, None), [Warning(4)]), TickResult(ManagerState(0, None), [Warning(0)]),
          TickResult(ManagerState(1199, None), [ShutdownNotice])]
  {
    var s0 := ManagerState(0, None);
    var a, b := TickInput(601, Online(0, 20), outcome), TickInput(899, Online(0, 20), outcome);
    var c := TickInput(1199, Online(0, 20), outcome);
    var first, second := TickResult(s0, [Warning(4)]), TickResult(s0, [Warning(0)]);
    var stopped := TickResult(ManagerState(1199, None), [ShutdownNotice]);
    assert Trace(s0, [c]) == [stopped] by {
      ShutdownExactly(s0, 1199, c.probe, outcome);
      TraceTail(s0, [c]);
    }
    assert Trace(s0, [b, c]) == [second, stopped] by {
      WarningExactly(s0, 899, b.probe, outcome);
      TraceTail(s0, [b, c]);
      assert [b, c][1..] == [c];
    }
    WarningExactly(s0, 601, a.probe, outcome);
    TraceTail(s0, [a, b, c]);
    assert [a, b, c][1..] == [b, c];
  }

  /** The tick as the bot runs it on the shared manager. */
  method CheckInactivity(m: ServerManager, now: int, probe: Status, outcome: StopOutcome)
    returns (notices: seq<Notice>)
    modifies m
    ensures TickResult(m.State(), notices) == Tick(old(m.State()), now, probe, outcome)
  {
    if probe.Offline? {
      m.lastPlayerTime := now;
      return [];
    }
    if probe.players > 0 {
      m.lastPlayerTime := now;
      return [];
    }
    var idle := now - m.lastPlayerTime;
    notices := [];
    if InWarningWindow(idle) {
      notices := notices + [Warning(RemainingMinutes(idle))];
    }
    if ShutdownDue(idle) {
      notices := notices + [ShutdownNotice];
      var stopped := m.StopServer(outcome);
      m.lastPlayerTime := now;
    }
  }
}
