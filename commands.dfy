/**
 * The operator commands: `abrir` (start and wait for readiness), `cerrar`
 * (stop, asking for confirmation when players are connected) and the idle
 * time shown by `status`. Each probe answer, the spawn outcome and the
 * confirmation are inputs; each command runs as one atomic step.
 */
module Commands {
  import opened Wrappers
  import opened Config
  import opened Probe
  import opened Manager
  import opened Inactivity

  /** How the readiness poll ended: online after `seconds`, or never online. */
  datatype Readiness = Ready(seconds: int) | NotResponding

  /** `abrir` either finds the server online, or spawns it and polls for readiness. */
  datatype OpenOutcome =
    | AlreadyOnline
    | Launched(startOk: bool, readiness: Readiness, progress: seq<int>)

  datatype CloseOutcome = Cancelled | Closed(ok: bool)

  /** Probe `i` (counting from 1) is the first of the poll to find the server online. */
  predicate FirstOnlineAt(polls: seq<Status>, i: int)
    requires |polls| >= READY_ATTEMPTS
  {
    1 <= i <= READY_ATTEMPTS && polls[i - 1].Online? &&
    forall k :: 0 <= k < i - 1 ==> polls[k].Offline?
  }

  predicate NeverOnline(polls: seq<Status>)
    requires |polls| >= READY_ATTEMPTS
  {
    forall k :: 0 <= k < READY_ATTEMPTS ==> polls[k].Offline?
  }

  /** The elapsed seconds reported after each of the first `n` probes that found the server offline. */
  function Checkpoints(n: nat): seq<int> {
    seq(n, k => READY_POLL_SECONDS * (k + 1))
  }

  /**
   * What the readiness poll reports for the probe answers `polls`: ready at
   * five seconds per probe up to the first online one, with a progress report
   * for every offline probe before it; or not responding after all 24 probes
   * were offline, with 24 progress reports.
   */
  predicate Polled(polls: seq<Status>, r: Readiness, progress: seq<int>)
    requires |polls| >= READY_ATTEMPTS
  {
    match r
    case Ready(seconds) =>
      seconds % READY_POLL_SECONDS == 0 && FirstOnlineAt(polls, seconds / READY_POLL_SECONDS) &&
      progress == Checkpoints(seconds / READY_POLL_SECONDS - 1)
    case NotResponding =>
      NeverOnline(polls) && progress == Checkpoints(READY_ATTEMPTS)
  }

  /** The readiness loop of `abrir`: at most 24 probes, 5 seconds apart, stopping at the first online one. */
  method ReadinessPoll(polls: seq<Status>) returns (r: Readiness, progress: seq<int>)
    requires |polls| >= READY_ATTEMPTS
    ensures Polled(polls, r, progress)
    ensures r.Ready? ==> READY_POLL_SECONDS <= r.seconds <= READY_POLL_SECONDS * READY_ATTEMPTS
  {
    progress := [];
    for i := 1 to READY_ATTEMPTS + 1
      invariant forall k :: 0 <= k < i - 1 ==> polls[k].Offline?
      invariant progress == Checkpoints(i - 1)
    {
      if polls[i - 1].Online? {
        r := Ready(i * READY_POLL_SECONDS);
        assert r.seconds / READY_POLL_SECONDS == i;
        return;
      }
      progress := progress + [i * READY_POLL_SECONDS];
    }
    r := NotResponding;
  }

  /** Every poll has exactly one report: the poll's specification leaves no choice. */
  lemma PollIsDetermined(polls: seq<Status>, r1: Readiness, p1: seq<int>, r2: Readiness, p2: seq<int>)
    requires |polls| >= READY_ATTEMPTS
    requires Polled(polls, r1, p1) && Polled(polls, r2, p2)
    ensures r1 == r2 && p1 == p2
  {
  }

  /**
   * `abrir`: `initial` is the first probe, `spawned` the spawn outcome and
   * `polls` the probes of the readiness loop. The loop runs whether or not the
   * spawn succeeded.
   */
  method Abrir(m: ServerManager, initial: Status, spawned: Option<Pid>, polls: seq<Status>)
    returns (r: OpenOutcome)
    requires |polls| >= READY_ATTEMPTS
    modifies m
    ensures initial.Online? ==> r == AlreadyOnline && unchanged(m)
    ensures initial.Offline? ==> r.Launched? && r.startOk == spawned.Some?
    ensures initial.Offline? ==> Polled(polls, r.readiness, r.progress)
    ensures initial.Offline? ==>
      m.State() == ManagerState(old(m.lastPlayerTime), if spawned.Some? then spawned else old(m.serverProcess))
  {
    if initial.Online? {
      return AlreadyOnline;
    }
    var ok := m.StartServer(spawned);
    var readiness, progress := ReadinessPoll(polls);
    r := Launched(ok, readiness, progress);
  }

  /** `cerrar` asks for confirmation exactly when the server is online with players. */
  predicate NeedsConfirmation(probe: Status) {
    probe.Online? && probe.players > 0
  }

  /**
   * `cerrar`: `confirmed` tells whether the operator confirmed before the
   * timeout. `asked` is the player count shown in the confirmation request, if
   * one was made. A cancelled close leaves the manager untouched.
   */
  method Cerrar(m: ServerManager, probe: Status, confirmed: bool, outcome: StopOutcome)
    returns (asked: Option<nat>, r: CloseOutcome)
    modifies m
    ensures asked == if NeedsConfirmation(probe) then Some(probe.players) else None
    ensures r == Cancelled <==> NeedsConfirmation(probe) && !confirmed
    ensures r == Cancelled ==> unchanged(m)
    ensures r.Closed? ==> StopResult(m.serverProcess, r.ok) == Stopped(old(m.serverProcess), outcome)
    ensures m.lastPlayerTime == old(m.lastPlayerTime)
  {
    asked := None;
    if NeedsConfirmation(probe) {
      asked := Some(probe.players);
      if !confirmed {
        return asked, Cancelled;
      }
    }
    var ok := m.StopServer(outcome);
    r := Closed(ok);
  }

  /** The idle minutes `status` shows (floor division), only when the server is online. */
  function StatusIdleMinutes(probe: Status, now: int, lastPlayerTime: int): (r: Option<int>)
    ensures r.Some? <==> probe.Online?
    ensures r.Some? ==> r.value * 60 <= now - lastPlayerTime < r.value * 60 + 60
  {
    if probe.Offline? then None else Some((now - lastPlayerTime) / 60)
  }

  /**
   * The minutes `status` shows agree with the tick: a tick at the same
   * instant shuts down exactly from 15 minutes on, and warns exactly at 10 to 14.
   */
  lemma IdleMinutesMatchTick(s: ManagerState, now: int, probe: Status)
    requires Unoccupied(probe)
    ensures var minutes := StatusIdleMinutes(probe, now, s.lastPlayerTime).value;
      (ShutdownDue(IdleSeconds(s, now)) <==> minutes >= SHUTDOWN_TIME / 60) &&
      (InWarningWindow(IdleSeconds(s, now)) <==> WARNING_TIME / 60 <= minutes < SHUTDOWN_TIME / 60)
  {
  }
}
