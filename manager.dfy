/**
 * The server manager: the time a player was last seen and the handle of the
 * server process this bot spawned. Spawning and terminating processes are
 * operating-system calls; only their outcome enters the model.
 */
module Manager {
  import opened Wrappers

  /** Stands for the handle returned by the process spawn. */
  type Pid = nat

  /**
   * What the operating system did during a stop: `terminated` is false when
   * terminating or waiting for the owned process raised; `swept` is false when
   * launching the kill-by-name sweep raised.
   */
  datatype StopOutcome = StopOutcome(terminated: bool, swept: bool)

  /** The handle left after a stop, and the success flag the stop returns. */
  datatype StopResult = StopResult(process: Option<Pid>, ok: bool)

  datatype ManagerState = ManagerState(lastPlayerTime: int, serverProcess: Option<Pid>)

  /**
   * The effect of `stop_server`. A failing terminate leaves the handle in
   * place; otherwise the handle is dropped before the sweep runs, so a failing
   * sweep reports failure with the handle already gone.
   */
  function Stopped(process: Option<Pid>, outcome: StopOutcome): (r: StopResult)
    ensures r.ok ==> r.process == None
    ensures r.process == None || (r.process == process && !r.ok)
    ensures r.process != None <==> process.Some? && !outcome.terminated
    ensures r.ok <==> (process == None || outcome.terminated) && outcome.swept
  {
    if process.Some? && !outcome.terminated then StopResult(process, false)
    else StopResult(None, outcome.swept)
  }

  /** Stopping twice in a row succeeds both times once the sweep works. */
  lemma StopIsIdempotent(process: Option<Pid>, first: StopOutcome, second: StopOutcome)
    requires process == None || first.terminated
    requires first.swept && second.swept
    ensures Stopped(process, first) == StopResult(None, true)
    ensures Stopped(Stopped(process, first).process, second) == StopResult(None, true)
  {
  }

  class ServerManager {
    var lastPlayerTime: int
    var serverProcess: Option<Pid>

    function State(): ManagerState
      reads this
    {
      ManagerState(lastPlayerTime, serverProcess)
    }

    /** A fresh manager: the idle clock starts now and no process is held. */
    constructor (now: int)
      ensures State() == ManagerState(now, None)
    {
      lastPlayerTime := now;
      serverProcess := None;
    }

    /**
     * Spawns the server. `spawned` is the new handle, or None when the spawn
     * raised. A handle already held is replaced without being stopped.
     */
    method StartServer(spawned: Option<Pid>) returns (ok: bool)
      modifies this
      ensures ok <==> spawned.Some?
      ensures serverProcess == (if ok then spawned else old(serverProcess))
      ensures lastPlayerTime == old(lastPlayerTime)
    {
      if spawned.None? {
        return false;
      }
      serverProcess := spawned;
      ok := true;
    }

    /** Terminates the held process, if any, then runs the kill-by-name sweep. */
    method StopServer(outcome: StopOutcome) returns (ok: bool)
      modifies this
      ensures StopResult(serverProcess, ok) == Stopped(old(serverProcess), outcome)
      ensures lastPlayerTime == old(lastPlayerTime)
    {
      if serverProcess.Some? {
        if !outcome.terminated {
          return false;
        }
        serverProcess := None;
      }
      ok := outcome.swept;
    }
  }
}
