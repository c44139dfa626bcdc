/** The bot's fixed timing constants, in seconds unless stated otherwise (Serverbot.py:16-18, 133-134). */
module Config {
  /** Period of the inactivity tick. */
  const CHECK_INTERVAL: int := 300
  /** Idle time at which the warning window opens. */
  const WARNING_TIME: int := 600
  /** Idle time at which the server is shut down. */
  const SHUTDOWN_TIME: int := 900
  /** Number of readiness probes after a start: `range(1, 25)`. */
  const READY_ATTEMPTS: int := 24
  /** Pause before each readiness probe. */
  const READY_POLL_SECONDS: int := 5
}
