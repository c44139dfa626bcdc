/**
 * The answer of the status probe. The network query itself is an input: any
 * failure of the query reads as `Offline`. Version, latency and message of the
 * day are only displayed and are not kept.
 */
module Probe {
  datatype Status = Offline | Online(players: nat, maxPlayers: nat)

  /** Online with nobody connected: the only state in which the idle clock runs. */
  predicate Unoccupied(probe: Status) {
    probe.Online? && probe.players == 0
  }
}
