/**
 * `Logger.Level.syslogPriority` (Extensions/LoggerLevel+syslogPriority.swift):
 * the swift-log levels mapped onto the syslog severities of section 6.2.1 of
 * RFC 5424.
 */
module LogLevel {
  /** swift-log's levels, least severe first. */
  datatype Level = Trace | Debug | Info | Notice | Warning | Error | Critical

  // The <syslog.h> severities the mapping uses.
  const LOG_CRIT: int := 2
  const LOG_ERR: int := 3
  const LOG_WARNING: int := 4
  const LOG_NOTICE: int := 5
  const LOG_INFO: int := 6
  const LOG_DEBUG: int := 7

  /** The position of a level in swift-log's order, 0 for `trace` up to 6 for `critical`. */
  function Rank(l: Level): (r: nat)
    ensures r <= 6
  {
    match l
    case Trace => 0
    case Debug => 1
    case Info => 2
    case Notice => 3
    case Warning => 4
    case Error => 5
    case Critical => 6
  }

  function SyslogPriority(l: Level): (p: int)
    ensures LOG_CRIT <= p <= LOG_DEBUG
    ensures p == LOG_DEBUG <==> l == Trace || l == Debug
  {
    match l
    case Trace => LOG_DEBUG
    case Debug => LOG_DEBUG
    case Info => LOG_INFO
    case Notice => LOG_NOTICE
    case Warning => LOG_WARNING
    case Error => LOG_ERR
    case Critical => LOG_CRIT
  }

  /**
   * A more severe level never gets a larger number, and two levels above
   * `debug` share a number only when they are the same level.
   */
  lemma PriorityReversesOrder(a: Level, b: Level)
    ensures Rank(a) <= Rank(b) ==> SyslogPriority(a) >= SyslogPriority(b)
    ensures Rank(a) >= 1 && Rank(b) >= 1 ==> (SyslogPriority(a) == SyslogPriority(b) <==> a == b)
  {
  }

  /** Past `debug`, each level's severity is 8 minus its rank: no level reaches `alert` (1) or `emerg` (0). */
  lemma PriorityFromRank(l: Level)
    requires l != Trace
    ensures SyslogPriority(l) == 8 - Rank(l)
    ensures SyslogPriority(l) > 1
  {
  }
}
