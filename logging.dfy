/**
 * `defineLogger` of tasks/bower-update.js: where a log event emitted by the
 * registry lookup is written.  Only the routing decision is modelled: the
 * destination (Grunt's normal log or its verbose log) and the method (`error`
 * or `writeln`), as a function of the `logBowerInfo` criteria and the event.
 */
module Logging {
  import opened Wrappers
  import Semver

  /** The severity table of bower-logger (`BowerLogger.LEVELS`). */
  const Levels: map<string, nat> :=
    map["error" := 5, "conflict" := 4, "warn" := 3, "action" := 2, "info" := 1, "debug" := 0]

  /** A log event as the registry lookup emits it. */
  datatype LogMessage = LogMessage(level: string, id: string, message: string)

  /**
   * The `logBowerInfo` option: a boolean, a predicate on the event, a string,
   * or any other value, which the source converts with `Number(...) || 0`.
   */
  datatype Criteria =
    | Flag(show: bool)
    | Predicate(accept: LogMessage -> bool)
    | Named(name: string)
    | Numeric(n: int)   // a number, or a value whose Number(...) is n (NaN, null and undefined give 0)

  datatype Dest = Log | Verbose
  datatype Call = Error | Writeln
  datatype Sink = Sink(dest: Dest, call: Call)

  /** `BowerLogger.LEVELS[msg.level]`; undefined for an unknown level. */
  function Severity(level: string): Option<nat> {
    if level in Levels then Some(Levels[level]) else None
  }

  /** `Number(s) || 0` for a string that is not a level name, decimal digits only. */
  function NumberOrZero(s: string): nat {
    if s != [] && forall i :: 0 <= i < |s| ==> Semver.IsDigit(s[i]) then Semver.DecimalValue(s) else 0
  }

  /** The threshold a non-boolean, non-function criterion stands for. */
  function Threshold(c: Criteria): int
    requires c.Named? || c.Numeric?
  {
    match c
    case Named(name) => if name in Levels then Levels[name] else NumberOrZero(name)
    case Numeric(n) => n
  }

  function Route(criteria: Criteria, msg: LogMessage): (s: Sink)
    // warn, conflict and error go to error(), everything else to writeln()
    ensures s.call == Error <==> Severity(msg.level).Some? && Severity(msg.level).value >= 3
    ensures criteria.Flag? ==> (s.dest == Log <==> criteria.show)
    ensures criteria.Predicate? ==> (s.dest == Log <==> criteria.accept(msg))
    // a threshold admits exactly the events of known severity at or above it
    ensures (criteria.Named? || criteria.Numeric?) ==>
      (s.dest == Log <==> Severity(msg.level).Some? && Threshold(criteria) <= Severity(msg.level).value)
  {
    var level := Severity(msg.level);
    var call := if level.Some? && level.value >= 3 then Error else Writeln;
    var dest :=
      match criteria
      case Flag(show) => if show then Log else Verbose
      case Predicate(accept) => if accept(msg) then Log else Verbose
      case _ => if level.Some? && Threshold(criteria) <= level.value then Log else Verbose;
    Sink(dest, call)
  }

  /** Under a threshold, an event at least as severe as one shown in the log is shown too. */
  lemma ThresholdMonotone(criteria: Criteria, a: LogMessage, b: LogMessage)
    requires criteria.Named? || criteria.Numeric?
    requires Route(criteria, a).dest == Log
    requires Severity(b.level).Some? && Severity(a.level).value <= Severity(b.level).value
    ensures Route(criteria, b).dest == Log
  {
  }

  /** The default `'warn'`: warnings, conflicts and errors are logged, the rest is verbose. */
  lemma DefaultShowsWarnings(msg: LogMessage)
    ensures Route(Named("warn"), msg).dest == Log <==> msg.level in {"warn", "conflict", "error"}
    ensures Route(Named("warn"), msg).call == Error <==> msg.level in {"warn", "conflict", "error"}
  {
  }
}
