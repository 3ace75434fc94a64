/** The kill switch that aborts a run after consecutive breaches (pkg/loadengine/circuit_breaker.go). */
module CircuitBreaker {
  import opened SlidingWindow

  /** Thresholds as the operator gives them; zero or less disables a limit. */
  datatype Config = Config(minRequests: int, maxErrorRate: real, maxP99Nanos: int, consecutiveBreaches: int)

  datatype Reason = NotTripped | ErrorRateExceeded | LatencyExceeded

  datatype State = State(tripped: bool, reason: Reason, errBreaches: nat, latencyBreaches: nat, cancels: nat)

  /** The monitor's defaults for missing values. */
  function Normalised(cfg: Config): Config {
    cfg.(consecutiveBreaches := if cfg.consecutiveBreaches <= 0 then 2 else cfg.consecutiveBreaches,
         minRequests := if cfg.minRequests <= 0 then 10 else cfg.minRequests)
  }

  predicate BreaksErrorLimit(cfg: Config, s: WindowStats) {
    cfg.maxErrorRate > 0.0 && s.errorRate > cfg.maxErrorRate
  }

  predicate BreaksLatencyLimit(cfg: Config, s: WindowStats) {
    cfg.maxP99Nanos > 0 && s.p99 * 1000 > cfg.maxP99Nanos
  }

  const START := State(false, NotTripped, 0, 0, 0)

  /** One evaluation of a reading. */
  function Evaluated(cfg: Config, st: State, s: WindowStats): State {
    if st.tripped then st
    else if s.requests < cfg.minRequests then st.(errBreaches := 0, latencyBreaches := 0)
    else
      var errs := if BreaksErrorLimit(cfg, s) then st.errBreaches + 1 else 0;
      var lats := if BreaksLatencyLimit(cfg, s) then st.latencyBreaches + 1 else 0;
      if errs >= cfg.consecutiveBreaches then State(true, ErrorRateExceeded, errs, lats, st.cancels + 1)
      else if lats >= cfg.consecutiveBreaches then State(true, LatencyExceeded, errs, lats, st.cancels + 1)
      else st.(errBreaches := errs, latencyBreaches := lats)
  }

  function Monitor(cfg: Config, readings: seq<WindowStats>): State {
    if readings == [] then START
    else Evaluated(cfg, Monitor(cfg, readings[..|readings| - 1]), readings[|readings| - 1])
  }

  // --- what tripping means

  /** Enough requests, an error limit, and more errors than it allows. */
  ghost function ErrorBreach(cfg: Config): WindowStats -> bool {
    (s: WindowStats) => s.requests >= cfg.minRequests && cfg.maxErrorRate > 0.0 && s.errorRate > cfg.maxErrorRate
  }

  /** Enough requests, a latency limit, and a slower P99 than it allows. */
  ghost function LatencyBreach(cfg: Config): WindowStats -> bool {
    (s: WindowStats) => s.requests >= cfg.minRequests && cfg.maxP99Nanos > 0 && s.p99 * 1000 > cfg.maxP99Nanos
  }

  /** The n readings from position i on all breach. */
  ghost predicate RunAt(readings: seq<WindowStats>, i: int, n: nat, breach: WindowStats -> bool) {
    0 <= i && i + n <= |readings| && forall k :: i <= k < i + n ==> breach(readings[k])
  }

  /** Some n adjacent readings all breach. */
  ghost predicate HasRun(readings: seq<WindowStats>, n: nat, breach: WindowStats -> bool) {
    exists i :: RunAt(readings, i, n, breach)
  }

  /** How many of the latest readings breach without a gap. */
  ghost function Streak(readings: seq<WindowStats>, breach: WindowStats -> bool): nat {
    if readings == [] || !breach(readings[|readings| - 1]) then 0
    else Streak(readings[..|readings| - 1], breach) + 1
  }

  /** The longest such streak so far. */
  ghost function Longest(readings: seq<WindowStats>, breach: WindowStats -> bool): nat {
    if readings == [] then 0 else
      var before, now := Longest(readings[..|readings| - 1], breach), Streak(readings, breach);
      if before < now then now else before
  }

  lemma StreakStep(front: seq<WindowStats>, s: WindowStats, breach: WindowStats -> bool)
    ensures var now := Streak(front + [s], breach);
      && now == (if breach(s) then Streak(front, breach) + 1 else 0)
      && Longest(front + [s], breach) == if Longest(front, breach) < now then now else Longest(front, breach)
  {
    assert (front + [s])[..|front|] == front;
  }

  lemma {:induction false} StreakIsRun(readings: seq<WindowStats>, breach: WindowStats -> bool)
    ensures var n := Streak(readings, breach);
      RunAt(readings, |readings| - n, n, breach) && (n < |readings| ==> !breach(readings[|readings| - n - 1]))
  {
    if readings != [] && breach(readings[|readings| - 1]) {
      StreakIsRun(readings[..|readings| - 1], breach);
    }
  }

  lemma RunEndsNow(readings: seq<WindowStats>, s: WindowStats, n: nat, breach: WindowStats -> bool)
    requires n > 0
    ensures HasRun(readings + [s], n, breach) <==> HasRun(readings, n, breach) || Streak(readings + [s], breach) >= n
  {
    var all := readings + [s];
    var k := Streak(all, breach);
    StreakIsRun(all, breach);
    if HasRun(readings, n, breach) {
      var i :| RunAt(readings, i, n, breach);
      assert RunAt(all, i, n, breach);
    }
    if k >= n {
      assert RunAt(all, |all| - n, n, breach);
    }
    if HasRun(all, n, breach) && k < n {
      var i :| RunAt(all, i, n, breach);
      assert i + n <= |readings|;
      assert forall j :: 0 <= j < |readings| ==> all[j] == readings[j];
      assert RunAt(readings, i, n, breach);
    }
  }

  /** Some n adjacent readings all breach exactly when the longest streak has reached n. */
  lemma {:induction false} RunExactlyWhenLongest(readings: seq<WindowStats>, n: nat, breach: WindowStats -> bool)
    requires n > 0
    ensures HasRun(readings, n, breach) <==> Longest(readings, breach) >= n
  {
    if readings == [] {
    } else {
      var front, s := readings[..|readings| - 1], readings[|readings| - 1];
      assert readings == front + [s];
      RunExactlyWhenLongest(front, n, breach);
      RunEndsNow(front, s, n, breach);
    }
  }

  ghost predicate Broke(cfg: Config, readings: seq<WindowStats>)
    requires cfg.consecutiveBreaches > 0
  {
    || HasRun(readings, cfg.consecutiveBreaches, ErrorBreach(cfg))
    || HasRun(readings, cfg.consecutiveBreaches, LatencyBreach(cfg))
  }

  ghost predicate CountsMatch(cfg: Config, readings: seq<WindowStats>, st: State) {
    && st.errBreaches == Streak(readings, ErrorBreach(cfg)) < cfg.consecutiveBreaches
    && st.latencyBreaches == Streak(readings, LatencyBreach(cfg)) < cfg.consecutiveBreaches
  }

  /** The reason given names a limit that was really broken in a row. */
  ghost predicate ReasonIsTrue(cfg: Config, readings: seq<WindowStats>, reason: Reason)
    requires cfg.consecutiveBreaches > 0
  {
    match reason
    case NotTripped => false
    case ErrorRateExceeded => HasRun(readings, cfg.consecutiveBreaches, ErrorBreach(cfg))
    case LatencyExceeded =>
      && HasRun(readings, cfg.consecutiveBreaches, LatencyBreach(cfg))
      && !HasRun(readings, cfg.consecutiveBreaches, ErrorBreach(cfg))
  }

  // --- what the monitor keeps, in terms of the longest streaks

  ghost predicate ErrorTripped(cfg: Config, readings: seq<WindowStats>) {
    Longest(readings, ErrorBreach(cfg)) >= cfg.consecutiveBreaches
  }

  ghost predicate LatencyTripped(cfg: Config, readings: seq<WindowStats>) {
    Longest(readings, LatencyBreach(cfg)) >= cfg.consecutiveBreaches
  }

  ghost predicate Tracks(cfg: Config, readings: seq<WindowStats>, st: State) {
    && (st.tripped <==> ErrorTripped(cfg, readings) || LatencyTripped(cfg, readings))
    && (!st.tripped ==> CountsMatch(cfg, readings, st))
    && st.cancels == (if st.tripped then 1 else 0)
    && (st.tripped <==> st.reason != NotTripped)
  }

  lemma OneReading(cfg: Config, front: seq<WindowStats>, s: WindowStats, st: State)
    requires cfg.consecutiveBreaches > 0 && Tracks(cfg, front, st)
    ensures var after := Evaluated(cfg, st, s);
      && Tracks(cfg, front + [s], after)
      && (!st.tripped && after.tripped ==>
            after.reason == if ErrorTripped(cfg, front + [s]) then ErrorRateExceeded else LatencyExceeded)
  {
    StreakStep(front, s, ErrorBreach(cfg));
    StreakStep(front, s, LatencyBreach(cfg));
  }

  lemma {:induction false} MonitorTracks(cfg: Config, readings: seq<WindowStats>)
    requires cfg.consecutiveBreaches > 0
    ensures Tracks(cfg, readings, Monitor(cfg, readings))
  {
    if readings == [] {
    } else {
      var front, s := readings[..|readings| - 1], readings[|readings| - 1];
      assert readings == front + [s];
      MonitorTracks(cfg, front);
      OneReading(cfg, front, s, Monitor(cfg, front));
    }
  }

  /** Over any readings whatsoever the breaker has tripped exactly when some adjacent readings, as many as
      configured, all had enough requests and all broke the enabled error limit, or all broke the enabled
      latency limit; and it has then cancelled exactly once. */
  lemma TrippedExactlyOnARun(cfg: Config, readings: seq<WindowStats>)
    requires cfg.consecutiveBreaches > 0
    ensures Describes(cfg, readings, Monitor(cfg, readings))
  {
    MonitorTracks(cfg, readings);
    RunExactlyWhenLongest(readings, cfg.consecutiveBreaches, ErrorBreach(cfg));
    RunExactlyWhenLongest(readings, cfg.consecutiveBreaches, LatencyBreach(cfg));
  }

  ghost predicate Describes(cfg: Config, readings: seq<WindowStats>, st: State)
    requires cfg.consecutiveBreaches > 0
  {
    && (st.tripped <==> Broke(cfg, readings))
    && (!st.tripped ==> CountsMatch(cfg, readings, st))
    && st.cancels == (if st.tripped then 1 else 0)
    && (st.tripped <==> st.reason != NotTripped)
  }

  /** At the reading that trips the breaker, the reason is an error run if there is one, and a latency run
      only if there is none. */
  lemma TripGivesTheReason(cfg: Config, readings: seq<WindowStats>, s: WindowStats)
    requires cfg.consecutiveBreaches > 0 && !Monitor(cfg, readings).tripped && Monitor(cfg, readings + [s]).tripped
    ensures ReasonIsTrue(cfg, readings + [s], Monitor(cfg, readings + [s]).reason)
  {
    MonitorTracks(cfg, readings);
    MonitorSnoc(cfg, readings, s);
    OneReading(cfg, readings, s, Monitor(cfg, readings));
    RunExactlyWhenLongest(readings + [s], cfg.consecutiveBreaches, ErrorBreach(cfg));
    RunExactlyWhenLongest(readings + [s], cfg.consecutiveBreaches, LatencyBreach(cfg));
  }

  /** Tripping is permanent: later readings change nothing at all. */
  lemma {:induction false} TrippingIsPermanent(cfg: Config, readings: seq<WindowStats>, later: seq<WindowStats>)
    requires Monitor(cfg, readings).tripped
    ensures Monitor(cfg, readings + later) == Monitor(cfg, readings)
  {
    if later == [] {
      assert readings + later == readings;
    } else {
      TrippingIsPermanent(cfg, readings, later[..|later| - 1]);
      assert (readings + later)[..|readings + later| - 1] == readings + later[..|later| - 1];
    }
  }

  lemma MonitorSnoc(cfg: Config, readings: seq<WindowStats>, s: WindowStats)
    ensures Monitor(cfg, readings + [s]) == Evaluated(cfg, Monitor(cfg, readings), s)
  {
    assert (readings + [s])[..|readings|] == readings;
  }

  class CircuitBreakerMonitor {
    const cfg: Config
    var tripped: bool
    var tripReason: Reason
    var errBreachCount: nat
    var latencyBreachCount: nat
    /** Calls made to the cancel function. */
    var cancels: nat
    ghost var readings: seq<WindowStats>

    ghost function View(): State
      reads this
    {
      State(tripped, tripReason, errBreachCount, latencyBreachCount, cancels)
    }

    ghost predicate Valid()
      reads this
    {
      cfg.consecutiveBreaches > 0 && cfg.minRequests > 0 && View() == Monitor(cfg, readings)
    }

    constructor (given: Config)
      ensures Valid() && readings == []
      ensures cfg.maxErrorRate == given.maxErrorRate && cfg.maxP99Nanos == given.maxP99Nanos
      ensures cfg.consecutiveBreaches == if given.consecutiveBreaches <= 0 then 2 else given.consecutiveBreaches
      ensures cfg.minRequests == if given.minRequests <= 0 then 10 else given.minRequests
    {
      cfg := Normalised(given);
      tripped, tripReason, errBreachCount, latencyBreachCount, cancels := false, NotTripped, 0, 0, 0;
      readings := [];
    }

    method Evaluate(stats: WindowStats)
      requires Valid()
      modifies this
      ensures Valid() && readings == old(readings) + [stats]
    {
      MonitorSnoc(cfg, readings, stats);
      Update(stats);
      readings := readings + [stats];
    }

    method Update(stats: WindowStats)
      modifies `tripped, `tripReason, `errBreachCount, `latencyBreachCount, `cancels
      ensures View() == Evaluated(cfg, old(View()), stats)
    {
      if tripped {
        return;
      }
      if stats.requests < cfg.minRequests {
        errBreachCount, latencyBreachCount := 0, 0;
        return;
      }
      if BreaksErrorLimit(cfg, stats) {
        errBreachCount := errBreachCount + 1;
      } else {
        errBreachCount := 0;
      }
      if BreaksLatencyLimit(cfg, stats) {
        latencyBreachCount := latencyBreachCount + 1;
      } else {
        latencyBreachCount := 0;
      }
      var reason := NotTripped;
      if errBreachCount >= cfg.consecutiveBreaches {
        reason := ErrorRateExceeded;
      } else if latencyBreachCount >= cfg.consecutiveBreaches {
        reason := LatencyExceeded;
      }
      if reason != NotTripped {
        tripped, tripReason := true, reason;
        cancels := cancels + 1;
      }
    }

    method IsTripped() returns (yes: bool, reason: Reason)
      requires Valid()
      ensures yes <==> Broke(cfg, readings)
      ensures yes <==> reason != NotTripped
    {
      TrippedExactlyOnARun(cfg, readings);
      return tripped, tripReason;
    }
  }
}
