/** The capacity search: bisection over whole virtual users (pkg/autopilot/autopilot.go). */
module Autopilot {
  import opened Bisection

  datatype CapacityConfig = CapacityConfig(
    minVUs: int, maxVUs: int, healthThreshold: int, maxIterations: int, toleranceVUs: int)

  /** What a short load test yields: a health score, or an error. */
  datatype Outcome = Score(health: int) | TrialError

  type TrialRunner = (nat, int) -> Outcome

  datatype TrialSummary = TrialSummary(vus: int, healthScore: int, pass: bool)

  datatype Capacity = Capacity(found: bool, safeMaxVUs: int, breakingVUs: int, trials: seq<TrialSummary>)

  datatype RunResult = Completed(capacity: Capacity) | Stopped(failure: Failure)

  /** Go's conversion to an integer drops the fraction towards zero. */
  function Truncate(x: real): int {
    if x >= 0.0 then x.Floor else -((-x).Floor)
  }

  /** The nearest whole number, halves rounded up; below -0.5 the conversion rounds towards zero. */
  function Round(x: real): (r: int)
    ensures x >= -0.5 ==> r as real - 0.5 <= x < r as real + 0.5
    ensures x < -0.5 ==> r as real - 1.5 < x <= r as real - 0.5
  {
    Truncate(x + 0.5)
  }

  /** The virtual users tried for a real-valued input. */
  function VUs(x: real): (vus: int)
    ensures vus >= 1
    ensures if x < 0.5 then vus == 1 else vus as real - 0.5 <= x < vus as real + 0.5
  {
    if Round(x) < 1 then 1 else Round(x)
  }

  function Judge(cfg: CapacityConfig, runTrial: TrialRunner): Evaluator {
    (k: nat, x: real) =>
      match runTrial(k, VUs(x))
      case TrialError => Error
      case Score(health) => if health >= cfg.healthThreshold then Pass else Fail
  }

  function SearchConfig(cfg: CapacityConfig): Config {
    Config(cfg.minVUs as real, cfg.maxVUs as real, cfg.maxIterations, cfg.toleranceVUs as real)
  }

  /** The closure's running maximum over the trials that passed. */
  ghost predicate IsLastPassing(cfg: CapacityConfig, trials: seq<TrialSummary>, best: int) {
    && cfg.minVUs <= best
    && (forall t :: t in trials && t.pass ==> t.vus <= best)
    && (best == cfg.minVUs || exists t :: t in trials && t.pass && t.vus == best)
  }

  ghost predicate Summarises(cfg: CapacityConfig, runTrial: TrialRunner, trials: seq<Trial>,
                             summaries: seq<TrialSummary>) {
    && |summaries| == |trials|
    && forall k :: 0 <= k < |trials| ==>
         && summaries[k].vus == VUs(trials[k].x)
         && runTrial(k, summaries[k].vus) == Score(summaries[k].healthScore)
         && summaries[k].pass == (summaries[k].healthScore >= cfg.healthThreshold) == trials[k].pass
  }

  ghost predicate IsCapacity(cfg: CapacityConfig, runTrial: TrialRunner, report: Report, c: Capacity) {
    && c.found == report.found
    && Summarises(cfg, runTrial, report.trials, c.trials)
    && (!c.found ==> c.safeMaxVUs == cfg.maxVUs)
    && (c.found ==> c.breakingVUs == Round(report.breakingPoint) && IsLastPassing(cfg, c.trials, c.safeMaxVUs))
  }

  /** The range's upper end is tried first and, if it fails, the lower end next; never fewer than one user. */
  ghost predicate EndsAreTried(cfg: CapacityConfig, trials: seq<TrialSummary>, found: bool) {
    && trials != [] && trials[0].vus == (if cfg.maxVUs < 1 then 1 else cfg.maxVUs)
    && trials[0].pass == (trials[0].healthScore >= cfg.healthThreshold) == !found
    && |trials| <= cfg.maxIterations + 2
    && (found ==> |trials| >= 2 && trials[1].vus == if cfg.minVUs < 1 then 1 else cfg.minVUs)
  }

  method Run(cfg: CapacityConfig, runTrial: TrialRunner, cancelled: nat -> bool)
    returns (r: RunResult, ghost report: Report, ghost lo: real, ghost hi: real)
    ensures r == Stopped(InvalidConfig) <==>
      cfg.maxVUs <= cfg.minVUs || cfg.maxIterations <= 0 || cfg.toleranceVUs <= 0
    ensures r.Completed? ==> EndsAreTried(cfg, r.capacity.trials, r.capacity.found)
    ensures r.Completed? ==>
      && IsSearch(SearchConfig(cfg), report, lo, hi) && Honest(report.trials, Judge(cfg, runTrial))
      && IsCapacity(cfg, runTrial, report, r.capacity)
    ensures r.Stopped? ==> Justified(r.failure, SearchConfig(cfg), Judge(cfg, runTrial), cancelled)
  {
    var search;
    search, lo, hi := FindBreakingPoint(SearchConfig(cfg), Judge(cfg, runTrial), cancelled);
    if search.Err? {
      report := Report(false, 0.0, []);
      return Stopped(search.failure), report, lo, hi;
    }
    report := search.report;
    var trials, lastPassingVUs := Replay(cfg, runTrial, search.report.trials);
    if !search.report.found {
      return Completed(Capacity(false, cfg.maxVUs, 0, trials)), report, lo, hi;
    }
    r := Completed(Capacity(true, lastPassingVUs, Round(search.report.breakingPoint), trials));
  }

  /** What the evaluation closure has collected by the end of the search. */
  method Replay(cfg: CapacityConfig, runTrial: TrialRunner, inputs: seq<Trial>)
    returns (trials: seq<TrialSummary>, lastPassingVUs: int)
    requires Honest(inputs, Judge(cfg, runTrial))
    ensures Summarises(cfg, runTrial, inputs, trials) && IsLastPassing(cfg, trials, lastPassingVUs)
  {
    trials, lastPassingVUs := [], cfg.minVUs;
    for k := 0 to |inputs|
      invariant Summarises(cfg, runTrial, inputs[..k], trials)
      invariant IsLastPassing(cfg, trials, lastPassingVUs)
    {
      var vus := VUs(inputs[k].x);
      assert Judge(cfg, runTrial)(k, inputs[k].x) == if inputs[k].pass then Pass else Fail;
      var score := runTrial(k, vus).health;
      var pass := score >= cfg.healthThreshold;
      var t := TrialSummary(vus, score, pass);
      if pass && vus > lastPassingVUs {
        lastPassingVUs := vus;
      }
      trials := trials + [t];
      assert trials[k] == t;
    }
    assert inputs[..|inputs|] == inputs;
  }

  // --- what the answer means

  /** Each load test's verdict depends on the number of virtual users alone. */
  ghost predicate Repeatable(cfg: CapacityConfig, runTrial: TrialRunner, healthy: int -> bool) {
    forall k, vus :: runTrial(k, vus).Score? ==> (runTrial(k, vus).health >= cfg.healthThreshold) == healthy(vus)
  }

  /** A search that found its breaking point, with at least one virtual user at the low end and repeatable
      verdicts. */
  ghost predicate Searched(cfg: CapacityConfig, runTrial: TrialRunner, report: Report, lo: real, hi: real, c: Capacity,
                           healthy: int -> bool) {
    && SearchConfig(cfg).Valid() && cfg.minVUs >= 1 && Repeatable(cfg, runTrial, healthy)
    && IsSearch(SearchConfig(cfg), report, lo, hi) && IsCapacity(cfg, runTrial, report, c)
    && c.found
  }

  /** When the low probe passed too, the reported safe maximum is the rounded lower end of the final bracket and
      was healthy, the reported breaking count was not, the first is strictly below the second, and they are no
      further apart than the tolerance whenever the iterations suffice for the range. */
  lemma SafeBelowBreaking(cfg: CapacityConfig, runTrial: TrialRunner, report: Report, lo: real, hi: real, c: Capacity,
                          healthy: int -> bool)
    requires Searched(cfg, runTrial, report, lo, hi, c, healthy) && report.trials[1].pass
    ensures c.safeMaxVUs == Round(lo) && c.breakingVUs == Round(hi)
    ensures healthy(c.safeMaxVUs) && !healthy(c.breakingVUs)
    ensures c.safeMaxVUs < c.breakingVUs
    ensures Doubled(cfg.toleranceVUs as real, cfg.maxIterations) >= (cfg.maxVUs - cfg.minVUs) as real ==>
      c.breakingVUs - c.safeMaxVUs <= cfg.toleranceVUs
  {
    RoundedBracket(cfg, runTrial, report, lo, hi, c, healthy);
    if Doubled(cfg.toleranceVUs as real, cfg.maxIterations) >= (cfg.maxVUs - cfg.minVUs) as real {
      EndsWithinTolerance(SearchConfig(cfg), report, lo, hi);
    }
  }

  lemma RoundedBracket(cfg: CapacityConfig, runTrial: TrialRunner, report: Report, lo: real, hi: real, c: Capacity,
                       healthy: int -> bool)
    requires Searched(cfg, runTrial, report, lo, hi, c, healthy) && report.trials[1].pass
    ensures c.safeMaxVUs == Round(lo) && c.breakingVUs == Round(hi)
    ensures healthy(c.safeMaxVUs) && !healthy(c.breakingVUs)
    ensures c.safeMaxVUs < c.breakingVUs
    ensures hi - lo <= cfg.toleranceVUs as real ==> c.breakingVUs - c.safeMaxVUs <= cfg.toleranceVUs
  {
  }

  /** The safe maximum is healthy exactly when the low end is: a service that is already broken there still has
      that end reported as safe, and as breaking too. */
  lemma SafeExactlyWhenLowEndIsHealthy(cfg: CapacityConfig, runTrial: TrialRunner, report: Report, lo: real, hi: real,
                                       c: Capacity, healthy: int -> bool)
    requires Searched(cfg, runTrial, report, lo, hi, c, healthy)
    ensures healthy(c.safeMaxVUs) <==> healthy(cfg.minVUs)
    ensures healthy(cfg.minVUs) <==> report.trials[1].pass
    ensures !healthy(cfg.minVUs) ==> c.safeMaxVUs == c.breakingVUs == cfg.minVUs
  {
  }

  /** A service that is never healthy, searched from one virtual user to ten. */
  method SearchOfABrokenService() returns (c: Capacity)
    ensures c.found && c.safeMaxVUs == 1 && c.breakingVUs == 1
    ensures |c.trials| == 2 && forall t :: t in c.trials ==> !t.pass
  {
    var cfg := CapacityConfig(1, 10, 70, 8, 1);
    var runTrial: TrialRunner := (k: nat, vus: int) => Score(0);
    var r, report, lo, hi := Run(cfg, runTrial, (k: nat) => false);
    assert forall k: nat, x :: Judge(cfg, runTrial)(k, x) == Fail;
    c := r.capacity;
    SafeExactlyWhenLowEndIsHealthy(cfg, runTrial, report, lo, hi, c, (vus: int) => false);
  }
}
