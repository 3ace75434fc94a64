/** Bisection for the smallest failing input (pkg/search/bisection.go). */
module Bisection {

  /** What one call of the evaluator yields; it may answer differently on different calls. */
  datatype Verdict = Pass | Fail | Error

  type Evaluator = (nat, real) -> Verdict

  datatype Config = Config(min: real, max: real, maxIterations: int, tolerance: real) {
    predicate Valid() {
      min < max && maxIterations > 0 && tolerance > 0.0
    }
  }

  datatype Trial = Trial(x: real, pass: bool)

  datatype Report = Report(found: bool, breakingPoint: real, trials: seq<Trial>)

  datatype Failure = InvalidConfig | TrialFailed(call: nat) | Cancelled

  datatype Result = Ok(report: Report) | Err(failure: Failure)

  /** x * 2^k. */
  function Doubled(x: real, k: nat): real {
    if k == 0 then x else 2.0 * Doubled(x, k - 1)
  }

  // --- what a search leaves behind

  /** Every trial records what the evaluator said on that call. */
  ghost predicate Honest(trials: seq<Trial>, evaluate: Evaluator) {
    forall i :: 0 <= i < |trials| ==> evaluate(i, trials[i].x) == if trials[i].pass then Pass else Fail
  }

  /** lo is the highest input seen to pass and hi the lowest seen to fail, after k halvings. */
  ghost predicate Brackets(cfg: Config, trials: seq<Trial>, lo: real, hi: real, k: nat) {
    && |trials| == k + 2
    && trials[0] == Trial(cfg.max, false) && trials[1] == Trial(cfg.min, true)
    && cfg.min <= lo < hi <= cfg.max
    && Trial(lo, true) in trials && Trial(hi, false) in trials
    && (forall t :: t in trials ==> if t.pass then t.x <= lo else hi <= t.x)
    && Doubled(hi - lo, k) == cfg.max - cfg.min
  }

  /** The search stops as soon as the bracket is within tolerance or the iterations are used up, and not
      before. */
  ghost predicate Finished(cfg: Config, lo: real, hi: real, k: nat) {
    && k <= cfg.maxIterations && (k == cfg.maxIterations || hi - lo <= cfg.tolerance)
    && (k > 0 ==> 2.0 * (hi - lo) > cfg.tolerance)
  }

  ghost predicate IsSearch(cfg: Config, report: Report, lo: real, hi: real) {
    var trials := report.trials;
    && 1 <= |trials| <= cfg.maxIterations + 2
    && trials[0].x == cfg.max
    && (report.found <==> !trials[0].pass)
    && (!report.found ==> |trials| == 1)
    && (report.found ==> |trials| >= 2 && trials[1].x == cfg.min)
    && (report.found && !trials[1].pass ==> |trials| == 2 && report.breakingPoint == cfg.min)
    && (report.found && trials[1].pass ==>
          && report.breakingPoint == hi
          && Brackets(cfg, trials, lo, hi, |trials| - 2) && Finished(cfg, lo, hi, |trials| - 2))
  }

  /** A search fails only when the configuration, a trial inside the range or the caller's context does. */
  ghost predicate Justified(f: Failure, cfg: Config, evaluate: Evaluator, cancelled: nat -> bool) {
    match f
    case InvalidConfig => !cfg.Valid()
    case TrialFailed(k) => k < cfg.maxIterations + 2 && exists x :: cfg.min <= x <= cfg.max && evaluate(k, x) == Error
    case Cancelled => exists i: nat :: i < cfg.maxIterations && cancelled(i)
  }

  method FindBreakingPoint(cfg: Config, evaluate: Evaluator, cancelled: nat -> bool)
    returns (r: Result, ghost lo: real, ghost hi: real)
    ensures r == Err(InvalidConfig) <==> cfg.max <= cfg.min || cfg.maxIterations <= 0 || cfg.tolerance <= 0.0
    ensures r.Ok? ==> IsSearch(cfg, r.report, lo, hi) && Honest(r.report.trials, evaluate)
    ensures r.Err? ==> Justified(r.failure, cfg, evaluate, cancelled)
  {
    lo, hi := cfg.min, cfg.max;
    if !cfg.Valid() {
      return Err(InvalidConfig), lo, hi;
    }
    var trials: seq<Trial> := [];
    var maxVerdict := evaluate(0, cfg.max);
    if maxVerdict == Error {
      return Err(TrialFailed(0)), lo, hi;
    }
    trials := trials + [Trial(cfg.max, maxVerdict == Pass)];
    if maxVerdict == Pass {
      return Ok(Report(false, 0.0, trials)), lo, hi;
    }
    var minVerdict := evaluate(1, cfg.min);
    if minVerdict == Error {
      return Err(TrialFailed(1)), lo, hi;
    }
    trials := trials + [Trial(cfg.min, minVerdict == Pass)];
    if minVerdict == Fail {
      return Ok(Report(true, cfg.min, trials)), lo, hi;
    }
    r, lo, hi := Halve(cfg, evaluate, cancelled, trials);
  }

  /** The halving loop, entered with the two boundary probes done. */
  method Halve(cfg: Config, evaluate: Evaluator, cancelled: nat -> bool, probes: seq<Trial>)
    returns (r: Result, ghost finalLo: real, ghost finalHi: real)
    requires cfg.Valid() && Honest(probes, evaluate)
    requires probes == [Trial(cfg.max, false), Trial(cfg.min, true)]
    ensures r != Err(InvalidConfig)
    ensures r.Err? ==> Justified(r.failure, cfg, evaluate, cancelled)
    ensures r.Ok? ==> IsSearch(cfg, r.report, finalLo, finalHi) && Honest(r.report.trials, evaluate)
  {
    var trials := probes;
    var lo, hi := cfg.min, cfg.max;
    var i := 0;
    while i < cfg.maxIterations && hi - lo > cfg.tolerance
      invariant 0 <= i <= cfg.maxIterations
      invariant Brackets(cfg, trials, lo, hi, i) && Honest(trials, evaluate)
      invariant i > 0 ==> 2.0 * (hi - lo) > cfg.tolerance
    {
      if cancelled(i) {
        return Err(Cancelled), lo, hi;
      }
      var mid := lo + (hi - lo) / 2.0;
      var verdict := evaluate(|trials|, mid);
      if verdict == Error {
        return Err(TrialFailed(|trials|)), lo, hi;
      }
      HalvingKeepsBracket(cfg, trials, lo, hi, i, verdict == Pass);
      trials := trials + [Trial(mid, verdict == Pass)];
      if verdict == Pass {
        lo := mid;
      } else {
        hi := mid;
      }
      i := i + 1;
    }
    return Ok(Report(true, hi, trials)), lo, hi;
  }

  lemma HalvingKeepsBracket(cfg: Config, trials: seq<Trial>, lo: real, hi: real, k: nat, pass: bool)
    requires Brackets(cfg, trials, lo, hi, k)
    ensures var mid := lo + (hi - lo) / 2.0;
      Brackets(cfg, trials + [Trial(mid, pass)], if pass then mid else lo, if pass then hi else mid, k + 1)
  {
    var mid := lo + (hi - lo) / 2.0;
    var more := trials + [Trial(mid, pass)];
    assert more[k + 2] == Trial(mid, pass);
    assert forall t :: t in more <==> t in trials || t == Trial(mid, pass);
    HalfTwice(hi - lo, k);
    if pass {
      assert hi - mid == (hi - lo) / 2.0;
    } else {
      assert mid - lo == (hi - lo) / 2.0;
    }
  }

  lemma {:induction false} HalfTwice(gap: real, k: nat)
    ensures Doubled(gap / 2.0, k + 1) == Doubled(gap, k)
  {
    if k == 0 {
    } else {
      HalfTwice(gap, k - 1);
    }
  }

  // --- what the operator can conclude

  /** Enough iterations for the range: the bracket is no wider than the tolerance. */
  lemma EndsWithinTolerance(cfg: Config, report: Report, lo: real, hi: real)
    requires cfg.Valid() && IsSearch(cfg, report, lo, hi) && report.found && report.trials[1].pass
    requires Doubled(cfg.tolerance, cfg.maxIterations) >= cfg.max - cfg.min
    ensures hi - lo <= cfg.tolerance
  {
    var k := |report.trials| - 2;
    if k == cfg.maxIterations {
      DoubledReflects(hi - lo, cfg.tolerance, k);
    }
  }

  lemma {:induction false} DoubledReflects(x: real, y: real, k: nat)
    requires Doubled(x, k) <= Doubled(y, k)
    ensures x <= y
  {
    if k == 0 {
    } else {
      DoubledReflects(x, y, k - 1);
    }
  }

  /** Inside the range the evaluator answers by the input alone, and never passes again above a failure. */
  ghost predicate Monotone(cfg: Config, evaluate: Evaluator, passes: real -> bool) {
    && (forall i, x :: cfg.min <= x <= cfg.max ==> evaluate(i, x) == if passes(x) then Pass else Fail)
    && forall x, y :: cfg.min <= x <= y <= cfg.max && passes(y) ==> passes(x)
  }

  /** Under that assumption the bracket is sound: in the range everything up to lo passes and everything from hi
      on fails, so the smallest failing input lies in (lo, hi] and hi overshoots it by less than their gap. */
  lemma BracketsThreshold(cfg: Config, report: Report, lo: real, hi: real, evaluate: Evaluator, passes: real -> bool)
    requires cfg.Valid() && IsSearch(cfg, report, lo, hi) && Honest(report.trials, evaluate)
    requires Monotone(cfg, evaluate, passes)
    ensures !report.found ==> forall x :: cfg.min <= x <= cfg.max ==> passes(x)
    ensures report.found && !report.trials[1].pass ==> forall x :: cfg.min <= x <= cfg.max ==> !passes(x)
    ensures report.found && report.trials[1].pass ==>
      && (forall x :: cfg.min <= x <= lo ==> passes(x))
      && forall x :: report.breakingPoint <= x <= cfg.max ==> !passes(x)
  {
  }
}
