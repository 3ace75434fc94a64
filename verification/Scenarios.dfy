/** Scenarios and their validation (pkg/vusession/model.go, pkg/vusession/parser.go). */
module Scenarios {
  import opened Options
  import opened Text
  import opened Transitions

  datatype Request = Request(verb: string, path: string, body: string)

  datatype FailurePolicy = FailurePolicy(action: string, maxRetries: int, fallback: string)

  datatype Step = Step(
    id: string, name: string, request: Request, transitions: seq<Transition>, onFailure: FailurePolicy)

  datatype Scenario = Scenario(id: string, name: string, initial: string, steps: map<string, Step>)

  datatype Problem =
    | EmptyId | EmptyInitial | NoSteps | InitialUndefined
    | UnknownTarget(step: string, position: nat)
    | NegativeProbability(step: string, position: nat)
    | NegativeWeight(step: string, position: nat)
    | FallbackUnset(step: string) | UnknownFallback(step: string)

  datatype Validation = Accepted(scenario: Scenario) | Rejected(problem: Problem)

  const RETRY := "retry"
  const TRANSITION := "transition"
  const ABORT := "abort"

  /** The end of a session, in any case. */
  predicate IsEnd(target: string) {
    |target| == 3 && Upper(target[0]) == 'E' && Upper(target[1]) == 'N' && Upper(target[2]) == 'D'
  }

  lemma IsEndInAnyCase(target: string)
    ensures IsEnd(target) <==> ToUpper(target) == "END"
  {
    if |target| == 3 {
      assert ToUpper(target) == [Upper(target[0]), Upper(target[1]), Upper(target[2])];
    }
  }

  predicate TransitionOk(keys: set<string>, t: Transition) {
    && (TrimSpace(t.target) == "" || IsEnd(TrimSpace(t.target)) || TrimSpace(t.target) in keys)
    && t.probability >= 0.0 && t.weight >= 0
  }

  predicate FallbackOk(keys: set<string>, p: FailurePolicy) {
    p.action == TRANSITION ==> p.fallback != "" && p.fallback in keys
  }

  predicate StepOk(keys: set<string>, s: Step) {
    (forall i :: 0 <= i < |s.transitions| ==> TransitionOk(keys, s.transitions[i])) && FallbackOk(keys, s.onFailure)
  }

  /** What a scenario must satisfy to be accepted. */
  predicate WellFormed(sc: Scenario) {
    && TrimSpace(sc.id) != "" && TrimSpace(sc.initial) != "" && sc.initial in sc.steps
    && forall key :: key in sc.steps ==> StepOk(sc.steps.Keys, sc.steps[key])
  }

  function WithId(key: string, s: Step): Step {
    if s.id == "" then s.(id := key) else s
  }

  /** Steps without an id take their key. */
  function WithIds(sc: Scenario): Scenario {
    sc.(steps := map key | key in sc.steps :: WithId(key, sc.steps[key]))
  }

  /** The problem named is one the scenario really has. */
  predicate HasProblem(sc: Scenario, p: Problem) {
    match p
    case EmptyId => TrimSpace(sc.id) == ""
    case EmptyInitial => TrimSpace(sc.initial) == ""
    case NoSteps => sc.steps == map[]
    case InitialUndefined => sc.initial !in sc.steps
    case UnknownTarget(key, i) =>
      key in sc.steps && i < |sc.steps[key].transitions| && IsUnknown(sc.steps.Keys, sc.steps[key].transitions[i])
    case NegativeProbability(key, i) =>
      key in sc.steps && i < |sc.steps[key].transitions| && sc.steps[key].transitions[i].probability < 0.0
    case NegativeWeight(key, i) =>
      key in sc.steps && i < |sc.steps[key].transitions| && sc.steps[key].transitions[i].weight < 0
    case FallbackUnset(key) =>
      key in sc.steps && sc.steps[key].onFailure.action == TRANSITION && sc.steps[key].onFailure.fallback == ""
    case UnknownFallback(key) =>
      key in sc.steps && sc.steps[key].onFailure.action == TRANSITION && sc.steps[key].onFailure.fallback !in sc.steps
  }

  predicate IsUnknown(keys: set<string>, t: Transition) {
    TrimSpace(t.target) != "" && !IsEnd(TrimSpace(t.target)) && TrimSpace(t.target) !in keys
  }

  /** Accepts exactly the well-formed scenarios, changing nothing but missing step ids. */
  method ValidateScenario(sc: Scenario) returns (v: Validation)
    ensures v.Accepted? <==> WellFormed(sc)
    ensures v.Accepted? ==> v.scenario == WithIds(sc)
    ensures v.Rejected? ==> HasProblem(sc, v.problem)
  {
    if TrimSpace(sc.id) == "" {
      return Rejected(EmptyId);
    }
    if TrimSpace(sc.initial) == "" {
      return Rejected(EmptyInitial);
    }
    if |sc.steps| == 0 {
      return Rejected(NoSteps);
    }
    if sc.initial !in sc.steps {
      return Rejected(InitialUndefined);
    }
    var steps := sc.steps;
    var left := sc.steps.Keys;
    while left != {}
      invariant left <= sc.steps.Keys == steps.Keys
      invariant forall key :: key in sc.steps && key !in left ==> StepOk(sc.steps.Keys, sc.steps[key])
      invariant forall key :: key in sc.steps ==>
        steps[key] == if key in left then sc.steps[key] else WithId(key, sc.steps[key])
      decreases left
    {
      var stepID :| stepID in left;
      steps := steps[stepID := WithId(stepID, steps[stepID])];
      var problem := CheckStep(sc, stepID, steps[stepID]);
      if problem.Some? {
        assert !StepOk(sc.steps.Keys, sc.steps[stepID]);
        return Rejected(problem.value);
      }
      left := left - {stepID};
    }
    assert steps == WithIds(sc).steps;
    return Accepted(sc.(steps := steps));
  }

  method CheckStep(sc: Scenario, stepID: string, s: Step) returns (problem: Option<Problem>)
    requires stepID in sc.steps && s == WithId(stepID, sc.steps[stepID])
    ensures problem.None? <==> StepOk(sc.steps.Keys, s)
    ensures problem.Some? ==> HasProblem(sc, problem.value)
  {
    var keys := sc.steps.Keys;
    for i := 0 to |s.transitions|
      invariant forall k :: 0 <= k < i ==> TransitionOk(keys, s.transitions[k])
    {
      var tr := s.transitions[i];
      var tgt := TrimSpace(tr.target);
      if tgt != "" && !IsEnd(tgt) && tgt !in keys {
        assert !TransitionOk(keys, s.transitions[i]);
        return Some(UnknownTarget(stepID, i));
      }
      if tr.probability < 0.0 {
        return Some(NegativeProbability(stepID, i));
      }
      if tr.weight < 0 {
        return Some(NegativeWeight(stepID, i));
      }
    }
    if s.onFailure.action == TRANSITION {
      if s.onFailure.fallback == "" {
        return Some(FallbackUnset(stepID));
      }
      if s.onFailure.fallback !in keys {
        return Some(UnknownFallback(stepID));
      }
    }
    return None;
  }

  /** A step without an id takes its key, nothing else changes, and validating a second time changes nothing at
      all. */
  lemma ValidationIsStable(sc: Scenario)
    requires WellFormed(sc)
    ensures WellFormed(WithIds(sc)) && WithIds(WithIds(sc)) == WithIds(sc)
    ensures WithIds(sc) == sc.(steps := WithIds(sc).steps) && WithIds(sc).steps.Keys == sc.steps.Keys
    ensures forall key :: key in sc.steps ==>
      WithIds(sc).steps[key] == if sc.steps[key].id == "" then sc.steps[key].(id := key) else sc.steps[key]
  {
    var once := WithIds(sc);
    assert once.steps.Keys == sc.steps.Keys;
    forall key | key in sc.steps
      ensures StepOk(once.steps.Keys, once.steps[key])
      ensures WithId(key, once.steps[key]) == once.steps[key]
    {
      assert StepOk(sc.steps.Keys, sc.steps[key]);
      if sc.steps[key].id == "" && key == "" {
        assert once.steps[key] == sc.steps[key];
      }
    }
  }

  /** Every transition written without surrounding space. */
  predicate TargetsTrimmed(sc: Scenario) {
    forall key, i :: key in sc.steps && 0 <= i < |sc.steps[key].transitions| ==>
      Trimmed(sc.steps[key].transitions[i].target)
  }

  /** A target the session can act on as written: the end of the session or a step. */
  predicate Resolvable(sc: Scenario, target: string) {
    target == "" || IsEnd(target) || target in sc.steps
  }

}
