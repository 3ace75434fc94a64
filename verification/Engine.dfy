/** A virtual user's walk through a scenario (pkg/vusession/engine.go). */
module Engine {
  import opened Options
  import opened Text
  import opened Transitions
  import opened Scenarios

  const MAX_STEP_TRANSITIONS: nat := 1000

  /** How one HTTP attempt at a step ended. */
  datatype Attempt = Attempt(success: bool, err: bool) {
    predicate Ok() { success && !err }
  }

  /** Everything outside the walk's control. The clock counts context checks and attempts in the order they
      are made; the status, the variables and the roll are those of each completed step. */
  datatype World = World(
    attempt: (nat, string) -> Attempt,
    cancelled: nat -> bool,
    status: nat -> nat,
    vars: nat -> map<string, string>,
    number: NumberParser,
    roll: nat -> real)
  {
    ghost predicate Valid() {
      forall n :: 0.0 <= roll(n) < 1.0
    }
  }

  /** One recorded step result; `next` is set when a transition was taken. */
  datatype Visit = Visit(key: string, attempt: Attempt, next: string)

  datatype Ending =
    | CleanEnd | Aborted(key: string) | StepMissing(key: string)
    | TooManySteps | ContextCancelled | Panicked(key: string)

  datatype Session = Session(history: seq<Visit>, ending: Ending)

  // --- retries

  /** The last attempt made, or the interruption that leaves no result at all. */
  datatype Tries = Tried(attempt: Attempt, clock: nat) | Interrupted

  function MaxRetries(s: Step): nat {
    if s.onFailure.action == RETRY && s.onFailure.maxRetries > 0 then s.onFailure.maxRetries else 0
  }

  function Try(w: World, key: string, retries: nat, clock: nat): Tries
    decreases retries
  {
    var a := w.attempt(clock, key);
    if a.Ok() || retries == 0 then Tried(a, clock + 1)
    else if w.cancelled(clock + 1) then Interrupted
    else Try(w, key, retries - 1, clock + 2)
  }

  method ExecuteStepWithRetry(w: World, key: string, s: Step, clock: nat) returns (r: Tries)
    ensures r == Try(w, key, MaxRetries(s), clock)
  {
    var maxRetries := MaxRetries(s);
    var now := clock;
    var last := w.attempt(now, key);
    if last.Ok() {
      return Tried(last, now + 1);
    }
    for attempt := 1 to maxRetries + 1
      invariant now == clock + 2 * (attempt - 1) && last == w.attempt(now, key) && !last.Ok()
      invariant Try(w, key, maxRetries, clock) == Try(w, key, maxRetries - (attempt - 1), now)
    {
      if w.cancelled(now + 1) {
        return Interrupted;
      }
      now := now + 2;
      last := w.attempt(now, key);
      if last.Ok() {
        return Tried(last, now + 1);
      }
    }
    return Tried(last, now + 1);
  }

  /** All attempts before the one numbered n failed, with no cancellation seen after any of them. */
  ghost predicate Reached(w: World, key: string, clock: nat, n: nat) {
    forall k :: 0 <= k < n ==> !w.attempt(clock + 2 * k, key).Ok() && !w.cancelled(clock + 2 * k + 1)
  }

  /** Attempt n is made and fails, and the session is found cancelled before the next one. */
  ghost predicate CutShort(w: World, key: string, clock: nat, n: nat) {
    Reached(w, key, clock, n) && !w.attempt(clock + 2 * n, key).Ok() && w.cancelled(clock + 2 * n + 1)
  }

  ghost predicate CutShortWithin(w: World, key: string, clock: nat, retries: nat) {
    exists n: nat :: n < retries && CutShort(w, key, clock, n)
  }

  /** A step is left without any result exactly when the session is cancelled in the gap between a failed
      attempt and a retry that was still allowed. */
  lemma {:induction false} InterruptedExactlyBetweenRetries(w: World, key: string, retries: nat, clock: nat)
    ensures Try(w, key, retries, clock).Interrupted? <==> CutShortWithin(w, key, clock, retries)
    decreases retries
  {
    assert clock + 2 * 0 == clock;
    if w.attempt(clock, key).Ok() || retries == 0 {
      assert forall n: nat :: n > 0 && Reached(w, key, clock, n) ==> !w.attempt(clock + 2 * 0, key).Ok();
    } else if w.cancelled(clock + 1) {
      assert CutShort(w, key, clock, 0);
    } else {
      var later := clock + 2;
      InterruptedExactlyBetweenRetries(w, key, retries - 1, later);
      if CutShortWithin(w, key, later, retries - 1) {
        var n: nat :| n < retries - 1 && CutShort(w, key, later, n);
        CutShortLater(w, key, clock, n);
      }
      if CutShortWithin(w, key, clock, retries) {
        var n: nat :| n < retries && CutShort(w, key, clock, n);
        assert n > 0;
        CutShortLater(w, key, clock, n - 1);
      }
    }
  }

  /** Otherwise the result is that of the first successful attempt, or of the last one allowed. */
  ghost predicate SettledAt(w: World, key: string, clock: nat, retries: nat, n: nat) {
    n <= retries && Reached(w, key, clock, n) && (w.attempt(clock + 2 * n, key).Ok() || n == retries)
  }

  lemma {:induction false} TriedUntilFirstSuccess(w: World, key: string, retries: nat, clock: nat) returns (n: nat)
    requires Try(w, key, retries, clock).Tried?
    ensures SettledAt(w, key, clock, retries, n)
    ensures Try(w, key, retries, clock) == Tried(w.attempt(clock + 2 * n, key), clock + 2 * n + 1)
    decreases retries
  {
    if w.attempt(clock, key).Ok() || retries == 0 {
      n := 0;
    } else {
      var m := TriedUntilFirstSuccess(w, key, retries - 1, clock + 2);
      n := m + 1;
      assert clock + 2 * n == clock + 2 + 2 * m;
      ReachedLater(w, key, clock, m);
    }
  }

  /** Only the policy "retry" with a positive number allows further attempts, and it allows exactly that many. */
  lemma AttemptsAreThoseConfigured(w: World, key: string, s: Step, clock: nat)
    ensures var n, r := s.onFailure.maxRetries, Try(w, key, MaxRetries(s), clock);
      && (s.onFailure.action != "retry" || n <= 0 ==> r == Tried(w.attempt(clock, key), clock + 1))
      && (s.onFailure.action == "retry" && n > 0 && Reached(w, key, clock, n) ==>
            r == Tried(w.attempt(clock + 2 * n, key), clock + 2 * n + 1))
      && (s.onFailure.action == "retry" && CutShortWithin(w, key, clock, if n > 0 then n else 0) ==> r.Interrupted?)
  {
    var n := s.onFailure.maxRetries;
    InterruptedExactlyBetweenRetries(w, key, MaxRetries(s), clock);
    if s.onFailure.action == "retry" && n > 0 && Reached(w, key, clock, n) {
      assert forall k: nat :: k < n ==> !w.cancelled(clock + 2 * k + 1);
      var last := TriedUntilFirstSuccess(w, key, n, clock);
      assert last == n;
    }
  }

  lemma CutShortLater(w: World, key: string, clock: nat, n: nat)
    requires !w.attempt(clock, key).Ok() && !w.cancelled(clock + 1)
    ensures CutShort(w, key, clock, n + 1) <==> CutShort(w, key, clock + 2, n)
  {
    assert clock + 2 * (n + 1) == clock + 2 + 2 * n;
    ReachedLater(w, key, clock, n);
  }

  lemma ReachedLater(w: World, key: string, clock: nat, n: nat)
    requires !w.attempt(clock, key).Ok() && !w.cancelled(clock + 1)
    ensures Reached(w, key, clock, n + 1) <==> Reached(w, key, clock + 2, n)
  {
    if Reached(w, key, clock, n + 1) {
      forall k | 0 <= k < n
        ensures !w.attempt(clock + 2 + 2 * k, key).Ok() && !w.cancelled(clock + 2 + 2 * k + 1)
      {
        assert clock + 2 * (k + 1) == clock + 2 + 2 * k;
      }
    }
    if Reached(w, key, clock + 2, n) {
      forall k | 0 <= k < n + 1
        ensures !w.attempt(clock + 2 * k, key).Ok() && !w.cancelled(clock + 2 * k + 1)
      {
        if k > 0 { assert clock + 2 + 2 * (k - 1) == clock + 2 * k; }
      }
    }
  }

  // --- the walk

  /** The conditions that are true of a successful step. */
  function Conditions(w: World, count: nat): string -> bool {
    Reads(w.status(count), w.vars(count), w.number)
  }

  ghost function Chosen(w: World, s: Step, count: nat): Option<nat>
    requires w.Valid()
  {
    Selected(s.transitions, Conditions(w, count), w.roll(count))
  }

  predicate Ends(target: string) {
    target == "" || IsEnd(target)
  }

  /** Where a step that ended this way leads, if anywhere. */
  datatype Onward = Goto(key: string, recorded: string) | Stop(ending: Ending)

  ghost function After(w: World, key: string, s: Step, a: Attempt, count: nat): Onward
    requires w.Valid()
  {
    if !a.Ok() then
      if s.onFailure.action == TRANSITION && s.onFailure.fallback != "" then Goto(s.onFailure.fallback, "")
      else Stop(Aborted(key))
    else
      match Chosen(w, s, count)
      case None => Stop(CleanEnd)
      case Some(i) =>
        var target := s.transitions[i].target;
        if Ends(target) then Stop(CleanEnd) else Goto(target, target)
  }

  ghost function Walk(w: World, sc: Scenario, key: string, count: nat, clock: nat, maxSteps: nat): Session
    requires w.Valid()
    decreases maxSteps - count
  {
    if w.cancelled(clock) then Session([], ContextCancelled)
    else if count >= maxSteps then Session([], TooManySteps)
    else if key !in sc.steps then Session([], StepMissing(key))
    else
      var s := sc.steps[key];
      match Try(w, key, MaxRetries(s), clock + 1)
      case Interrupted => Session([], Panicked(key))
      case Tried(a, later) =>
        match After(w, key, s, a, count)
        case Stop(ending) => Session([Visit(key, a, "")], ending)
        case Goto(next, recorded) =>
          Joined([Visit(key, a, recorded)], Walk(w, sc, next, count + 1, later, maxSteps))
  }

  function Joined(done: seq<Visit>, s: Session): Session {
    Session(done + s.history, s.ending)
  }

  method Decide(w: World, key: string, s: Step, a: Attempt, count: nat) returns (o: Onward)
    requires w.Valid()
    ensures o == After(w, key, s, a, count)
  {
    if !a.Ok() {
      if s.onFailure.action == TRANSITION && s.onFailure.fallback != "" {
        return Goto(s.onFailure.fallback, "");
      }
      return Stop(Aborted(key));
    }
    var choice := SelectNextTransition(s.transitions, Conditions(w, count), w.roll(count));
    if choice.None? || Ends(s.transitions[choice.value].target) {
      return Stop(CleanEnd);
    }
    return Goto(s.transitions[choice.value].target, s.transitions[choice.value].target);
  }

  /** One round of the loop. */
  datatype Progress = Over(visits: seq<Visit>, ending: Ending) | Onto(visits: seq<Visit>, key: string, clock: nat)

  method VisitStep(w: World, sc: Scenario, key: string, count: nat, clock: nat, maxSteps: nat) returns (p: Progress)
    requires w.Valid() && !w.cancelled(clock) && count < maxSteps && key in sc.steps
    ensures p.Over? ==> Walk(w, sc, key, count, clock, maxSteps) == Session(p.visits, p.ending)
    ensures p.Onto? ==>
      Walk(w, sc, key, count, clock, maxSteps) == Joined(p.visits, Walk(w, sc, p.key, count + 1, p.clock, maxSteps))
  {
    var s := sc.steps[key];
    var tries := ExecuteStepWithRetry(w, key, s, clock + 1);
    if tries.Interrupted? {
      return Over([], Panicked(key));
    }
    var onward := Decide(w, key, s, tries.attempt, count);
    if onward.Stop? {
      return Over([Visit(key, tries.attempt, "")], onward.ending);
    }
    return Onto([Visit(key, tries.attempt, onward.recorded)], onward.key, tries.clock);
  }

  /** The loop of one execution, recording results as they come. */
  method RunSession(w: World, sc: Scenario, maxSteps: nat) returns (done: seq<Visit>, ending: Ending)
    requires w.Valid()
    ensures Session(done, ending) == Walk(w, sc, sc.initial, 0, 0, maxSteps)
  {
    var current := sc.initial;
    var stepCount, clock := 0, 0;
    ghost var whole := Walk(w, sc, current, 0, 0, maxSteps);
    ghost var rest := whole;
    done := [];
    while true
      invariant stepCount <= maxSteps
      invariant rest == Walk(w, sc, current, stepCount, clock, maxSteps)
      invariant whole == Joined(done, rest)
      decreases maxSteps - stepCount
    {
      if w.cancelled(clock) {
        return done, ContextCancelled;
      }
      if stepCount >= maxSteps {
        return done, TooManySteps;
      }
      if current !in sc.steps {
        return done, StepMissing(current);
      }
      var progress := VisitStep(w, sc, current, stepCount, clock, maxSteps);
      if progress.Over? {
        return done + progress.visits, progress.ending;
      }
      rest := Walk(w, sc, progress.key, stepCount + 1, progress.clock, maxSteps);
      done := done + progress.visits;
      current, stepCount, clock := progress.key, stepCount + 1, progress.clock;
    }
  }

  class VirtualUser {
    const scenario: Scenario
    const maxSteps: nat
    var history: seq<Visit>

    constructor (sc: Scenario, steps: int)
      ensures scenario == sc && history == []
      ensures maxSteps == if steps <= 0 then 1000 else steps
    {
      scenario, history := sc, [];
      maxSteps := if steps <= 0 then MAX_STEP_TRANSITIONS else steps;
    }

    method Execute(w: World) returns (ending: Ending)
      requires w.Valid()
      modifies this
      ensures ending == Walk(w, scenario, scenario.initial, 0, 0, maxSteps).ending
      ensures history == old(history) + Walk(w, scenario, scenario.initial, 0, 0, maxSteps).history
    {
      var done: seq<Visit>;
      done, ending := RunSession(w, scenario, maxSteps);
      history := history + done;
    }
  }

  /** One step of a session in which nothing is cancelled and the first attempt succeeds. */
  lemma SuccessfulStep(w: World, sc: Scenario, key: string, count: nat, clock: nat, maxSteps: nat)
    requires w.Valid() && !w.cancelled(clock) && count < maxSteps && key in sc.steps && w.attempt(clock + 1, key).Ok()
    ensures var a := w.attempt(clock + 1, key);
      var onward := After(w, key, sc.steps[key], a, count);
      Walk(w, sc, key, count, clock, maxSteps) ==
        if onward.Stop? then Session([Visit(key, a, "")], onward.ending)
        else Joined([Visit(key, a, onward.recorded)], Walk(w, sc, onward.key, count + 1, clock + 2, maxSteps))
  {
  }

  // --- what every session satisfies

  /** The edge a session follows out of a visited step: the fallback of a failed one, a transition whose
      condition was true out of a successful one. */
  ghost predicate Edge(w: World, sc: Scenario, count: nat, v: Visit, next: string) {
    v.key in sc.steps &&
    var s := sc.steps[v.key];
    if v.attempt.success && !v.attempt.err then
      v.next == next &&
      exists i: nat :: i < |s.transitions| && s.transitions[i].target == next
        && EvaluateCondition(s.transitions[i].condition, Reading(w.status(count), true, w.vars(count)), w.number)
    else
      v.next == "" && s.onFailure.action == "transition" && s.onFailure.fallback == next
  }

  ghost predicate IsPath(w: World, sc: Scenario, key: string, count: nat, history: seq<Visit>)
    decreases |history|
  {
    history == [] || (
      && history[0].key == key && key in sc.steps
      && (|history| > 1 ==> Edge(w, sc, count, history[0], history[1].key))
      && (|history| > 1 ==> IsPath(w, sc, history[1].key, count + 1, history[1..]))
    )
  }

  lemma GoesAlongAnEdge(w: World, sc: Scenario, key: string, a: Attempt, count: nat)
    requires w.Valid() && key in sc.steps && After(w, key, sc.steps[key], a, count).Goto?
    ensures var onward := After(w, key, sc.steps[key], a, count);
      Edge(w, sc, count, Visit(key, a, onward.recorded), onward.key)
  {
    if a.Ok() {
      var i := Chosen(w, sc.steps[key], count).value;
      assert Conditions(w, count)(sc.steps[key].transitions[i].condition);
    }
  }

  /** Every session is a path from the initial step, no longer than the step limit. */
  lemma {:induction false} SessionsArePaths(w: World, sc: Scenario, key: string, count: nat, clock: nat, maxSteps: nat)
    requires w.Valid() && count <= maxSteps
    ensures var s := Walk(w, sc, key, count, clock, maxSteps);
      IsPath(w, sc, key, count, s.history) && count + |s.history| <= maxSteps
    decreases maxSteps - count
  {
    var session := Walk(w, sc, key, count, clock, maxSteps);
    if |session.history| > 0 {
      var s := sc.steps[key];
      var tries := Try(w, key, MaxRetries(s), clock + 1);
      var onward := After(w, key, s, tries.attempt, count);
      if onward.Goto? {
        GoesAlongAnEdge(w, sc, key, tries.attempt, count);
        SessionsArePaths(w, sc, onward.key, count + 1, tries.clock, maxSteps);
        var rest := Walk(w, sc, onward.key, count + 1, tries.clock, maxSteps);
        assert session.history[1..] == rest.history;
      }
    }
  }

  // --- where sessions can get to

  /** The i-th transition of a step has a condition that some status and variables make true. */
  ghost predicate MayTake(s: Step, number: NumberParser, i: nat) {
    i < |s.transitions| && CanHold(s.transitions[i].condition, number)
  }

  /** A step can send a session on to the next one: as the fallback of its failure, or as the target of a
      transition that can be taken. */
  ghost predicate Leads(sc: Scenario, number: NumberParser, key: string, next: string) {
    key in sc.steps &&
    var s := sc.steps[key];
    || (s.onFailure.action == TRANSITION && s.onFailure.fallback == next != "")
    || exists i: nat :: MayTake(s, number, i) && s.transitions[i].target == next && !Ends(next)
  }

  ghost predicate IsTrail(sc: Scenario, number: NumberParser, trail: seq<string>) {
    trail != [] && forall k :: 0 <= k < |trail| - 1 ==> Leads(sc, number, trail[k], trail[k + 1])
  }

  ghost predicate IsTrailFrom(sc: Scenario, number: NumberParser, trail: seq<string>, start: string, key: string) {
    IsTrail(sc, number, trail) && trail[0] == start && trail[|trail| - 1] == key
  }

  ghost predicate CanReach(sc: Scenario, number: NumberParser, start: string, key: string) {
    exists trail :: IsTrailFrom(sc, number, trail, start, key)
  }

  /** What a session does at a step on its way: it fails there, or succeeds with this status, these variables
      and this roll. */
  datatype How = Falls | Takes(status: nat, vars: map<string, string>, roll: real)

  ghost predicate Moves(sc: Scenario, number: NumberParser, h: How, key: string, next: string) {
    key in sc.steps &&
    var s := sc.steps[key];
    match h
    case Falls => s.onFailure.action == TRANSITION && s.onFailure.fallback == next != ""
    case Takes(status, vars, roll) =>
      && 0.0 <= roll < 1.0 && !Ends(next)
      && var i := Selected(s.transitions, Reads(status, vars, number), roll);
         i.Some? && s.transitions[i.value].target == next
  }

  /** Wherever one step leads to another, some way of going through it takes a session there. */
  lemma SomeWay(sc: Scenario, number: NumberParser, key: string, next: string) returns (h: How)
    requires Leads(sc, number, key, next)
    ensures Moves(sc, number, h, key, next)
  {
    var s := sc.steps[key];
    if s.onFailure.action == TRANSITION && s.onFailure.fallback == next != "" {
      h := Falls;
    } else {
      var i: nat :| MayTake(s, number, i) && s.transitions[i].target == next && !Ends(next);
      var status: nat, vars: map<string, string> :| Reads(status, vars, number)(s.transitions[i].condition);
      assert IsCandidate(s.transitions, Reads(status, vars, number), i);
      var roll := SomeRollTakes(s.transitions, Reads(status, vars, number), i);
      h := Takes(status, vars, roll);
    }
  }

  /** What is done at each step leads to the next one on the trail. */
  ghost predicate Drives(sc: Scenario, number: NumberParser, hows: seq<How>, trail: seq<string>) {
    |trail| == |hows| + 1 && forall k :: 0 <= k < |hows| ==> Moves(sc, number, hows[k], trail[k], trail[k + 1])
  }

  lemma {:induction false} SomeDrive(sc: Scenario, number: NumberParser, trail: seq<string>, n: nat)
      returns (hows: seq<How>)
    requires IsTrail(sc, number, trail) && n < |trail|
    ensures |hows| == n && forall k :: 0 <= k < n ==> Moves(sc, number, hows[k], trail[k], trail[k + 1])
  {
    if n == 0 {
      hows := [];
    } else {
      var front := SomeDrive(sc, number, trail, n - 1);
      assert Leads(sc, number, trail[n - 1], trail[n]);
      var last := SomeWay(sc, number, trail[n - 1], trail[n]);
      hows := front + [last];
    }
  }

  /** The world in which this is what happens, one attempt a step; after that every attempt fails, and the
      context is cancelled right after the first failure. */
  function Driven(hows: seq<How>, number: NumberParser): World {
    World(
      (m: nat, key) => Attempt(m / 2 < |hows| && hows[m / 2].Takes?, false),
      (m: nat) => m >= 2 * |hows| + 2,
      (n: nat) => if n < |hows| && hows[n].Takes? then hows[n].status else 0,
      (n: nat) => if n < |hows| && hows[n].Takes? then hows[n].vars else map[],
      number,
      (n: nat) => if n < |hows| && hows[n].Takes? then hows[n].roll else 0.0)
  }

  /** At every step before the last the walk in this world goes on to the next one. */
  ghost predicate StepsAlong(w: World, sc: Scenario, trail: seq<string>, n: nat, maxSteps: nat) {
    w.Valid() && n < |trail| - 1 &&
    EndingFrom(w, sc, trail[n], n, maxSteps) == EndingFrom(w, sc, trail[n + 1], n + 1, maxSteps)
  }

  /** How a session ends that has come to its n-th step with one attempt each. */
  ghost function EndingFrom(w: World, sc: Scenario, key: string, n: nat, maxSteps: nat): Ending
    requires w.Valid()
  {
    Walk(w, sc, key, n, 2 * n, maxSteps).ending
  }

  lemma MoveIsMade(w: World, sc: Scenario, h: How, key: string, next: string, n: nat)
    requires w.Valid() && Moves(sc, w.number, h, key, next)
    requires h.Takes? ==> w.status(n) == h.status && w.vars(n) == h.vars && w.roll(n) == h.roll
    ensures After(w, key, sc.steps[key], Attempt(h.Takes?, false), n).Goto?
    ensures After(w, key, sc.steps[key], Attempt(h.Takes?, false), n).key == next
  {
  }

  lemma DrivenStep(sc: Scenario, number: NumberParser, hows: seq<How>, trail: seq<string>, n: nat, maxSteps: nat)
    requires Drives(sc, number, hows, trail) && n < |hows| && n < maxSteps
    ensures StepsAlong(Driven(hows, number), sc, trail, n, maxSteps)
  {
    DrivenIsValid(sc, number, hows, trail);
    var w := Driven(hows, number);
    MoveIsMade(w, sc, hows[n], trail[n], trail[n + 1], n);
    assert (2 * n + 1) / 2 == n;
    StepIsTaken(w, sc, trail[n], trail[n + 1], n, maxSteps);
  }

  lemma StepIsTaken(w: World, sc: Scenario, key: string, next: string, n: nat, maxSteps: nat)
    requires w.Valid() && key in sc.steps && n < maxSteps && !w.cancelled(2 * n)
    requires var a := w.attempt(2 * n + 1, key);
      && (a.Ok() || MaxRetries(sc.steps[key]) == 0)
      && After(w, key, sc.steps[key], a, n).Goto? && After(w, key, sc.steps[key], a, n).key == next
    ensures EndingFrom(w, sc, key, n, maxSteps) == EndingFrom(w, sc, next, n + 1, maxSteps)
  {
    var a := w.attempt(2 * n + 1, key);
    assert Try(w, key, MaxRetries(sc.steps[key]), 2 * n + 1) == Tried(a, 2 * n + 2);
  }

  lemma {:induction false} AllAlong(w: World, sc: Scenario, trail: seq<string>, n: nat, maxSteps: nat)
    requires w.Valid() && n < |trail| && forall k: nat :: k < n ==> StepsAlong(w, sc, trail, k, maxSteps)
    ensures EndingFrom(w, sc, trail[0], 0, maxSteps) == EndingFrom(w, sc, trail[n], n, maxSteps)
  {
    if n == 0 {
    } else {
      AllAlong(w, sc, trail, n - 1, maxSteps);
      assert StepsAlong(w, sc, trail, n - 1, maxSteps);
    }
  }

  /** A session in that world, started where the trail starts, gets to where the trail ends. */
  lemma DrivenToTheEnd(sc: Scenario, number: NumberParser, hows: seq<How>, trail: seq<string>)
    requires Drives(sc, number, hows, trail)
    ensures var w, n := Driven(hows, number), |hows|;
      w.Valid() && EndingFrom(w, sc, trail[0], 0, n + 1) == EndingFrom(w, sc, trail[n], n, n + 1)
  {
    DrivenIsValid(sc, number, hows, trail);
    var w, maxSteps := Driven(hows, number), |hows| + 1;
    forall k: nat | k < |hows|
      ensures StepsAlong(w, sc, trail, k, maxSteps)
    {
      DrivenStep(sc, number, hows, trail, k, maxSteps);
    }
    AllAlong(w, sc, trail, |hows|, maxSteps);
  }

  lemma DrivenIsValid(sc: Scenario, number: NumberParser, hows: seq<How>, trail: seq<string>)
    requires Drives(sc, number, hows, trail)
    ensures Driven(hows, number).Valid()
  {
    forall n: nat
      ensures 0.0 <= Driven(hows, number).roll(n) < 1.0
    {
      assert n < |hows| ==> Moves(sc, number, hows[n], trail[n], trail[n + 1]);
    }
  }

  /** A session that loses its step, or ends on a missing result, has followed a trail to where it ends. */
  lemma {:induction false} EndsOnATrail(w: World, sc: Scenario, key: string, count: nat, clock: nat, maxSteps: nat)
      returns (trail: seq<string>)
    requires w.Valid()
    requires var e := Walk(w, sc, key, count, clock, maxSteps).ending; e.StepMissing? || e.Panicked?
    ensures var e := Walk(w, sc, key, count, clock, maxSteps).ending;
      IsTrailFrom(sc, w.number, trail, key, e.key) && (e.StepMissing? ==> e.key !in sc.steps)
    decreases maxSteps - count
  {
    if key !in sc.steps {
      trail := [key];
    } else {
      var s := sc.steps[key];
      var tries := Try(w, key, MaxRetries(s), clock + 1);
      if tries.Interrupted? {
        trail := [key];
      } else {
        var next := After(w, key, s, tries.attempt, count).key;
        AfterLeads(w, sc, key, tries.attempt, count);
        var rest := EndsOnATrail(w, sc, next, count + 1, tries.clock, maxSteps);
        trail := [key] + rest;
      }
    }
  }

  lemma AfterLeads(w: World, sc: Scenario, key: string, a: Attempt, count: nat)
    requires w.Valid() && key in sc.steps && After(w, key, sc.steps[key], a, count).Goto?
    ensures Leads(sc, w.number, key, After(w, key, sc.steps[key], a, count).key)
  {
    if a.Ok() {
      var s := sc.steps[key];
      var i := Chosen(w, s, count).value;
      assert Reads(w.status(count), w.vars(count), w.number)(s.transitions[i].condition);
      assert MayTake(s, w.number, i);
    }
  }

  // --- no step is ever missing

  /** No session from the given step ever loses its step, whatever happens. */
  ghost predicate NeverMisses(sc: Scenario, start: string, number: NumberParser) {
    forall w: World, maxSteps | w.Valid() && w.number == number ::
      !Walk(w, sc, start, 0, 0, maxSteps).ending.StepMissing?
  }

  /** Every target that can be chosen on the way can be acted on as written. */
  ghost predicate ReachesResolvable(sc: Scenario, start: string, number: NumberParser) {
    forall key, i: nat | CanReach(sc, number, start, key) && key in sc.steps && MayTake(sc.steps[key], number, i) ::
      Resolvable(sc, sc.steps[key].transitions[i].target)
  }

  /** In a validated scenario, the sessions from a step never miss one exactly when every target that can be
      chosen on their way can be acted on as written: validation looks targets up trimmed, so it does not ensure
      it by itself. `Execute` starts at the initial step. */
  lemma NeverMissesExactlyWhenResolvable(sc: Scenario, start: string, number: NumberParser)
    requires WellFormed(sc) && start in sc.steps
    ensures NeverMisses(sc, start, number) <==> ReachesResolvable(sc, start, number)
  {
    if ReachesResolvable(sc, start, number) {
      forall w: World, maxSteps | w.Valid() && w.number == number
        ensures !Walk(w, sc, start, 0, 0, maxSteps).ending.StepMissing?
      {
        var e := Walk(w, sc, start, 0, 0, maxSteps).ending;
        if e.StepMissing? {
          var trail := EndsOnATrail(w, sc, start, 0, 0, maxSteps);
          TrailStaysInside(sc, number, start, trail, |trail|);
          assert false;
        }
      }
    } else {
      var key, i: nat :| CanReach(sc, number, start, key) && key in sc.steps && MayTake(sc.steps[key], number, i)
        && !Resolvable(sc, sc.steps[key].transitions[i].target);
      var trail :| IsTrailFrom(sc, number, trail, start, key);
      var lost := sc.steps[key].transitions[i].target;
      assert Leads(sc, number, key, lost);
      LosesItsStep(sc, number, start, trail + [lost]);
    }
  }

  lemma {:induction false} TrailStaysInside(sc: Scenario, number: NumberParser, start: string, trail: seq<string>,
                                            n: nat)
    requires WellFormed(sc) && start in sc.steps && ReachesResolvable(sc, start, number)
    requires IsTrail(sc, number, trail) && trail[0] == start && n <= |trail|
    ensures forall k :: 0 <= k < n ==> trail[k] in sc.steps
  {
    if n <= 1 {
    } else {
      TrailStaysInside(sc, number, start, trail, n - 1);
      var key, next := trail[n - 2], trail[n - 1];
      assert IsTrailFrom(sc, number, trail[..n - 1], start, key);
      assert Leads(sc, number, key, next) && StepOk(sc.steps.Keys, sc.steps[key]);
    }
  }

  lemma LosesItsStep(sc: Scenario, number: NumberParser, start: string, trail: seq<string>)
    requires IsTrail(sc, number, trail) && trail[0] == start && trail[|trail| - 1] !in sc.steps
    ensures !NeverMisses(sc, start, number)
  {
    var hows := SomeDrive(sc, number, trail, |trail| - 1);
    DrivenToTheEnd(sc, number, hows, trail);
    assert Walk(Driven(hows, number), sc, start, 0, 0, |hows| + 1).ending == StepMissing(trail[|hows|]);
  }

  /** Targets written without surrounding space are enough. */
  lemma TrimmedTargetsNeverMiss(sc: Scenario, start: string, number: NumberParser)
    requires WellFormed(sc) && TargetsTrimmed(sc) && start in sc.steps
    ensures NeverMisses(sc, start, number)
  {
    forall key, i: nat | key in sc.steps && i < |sc.steps[key].transitions|
      ensures Resolvable(sc, sc.steps[key].transitions[i].target)
    {
      assert StepOk(sc.steps.Keys, sc.steps[key]);
    }
    NeverMissesExactlyWhenResolvable(sc, start, number);
  }

  /** Validation trims a target before looking it up, the walk does not: this accepted scenario loses its
      session on the first transition. */
  lemma UntrimmedTargetGoesMissing(w: World)
    requires w.Valid() && w.attempt(1, "a") == Attempt(true, false)
    requires !w.cancelled(0) && !w.cancelled(2)
    ensures WellFormed(Padded()) && Walk(w, Padded(), "a", 0, 0, 1000).ending == StepMissing("a ")
  {
    TrimPadded();
    var sc := Padded();
    assert StepOk(sc.steps.Keys, sc.steps["a"]);
    var ts := sc.steps["a"].transitions;
    assert IsCandidate(ts, Conditions(w, 0), 0);
    assert Chosen(w, sc.steps["a"], 0) == Some(0);
    assert "a "[0] == 'a';
    assert !IsEnd("a ");
    assert After(w, "a", sc.steps["a"], Attempt(true, false), 0) == Goto("a ", "a ");
    assert "a " !in sc.steps;
    assert Walk(w, sc, "a ", 1, 2, 1000) == Session([], StepMissing("a "));
  }

  function Padded(): Scenario {
    Scenario("s", "", "a",
      map["a" := Step("a", "", Request("GET", "/", ""), [Transition("a ", 0.0, 0, "")], FailurePolicy(ABORT, 0, ""))])
  }

  lemma TrimPadded()
    ensures TrimSpace("a ") == "a" && TrimSpace("a") == "a" && TrimSpace("s") == "s"
  {
  }

  // --- no result is ever missing

  /** Without retries to interrupt there is nothing to panic about: a session ends on a missing result only
      at a step that retries. */
  lemma {:induction false} PanicOnlyAtRetryingStep(w: World, sc: Scenario, key: string, count: nat, clock: nat,
                                                   maxSteps: nat)
    requires w.Valid()
    ensures var e := Walk(w, sc, key, count, clock, maxSteps).ending;
      e.Panicked? ==> e.key in sc.steps && MaxRetries(sc.steps[e.key]) > 0
    decreases maxSteps - count
  {
    if !w.cancelled(clock) && count < maxSteps && key in sc.steps {
      var s := sc.steps[key];
      var tries := Try(w, key, MaxRetries(s), clock + 1);
      if tries.Tried? {
        var onward := After(w, key, s, tries.attempt, count);
        if onward.Goto? {
          PanicOnlyAtRetryingStep(w, sc, onward.key, count + 1, tries.clock, maxSteps);
        }
      }
    }
  }

  /** No session from the given step ever dereferences a missing result, whatever happens. */
  ghost predicate NeverPanics(sc: Scenario, start: string, number: NumberParser) {
    forall w: World, maxSteps | w.Valid() && w.number == number ::
      !Walk(w, sc, start, 0, 0, maxSteps).ending.Panicked?
  }

  ghost predicate ReachesRetries(sc: Scenario, start: string, number: NumberParser) {
    exists key :: CanReach(sc, number, start, key) && key in sc.steps && MaxRetries(sc.steps[key]) > 0
  }

  /** That holds exactly when no step that can be reached retries. */
  lemma NeverPanicsExactlyWithoutRetries(sc: Scenario, start: string, number: NumberParser)
    ensures NeverPanics(sc, start, number) <==> !ReachesRetries(sc, start, number)
  {
    if ReachesRetries(sc, start, number) {
      var key :| CanReach(sc, number, start, key) && key in sc.steps && MaxRetries(sc.steps[key]) > 0;
      var trail :| IsTrailFrom(sc, number, trail, start, key);
      CancelledWhileRetrying(sc, number, start, trail);
    } else {
      forall w: World, maxSteps | w.Valid() && w.number == number
        ensures !Walk(w, sc, start, 0, 0, maxSteps).ending.Panicked?
      {
        var e := Walk(w, sc, start, 0, 0, maxSteps).ending;
        if e.Panicked? {
          var trail := EndsOnATrail(w, sc, start, 0, 0, maxSteps);
          PanicOnlyAtRetryingStep(w, sc, start, 0, 0, maxSteps);
          assert CanReach(sc, number, start, e.key);
          assert false;
        }
      }
    }
  }

  lemma CancelledWhileRetrying(sc: Scenario, number: NumberParser, start: string, trail: seq<string>)
    requires IsTrail(sc, number, trail) && trail[0] == start
    requires var key := trail[|trail| - 1]; key in sc.steps && MaxRetries(sc.steps[key]) > 0
    ensures !NeverPanics(sc, start, number)
  {
    var hows := SomeDrive(sc, number, trail, |trail| - 1);
    var n := |hows|;
    DrivenToTheEnd(sc, number, hows, trail);
    assert (2 * n + 1) / 2 == n;
    assert Try(Driven(hows, number), trail[n], MaxRetries(sc.steps[trail[n]]), 2 * n + 1) == Interrupted;
    assert Walk(Driven(hows, number), sc, start, 0, 0, n + 1).ending == Panicked(trail[n]);
  }
}
