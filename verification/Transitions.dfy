/** Choosing the next step of a session by condition and weight (pkg/vusession/transition.go), over exact reals. */
module Transitions {
  import opened Options
  import opened Text

  datatype Transition = Transition(target: string, probability: real, weight: int, condition: string)

  /** An explicit weight wins over a probability; without either, a transition weighs one. */
  function Weight(t: Transition): (w: real)
    ensures w > 0.0
  {
    if t.weight > 0 then t.weight as real
    else if t.probability > 0.0 then t.probability
    else 1.0
  }

  // --- conditions

  /** What conditions are evaluated against: a step's status and success, and the session's variables as text. */
  datatype Reading = Reading(status: nat, success: bool, vars: map<string, string>)

  /** Reading a text as a number, if it is one. */
  type NumberParser = string -> Option<real>

  /** Operators in the order they are looked for. */
  const OPERATORS: seq<string> := ["==", "!=", ">=", "<=", ">", "<"]

  predicate OccursAt(s: string, op: string, i: nat) {
    i + |op| <= |s| && s[i..i + |op|] == op
  }

  /** The first position of a text in another from i on. */
  function FirstIndex(s: string, op: string, i: nat): (r: Option<nat>)
    ensures r.Some? ==> i <= r.value && OccursAt(s, op, r.value)
    ensures forall k: nat :: i <= k && (r.None? || k < r.value) ==> !OccursAt(s, op, k)
    decreases |s| - i
  {
    if OccursAt(s, op, i) then Some(i)
    else if i >= |s| then None
    else FirstIndex(s, op, i + 1)
  }

  function StripQuotes(s: string): string {
    if s != "" && s[0] in "\"'" then StripQuotes(s[1..])
    else if s != "" && s[|s| - 1] in "\"'" then StripQuotes(s[..|s| - 1])
    else s
  }

  /** The text of an operand and, when it stands for a number, the number. */
  function Resolve(operand: string, r: Reading, number: NumberParser): (string, Option<real>) {
    var lower := ToLower(operand);
    if lower in ["status", "status_code"] then (Itoa(r.status), Some(r.status as real))
    else if lower == "success" then (if r.success then "true" else "false", None)
    else if "state." <= operand then
      var key := operand[6..];
      if key in r.vars then (r.vars[key], number(r.vars[key])) else ("", None)
    else (operand, None)
  }

  function Compare(left: string, op: string, right: string, r: Reading, number: NumberParser): bool {
    var (text, value) := Resolve(left, r, number);
    var bare := StripQuotes(right);
    var other := number(bare);
    if value.Some? && other.Some? then
      var x, y := value.value, other.value;
      match op
      case "==" => x == y
      case "!=" => x != y
      case ">" => x > y
      case ">=" => x >= y
      case "<" => x < y
      case _ => x <= y
    else if op == "==" then text == bare
    else op == "!=" && text != bare
  }

  /** The comparison of what stands on either side of an operator. */
  function ComparisonAt(expr: string, op: string, i: nat, r: Reading, number: NumberParser): bool
    requires OccursAt(expr, op, i)
  {
    Compare(TrimSpace(expr[..i]), op, TrimSpace(expr[i + |op|..]), r, number)
  }

  /** The comparison named by the first of the operators that occurs at all. */
  function Compared(expr: string, ops: seq<string>, r: Reading, number: NumberParser): Option<bool> {
    if ops == [] then None else
      match FirstIndex(expr, ops[0], 0)
      case None => Compared(expr, ops[1..], r, number)
      case Some(i) => Some(ComparisonAt(expr, ops[0], i, r, number))
  }

  /** A comparison, or else a flag; anything that is neither counts as true. */
  function EvaluateCondition(condition: string, r: Reading, number: NumberParser): bool {
    var expr := TrimSpace(condition);
    if expr == "" then true else
      match Compared(expr, OPERATORS, r, number)
      case Some(holds) => holds
      case None => if expr == "success" then r.success else if expr == "!success" then !r.success else true
  }

  /** Conditions as they are read after a success, the only time they are. */
  function Reads(status: nat, vars: map<string, string>, number: NumberParser): string -> bool {
    (c: string) => EvaluateCondition(c, Reading(status, true, vars), number)
  }

  /** A condition some status and variables make true. */
  ghost predicate CanHold(condition: string, number: NumberParser) {
    exists status: nat, vars: map<string, string> :: Reads(status, vars, number)(condition)
  }

  /** The operator found in an expression: of those that occur, the first in the order they are looked for, at
      the first place it occurs. */
  ghost predicate SplitsAt(expr: string, ops: seq<string>, k: nat, i: nat) {
    && k < |ops| && OccursAt(expr, ops[k], i)
    && (forall j: nat :: j < i ==> !OccursAt(expr, ops[k], j))
    && forall l: nat, j: nat :: l < k ==> !OccursAt(expr, ops[l], j)
  }

  lemma {:induction false} ComparedAt(expr: string, ops: seq<string>, k: nat, i: nat, r: Reading, number: NumberParser)
    requires SplitsAt(expr, ops, k, i)
    ensures Compared(expr, ops, r, number) == Some(ComparisonAt(expr, ops[k], i, r, number))
  {
    if k == 0 {
      assert FirstIndex(expr, ops[0], 0) == Some(i);
    } else {
      assert FirstIndex(expr, ops[0], 0) == None;
      assert SplitsAt(expr, ops[1..], k - 1, i);
      ComparedAt(expr, ops[1..], k - 1, i, r, number);
    }
  }

  lemma {:induction false} NothingCompared(expr: string, ops: seq<string>, r: Reading, number: NumberParser)
    requires forall k: nat, i: nat :: k < |ops| ==> !OccursAt(expr, ops[k], i)
    ensures Compared(expr, ops, r, number) == None
  {
    if ops == [] {
    } else {
      assert forall i: nat :: !OccursAt(expr, ops[0], i);
      NothingCompared(expr, ops[1..], r, number);
    }
  }

  lemma NoOperatorCharacter(s: string, op: string, i: nat)
    requires op != "" && op[|op| - 1] !in s
    ensures !OccursAt(s, op, i)
  {
    if i + |op| <= |s| {
      assert s[i..i + |op|][|op| - 1] == s[i + |op| - 1];
    }
  }

  /** A condition without any operator can hold exactly when it is not "!success": even a name nobody knows
      counts as true. */
  lemma FlagCanHoldUnlessNegated(condition: string, number: NumberParser)
    requires forall c :: c in TrimSpace(condition) ==> c !in "=<>"
    ensures CanHold(condition, number) <==> TrimSpace(condition) != "!success"
  {
    var expr := TrimSpace(condition);
    forall k: nat, i: nat | k < |OPERATORS|
      ensures !OccursAt(expr, OPERATORS[k], i)
    {
      NoOperatorCharacter(expr, OPERATORS[k], i);
    }
    forall status: nat, vars: map<string, string>
      ensures Reads(status, vars, number)(condition) <==> expr != "!success"
    {
      NothingCompared(expr, OPERATORS, Reading(status, true, vars), number);
    }
    assert Reads(200, map[], number)(condition) <==> expr != "!success";
  }

  lemma SuccessCompared(left: string, op: string, right: string, r: Reading, number: NumberParser)
    requires ToLower(left) == "success" && r.success
    ensures Compare(left, op, right, r, number) <==>
      (op == "==" && StripQuotes(right) == "true") || (op == "!=" && StripQuotes(right) != "true")
  {
  }

  /** A comparison of the success itself can hold exactly when it says, in quotes or not, that it is true;
      "success == false" never does. */
  lemma SuccessCanHoldExactlyWhenTrue(condition: string, k: nat, i: nat, number: NumberParser)
    requires var expr := TrimSpace(condition);
      SplitsAt(expr, OPERATORS, k, i) && ToLower(TrimSpace(expr[..i])) == "success"
    ensures var expr, op := TrimSpace(condition), OPERATORS[k];
      var right := StripQuotes(TrimSpace(expr[i + |op|..]));
      CanHold(condition, number) <==> (op == "==" && right == "true") || (op == "!=" && right != "true")
  {
    var expr, op := TrimSpace(condition), OPERATORS[k];
    var right := StripQuotes(TrimSpace(expr[i + |op|..]));
    var says := (op == "==" && right == "true") || (op == "!=" && right != "true");
    forall status: nat, vars: map<string, string>
      ensures Reads(status, vars, number)(condition) <==> says
    {
      var r := Reading(status, true, vars);
      ComparedAt(expr, OPERATORS, k, i, r, number);
      SuccessCompared(TrimSpace(expr[..i]), op, TrimSpace(expr[i + |op|..]), r, number);
    }
    assert Reads(200, map[], number)(condition) <==> says;
  }

  /** No space on either side, and no operator or quote anywhere. */
  ghost predicate IsOperand(s: string) {
    s != "" && Trimmed(s) && forall c :: c in s ==> c !in "=!<>\"'"
  }

  ghost function Comparison(left: string, op: string, right: string): string {
    left + " " + op + " " + right
  }

  /** An operator is only found where one was written. */
  lemma OnlyOperator(left: string, op: string, right: string, other: string, j: nat)
    requires IsOperand(left) && IsOperand(right) && other != "" && forall c :: c in other ==> c in "=!<>"
    requires OccursAt(Comparison(left, op, right), other, j)
    ensures var i := |left| + 1; i <= j && j + |other| <= i + |op| && op[j - i..j - i + |other|] == other
  {
    var s, i := Comparison(left, op, right), |left| + 1;
    assert s[j] == other[0] && s[j + |other| - 1] == other[|other| - 1];
    forall k | 0 <= k < |s| && !(i <= k < i + |op|)
      ensures s[k] !in "=!<>"
    {
      OutsideOperator(left, op, right, k);
    }
    assert s[i..i + |op|] == op;
    assert s[j..j + |other|] == op[j - i..j - i + |other|];
  }

  lemma OutsideOperator(left: string, op: string, right: string, k: nat)
    requires IsOperand(left) && IsOperand(right)
    requires k < |Comparison(left, op, right)| && !(|left| + 1 <= k < |left| + 1 + |op|)
    ensures Comparison(left, op, right)[k] !in "=!<>"
  {
    var s, n := Comparison(left, op, right), |left| + 1 + |op|;
    if k < |left| {
      assert s[k] == left[k] && left[k] in left;
    } else if k > n {
      assert s[k] == right[k - n - 1] && right[k - n - 1] in right;
    } else {
      assert s[k] == ' ';
    }
  }

  lemma SplitsThere(left: string, right: string, k: nat)
    requires IsOperand(left) && IsOperand(right) && k < |OPERATORS|
    ensures SplitsAt(Comparison(left, OPERATORS[k], right), OPERATORS, k, |left| + 1)
  {
    var s, op := Comparison(left, OPERATORS[k], right), OPERATORS[k];
    assert s[|left| + 1..|left| + 1 + |op|] == op;
    OperatorCharacters(k);
    forall j: nat | j < |left| + 1
      ensures !OccursAt(s, op, j)
    {
      if OccursAt(s, op, j) { OnlyOperator(left, op, right, op, j); }
    }
    forall l: nat, j: nat | l < k
      ensures !OccursAt(s, OPERATORS[l], j)
    {
      NoEarlierOperator(left, right, k, l, j);
    }
  }

  lemma OperatorCharacters(k: nat)
    requires k < |OPERATORS|
    ensures OPERATORS[k] != "" && forall c :: c in OPERATORS[k] ==> c in "=!<>"
  {
  }

  /** No operator is part of one that is looked for later. */
  lemma NoOperatorInside(k: nat, l: nat, d: nat)
    requires l < k < |OPERATORS| && d + |OPERATORS[l]| <= |OPERATORS[k]|
    ensures OPERATORS[k][d..d + |OPERATORS[l]|] != OPERATORS[l]
  {
    var part := OPERATORS[k][d..d + |OPERATORS[l]|];
    assert part[0] == OPERATORS[k][d];
  }

  lemma NoEarlierOperator(left: string, right: string, k: nat, l: nat, j: nat)
    requires IsOperand(left) && IsOperand(right) && l < k < |OPERATORS|
    ensures !OccursAt(Comparison(left, OPERATORS[k], right), OPERATORS[l], j)
  {
    OperatorCharacters(l);
    if OccursAt(Comparison(left, OPERATORS[k], right), OPERATORS[l], j) {
      OnlyOperator(left, OPERATORS[k], right, OPERATORS[l], j);
      NoOperatorInside(k, l, j - |left| - 1);
    }
  }

  /** A comparison written with spaces around the operator compares what stands on either side. */
  lemma ComparisonIs(left: string, right: string, k: nat, r: Reading, number: NumberParser)
    requires IsOperand(left) && IsOperand(right) && k < |OPERATORS|
    ensures EvaluateCondition(Comparison(left, OPERATORS[k], right), r, number)
      <==> Compare(left, OPERATORS[k], right, r, number)
  {
    var op := OPERATORS[k];
    var s, i := Comparison(left, op, right), |left| + 1;
    TrimmedIsFixed(s);
    SplitsThere(left, right, k);
    ComparedAt(s, OPERATORS, k, i, r, number);
    SidesAre(left, op, right);
  }

  lemma SidesAre(left: string, op: string, right: string)
    requires IsOperand(left) && IsOperand(right)
    ensures var s, i := Comparison(left, op, right), |left| + 1;
      TrimSpace(s[..i]) == left && TrimSpace(s[i + |op|..]) == right
  {
    var s, i := Comparison(left, op, right), |left| + 1;
    assert s[..i] == "" + left + " " && s[i + |op|..] == " " + right + "";
    TrimSpaceStrips("", left, " ");
    TrimSpaceStrips(" ", right, "");
  }

  /** What a comparison of two numbers says. */
  ghost predicate Says(x: real, op: string, y: real) {
    || (op == "==" && x == y) || (op == "!=" && x != y)
    || (op == ">=" && x >= y) || (op == "<=" && x <= y)
    || (op == ">" && x > y) || (op == "<" && x < y)
  }

  /** A comparison with a number means what it says: of the status under either name, or of a variable that reads as
      a number; ">=" and "<=" are not mistaken for ">" and "<". */
  lemma NumbersAreCompared(left: string, x: real, op: string, right: string, y: real, r: Reading, number: NumberParser)
    requires op in ["==", "!=", ">=", "<=", ">", "<"]
    requires IsOperand(right) && number(right) == Some(y)
    requires
      || (left in ["status", "status_code"] && x == r.status as real)
      || (IsOperand(left) && "state." <= left && left[6..] in r.vars && number(r.vars[left[6..]]) == Some(x))
    ensures EvaluateCondition(left + " " + op + " " + right, r, number) <==> Says(x, op, y)
  {
    var k: nat :| k < |OPERATORS| && OPERATORS[k] == op;
    ComparisonIs(left, right, k, r, number);
    WithoutQuotes(right);
    ResolvesToNumber(left, x, r, number);
  }

  lemma ResolvesToNumber(left: string, x: real, r: Reading, number: NumberParser)
    requires
      || (left in ["status", "status_code"] && x == r.status as real)
      || ("state." <= left && left[6..] in r.vars && number(r.vars[left[6..]]) == Some(x))
    ensures Resolve(left, r, number).1 == Some(x)
  {
    assert ToLower("status") == "status" && ToLower("status_code") == "status_code";
    NotAWord(left);
  }

  /** No variable is taken for a status or a success. */
  lemma NotAWord(left: string)
    ensures "state." <= left ==> ToLower(left) !in ["status", "status_code", "success"]
  {
    if "state." <= left {
      assert left[1] == 't' && left[4] == 'e';
      assert ToLower(left)[1] == 't' && ToLower(left)[4] == 'e';
    }
  }

  /** A variable that does not read as a number, or is compared with something that does not, is compared as
      text; one that is not set reads as the empty text. Text has no order. */
  lemma TextsAreCompared(left: string, op: string, right: string, r: Reading, number: NumberParser)
    requires op in ["==", "!=", ">=", "<=", ">", "<"]
    requires IsOperand(left) && "state." <= left && IsOperand(right)
    requires number(right) == None || left[6..] !in r.vars || number(r.vars[left[6..]]) == None
    ensures var text := if left[6..] in r.vars then r.vars[left[6..]] else "";
      EvaluateCondition(left + " " + op + " " + right, r, number) <==>
        (op == "==" && text == right) || (op == "!=" && text != right)
  {
    var k: nat :| k < |OPERATORS| && OPERATORS[k] == op;
    ComparisonIs(left, right, k, r, number);
    WithoutQuotes(right);
    NotAWord(left);
  }

  lemma WithoutQuotes(right: string)
    requires IsOperand(right)
    ensures StripQuotes(right) == right
  {
    assert right[0] in right && right[|right| - 1] in right;
  }

  // --- weights

  /** Total weight of the first n transitions whose condition is true. */
  ghost function Mass(ts: seq<Transition>, holds: string -> bool, n: nat): (m: real)
    requires n <= |ts|
    ensures m >= 0.0
  {
    if n == 0 then 0.0
    else Mass(ts, holds, n - 1) + if holds(ts[n - 1].condition) then Weight(ts[n - 1]) else 0.0
  }

  ghost function Whole(ts: seq<Transition>, holds: string -> bool): real {
    Mass(ts, holds, |ts|)
  }

  ghost predicate IsCandidate(ts: seq<Transition>, holds: string -> bool, i: nat) {
    i < |ts| && holds(ts[i].condition)
  }

  /** Candidate i owns the part of [0, whole) between the weight before it and the weight including it. */
  ghost predicate Owns(ts: seq<Transition>, holds: string -> bool, i: nat, point: real) {
    IsCandidate(ts, holds, i) && Mass(ts, holds, i) <= point < Mass(ts, holds, i + 1)
  }

  lemma {:induction false} MassMonotone(ts: seq<Transition>, holds: string -> bool, i: nat, j: nat)
    requires i <= j <= |ts|
    ensures Mass(ts, holds, i) <= Mass(ts, holds, j)
  {
    if i == j {
    } else {
      MassMonotone(ts, holds, i, j - 1);
    }
  }

  /** Two candidates never own the same point. */
  lemma OwnersDisjoint(ts: seq<Transition>, holds: string -> bool, i: nat, j: nat, point: real)
    requires Owns(ts, holds, i, point) && Owns(ts, holds, j, point)
    ensures i == j
  {
    if i < j {
      MassMonotone(ts, holds, i + 1, j);
    } else if j < i {
      MassMonotone(ts, holds, j + 1, i);
    }
  }

  /** Every point below the weight of the first n transitions is owned by one of them. */
  lemma {:induction false} EveryPointOwned(ts: seq<Transition>, holds: string -> bool, n: nat, point: real)
    requires n <= |ts| && 0.0 <= point < Mass(ts, holds, n)
    ensures exists i: nat :: i < n && Owns(ts, holds, i, point)
  {
    if point < Mass(ts, holds, n - 1) {
      EveryPointOwned(ts, holds, n - 1, point);
    } else {
      assert Owns(ts, holds, n - 1, point);
    }
  }

  lemma {:induction false} NoCandidatesNoMass(ts: seq<Transition>, holds: string -> bool, n: nat)
    requires n <= |ts|
    ensures Mass(ts, holds, n) > 0.0 <==> exists i: nat :: i < n && IsCandidate(ts, holds, i)
  {
    if n == 0 {
    } else {
      NoCandidatesNoMass(ts, holds, n - 1);
      if holds(ts[n - 1].condition) {
        assert IsCandidate(ts, holds, n - 1);
      }
    }
  }

  /** Where a roll in [0, 1) falls. */
  ghost function Point(ts: seq<Transition>, holds: string -> bool, roll: real): real {
    Scaled(roll, Whole(ts, holds))
  }

  function Scaled(roll: real, whole: real): real {
    roll * whole
  }

  ghost predicate AnyCandidate(ts: seq<Transition>, holds: string -> bool) {
    exists i: nat :: IsCandidate(ts, holds, i)
  }

  /** The owned parts partition [0, whole): whenever some condition is true, each roll in [0, 1) picks
      exactly one transition. A candidate's share is its weight if it has one, else its probability if it has
      one, else one. */
  lemma RollsPartition(ts: seq<Transition>, holds: string -> bool, roll: real)
    requires 0.0 <= roll < 1.0 && AnyCandidate(ts, holds)
    ensures 0.0 <= Point(ts, holds, roll) < Whole(ts, holds)
    ensures exists i: nat :: Owns(ts, holds, i, Point(ts, holds, roll))
    ensures forall i: nat, j: nat ::
      Owns(ts, holds, i, Point(ts, holds, roll)) && Owns(ts, holds, j, Point(ts, holds, roll)) ==> i == j
    ensures forall i: nat :: IsCandidate(ts, holds, i) ==>
      Mass(ts, holds, i + 1) - Mass(ts, holds, i) ==
        if ts[i].weight > 0 then ts[i].weight as real
        else if ts[i].probability > 0.0 then ts[i].probability
        else 1.0
  {
    var point := Point(ts, holds, roll);
    PointInRange(ts, holds, roll);
    EveryPointOwned(ts, holds, |ts|, point);
    forall i: nat, j: nat | Owns(ts, holds, i, point) && Owns(ts, holds, j, point)
      ensures i == j
    {
      OwnersDisjoint(ts, holds, i, j, point);
    }
  }

  /** Any transition whose condition is true is taken by some roll. */
  lemma SomeRollTakes(ts: seq<Transition>, holds: string -> bool, i: nat) returns (roll: real)
    requires IsCandidate(ts, holds, i)
    ensures 0.0 <= roll < 1.0 && Selected(ts, holds, roll) == Some(i)
  {
    MassMonotone(ts, holds, i + 1, |ts|);
    var whole := Whole(ts, holds);
    roll := Mass(ts, holds, i) / whole;
    ShareBelowOne(Mass(ts, holds, i), whole);
    OwnerIsSelected(ts, holds, roll, i);
  }

  lemma ShareBelowOne(part: real, whole: real)
    requires 0.0 <= part < whole
    ensures 0.0 <= part / whole < 1.0 && Scaled(part / whole, whole) == part
  {
  }

  lemma PointInRange(ts: seq<Transition>, holds: string -> bool, roll: real)
    requires 0.0 <= roll < 1.0 && AnyCandidate(ts, holds)
    ensures 0.0 <= Point(ts, holds, roll) < Whole(ts, holds)
  {
    NoCandidatesNoMass(ts, holds, |ts|);
    RollInside(roll, Whole(ts, holds));
  }

  lemma RollInside(roll: real, whole: real)
    requires 0.0 <= roll < 1.0 && whole > 0.0
    ensures 0.0 <= Scaled(roll, whole) < whole
  {
  }

  /** The transition a roll selects, if any condition is true. */
  ghost function Selected(ts: seq<Transition>, holds: string -> bool, roll: real): (r: Option<nat>)
    requires 0.0 <= roll < 1.0
    ensures r.None? <==> !AnyCandidate(ts, holds)
    ensures r.Some? ==> Owns(ts, holds, r.value, Point(ts, holds, roll))
  {
    if AnyCandidate(ts, holds) then
      RollsPartition(ts, holds, roll);
      var k: nat :| Owns(ts, holds, k, Point(ts, holds, roll));
      Some(k)
    else None
  }

  /** A candidate is selected exactly when the roll, scaled to the whole, falls in its part. */
  lemma SelectedExactlyWhenOwned(ts: seq<Transition>, holds: string -> bool, roll: real, i: nat)
    requires 0.0 <= roll < 1.0
    ensures Selected(ts, holds, roll) == Some(i) <==> Owns(ts, holds, i, Point(ts, holds, roll))
  {
    if Owns(ts, holds, i, Point(ts, holds, roll)) {
      OwnerIsSelected(ts, holds, roll, i);
    }
  }

  /** The configured weights of the candidates among the first n transitions, added up. */
  ghost function Weights(ts: seq<Transition>, holds: string -> bool, n: nat): int
    requires n <= |ts|
  {
    if n == 0 then 0 else Weights(ts, holds, n - 1) + if holds(ts[n - 1].condition) then ts[n - 1].weight else 0
  }

  lemma {:induction false} MassOfWeights(ts: seq<Transition>, holds: string -> bool, n: nat)
    requires n <= |ts| && forall i: nat :: IsCandidate(ts, holds, i) ==> ts[i].weight > 0
    ensures Mass(ts, holds, n) == Weights(ts, holds, n) as real
  {
    if n == 0 {
    } else {
      MassOfWeights(ts, holds, n - 1);
      assert holds(ts[n - 1].condition) ==> IsCandidate(ts, holds, n - 1);
    }
  }

  /** When every candidate has a weight, the roll is measured against running totals of whole weights. */
  lemma WeightsDecide(ts: seq<Transition>, holds: string -> bool, roll: real, i: nat)
    requires 0.0 <= roll < 1.0 && IsCandidate(ts, holds, i)
    requires forall k: nat :: IsCandidate(ts, holds, k) ==> ts[k].weight > 0
    ensures var point := Scaled(roll, Weights(ts, holds, |ts|) as real);
      Selected(ts, holds, roll) == Some(i) <==>
        Weights(ts, holds, i) as real <= point < (Weights(ts, holds, i) + ts[i].weight) as real
  {
    MassOfWeights(ts, holds, i);
    MassOfWeights(ts, holds, i + 1);
    MassOfWeights(ts, holds, |ts|);
    SelectedExactlyWhenOwned(ts, holds, roll, i);
    assert Point(ts, holds, roll) == Scaled(roll, Weights(ts, holds, |ts|) as real);
  }

  /** Of two transitions with weights v and w the first is taken for rolls below v / (v + w), else the second. */
  lemma TwoWeights(a: Transition, b: Transition, holds: string -> bool, roll: real)
    requires 0.0 <= roll < 1.0 && a.weight > 0 && b.weight > 0 && holds(a.condition) && holds(b.condition)
    ensures var first := roll * (a.weight + b.weight) as real < a.weight as real;
      Selected([a, b], holds, roll) == Some(if first then 0 else 1)
  {
    var ts := [a, b];
    assert IsCandidate(ts, holds, 0) && IsCandidate(ts, holds, 1);
    assert Weights(ts, holds, 1) == a.weight && Weights(ts, holds, 2) == a.weight + b.weight;
    WeightsDecide(ts, holds, roll, 0);
    WeightsDecide(ts, holds, roll, 1);
    PointInside(roll, (a.weight + b.weight) as real);
  }

  lemma PointInside(roll: real, whole: real)
    requires 0.0 <= roll < 1.0 && whole > 0.0
    ensures 0.0 <= roll * whole < whole
  {
  }

  // --- the selection itself

  /** The positions collected so far, in order, are exactly the candidates among the first n. */
  ghost predicate Collected(ts: seq<Transition>, holds: string -> bool, cs: seq<nat>, n: nat) {
    && n <= |ts|
    && (forall k :: 0 <= k < |cs| ==> cs[k] < n && IsCandidate(ts, holds, cs[k]))
    && (forall k, l :: 0 <= k < l < |cs| ==> cs[k] < cs[l])
    && forall i: nat :: i < n && IsCandidate(ts, holds, i) ==> i in cs
  }

  /** Nothing is weighed between two consecutive candidates, before the first or after the last. */
  lemma {:induction false} GapWeighsNothing(ts: seq<Transition>, holds: string -> bool, i: nat, j: nat)
    requires i <= j <= |ts| && forall k: nat :: i <= k < j ==> !IsCandidate(ts, holds, k)
    ensures Mass(ts, holds, i) == Mass(ts, holds, j)
  {
    if i == j {
    } else {
      GapWeighsNothing(ts, holds, i, j - 1);
      assert !IsCandidate(ts, holds, j - 1);
    }
  }

  /** Weight before the k-th candidate is weight up to and including the one before it. */
  lemma MassBeforeCandidate(ts: seq<Transition>, holds: string -> bool, cs: seq<nat>, k: nat)
    requires Collected(ts, holds, cs, |ts|) && k <= |cs|
    ensures Mass(ts, holds, if k < |cs| then cs[k] else |ts|) == if k == 0 then 0.0 else Mass(ts, holds, cs[k - 1] + 1)
  {
    var from := if k == 0 then 0 else cs[k - 1] + 1;
    var to := if k < |cs| then cs[k] else |ts|;
    forall l | 0 <= l < |cs|
      ensures cs[l] < from || to <= cs[l]
    {
      if l < k { assert l == k - 1 || cs[l] < cs[k - 1]; } else { assert l == k || cs[k] < cs[l]; }
    }
    forall i: nat | from <= i < to
      ensures !IsCandidate(ts, holds, i)
    {
      assert i !in cs;
    }
    GapWeighsNothing(ts, holds, from, to);
  }

  /** Collects the candidates, then walks their cumulative weights; the last-candidate fallback after the walk
      is never taken in exact arithmetic. */
  method SelectNextTransition(ts: seq<Transition>, holds: string -> bool, roll: real) returns (r: Option<nat>)
    requires 0.0 <= roll < 1.0
    ensures r == Selected(ts, holds, roll)
  {
    if |ts| == 0 {
      return None;
    }
    var candidates: seq<nat> := [];
    var totalWeight := 0.0;
    for i := 0 to |ts|
      invariant Collected(ts, holds, candidates, i)
      invariant totalWeight == Mass(ts, holds, i)
    {
      if holds(ts[i].condition) {
        assert IsCandidate(ts, holds, i);
        candidates := candidates + [i];
        totalWeight := totalWeight + Weight(ts[i]);
      }
    }
    if |candidates| == 0 {
      return None;
    }
    assert IsCandidate(ts, holds, candidates[0]);
    PointInRange(ts, holds, roll);
    if |candidates| == 1 || totalWeight <= 0.0 {
      MassBeforeCandidate(ts, holds, candidates, 0);
      MassBeforeCandidate(ts, holds, candidates, 1);
      OwnerIsSelected(ts, holds, roll, candidates[0]);
      return Some(candidates[0]);
    }
    r := WalkWeights(ts, holds, roll, candidates, totalWeight);
  }

  /** Only one candidate owns the point, so it is the selected one. */
  lemma OwnerIsSelected(ts: seq<Transition>, holds: string -> bool, roll: real, i: nat)
    requires 0.0 <= roll < 1.0 && Owns(ts, holds, i, Point(ts, holds, roll))
    ensures Selected(ts, holds, roll) == Some(i)
  {
    assert IsCandidate(ts, holds, i);
    OwnersDisjoint(ts, holds, i, Selected(ts, holds, roll).value, Point(ts, holds, roll));
  }

  method WalkWeights(ts: seq<Transition>, ghost holds: string -> bool, roll: real, candidates: seq<nat>,
                     totalWeight: real)
    returns (r: Option<nat>)
    requires 0.0 <= roll < 1.0 && candidates != [] && Collected(ts, holds, candidates, |ts|)
    requires totalWeight == Whole(ts, holds)
    ensures r == Selected(ts, holds, roll)
  {
    assert IsCandidate(ts, holds, candidates[0]);
    PointInRange(ts, holds, roll);
    var point := Scaled(roll, totalWeight);
    var cumulative := 0.0;
    for k := 0 to |candidates|
      invariant cumulative == if k == 0 then 0.0 else Mass(ts, holds, candidates[k - 1] + 1)
      invariant cumulative <= point
    {
      var c := candidates[k];
      MassBeforeCandidate(ts, holds, candidates, k);
      assert IsCandidate(ts, holds, c);
      cumulative := cumulative + Weight(ts[c]);
      if point < cumulative {
        OwnerIsSelected(ts, holds, roll, c);
        return Some(c);
      }
    }
    MassBeforeCandidate(ts, holds, candidates, |candidates|);
    assert false;
  }
}
