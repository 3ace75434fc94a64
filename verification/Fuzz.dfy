/** The malformed-payload smoke test derived from a scenario (pkg/generator/fuzz.go). */
module Fuzz {
  import opened Options
  import opened Text
  import opened Sorting
  import opened Transitions
  import opened Scenarios
  import Engine

  datatype Variant = Variant(name: string, body: string)

  /** The mutated bodies of a JSON object, empty where a mutation was not possible. */
  datatype Mutations = Mutations(missingField: string, typeMismatch: string, oversized: string, controlChars: string)

  /** Decodes a payload and mutates it; nothing for anything but a non-empty JSON object. */
  type Mutator = string -> Option<Mutations>

  datatype Built = Built(scenario: Scenario) | NothingToFuzz | FailedValidation(problem: Problem)

  function Named(name: string, body: string): seq<Variant> {
    if body != "" then [Variant(name, body)] else []
  }

  function FuzzVariants(mutate: Mutator, payload: string): seq<Variant> {
    match mutate(payload)
    case None => []
    case Some(m) =>
      Named("missing_field", m.missingField) + Named("type_mismatch", m.typeMismatch)
      + Named("oversized_string", m.oversized) + Named("unicode_control_chars", m.controlChars)
      + [Variant("empty_object", "{}")]
  }

  predicate IsVariantName(name: string) {
    name in ["missing_field", "type_mismatch", "oversized_string", "unicode_control_chars", "empty_object"]
  }

  function FuzzId(stepId: string, name: string): string {
    "fuzz_" + stepId + "_" + name
  }

  /** Different variants, or variants of different steps, get different ids: the five names end in five
      different letters, so an id can be taken apart again. */
  lemma FuzzIdInjective(a: string, m: string, b: string, n: string)
    requires IsVariantName(m) && IsVariantName(n)
    ensures FuzzId(a, m) == FuzzId(b, n) <==> a == b && m == n
  {
    var x, y := FuzzId(a, m), FuzzId(b, n);
    assert x[|x| - 1] == m[|m| - 1] && y[|y| - 1] == n[|n| - 1];
    assert x[5..5 + |a|] == a && y[5..5 + |b|] == b;
  }

  lemma FuzzIdShape(a: string, m: string)
    requires IsVariantName(m)
    ensures Trimmed(FuzzId(a, m)) && FuzzId(a, m) != "" && !IsEnd(FuzzId(a, m))
  {
  }

  // --- what is built

  predicate Fuzzable(s: Step) {
    s.request.body != "" && s.request.verb in ["POST", "PUT", "PATCH"]
  }

  /** The variants of the given steps, in order. */
  function Entries(base: Scenario, mutate: Mutator, ids: seq<string>): seq<(string, Variant)>
    requires forall id :: id in ids ==> id in base.steps
  {
    if ids == [] then [] else
      var front, id := ids[..|ids| - 1], ids[|ids| - 1];
      Entries(base, mutate, front) + EntriesOf(id, base.steps[id], mutate)
  }

  function EntriesOf(id: string, s: Step, mutate: Mutator): seq<(string, Variant)> {
    if Fuzzable(s) then Tagged(id, FuzzVariants(mutate, s.request.body)) else []
  }

  function Tagged(id: string, variants: seq<Variant>): seq<(string, Variant)> {
    seq(|variants|, i requires 0 <= i < |variants| => (id, variants[i]))
  }

  function IdOf(entry: (string, Variant)): string {
    FuzzId(entry.0, entry.1.name)
  }

  function Ids(entries: seq<(string, Variant)>): seq<string> {
    seq(|entries|, i requires 0 <= i < |entries| => IdOf(entries[i]))
  }

  function FuzzStep(base: Scenario, entry: (string, Variant)): Step
    requires entry.0 in base.steps
  {
    var s := base.steps[entry.0];
    Step(IdOf(entry), "Fuzz: " + s.name + " (" + entry.1.name + ")",
         Request(s.request.verb, s.request.path, entry.1.body), [], FailurePolicy(ABORT, 0, ""))
  }

  /** The step of each entry, leading nowhere yet. */
  function Bare(base: Scenario, entries: seq<(string, Variant)>): seq<Step>
    requires forall i :: 0 <= i < |entries| ==> entries[i].0 in base.steps
  {
    seq(|entries|, i requires 0 <= i < |entries| => FuzzStep(base, entries[i]))
  }

  function Link(order: seq<string>, i: nat): seq<Transition>
    requires i < |order|
  {
    [Transition(if i + 1 < |order| then order[i + 1] else "END", 1.0, 0, "")]
  }

  /** Each step leads to the next and the last to the end. */
  ghost predicate IsLinked(order: seq<string>, sc: Scenario) {
    && order != [] && NoDuplicates(order) && sc.initial == order[0]
    && (forall key :: key in sc.steps <==> key in order)
    && (forall i :: 0 <= i < |order| ==>
          && order[i] in sc.steps
          && sc.steps[order[i]].id == order[i]
          && sc.steps[order[i]].onFailure == FailurePolicy(ABORT, 0, ""))
    && forall i {:trigger Link(order, i)} :: 0 <= i < |order| ==> sc.steps[order[i]].transitions == Link(order, i)
  }

  /** One linked step per entry, sending that entry's body. */
  ghost predicate IsChain(base: Scenario, entries: seq<(string, Variant)>, sc: Scenario) {
    && sc.id == base.id + "_fuzz_smoke"
    && IsLinked(Ids(entries), sc)
    && (forall i :: 0 <= i < |entries| ==> entries[i].0 in base.steps && IsVariantName(entries[i].1.name))
    && forall i {:trigger Link(Ids(entries), i)} :: 0 <= i < |entries| ==>
         && IdOf(entries[i]) in sc.steps
         && sc.steps[IdOf(entries[i])] == FuzzStep(base, entries[i]).(transitions := Link(Ids(entries), i))
  }

  /** A step with a mutable payload always gives at least the empty object. */
  predicate Yields(s: Step, mutate: Mutator) {
    Fuzzable(s) && mutate(s.request.body).Some?
  }

  lemma {:induction false} SomeEntry(base: Scenario, mutate: Mutator, ids: seq<string>)
    requires forall id :: id in ids ==> id in base.steps
    ensures Entries(base, mutate, ids) != [] <==> exists id :: id in ids && Yields(base.steps[id], mutate)
  {
    if ids == [] {
    } else {
      var front, id := ids[..|ids| - 1], ids[|ids| - 1];
      assert ids == front + [id];
      SomeEntry(base, mutate, front);
      assert EntriesOf(id, base.steps[id], mutate) != [] <==> Yields(base.steps[id], mutate);
    }
  }

  lemma VariantNames(mutate: Mutator, payload: string)
    ensures var vs := FuzzVariants(mutate, payload);
      && (forall i :: 0 <= i < |vs| ==> IsVariantName(vs[i].name))
      && forall i, j :: 0 <= i < j < |vs| ==> vs[i].name != vs[j].name
  {
  }

  lemma {:induction false} EntriesDistinct(base: Scenario, mutate: Mutator, ids: seq<string>)
    requires NoDuplicates(ids) && forall id :: id in ids ==> id in base.steps
    ensures var es := Entries(base, mutate, ids);
      && (forall i :: 0 <= i < |es| ==> es[i].0 in ids && IsVariantName(es[i].1.name))
      && NoDuplicates(Ids(es))
  {
    if ids == [] {
    } else {
      var front, id := ids[..|ids| - 1], ids[|ids| - 1];
      EntriesDistinct(base, mutate, front);
      var before, now := Entries(base, mutate, front), EntriesOf(id, base.steps[id], mutate);
      VariantNames(mutate, base.steps[id].request.body);
      assert id !in front;
      DistinctTogether(before, now);
    }
  }

  /** Entries of other steps, followed by different variants of one, have different ids. */
  lemma DistinctTogether(before: seq<(string, Variant)>, now: seq<(string, Variant)>)
    requires NoDuplicates(Ids(before))
    requires forall e :: e in before + now ==> IsVariantName(e.1.name)
    requires forall i, j :: 0 <= i < |before| && 0 <= j < |now| ==> before[i].0 != now[j].0
    requires forall i, j :: 0 <= i < j < |now| ==> now[i].1.name != now[j].1.name
    ensures NoDuplicates(Ids(before + now))
  {
    forall i, j | 0 <= i < j < |before + now|
      ensures Ids(before + now)[i] != Ids(before + now)[j]
    {
      var x, y := (before + now)[i], (before + now)[j];
      assert x in before + now && y in before + now;
      FuzzIdInjective(x.0, x.1.name, y.0, y.1.name);
      assert j < |before| ==> Ids(before)[i] == IdOf(x) && Ids(before)[j] == IdOf(y);
    }
  }

  // --- the construction

  method BuildFuzzScenario(base: Scenario, mutate: Mutator) returns (r: Built, ghost entries: seq<(string, Variant)>)
    ensures AreEntries(base, mutate, entries)
    ensures r.Built? ==> IsChain(base, entries, r.scenario)
    ensures r.Built? <==> exists id :: id in base.steps && Yields(base.steps[id], mutate)
    ensures r.Built? ==> WellFormed(r.scenario)
    ensures !r.FailedValidation?
  {
    var ids := SortedIds(base.steps.Keys);
    EntriesDistinct(base, mutate, ids);
    SomeEntry(base, mutate, ids);
    var list := CollectEntries(base, mutate, ids);
    entries := list;
    assert AreEntries(base, mutate, entries);
    if |list| == 0 {
      return NothingToFuzz, entries;
    }
    var sc := Assemble(base, list);
    ChainIsWellFormed(base, list, sc);
    var checked := ValidateScenario(sc);
    return Built(checked.scenario), entries;
  }

  /** The variants of every step, steps taken in the order of their ids. */
  ghost predicate AreEntries(base: Scenario, mutate: Mutator, entries: seq<(string, Variant)>) {
    exists ids | Enumerates(ids, base.steps.Keys) && SortedBy(LexLeq, ids) :: entries == Entries(base, mutate, ids)
  }

  method Assemble(base: Scenario, list: seq<(string, Variant)>) returns (sc: Scenario)
    requires list != [] && NoDuplicates(Ids(list))
    requires forall i :: 0 <= i < |list| ==> list[i].0 in base.steps && IsVariantName(list[i].1.name)
    ensures IsChain(base, list, sc)
  {
    var order, made := MakeSteps(base, list);
    var steps := LinkSteps(order, made, Bare(base, list));
    sc := Scenario(base.id + "_fuzz_smoke", base.name + " — Resilience Fuzz Smoke Test", order[0], steps);
    StepsAreLinked(base, list, sc);
    forall i | 0 <= i < |list|
      ensures IdOf(list[i]) in steps
      ensures steps[IdOf(list[i])] == FuzzStep(base, list[i]).(transitions := Link(order, i))
    {
      LinkedAt(base, list, i);
      assert order[i] == IdOf(list[i]);
    }
  }

  lemma LinkedAt(base: Scenario, list: seq<(string, Variant)>, i: nat)
    requires i < |list| && forall i :: 0 <= i < |list| ==> list[i].0 in base.steps
    ensures var s := Linked(Bare(base, list), Ids(list), |list|)[i];
      s == FuzzStep(base, list[i]).(transitions := Link(Ids(list), i))
      && s.id == Ids(list)[i] && s.transitions == Link(Ids(list), i) && s.onFailure == FailurePolicy(ABORT, 0, "")
  {
  }

  lemma StepsAreLinked(base: Scenario, list: seq<(string, Variant)>, sc: Scenario)
    requires list != [] && NoDuplicates(Ids(list)) && forall i :: 0 <= i < |list| ==> list[i].0 in base.steps
    requires sc.initial == Ids(list)[0]
    requires Holds(sc.steps, Ids(list), Linked(Bare(base, list), Ids(list), |list|))
    ensures IsLinked(Ids(list), sc)
  {
    var order := Ids(list);
    forall i | 0 <= i < |order|
      ensures order[i] in sc.steps && sc.steps[order[i]].id == order[i]
      ensures sc.steps[order[i]].transitions == Link(order, i)
      ensures sc.steps[order[i]].onFailure == FailurePolicy(ABORT, 0, "")
    {
      LinkedAt(base, list, i);
    }
  }

  method CollectEntries(base: Scenario, mutate: Mutator, ids: seq<string>) returns (list: seq<(string, Variant)>)
    requires forall id :: id in ids ==> id in base.steps
    ensures list == Entries(base, mutate, ids)
  {
    list := [];
    for k := 0 to |ids|
      invariant list == Entries(base, mutate, ids[..k])
    {
      var s := base.steps[ids[k]];
      assert ids[..k + 1][..k] == ids[..k];
      if s.request.body == "" || s.request.verb !in ["POST", "PUT", "PATCH"] {
        continue;
      }
      list := list + Tagged(ids[k], FuzzVariants(mutate, s.request.body));
    }
    assert ids[..|ids|] == ids;
  }

  /** The map holds the given values under the given keys, and nothing else. */
  ghost predicate Holds<K(!new), V(!new)>(m: map<K, V>, keys: seq<K>, values: seq<V>) {
    && |values| == |keys| && (forall key :: key in m <==> key in keys)
    && forall i :: 0 <= i < |keys| ==> keys[i] in m && m[keys[i]] == values[i]
  }

  lemma HoldsUpdated<K(!new), V(!new)>(m: map<K, V>, keys: seq<K>, values: seq<V>, k: nat, v: V)
    requires NoDuplicates(keys) && Holds(m, keys, values) && k < |keys|
    ensures Holds(m[keys[k] := v], keys, values[k := v])
  {
  }

  lemma HoldsOneMore<K(!new), V(!new)>(m: map<K, V>, keys: seq<K>, values: seq<V>, key: K, v: V)
    requires Holds(m, keys, values) && key !in keys
    ensures Holds(m[key := v], keys + [key], values + [v])
  {
  }

  /** The steps when the first k of them have been linked. */
  function Linked(bare: seq<Step>, order: seq<string>, k: nat): seq<Step>
    requires |bare| == |order|
  {
    seq(|bare|, i requires 0 <= i < |bare| => if i < k then bare[i].(transitions := Link(order, i)) else bare[i])
  }

  method MakeSteps(base: Scenario, list: seq<(string, Variant)>) returns (order: seq<string>, steps: map<string, Step>)
    requires forall i :: 0 <= i < |list| ==> list[i].0 in base.steps
    requires NoDuplicates(Ids(list))
    ensures order == Ids(list) && Holds(steps, order, Bare(base, list))
  {
    order, steps := [], map[];
    for k := 0 to |list|
      invariant order == Ids(list)[..k]
      invariant Holds(steps, order, Bare(base, list)[..k])
    {
      var fuzzID := IdOf(list[k]);
      assert Ids(list)[k] == fuzzID && Ids(list)[..k + 1] == order + [fuzzID];
      assert Bare(base, list)[..k + 1] == Bare(base, list)[..k] + [FuzzStep(base, list[k])];
      HoldsOneMore(steps, order, Bare(base, list)[..k], fuzzID, FuzzStep(base, list[k]));
      steps := steps[fuzzID := FuzzStep(base, list[k])];
      order := order + [fuzzID];
    }
  }

  method LinkSteps(order: seq<string>, made: map<string, Step>, ghost bare: seq<Step>)
      returns (steps: map<string, Step>)
    requires NoDuplicates(order) && Holds(made, order, bare)
    ensures Holds(steps, order, Linked(bare, order, |order|))
  {
    steps := made;
    assert Linked(bare, order, 0) == bare;
    for k := 0 to |order|
      invariant Holds(steps, order, Linked(bare, order, k))
    {
      var id := order[k];
      var target := if k + 1 < |order| then order[k + 1] else "END";
      var step := steps[id].(transitions := [Transition(target, 1.0, 0, "")]);
      HoldsUpdated(steps, order, Linked(bare, order, k), k, step);
      assert Linked(bare, order, k)[k := step] == Linked(bare, order, k + 1);
      steps := steps[id := step];
    }
  }

  // --- what is sent

  /** The five ways a payload is spoiled, each left out where it was not possible. */
  ghost predicate Spoils(mutate: Mutator, payload: string, name: string, body: string) {
    mutate(payload).Some? && body != "" &&
    var m := mutate(payload).value;
    || (name == "missing_field" && body == m.missingField)
    || (name == "type_mismatch" && body == m.typeMismatch)
    || (name == "oversized_string" && body == m.oversized)
    || (name == "unicode_control_chars" && body == m.controlChars)
    || (name == "empty_object" && body == "{}")
  }

  /** A step with a payload to spoil, and one way to do it. */
  ghost predicate IsCase(base: Scenario, mutate: Mutator, id: string, name: string, body: string) {
    && id in base.steps && base.steps[id].request.body != ""
    && base.steps[id].request.verb in ["POST", "PUT", "PATCH"]
    && Spoils(mutate, base.steps[id].request.body, name, body)
  }

  lemma VariantsSpoil(mutate: Mutator, payload: string, v: Variant)
    ensures v in FuzzVariants(mutate, payload) <==> Spoils(mutate, payload, v.name, v.body)
  {
    if mutate(payload).Some? {
      var m := mutate(payload).value;
      var a, b := Named("missing_field", m.missingField), Named("type_mismatch", m.typeMismatch);
      var c, d := Named("oversized_string", m.oversized), Named("unicode_control_chars", m.controlChars);
      assert FuzzVariants(mutate, payload) == a + b + c + d + [Variant("empty_object", "{}")];
      NamedIs("missing_field", m.missingField, v);
      NamedIs("type_mismatch", m.typeMismatch, v);
      NamedIs("oversized_string", m.oversized, v);
      NamedIs("unicode_control_chars", m.controlChars, v);
    }
  }

  lemma NamedIs(name: string, body: string, v: Variant)
    ensures v in Named(name, body) <==> v.name == name && v.body == body != ""
  {
  }

  lemma {:induction false} EntriesAreCases(base: Scenario, mutate: Mutator, ids: seq<string>, id: string, v: Variant)
    requires forall k :: k in ids ==> k in base.steps
    ensures (id, v) in Entries(base, mutate, ids) <==> id in ids && IsCase(base, mutate, id, v.name, v.body)
  {
    if ids == [] {
    } else {
      var front, last := ids[..|ids| - 1], ids[|ids| - 1];
      assert ids == front + [last];
      EntriesAreCases(base, mutate, front, id, v);
      TaggedAre(last, base.steps[last], mutate, id, v);
      if id == last { VariantsSpoil(mutate, base.steps[last].request.body, v); }
    }
  }

  lemma TaggedAre(last: string, s: Step, mutate: Mutator, id: string, v: Variant)
    ensures (id, v) in EntriesOf(last, s, mutate) <==>
      id == last && Fuzzable(s) && v in FuzzVariants(mutate, s.request.body)
  {
    var vs := FuzzVariants(mutate, s.request.body);
    if v in vs {
      var i :| 0 <= i < |vs| && vs[i] == v;
      assert Tagged(id, vs)[i] == (id, v);
    }
  }

  /** The request one case sends. */
  ghost predicate Sends(base: Scenario, sc: Scenario, id: string, name: string, body: string) {
    var key := "fuzz_" + id + "_" + name;
    id in base.steps && key in sc.steps &&
    var s, fuzzed := base.steps[id], sc.steps[key];
    && fuzzed.id == key && fuzzed.name == "Fuzz: " + s.name + " (" + name + ")"
    && fuzzed.request == Request(s.request.verb, s.request.path, body)
    && fuzzed.onFailure == FailurePolicy("abort", 0, "")
  }

  /** The smoke test has exactly one step for each case, under the case's own id, sending the spoiled body to where
      the original step sends its own. */
  lemma OneStepPerCase(base: Scenario, mutate: Mutator, entries: seq<(string, Variant)>, sc: Scenario)
    requires AreEntries(base, mutate, entries) && IsChain(base, entries, sc)
    ensures forall id, name, body :: IsCase(base, mutate, id, name, body) ==> Sends(base, sc, id, name, body)
    ensures forall key :: key in sc.steps ==>
      exists id, name, body :: IsCase(base, mutate, id, name, body) && key == "fuzz_" + id + "_" + name
  {
    var ids :| Enumerates(ids, base.steps.Keys) && entries == Entries(base, mutate, ids);
    forall id, name, body | IsCase(base, mutate, id, name, body)
      ensures Sends(base, sc, id, name, body)
    {
      EntriesAreCases(base, mutate, ids, id, Variant(name, body));
      CaseIsSent(base, entries, sc, id, name, body);
    }
    forall key | key in sc.steps
      ensures exists id, name, body :: IsCase(base, mutate, id, name, body) && key == "fuzz_" + id + "_" + name
    {
      var i :| 0 <= i < |entries| && Ids(entries)[i] == key;
      var (id, v) := entries[i];
      assert (id, v) in entries;
      EntriesAreCases(base, mutate, ids, id, v);
      assert IsCase(base, mutate, id, v.name, v.body) && key == "fuzz_" + id + "_" + v.name;
    }
  }

  lemma CaseIsSent(base: Scenario, entries: seq<(string, Variant)>, sc: Scenario, id: string, name: string,
                   body: string)
    requires IsChain(base, entries, sc) && (id, Variant(name, body)) in entries
    ensures Sends(base, sc, id, name, body)
  {
    var i :| 0 <= i < |entries| && entries[i] == (id, Variant(name, body));
    assert |Link(Ids(entries), i)| == 1;
    assert IdOf(entries[i]) == "fuzz_" + id + "_" + name;
  }

  // --- what the result is good for

  ghost predicate ProperIds(order: seq<string>) {
    forall i :: 0 <= i < |order| ==> Trimmed(order[i]) && order[i] != "" && !IsEnd(order[i])
  }

  lemma FuzzIdsAreProper(entries: seq<(string, Variant)>)
    requires forall i :: 0 <= i < |entries| ==> IsVariantName(entries[i].1.name)
    ensures ProperIds(Ids(entries))
  {
    forall i | 0 <= i < |entries|
      ensures Trimmed(Ids(entries)[i]) && Ids(entries)[i] != "" && !IsEnd(Ids(entries)[i])
    {
      FuzzIdShape(entries[i].0, entries[i].1.name);
    }
  }

  /** The generated scenario always passes validation, unchanged. */
  lemma ChainIsWellFormed(base: Scenario, entries: seq<(string, Variant)>, sc: Scenario)
    requires IsChain(base, entries, sc)
    ensures WellFormed(sc) && TargetsTrimmed(sc) && WithIds(sc) == sc
  {
    FuzzIdsAreProper(entries);
    SmokeIdIsNotBlank(base.id);
    LinkedIsWellFormed(Ids(entries), sc);
    IdsAlreadySet(sc);
  }

  lemma SmokeIdIsNotBlank(id: string)
    ensures TrimSpace(id + "_fuzz_smoke") != ""
  {
    var s := id + "_fuzz_smoke";
    assert s[|id|] == '_';
    TrimKeeps(s, '_');
  }

  lemma LinkedIsWellFormed(order: seq<string>, sc: Scenario)
    requires IsLinked(order, sc) && ProperIds(order) && TrimSpace(sc.id) != ""
    ensures WellFormed(sc) && TargetsTrimmed(sc)
    ensures forall key :: key in sc.steps ==> sc.steps[key].id == key != ""
  {
    var first := sc.initial;
    assert first == order[0];
    TrimmedIsFixed(first);
    forall key | key in sc.steps
      ensures LinkedStepOk(sc, key)
    {
      LinkedStepIsOk(order, sc, key);
    }
    StepsMakeWellFormed(sc);
  }

  lemma LinkedStepIsOk(order: seq<string>, sc: Scenario, key: string)
    requires IsLinked(order, sc) && ProperIds(order) && key in sc.steps
    ensures LinkedStepOk(sc, key)
  {
    var i :| 0 <= i < |order| && order[i] == key;
    LinkIsOk(sc, order, i);
    OnlyTransition(sc.steps.Keys, sc.steps[key], Link(order, i)[0]);
  }

  lemma OnlyTransition(keys: set<string>, s: Step, t: Transition)
    requires s.transitions == [t] && TransitionOk(keys, t) && Trimmed(t.target)
    requires s.onFailure == FailurePolicy(ABORT, 0, "")
    ensures StepOk(keys, s) && forall k :: 0 <= k < |s.transitions| ==> Trimmed(s.transitions[k].target)
  {
  }

  lemma StepsMakeWellFormed(sc: Scenario)
    requires TrimSpace(sc.id) != "" && TrimSpace(sc.initial) != "" && sc.initial in sc.steps
    requires forall key :: key in sc.steps ==> LinkedStepOk(sc, key)
    ensures WellFormed(sc) && TargetsTrimmed(sc)
    ensures forall key :: key in sc.steps ==> sc.steps[key].id == key != ""
  {
  }

  lemma IdsAlreadySet(sc: Scenario)
    requires forall key :: key in sc.steps ==> sc.steps[key].id == key != ""
    ensures WithIds(sc) == sc
  {
  }

  ghost predicate LinkedStepOk(sc: Scenario, key: string)
    requires key in sc.steps
  {
    && StepOk(sc.steps.Keys, sc.steps[key]) && sc.steps[key].id == key != ""
    && forall k :: 0 <= k < |sc.steps[key].transitions| ==> Trimmed(sc.steps[key].transitions[k].target)
  }

  lemma LinkIsOk(sc: Scenario, order: seq<string>, i: nat)
    requires i < |order| && ProperIds(order)
    requires forall k :: 0 <= k < |order| ==> order[k] in sc.steps
    ensures var t := Link(order, i)[0]; TransitionOk(sc.steps.Keys, t) && Trimmed(t.target)
  {
  }

  /** A session in which nothing is cancelled and every attempt succeeds. */
  ghost predicate AllSucceed(w: Engine.World) {
    w.Valid() && (forall n, key :: w.attempt(n, key).Ok()) && forall n :: !w.cancelled(n)
  }

  function Keys(history: seq<Engine.Visit>): seq<string> {
    seq(|history|, i requires 0 <= i < |history| => history[i].key)
  }

  /** No id is taken for the end of the session. */
  ghost predicate NeverEnds(order: seq<string>) {
    forall i :: 0 <= i < |order| ==> order[i] != "" && !IsEnd(order[i])
  }

  ghost function Along(order: seq<string>, i: nat): Engine.Onward
    requires i < |order|
  {
    if i + 1 < |order| then Engine.Goto(order[i + 1], order[i + 1]) else Engine.Stop(Engine.CleanEnd)
  }

  /** A success at any position leads to the next one. */
  ghost predicate Follows(w: Engine.World, sc: Scenario, order: seq<string>)
    requires w.Valid()
  {
    forall i, a: Engine.Attempt :: 0 <= i < |order| && a.Ok() ==>
      order[i] in sc.steps && Engine.After(w, order[i], sc.steps[order[i]], a, i) == Along(order, i)
  }

  lemma OneLink(w: Engine.World, order: seq<string>, sc: Scenario, i: nat, a: Engine.Attempt)
    requires IsLinked(order, sc) && NeverEnds(order) && i < |order| && AllSucceed(w) && a.Ok()
    ensures Engine.After(w, order[i], sc.steps[order[i]], a, i) == Along(order, i)
  {
    var s := sc.steps[order[i]];
    assert s.transitions == Link(order, i);
    OnlyChoice(w, s, i);
  }

  lemma OnlyChoice(w: Engine.World, s: Step, count: nat)
    requires AllSucceed(w) && |s.transitions| == 1 && s.transitions[0].condition == ""
    ensures Engine.Chosen(w, s, count) == Some(0)
  {
    assert IsCandidate(s.transitions, Engine.Conditions(w, count), 0);
  }

  lemma ChainLink(w: Engine.World, order: seq<string>, sc: Scenario, i: nat, clock: nat, maxSteps: nat)
    requires AllSucceed(w) && Follows(w, sc, order) && i < |order| && i < maxSteps
    ensures var a := w.attempt(clock + 1, order[i]);
      Engine.Walk(w, sc, order[i], i, clock, maxSteps) ==
        if i + 1 < |order| then
          Engine.Joined([Engine.Visit(order[i], a, order[i + 1])],
                        Engine.Walk(w, sc, order[i + 1], i + 1, clock + 2, maxSteps))
        else Engine.Session([Engine.Visit(order[i], a, "")], Engine.CleanEnd)
  {
    var a := w.attempt(clock + 1, order[i]);
    assert Engine.After(w, order[i], sc.steps[order[i]], a, i) == Along(order, i);
    Engine.SuccessfulStep(w, sc, order[i], i, clock, maxSteps);
  }

  lemma {:induction false} ChainFrom(w: Engine.World, order: seq<string>, sc: Scenario, i: nat, clock: nat,
                                     maxSteps: nat)
    requires AllSucceed(w) && Follows(w, sc, order) && i < |order| && i <= maxSteps
    ensures var s := Engine.Walk(w, sc, order[i], i, clock, maxSteps);
      if |order| <= maxSteps then Keys(s.history) == order[i..] && s.ending == Engine.CleanEnd
      else Keys(s.history) == order[i..maxSteps] && s.ending == Engine.TooManySteps
    decreases |order| - i
  {
    if i == maxSteps {
    } else {
      ChainLink(w, order, sc, i, clock, maxSteps);
      if i + 1 < |order| {
        ChainFrom(w, order, sc, i + 1, clock + 2, maxSteps);
        OneMoreKey(Engine.Visit(order[i], w.attempt(clock + 1, order[i]), order[i + 1]),
                   Engine.Walk(w, sc, order[i + 1], i + 1, clock + 2, maxSteps));
      }
    }
  }

  lemma OneMoreKey(v: Engine.Visit, rest: Engine.Session)
    ensures Keys(Engine.Joined([v], rest).history) == [v.key] + Keys(rest.history)
  {
  }

  /** A session in which everything succeeds visits every variant exactly once, in order, and ends cleanly,
      exactly when the step limit allows it; otherwise it is cut off at the limit. */
  lemma SuccessfulSessionVisitsAll(w: Engine.World, base: Scenario, entries: seq<(string, Variant)>, sc: Scenario,
                                   maxSteps: nat)
    requires IsChain(base, entries, sc) && AllSucceed(w)
    ensures var s, order := Engine.Walk(w, sc, sc.initial, 0, 0, maxSteps), Ids(entries);
      && NoDuplicates(order)
      && (s.ending == Engine.CleanEnd <==> |order| <= maxSteps)
      && Keys(s.history) == if |order| <= maxSteps then order else order[..maxSteps]
  {
    FuzzIdsAreProper(entries);
    LinkedSession(w, Ids(entries), sc, maxSteps);
  }

  lemma LinkedSession(w: Engine.World, order: seq<string>, sc: Scenario, maxSteps: nat)
    requires IsLinked(order, sc) && NeverEnds(order) && AllSucceed(w)
    ensures var s := Engine.Walk(w, sc, order[0], 0, 0, maxSteps);
      && (s.ending == Engine.CleanEnd <==> |order| <= maxSteps)
      && Keys(s.history) == if |order| <= maxSteps then order else order[..maxSteps]
  {
    forall i, a: Engine.Attempt | 0 <= i < |order| && a.Ok()
      ensures Engine.After(w, order[i], sc.steps[order[i]], a, i) == Along(order, i)
    {
      OneLink(w, order, sc, i, a);
    }
    ChainFrom(w, order, sc, 0, 0, maxSteps);
    assert order[0..] == order;
  }
}
