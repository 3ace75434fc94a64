/** Mining endpoint-to-endpoint transitions from recorded spans (pkg/generator/otel_miner.go). */
module TraceMiner {
  import opened Sums
  import opened Sorting
  import opened Text
  import opened DependencyGraph
  import PageRank

  /** A recorded span whose route has been resolved; an empty route means none was found. */
  datatype Span = Span(traceId: string, verb: string, route: string, start: int)

  function EndpointKey(verb: string, route: string): string {
    var m := ToUpper(TrimSpace(verb));
    (if m == "" then "GET" else m) + " " + TrimSpace(route)
  }

  function Key(s: Span): string {
    EndpointKey(s.verb, s.route)
  }

  /** No endpoint can be confused with the terminal sink. */
  lemma KeyIsNotEnd(s: Span)
    ensures Key(s) != END
  {
    var m := ToUpper(TrimSpace(s.verb));
    var head := if m == "" then "GET" else m;
    assert Key(s)[|head|] == ' ';
    assert forall k :: 0 <= k < |END| ==> END[k] != ' ';
  }

  /** The text spells the given capitals, in any case. */
  ghost predicate Spells(s: string, capitals: string) {
    |s| == |capitals| && forall i :: 0 <= i < |s| ==>
      'A' <= capitals[i] <= 'Z' && (s[i] == capitals[i] || s[i] as int == capitals[i] as int + 32)
  }

  /** An endpoint is known by its verb in capitals, GET if there is none, and its route, however they were
      written. */
  lemma EndpointIsVerbAndRoute(s: Span, verb: string, route: string)
    requires TrimSpace(s.route) == route
    requires if TrimSpace(s.verb) == "" then verb == "GET" else Spells(TrimSpace(s.verb), verb)
    ensures Key(s) == verb + " " + route
  {
    assert ToUpper(TrimSpace(s.verb)) == if TrimSpace(s.verb) == "" then "" else verb;
  }

  predicate Kept(s: Span) {
    s.traceId != "" && s.route != ""
  }

  predicate Earlier(a: Span, b: Span) {
    a.start <= b.start
  }

  /** The kept spans of one trace, in the order they were recorded. */
  function Trace(spans: seq<Span>, id: string): seq<Span> {
    if spans == [] then [] else
      var front, s := spans[..|spans| - 1], spans[|spans| - 1];
      Trace(front, id) + (if Kept(s) && s.traceId == id then [s] else [])
  }

  // --- the reference meaning of a matrix: a flat log with one transition per kept span

  function Keys(journey: seq<Span>): seq<string> {
    seq(|journey|, i requires 0 <= i < |journey| => Key(journey[i]))
  }

  /** Each visited endpoint is followed by the next one, the last by END. */
  function Steps(path: seq<string>): seq<(string, string)> {
    seq(|path|, i requires 0 <= i < |path| => (path[i], if i + 1 < |path| then path[i + 1] else END))
  }

  function AllSteps(paths: seq<seq<string>>): seq<(string, string)> {
    if paths == [] then [] else
      AllSteps(paths[..|paths| - 1]) + Steps(paths[|paths| - 1])
  }

  ghost predicate InStartOrder(journey: seq<Span>) {
    forall i, j :: 0 <= i < j < |journey| ==> journey[i].start <= journey[j].start
  }

  /** The endpoints one trace visits, with its spans put in order of their start. */
  ghost predicate IsPath(spans: seq<Span>, id: string, path: seq<string>) {
    exists journey | path == Keys(journey) ::
      multiset(journey) == multiset(Trace(spans, id)) && InStartOrder(journey)
  }

  /** The paths of the given traces, one each. */
  ghost predicate ArePaths(spans: seq<Span>, ids: seq<string>, paths: seq<seq<string>>) {
    && NoDuplicates(ids) && |paths| == |ids|
    && forall i :: 0 <= i < |ids| ==> IsPath(spans, ids[i], paths[i]) && paths[i] != []
  }

  /** The ids cover every trace that has a kept span. */
  ghost predicate AllTraces(spans: seq<Span>, ids: seq<string>) {
    forall s :: s in spans && Kept(s) ==> s.traceId in ids
  }

  function Count(counts: map<string, map<string, int>>, src: string, dst: string): int {
    if src in counts && dst in counts[src] then counts[src][dst] else 0
  }

  ghost function FromIs(src: string): ((string, string)) -> real {
    (step: (string, string)) => if step.0 == src then 1.0 else 0.0
  }

  ghost predicate Represents(counts: map<string, map<string, int>>, totals: map<string, int>,
                             log: seq<(string, string)>) {
    counts.Keys == totals.Keys && CountsOf(counts, log) && TotalsOf(totals, log)
  }

  ghost predicate IsProbability(m: TransitionMatrix) {
    && (forall src :: src in m.probabilities ==> src in m.counts && src in m.totalTransitions)
    && (forall src :: src in m.counts ==> src in m.probabilities && m.probabilities[src].Keys == m.counts[src].Keys)
    && forall src, dst :: src in m.probabilities && dst in m.probabilities[src] ==>
         m.totalTransitions[src] > 0
         && m.probabilities[src][dst] == m.counts[src][dst] as real / m.totalTransitions[src] as real
  }

  // --- the mining

  method MineBehavioralTransitions(spans: seq<Span>)
    returns (m: TransitionMatrix, ghost ids: seq<string>, ghost paths: seq<seq<string>>)
    ensures ArePaths(spans, ids, paths) && AllTraces(spans, ids)
    ensures Represents(m.counts, m.totalTransitions, AllSteps(paths))
    ensures IsProbability(m)
  {
    ids, paths := [], [];
    if |spans| == 0 {
      return TransitionMatrix(map[], map[], map[]), [], [];
    }
    var traces := GroupByTrace(spans);
    var counts: map<string, map<string, int>>, totals: map<string, int> := map[], map[];
    var left := traces.Keys;
    ghost var log: seq<(string, string)> := [];
    while left != {}
      invariant left <= traces.Keys
      invariant ArePaths(spans, ids, paths)
      invariant forall id :: id in ids <==> id in traces && id !in left
      invariant log == AllSteps(paths)
      invariant Represents(counts, totals, log)
      decreases left
    {
      var id :| id in left;
      var sorted := SortTrace(traces[id]);
      PathAdded(spans, ids, paths, id, sorted);
      counts, totals := AddPath(counts, totals, log, Keys(sorted));
      ids, paths, log := ids + [id], paths + [Keys(sorted)], log + Steps(Keys(sorted));
      left := left - {id};
    }
    var probabilities := Normalise(counts, totals, log);
    m := TransitionMatrix(counts, probabilities, totals);
  }

  lemma PathAdded(spans: seq<Span>, ids: seq<string>, paths: seq<seq<string>>, id: string, journey: seq<Span>)
    requires ArePaths(spans, ids, paths) && id !in ids
    requires multiset(journey) == multiset(Trace(spans, id)) && InStartOrder(journey)
    requires Trace(spans, id) != []
    ensures journey != []
    ensures ArePaths(spans, ids + [id], paths + [Keys(journey)])
    ensures AllSteps(paths + [Keys(journey)]) == AllSteps(paths) + Steps(Keys(journey))
  {
  }

  method SortTrace(trace: seq<Span>) returns (sorted: seq<Span>)
    ensures multiset(sorted) == multiset(trace) && InStartOrder(sorted)
  {
    assert TotalPreorder(Earlier);
    sorted := Sort(trace, Earlier);
  }

  method GroupByTrace(spans: seq<Span>) returns (traces: map<string, seq<Span>>)
    ensures forall id :: id in traces ==> traces[id] == Trace(spans, id) != []
    ensures forall s :: s in spans && Kept(s) ==> s.traceId in traces
  {
    traces := map[];
    for i := 0 to |spans|
      invariant Grouped(traces, spans[..i])
    {
      var span := spans[i];
      assert spans[..i + 1] == spans[..i] + [span];
      GroupedGrows(traces, spans[..i], span);
      if span.traceId != "" && span.route != "" {
        var soFar := if span.traceId in traces then traces[span.traceId] else [];
        traces := traces[span.traceId := soFar + [span]];
      }
    }
    assert spans[..|spans|] == spans;
    forall s | s in spans && Kept(s)
      ensures s.traceId in traces
    {
      TraceMembers(spans, s.traceId, s);
    }
  }

  /** Each trace seen so far, under its id. */
  ghost predicate Grouped(traces: map<string, seq<Span>>, spans: seq<Span>) {
    forall id :: if id in traces then traces[id] == Trace(spans, id) != [] else Trace(spans, id) == []
  }

  lemma GroupedGrows(traces: map<string, seq<Span>>, spans: seq<Span>, s: Span)
    requires Grouped(traces, spans)
    ensures !Kept(s) ==> Grouped(traces, spans + [s])
    ensures Kept(s) ==>
      var soFar := if s.traceId in traces then traces[s.traceId] else [];
      Grouped(traces[s.traceId := soFar + [s]], spans + [s])
  {
  }

  method AddPath(counts0: map<string, map<string, int>>, totals0: map<string, int>,
                 ghost log: seq<(string, string)>, path: seq<string>)
    returns (counts: map<string, map<string, int>>, totals: map<string, int>)
    requires path != [] && Represents(counts0, totals0, log)
    ensures Represents(counts, totals, log + Steps(path))
  {
    counts, totals := counts0, totals0;
    var last := |path| - 1;
    ghost var soFar := log;
    for i := 0 to last
      invariant soFar == log + Steps(path)[..i]
      invariant Represents(counts, totals, soFar)
    {
      counts, totals := Bump(counts, totals, soFar, path[i], path[i + 1]);
      NextStep(log, path, i);
      soFar := soFar + [(path[i], path[i + 1])];
    }
    counts, totals := Bump(counts, totals, soFar, path[last], END);
    NextStep(log, path, last);
  }

  lemma NextStep(log: seq<(string, string)>, path: seq<string>, i: nat)
    requires i < |path|
    ensures i + 1 < |path| ==>
      log + Steps(path)[..i] + [(path[i], path[i + 1])] == log + Steps(path)[..i + 1]
    ensures i + 1 == |path| ==> log + Steps(path)[..i] + [(path[i], END)] == log + Steps(path)
  {
  }

  method Bump(counts0: map<string, map<string, int>>, totals0: map<string, int>,
              ghost log: seq<(string, string)>, src: string, dst: string)
    returns (counts: map<string, map<string, int>>, totals: map<string, int>)
    requires Represents(counts0, totals0, log)
    ensures Represents(counts, totals, log + [(src, dst)])
  {
    var row := if src in counts0 then counts0[src] else map[];
    counts := counts0[src := row[dst := (if dst in row then row[dst] else 0) + 1]];
    totals := totals0[src := (if src in totals0 then totals0[src] else 0) + 1];
    CountsBumped(counts0, counts, log, src, dst);
    TotalsBumped(totals0, totals, log, src, dst);
  }

  ghost predicate CountsOf(counts: map<string, map<string, int>>, log: seq<(string, string)>) {
    && (forall src :: src in counts ==> counts[src] != map[])
    && (forall src, dst :: Count(counts, src, dst) == multiset(log)[(src, dst)])
    && forall src, dst :: src in counts && dst in counts[src] ==> counts[src][dst] > 0
  }

  ghost predicate TotalsOf(totals: map<string, int>, log: seq<(string, string)>) {
    forall src :: (if src in totals then totals[src] else 0) as real == Total(log, FromIs(src))
  }

  lemma CountsBumped(before: map<string, map<string, int>>, after: map<string, map<string, int>>,
                     log: seq<(string, string)>, src: string, dst: string)
    requires CountsOf(before, log)
    requires var row := if src in before then before[src] else map[];
      after == before[src := row[dst := (if dst in row then row[dst] else 0) + 1]]
    ensures CountsOf(after, log + [(src, dst)])
  {
    assert Count(before, src, dst) == multiset(log)[(src, dst)];
    forall s, d
      ensures Count(after, s, d) == multiset(log + [(src, dst)])[(s, d)]
    {
      assert Count(before, s, d) == multiset(log)[(s, d)];
    }
  }

  lemma TotalsBumped(before: map<string, int>, after: map<string, int>, log: seq<(string, string)>,
                     src: string, dst: string)
    requires TotalsOf(before, log) && after == before[src := (if src in before then before[src] else 0) + 1]
    ensures TotalsOf(after, log + [(src, dst)])
  {
    forall s
      ensures Total(log + [(src, dst)], FromIs(s)) == Total(log, FromIs(s)) + (if s == src then 1.0 else 0.0)
    {
      TotalAppend(log, [(src, dst)], FromIs(s));
    }
  }

  method Normalise(counts: map<string, map<string, int>>, totals: map<string, int>, ghost log: seq<(string, string)>)
    returns (probabilities: map<string, map<string, real>>)
    requires Represents(counts, totals, log)
    ensures IsProbability(TransitionMatrix(counts, probabilities, totals))
  {
    probabilities := map[];
    var froms := counts.Keys;
    while froms != {}
      invariant froms <= counts.Keys
      invariant probabilities.Keys == counts.Keys - froms
      invariant forall src :: src in probabilities ==>
        probabilities[src].Keys == counts[src].Keys && totals[src] > 0 &&
        forall dst :: dst in counts[src] ==> probabilities[src][dst] == counts[src][dst] as real / totals[src] as real
      decreases froms
    {
      var src :| src in froms;
      var total := totals[src];
      TotalIsPositive(counts, totals, log, src);
      if total > 0 {
        probabilities := probabilities[src := map dst | dst in counts[src] :: counts[src][dst] as real / total as real];
      }
      froms := froms - {src};
    }
  }

  lemma TotalIsPositive(counts: map<string, map<string, int>>, totals: map<string, int>, log: seq<(string, string)>,
                        src: string)
    requires Represents(counts, totals, log) && src in counts
    ensures totals[src] > 0
  {
    var dst :| dst in counts[src];
    assert Count(counts, src, dst) > 0;
    assert (src, dst) in log;
    var k :| 0 <= k < |log| && log[k] == (src, dst);
    assert log == log[..k] + [log[k]] + log[k + 1..];
    TotalAppend(log[..k] + [log[k]], log[k + 1..], FromIs(src));
    TotalAppend(log[..k], [log[k]], FromIs(src));
    TotalNonnegative(log[..k], FromIs(src));
    TotalNonnegative(log[k + 1..], FromIs(src));
  }

  lemma {:induction false} TotalNonnegative<T(!new)>(s: seq<T>, f: T -> real)
    requires forall x :: f(x) >= 0.0
    ensures Total(s, f) >= 0.0
  {
    if s == [] {
    } else {
      TotalNonnegative(s[1..], f);
    }
  }

  // --- conservation

  ghost function Departures(log: seq<(string, string)>, src: string): string -> real {
    dst => multiset(log)[(src, dst)] as real
  }

  ghost function Arrivals(log: seq<(string, string)>, dst: string): string -> real {
    src => multiset(log)[(src, dst)] as real
  }

  ghost function ToIs(dst: string): ((string, string)) -> real {
    (step: (string, string)) => if step.1 == dst then 1.0 else 0.0
  }

  lemma {:induction false} RowOfLog(log: seq<(string, string)>, src: string, targets: set<string>)
    requires forall k :: 0 <= k < |log| && log[k].0 == src ==> log[k].1 in targets
    ensures SumOver(targets, Departures(log, src)) == Total(log, FromIs(src))
  {
    if log == [] {
      SumOverZero(targets, Departures(log, src));
    } else {
      var rest, step := log[1..], log[0];
      RowOfLog(rest, src, targets);
      assert log == [step] + rest;
      assert multiset(log) == multiset{step} + multiset(rest);
      if step.0 == src {
        SumOverChange(targets, Departures(rest, src), Departures(log, src), step.1);
      } else {
        SumOverAgree(targets, Departures(rest, src), Departures(log, src));
      }
    }
  }

  lemma {:induction false} ColumnOfLog(log: seq<(string, string)>, dst: string, sources: set<string>)
    requires forall k :: 0 <= k < |log| ==> log[k].0 in sources
    ensures SumOver(sources, Arrivals(log, dst)) == Total(log, ToIs(dst))
  {
    if log == [] {
      SumOverZero(sources, Arrivals(log, dst));
    } else {
      var rest, step := log[1..], log[0];
      ColumnOfLog(rest, dst, sources);
      assert log == [step] + rest;
      assert multiset(log) == multiset{step} + multiset(rest);
      if step.1 == dst {
        SumOverChange(sources, Arrivals(rest, dst), Arrivals(log, dst), step.0);
      } else {
        SumOverAgree(sources, Arrivals(rest, dst), Arrivals(log, dst));
      }
    }
  }

  lemma {:induction false} SumOverZero(s: set<string>, f: string -> real)
    requires forall k :: k in s ==> f(k) == 0.0
    ensures SumOver(s, f) == 0.0
    decreases |s|
  {
    if s == {} {
    } else {
      var k :| k in s;
      SumOverPick(s, f, k);
      SumOverZero(s - {k}, f);
    }
  }

  /** Every row of the mined counts adds up to the row's total. */
  lemma RowsAddUp(counts: map<string, map<string, int>>, totals: map<string, int>, log: seq<(string, string)>,
                  src: string)
    requires Represents(counts, totals, log) && src in counts
    ensures SumOver(counts[src].Keys, CountOf(counts[src])) == totals[src] as real
  {
    var row := counts[src];
    forall k | 0 <= k < |log| && log[k].0 == src
      ensures log[k].1 in row.Keys
    {
      assert log[k] in multiset(log);
      assert Count(counts, src, log[k].1) > 0;
    }
    RowOfLog(log, src, row.Keys);
    forall dst | dst in row
      ensures CountOf(row)(dst) == Departures(log, src)(dst)
    {
      assert Count(counts, src, dst) == row[dst];
    }
    SumOverAgree(row.Keys, CountOf(row), Departures(log, src));
  }

  ghost function Is(key: string): string -> real {
    k => if k == key then 1.0 else 0.0
  }

  ghost function KeyIs(key: string): Span -> real {
    s => if Key(s) == key then 1.0 else 0.0
  }

  /** A measure of spans, restricted to the usable spans of some traces. */
  ghost function KeptIn(ids: set<string>, f: Span -> real): Span -> real {
    s => if Kept(s) && s.traceId in ids then f(s) else 0.0
  }

  ghost function Usable(f: Span -> real): Span -> real {
    s => if Kept(s) then f(s) else 0.0
  }

  /** The number of spans with a trace id and a route whose endpoint is `key`. */
  ghost function SpansOf(spans: seq<Span>, key: string): real {
    Total(spans, Usable(KeyIs(key)))
  }

  lemma {:induction false} TotalPointwise<A(!new), B(!new)>(a: seq<A>, f: A -> real, b: seq<B>, g: B -> real)
    requires |a| == |b| && forall i :: 0 <= i < |a| ==> f(a[i]) == g(b[i])
    ensures Total(a, f) == Total(b, g)
  {
    if a == [] {
    } else {
      TotalPointwise(a[1..], f, b[1..], g);
    }
  }

  lemma {:induction false} TotalZero<T(!new)>(s: seq<T>, f: T -> real)
    requires forall i :: 0 <= i < |s| ==> f(s[i]) == 0.0
    ensures Total(s, f) == 0.0
  {
    if s == [] {
    } else {
      TotalZero(s[1..], f);
    }
  }

  lemma TotalSnoc<T(!new)>(front: seq<T>, x: T, f: T -> real)
    ensures Total(front + [x], f) == Total(front, f) + f(x)
  {
    TotalAppend(front, [x], f);
  }

  /** A trace's spans are the ones its id adds to any set of other traces. */
  lemma {:induction false} TraceSplit(spans: seq<Span>, ids: set<string>, id: string, f: Span -> real)
    requires id !in ids
    ensures Total(spans, KeptIn(ids + {id}, f)) == Total(spans, KeptIn(ids, f)) + Total(Trace(spans, id), f)
  {
    if spans == [] {
    } else {
      var front, s := spans[..|spans| - 1], spans[|spans| - 1];
      assert spans == front + [s];
      TraceSplit(front, ids, id, f);
      TotalSnoc(front, s, KeptIn(ids + {id}, f));
      TotalSnoc(front, s, KeptIn(ids, f));
      if Kept(s) && s.traceId == id {
        TotalSnoc(Trace(front, id), s, f);
      } else {
        assert Trace(spans, id) == Trace(front, id);
      }
    }
  }

  lemma SourcesOfPath(spans: seq<Span>, id: string, path: seq<string>, key: string)
    requires IsPath(spans, id, path)
    ensures Total(Steps(path), FromIs(key)) == Total(Trace(spans, id), KeyIs(key))
  {
    var journey :| path == Keys(journey) && multiset(journey) == multiset(Trace(spans, id));
    TotalPointwise(Steps(path), FromIs(key), path, Is(key));
    TotalPointwise(path, Is(key), journey, KeyIs(key));
    TotalIsOrderFree(journey, Trace(spans, id), KeyIs(key));
  }

  lemma {:induction false} SourcesOfPaths(spans: seq<Span>, ids: seq<string>, paths: seq<seq<string>>, key: string)
    requires ArePaths(spans, ids, paths)
    ensures Total(AllSteps(paths), FromIs(key)) == Total(spans, KeptIn(SetOf(ids), KeyIs(key)))
  {
    var f := KeyIs(key);
    if ids == [] {
      TotalZero(spans, KeptIn(SetOf(ids), f));
    } else {
      var k := |ids| - 1;
      FrontPaths(spans, ids, paths);
      SourcesOfPaths(spans, ids[..k], paths[..k], key);
      TotalAppend(AllSteps(paths[..k]), Steps(paths[k]), FromIs(key));
      SourcesOfPath(spans, ids[k], paths[k], key);
      TraceSplit(spans, SetOf(ids[..k]), ids[k], f);
    }
  }

  ghost function SetOf(ids: seq<string>): set<string> {
    set id | id in ids
  }

  lemma FrontPaths(spans: seq<Span>, ids: seq<string>, paths: seq<seq<string>>)
    requires ArePaths(spans, ids, paths) && ids != []
    ensures var k := |ids| - 1;
      && ArePaths(spans, ids[..k], paths[..k]) && IsPath(spans, ids[k], paths[k])
      && SetOf(ids) == SetOf(ids[..k]) + {ids[k]} && ids[k] !in SetOf(ids[..k])
  {
    var k := |ids| - 1;
    assert ids == ids[..k] + [ids[k]];
  }

  /** Every span with a trace id and a route is the source of exactly one transition, and no other
      span is: an endpoint's total is the number of its usable spans. */
  lemma TotalsCountSpans(m: TransitionMatrix, spans: seq<Span>, ids: seq<string>, paths: seq<seq<string>>, key: string)
    requires ArePaths(spans, ids, paths) && AllTraces(spans, ids)
    requires Represents(m.counts, m.totalTransitions, AllSteps(paths))
    ensures (if key in m.totalTransitions then m.totalTransitions[key] else 0) as real == SpansOf(spans, key)
  {
    SourcesOfPaths(spans, ids, paths, key);
    SameMeasure(spans, SetOf(ids), KeyIs(key));
  }

  lemma SameMeasure(spans: seq<Span>, ids: set<string>, f: Span -> real)
    requires forall s :: s in spans && Kept(s) ==> s.traceId in ids
    ensures Total(spans, KeptIn(ids, f)) == Total(spans, Usable(f))
  {
  }

  // --- order

  /** Two spans of a trace with nothing of the same trace between them in time. */
  ghost predicate Successive(trace: seq<Span>, a: Span, b: Span) {
    && a.start < b.start && multiset(trace)[a] == 1 && multiset(trace)[b] == 1
    && forall c :: c in trace ==> c.start < a.start || b.start < c.start || c == a || c == b
  }

  /** Transitions follow the clock: when one span of a trace comes next after another, the matrix counts a
      transition from the endpoint of the earlier to that of the later, in whatever order they were recorded. */
  lemma EarlierLeadsToLater(m: TransitionMatrix, spans: seq<Span>, ids: seq<string>, paths: seq<seq<string>>,
                            a: Span, b: Span)
    requires ArePaths(spans, ids, paths) && AllTraces(spans, ids)
    requires Represents(m.counts, m.totalTransitions, AllSteps(paths))
    requires a in spans && Kept(a) && Successive(Trace(spans, a.traceId), a, b)
    ensures Count(m.counts, Key(a), Key(b)) >= 1
  {
    var k :| 0 <= k < |ids| && ids[k] == a.traceId;
    var step := PathHasStep(spans, ids[k], paths[k], a, b);
    StepOfOnePath(paths, k, step);
    IsCounted(m.counts, AllSteps(paths), step);
  }

  lemma IsCounted(counts: map<string, map<string, int>>, log: seq<(string, string)>, step: (string, string))
    requires CountsOf(counts, log) && step in log
    ensures Count(counts, step.0, step.1) >= 1
  {
    assert Count(counts, step.0, step.1) == multiset(log)[(step.0, step.1)];
    assert (step.0, step.1) == step;
  }

  lemma PathHasStep(spans: seq<Span>, id: string, path: seq<string>, a: Span, b: Span)
      returns (step: (string, string))
    requires IsPath(spans, id, path) && Successive(Trace(spans, id), a, b)
    ensures step == (Key(a), Key(b)) && step in Steps(path)
    ensures |Trace(spans, id)| == 2 ==> path == [step.0, step.1]
  {
    var journey :| path == Keys(journey) && multiset(journey) == multiset(Trace(spans, id)) && InStartOrder(journey);
    step := JourneyHasStep(journey, Trace(spans, id), a, b);
  }

  lemma JourneyHasStep(journey: seq<Span>, trace: seq<Span>, a: Span, b: Span) returns (step: (string, string))
    requires multiset(journey) == multiset(trace) && InStartOrder(journey) && Successive(trace, a, b)
    ensures step == (Key(a), Key(b)) && step in Steps(Keys(journey))
    ensures |trace| == 2 ==> Keys(journey) == [step.0, step.1]
  {
    SameLength(journey, trace);
    var i := NextInJourney(journey, trace, a, b);
    step := StepAt(Keys(journey), i);
  }

  lemma StepAt(path: seq<string>, i: nat) returns (step: (string, string))
    requires i + 1 < |path|
    ensures step == (path[i], path[i + 1]) && step in Steps(path)
    ensures |path| == 2 ==> path == [step.0, step.1]
  {
    step := Steps(path)[i];
  }

  lemma SameLength(a: seq<Span>, b: seq<Span>)
    requires multiset(a) == multiset(b)
    ensures |a| == |b|
  {
    assert |a| == |multiset(a)| && |b| == |multiset(b)|;
  }

  lemma NextInJourney(journey: seq<Span>, trace: seq<Span>, a: Span, b: Span) returns (i: nat)
    requires multiset(journey) == multiset(trace) && InStartOrder(journey) && Successive(trace, a, b)
    ensures i + 1 < |journey| && journey[i] == a && journey[i + 1] == b
  {
    SameElements(journey, trace);
    assert a in multiset(trace) && b in multiset(trace);
    i :| 0 <= i < |journey| && journey[i] == a;
    var j :| 0 <= j < |journey| && journey[j] == b;
    assert i < j;
    assert journey[i + 1] in journey;
    OccursTwice(journey, i, i + 1);
    if i + 1 < j { OccursTwice(journey, i + 1, j); }
  }

  lemma OccursTwice(s: seq<Span>, i: nat, j: nat)
    requires i < j < |s|
    ensures s[i] == s[j] ==> multiset(s)[s[i]] >= 2
  {
    assert s == s[..i] + [s[i]] + s[i + 1..j] + [s[j]] + s[j + 1..];
  }

  lemma {:induction false} StepOfOnePath(paths: seq<seq<string>>, k: nat, step: (string, string))
    requires k < |paths| && step in Steps(paths[k])
    ensures step in AllSteps(paths)
  {
    if k == |paths| - 1 {
    } else {
      StepOfOnePath(paths[..|paths| - 1], k, step);
    }
  }

  /** A trace of two requests: the matrix leads from the earlier to the later and from there to the end, and
      nowhere else. */
  lemma TwoRequests(m: TransitionMatrix, spans: seq<Span>, ids: seq<string>, paths: seq<seq<string>>, a: Span, b: Span)
    requires ArePaths(spans, ids, paths) && AllTraces(spans, ids)
    requires Represents(m.counts, m.totalTransitions, AllSteps(paths))
    requires spans == [a, b] || spans == [b, a]
    requires Kept(a) && Kept(b) && a.traceId == b.traceId && a.start < b.start && Key(a) != Key(b)
    ensures m.counts == map[Key(a) := map[Key(b) := 1], Key(b) := map["END" := 1]]
    ensures m.totalTransitions == map[Key(a) := 1, Key(b) := 1]
  {
    OnlyTrace(spans, ids, paths, a);
    PathOfTwo(spans, paths[0], a, b);
    MatrixOfTwo(m, paths, Key(a), Key(b));
  }

  lemma MatrixOfTwo(m: TransitionMatrix, paths: seq<seq<string>>, x: string, y: string)
    requires Represents(m.counts, m.totalTransitions, AllSteps(paths)) && paths == [[x, y]] && x != y
    ensures m.counts == map[x := map[y := 1], y := map["END" := 1]] && m.totalTransitions == map[x := 1, y := 1]
  {
    LogOfTwo(paths, x, y);
    TwoSteps(m.counts, x, y);
    TwoTotals(m.totalTransitions, x, y);
  }

  lemma PathOfTwo(spans: seq<Span>, path: seq<string>, a: Span, b: Span)
    requires IsPath(spans, a.traceId, path) && (spans == [a, b] || spans == [b, a])
    requires Kept(a) && Kept(b) && a.traceId == b.traceId && a.start < b.start
    ensures path == [Key(a), Key(b)]
  {
    if spans == [a, b] {
      PairIsATrace(a, b);
    } else {
      PairIsATrace(b, a);
    }
    PairIsSuccessive(spans, a, b);
    var step := PathHasStep(spans, a.traceId, path, a, b);
  }

  lemma LogOfTwo(paths: seq<seq<string>>, x: string, y: string)
    requires paths == [[x, y]]
    ensures AllSteps(paths) == [(x, y), (y, "END")]
  {
    assert paths[..0] == [] && AllSteps([]) == [];
    assert AllSteps(paths) == AllSteps(paths[..0]) + Steps(paths[0]);
  }

  lemma OnlyTrace(spans: seq<Span>, ids: seq<string>, paths: seq<seq<string>>, a: Span)
    requires ArePaths(spans, ids, paths) && AllTraces(spans, ids)
    requires a in spans && Kept(a) && forall s :: s in spans ==> s.traceId == a.traceId
    ensures ids == [a.traceId]
  {
    IdsAreTraceIds(spans, ids, paths);
    assert TraceIds(spans) == {a.traceId};
    DistinctCount(ids);
  }

  lemma PairIsSuccessive(trace: seq<Span>, a: Span, b: Span)
    requires (trace == [a, b] || trace == [b, a]) && a.start < b.start
    ensures Successive(trace, a, b)
  {
    assert multiset(trace) == multiset{a, b};
  }

  lemma PairIsATrace(x: Span, y: Span)
    requires Kept(x) && Kept(y) && x.traceId == y.traceId
    ensures Trace([x, y], x.traceId) == [x, y]
  {
    assert [x, y][..1] == [x] && [x][..0] == [];
    assert Trace([x], x.traceId) == Trace([], x.traceId) + [x];
  }

  lemma TwoSteps(counts: map<string, map<string, int>>, x: string, y: string)
    requires CountsOf(counts, [(x, y), (y, "END")]) && x != y
    ensures counts == map[x := map[y := 1], y := map["END" := 1]]
  {
    var log := [(x, y), (y, "END")];
    assert multiset(log) == multiset{(x, y), (y, "END")};
    forall src, dst
      ensures Count(counts, src, dst) == if (src == x && dst == y) || (src == y && dst == "END") then 1 else 0
    {
      assert Count(counts, src, dst) == multiset(log)[(src, dst)];
    }
    OnlyEntry(counts, x, y);
    OnlyEntry(counts, y, "END");
    forall src | src in counts
      ensures src == x || src == y
    {
      var dst :| dst in counts[src];
      assert Count(counts, src, dst) > 0;
    }
  }

  lemma OnlyEntry(counts: map<string, map<string, int>>, src: string, dst: string)
    requires forall d :: Count(counts, src, d) == if d == dst then 1 else 0
    requires src in counts ==> forall d :: d in counts[src] ==> counts[src][d] > 0
    ensures src in counts && counts[src] == map[dst := 1]
  {
    assert Count(counts, src, dst) == 1;
    forall d | d in counts[src]
      ensures d == dst
    {
      assert Count(counts, src, d) > 0;
    }
  }

  lemma TwoTotals(totals: map<string, int>, x: string, y: string)
    requires TotalsOf(totals, [(x, y), (y, "END")]) && x != y && totals.Keys == {x, y}
    ensures totals == map[x := 1, y := 1]
  {
    forall src
      ensures Total([(x, y), (y, "END")], FromIs(src)) == FromIs(src)((x, y)) + FromIs(src)((y, "END"))
    {
      assert [(x, y), (y, "END")] == [] + [(x, y)] + [(y, "END")];
      TotalSnoc([] + [(x, y)], (y, "END"), FromIs(src));
      TotalSnoc([], (x, y), FromIs(src));
    }
  }

  ghost predicate Proper(path: seq<string>) {
    path != [] && END !in path
  }

  lemma PathIsProper(spans: seq<Span>, id: string, path: seq<string>)
    requires IsPath(spans, id, path) && path != []
    ensures Proper(path)
  {
    var journey :| path == Keys(journey);
    forall i | 0 <= i < |path|
      ensures path[i] != END
    {
      KeyIsNotEnd(journey[i]);
    }
  }

  lemma {:induction false} EndsOfPaths(paths: seq<seq<string>>)
    requires forall i :: 0 <= i < |paths| ==> Proper(paths[i])
    ensures Total(AllSteps(paths), ToIs(END)) == |paths| as real
  {
    if paths == [] {
    } else {
      var k := |paths| - 1;
      EndsOfPaths(paths[..k]);
      TotalAppend(AllSteps(paths[..k]), Steps(paths[k]), ToIs(END));
      OneEnd(paths[k]);
    }
  }

  lemma OneEnd(path: seq<string>)
    requires Proper(path)
    ensures Total(Steps(path), ToIs(END)) == 1.0
  {
    var last := |path| - 1;
    var steps := Steps(path);
    assert steps == steps[..last] + [steps[last]];
    TotalSnoc(steps[..last], steps[last], ToIs(END));
    TotalZero(steps[..last], ToIs(END));
  }

  ghost function TraceIds(spans: seq<Span>): set<string> {
    set s | s in spans && Kept(s) :: s.traceId
  }

  lemma {:induction false} TraceMembers(spans: seq<Span>, id: string, s: Span)
    ensures s in Trace(spans, id) <==> s in spans && Kept(s) && s.traceId == id
  {
    if spans == [] {
    } else {
      TraceMembers(spans[..|spans| - 1], id, s);
      assert spans == spans[..|spans| - 1] + [spans[|spans| - 1]];
    }
  }

  lemma IdsAreTraceIds(spans: seq<Span>, ids: seq<string>, paths: seq<seq<string>>)
    requires ArePaths(spans, ids, paths) && AllTraces(spans, ids)
    ensures (set id | id in ids) == TraceIds(spans)
  {
    forall i | 0 <= i < |ids|
      ensures ids[i] in TraceIds(spans)
    {
      assert IsPath(spans, ids[i], paths[i]);
      var journey :| paths[i] == Keys(journey) && multiset(journey) == multiset(Trace(spans, ids[i]));
      SameElements(journey, Trace(spans, ids[i]));
      TraceMembers(spans, ids[i], journey[0]);
      assert journey[0] in journey;
    }
  }

  ghost function EndCounts(m: TransitionMatrix): string -> real {
    src => Count(m.counts, src, "END") as real
  }

  /** The END column adds up to the number of traces. */
  lemma EndColumnCountsTraces(m: TransitionMatrix, spans: seq<Span>, ids: seq<string>, paths: seq<seq<string>>)
    requires ArePaths(spans, ids, paths) && AllTraces(spans, ids)
    requires Represents(m.counts, m.totalTransitions, AllSteps(paths))
    ensures SumOver(m.counts.Keys, EndCounts(m)) == |TraceIds(spans)| as real
  {
    var log := AllSteps(paths);
    forall k | 0 <= k < |log|
      ensures log[k].0 in m.counts.Keys
    {
      assert log[k] in multiset(log);
      assert Count(m.counts, log[k].0, log[k].1) > 0;
    }
    ColumnOfLog(log, END, m.counts.Keys);
    SumOverAgree(m.counts.Keys, EndCounts(m), Arrivals(log, END));
    forall i | 0 <= i < |paths|
      ensures Proper(paths[i])
    {
      PathIsProper(spans, ids[i], paths[i]);
    }
    EndsOfPaths(paths);
    IdsAreTraceIds(spans, ids, paths);
    DistinctCount(ids);
  }

  ghost function RowOf(m: TransitionMatrix, src: string): string -> real {
    dst => Probability(m, src, dst)
  }

  /** Each mined row is a probability distribution over the next endpoint and END. */
  lemma RowsAreDistributions(m: TransitionMatrix, log: seq<(string, string)>, src: string)
    requires Represents(m.counts, m.totalTransitions, log) && IsProbability(m) && src in m.counts
    ensures SumOver(m.counts[src].Keys, RowOf(m, src)) == 1.0
    ensures forall dst :: dst in m.counts[src] ==> RowOf(m, src)(dst) > 0.0
  {
    RowsAddUp(m.counts, m.totalTransitions, log, src);
    TotalIsPositive(m.counts, m.totalTransitions, log, src);
    var row, total := m.counts[src], m.totalTransitions[src] as real;
    assert src in m.probabilities;
    forall dst | dst in row
      ensures RowOf(m, src)(dst) == Times(1.0 / total, CountOf(row)(dst))
      ensures RowOf(m, src)(dst) > 0.0
    {
      assert dst in m.probabilities[src];
      Quotient(row[dst] as real, total);
    }
    SumOverScale(row.Keys, CountOf(row), RowOf(m, src), 1.0 / total);
    Quotient(total, total);
  }

  lemma Quotient(x: real, y: real)
    requires y > 0.0 && x > 0.0
    ensures x / y == Times(1.0 / y, x) && x / y > 0.0
    ensures Times(1.0 / y, y) == 1.0
  {
  }

  lemma RowsCarryAtMostOne(m: TransitionMatrix, log: seq<(string, string)>)
    requires Represents(m.counts, m.totalTransitions, log) && IsProbability(m)
    ensures forall f :: RowMass(m, f) <= 1.0
  {
    forall f
      ensures RowMass(m, f) <= 1.0
    {
      if f in m.counts { RowCarriesAtMostOne(m, log, f); }
    }
  }

  lemma RowCarriesAtMostOne(m: TransitionMatrix, log: seq<(string, string)>, src: string)
    requires Represents(m.counts, m.totalTransitions, log) && IsProbability(m) && src in m.counts
    ensures SumOver(m.counts[src].Keys, Onward(m, src)) <= 1.0
  {
    RowsAreDistributions(m, log, src);
    forall dst | dst in m.counts[src]
      ensures Onward(m, src)(dst) <= RowOf(m, src)(dst)
    {
      OnwardAtMostRow(m, src, dst);
    }
    SumOverMonotone(m.counts[src].Keys, Onward(m, src), RowOf(m, src));
  }

  lemma OnwardAtMostRow(m: TransitionMatrix, src: string, dst: string)
    requires RowOf(m, src)(dst) > 0.0
    ensures Onward(m, src)(dst) <= RowOf(m, src)(dst)
  {
  }

  /** From recorded spans to settled ranks: the graph built on a mined matrix meets every hypothesis of
      the power iteration, so its rank mass is in [0.15, 1], no endpoint is ranked below its
      teleportation share, and the ranks are within 0.0346, in total, of the one ranking that satisfies the
      random-surfer equation. */
  lemma MinedRanksAreSettled(m: TransitionMatrix, log: seq<(string, string)>, g: Graph, ids: seq<string>)
    returns (fixed: seq<real>)
    requires Represents(m.counts, m.totalTransitions, log) && IsProbability(m)
    requires IsGraphOf(g, m, ids)
    ensures 0.15 <= Sum(Ranks(g.edges, ids)) <= 1.0
    ensures forall i :: 0 <= i < |ids| ==> 0.15 / |ids| as real <= Ranks(g.edges, ids)[i]
    ensures PageRank.FixedPoint(Flows(g.edges, ids), fixed) && |fixed| == |ids|
    ensures Dist(Ranks(g.edges, ids), fixed) < 0.0346
  {
    RowsCarryAtMostOne(m, log);
    RowsBoundFlows(g, m, ids);
    var flows, u := Flows(g.edges, ids), PageRank.Uniform(|ids|);
    PageRank.UniformIsAStart(|ids|);
    PageRank.MassBounds(flows, u, 25);
    PageRank.RanksPositive(flows, u, 25);
    fixed := PageRank.RanksApproachTheRanking(flows, |ids|, 25);
    PageRank.DampingAfterAllRounds();
  }

  /** From recorded spans to a ranking: of two requests of one trace the later is the more critical, and the
      earlier scores 1 / 1.85. */
  lemma TwoRequestsRanked(m: TransitionMatrix, spans: seq<Span>, ids: seq<string>, paths: seq<seq<string>>,
                          a: Span, b: Span, g: Graph, nodes: seq<string>)
    requires ArePaths(spans, ids, paths) && AllTraces(spans, ids)
    requires Represents(m.counts, m.totalTransitions, AllSteps(paths)) && IsProbability(m)
    requires spans == [a, b] || spans == [b, a]
    requires Kept(a) && Kept(b) && a.traceId == b.traceId && a.start < b.start && Key(a) != Key(b)
    requires IsGraphOf(g, m, nodes)
    ensures g.mostCritical == [Key(b), Key(a)]
    ensures |g.nodes| == 2 && g.nodes[0].criticality == 1.0 && g.nodes[1].criticality == 1.0 / 1.85
  {
    TwoRequests(m, spans, ids, paths, a, b);
    KeyIsNotEnd(b);
    PairRanked(m, g, nodes, Key(a), Key(b));
  }

  lemma PairRanked(m: TransitionMatrix, g: Graph, nodes: seq<string>, x: string, y: string)
    requires m.counts == map[x := map[y := 1], y := map["END" := 1]] && m.totalTransitions == map[x := 1, y := 1]
    requires IsProbability(m) && x != y && y != "END" && IsGraphOf(g, m, nodes)
    ensures g.mostCritical == [y, x]
    ensures |g.nodes| == 2 && g.nodes[0].criticality == 1.0 && g.nodes[1].criticality == 1.0 / 1.85
  {
    assert x in m.counts && y in m.counts[x];
    ChainCriticality(g, m, nodes, x, y, 1, 1.0);
  }
}
