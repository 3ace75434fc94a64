/** The power iteration that ranks the endpoints of a mined call graph
    (pkg/generator/dependency_graph.go), over exact reals. */
module PageRank {
  import opened Sums
  import opened LinearSystem

  const DAMPING := 0.85
  const ITERATIONS: nat := 25

  /** A transition whose endpoints have been looked up in the node index. */
  datatype Flow = Flow(src: nat, dst: nat, p: real)

  ghost predicate InRange(flows: seq<Flow>, n: nat) {
    forall k :: 0 <= k < |flows| ==> flows[k].src < n && flows[k].dst < n
  }

  // --- what one round means

  /** Rank flowing into node j; transitions with no positive probability carry nothing. */
  ghost function Inflow(flows: seq<Flow>, rank: seq<real>, j: nat): real
    requires InRange(flows, |rank|)
  {
    if flows == [] then 0.0 else
      var e := flows[|flows| - 1];
      Inflow(flows[..|flows| - 1], rank, j) + (if e.dst == j && e.p > 0.0 then Times(rank[e.src], e.p) else 0.0)
  }

  /** Probability leaving node i along the transitions that carry rank. */
  ghost function RowSum(flows: seq<Flow>, i: nat): real {
    if flows == [] then 0.0 else
      var e := flows[|flows| - 1];
      RowSum(flows[..|flows| - 1], i) + (if e.src == i && e.p > 0.0 then e.p else 0.0)
  }

  ghost predicate Substochastic(flows: seq<Flow>, n: nat) {
    forall i :: 0 <= i < n ==> RowSum(flows, i) <= 1.0
  }

  ghost function Base(n: nat): real
    requires n > 0
  {
    0.15 / n as real
  }

  ghost function Inflows(flows: seq<Flow>, rank: seq<real>): seq<real>
    requires InRange(flows, |rank|)
  {
    seq(|rank|, j requires 0 <= j < |rank| => Inflow(flows, rank, j))
  }

  /** The random-surfer equation, applied to every node at once. */
  ghost function Round(flows: seq<Flow>, rank: seq<real>): (next: seq<real>)
    requires InRange(flows, |rank|) && |rank| > 0
  {
    seq(|rank|, j requires 0 <= j < |rank| => Base(|rank|) + 0.85 * Inflow(flows, rank, j))
  }

  ghost function Iterate(flows: seq<Flow>, rank: seq<real>, k: nat): (r: seq<real>)
    requires InRange(flows, |rank|) && |rank| > 0
    ensures |r| == |rank|
  {
    if k == 0 then rank else Round(flows, Iterate(flows, rank, k - 1))
  }

  ghost function Uniform(n: nat): seq<real>
    requires n > 0
  {
    seq(n, _ => 1.0 / n as real)
  }

  // --- no round amplifies anything: the L1 norm of the inflow is bounded by the weighted outflow

  ghost function Outflows(flows: seq<Flow>, d: seq<real>): seq<real>
    requires InRange(flows, |d|)
  {
    seq(|d|, i requires 0 <= i < |d| => Times(Abs(d[i]), RowSum(flows, i)))
  }

  lemma {:induction false} InflowsBounded(flows: seq<Flow>, d: seq<real>)
    requires InRange(flows, |d|)
    ensures Norm(Inflows(flows, d)) <= Sum(Outflows(flows, d))
  {
    if flows == [] {
      SumConstant(Outflows(flows, d), 0.0);
      NormOfNonnegative(Inflows(flows, d));
      SumConstant(Inflows(flows, d), 0.0);
    } else {
      var front, e := flows[..|flows| - 1], flows[|flows| - 1];
      assert flows == front + [e];
      InflowsBounded(front, d);
      if e.p > 0.0 {
        InflowGrows(front, e, d);
        OutflowGrows(front, e, d);
      } else {
        assert Inflows(flows, d) == Inflows(front, d);
        forall i | 0 <= i < |d|
          ensures Outflows(flows, d)[i] == Outflows(front, d)[i]
        {
          assert RowSum(flows, i) == RowSum(front, i);
        }
        assert Outflows(flows, d) == Outflows(front, d);
      }
    }
  }

  lemma InflowGrows(front: seq<Flow>, e: Flow, d: seq<real>)
    requires InRange(front, |d|) && InRange(front + [e], |d|)
    requires e.src < |d| && e.dst < |d| && e.p > 0.0
    ensures Norm(Inflows(front + [e], d)) <= Norm(Inflows(front, d)) + Abs(d[e.src]) * e.p
  {
    assert (front + [e])[..|front|] == front;
    var before, after := Inflows(front, d), Inflows(front + [e], d);
    var x := Times(d[e.src], e.p);
    assert (front + [e])[|front|] == e;
    var absBefore := seq(|before|, i requires 0 <= i < |before| => Abs(before[i]));
    var absAfter := seq(|after|, i requires 0 <= i < |after| => Abs(after[i]));
    assert absAfter == absBefore[e.dst := Abs(before[e.dst] + x)];
    SumUpdate(absBefore, e.dst, Abs(before[e.dst] + x));
  }

  lemma OutflowGrows(front: seq<Flow>, e: Flow, d: seq<real>)
    requires InRange(front, |d|) && InRange(front + [e], |d|)
    requires e.src < |d| && e.p > 0.0
    ensures Sum(Outflows(front + [e], d)) == Sum(Outflows(front, d)) + Abs(d[e.src]) * e.p
  {
    assert (front + [e])[..|front|] == front;
    assert (front + [e])[|front|] == e;
    var before, after := Outflows(front, d), Outflows(front + [e], d);
    var row := RowSum(front, e.src);
    assert RowSum(front + [e], e.src) == row + e.p;
    var a := Abs(d[e.src]);
    TimesDistributes(a, row, e.p);
    forall i | 0 <= i < |d|
      ensures after[i] == before[e.src := Times(a, row + e.p)][i]
    {
    }
    assert after == before[e.src := Times(a, row + e.p)];
    SumUpdate(before, e.src, Times(a, row + e.p));
  }

  /** Rows of weight at most one: rank flowing in is at most rank held. */
  lemma InflowAtMostNorm(flows: seq<Flow>, d: seq<real>)
    requires InRange(flows, |d|) && Substochastic(flows, |d|)
    ensures Norm(Inflows(flows, d)) <= Norm(d)
  {
    InflowsBounded(flows, d);
    var held := seq(|d|, i requires 0 <= i < |d| => Abs(d[i]));
    forall i | 0 <= i < |d|
      ensures Outflows(flows, d)[i] <= held[i]
    {
      assert RowSum(flows, i) <= 1.0;
      ScaleDown(Abs(d[i]), RowSum(flows, i));
    }
    SumMonotone(Outflows(flows, d), held);
  }

  lemma ScaleDown(x: real, w: real)
    requires 0.0 <= x && w <= 1.0
    ensures Times(x, w) <= x
  {
  }

  lemma {:induction false} InflowLinear(flows: seq<Flow>, r: seq<real>, s: seq<real>, j: nat)
    requires |r| == |s| && InRange(flows, |r|)
    ensures Inflow(flows, r, j) - Inflow(flows, s, j) == Inflow(flows, Minus(r, s), j)
  {
    if flows == [] {
    } else {
      InflowLinear(flows[..|flows| - 1], r, s, j);
      var e := flows[|flows| - 1];
      TimesDistributes(e.p, Minus(r, s)[e.src], s[e.src]);
    }
  }

  // --- the main results

  /** One round brings any two rank vectors closer by the damping factor. */
  lemma RoundContracts(flows: seq<Flow>, r: seq<real>, s: seq<real>)
    requires |r| == |s| > 0
    requires InRange(flows, |r|) && Substochastic(flows, |r|)
    ensures Dist(Round(flows, r), Round(flows, s)) <= 0.85 * Dist(r, s)
  {
    var d := Minus(r, s);
    var gap := Minus(Round(flows, r), Round(flows, s));
    var flow := Inflows(flows, d);
    forall j | 0 <= j < |r|
      ensures gap[j] == 0.85 * flow[j]
    {
      InflowLinear(flows, r, s, j);
    }
    var absGap := seq(|gap|, i requires 0 <= i < |gap| => Abs(gap[i]));
    var absFlow := seq(|flow|, i requires 0 <= i < |flow| => Abs(flow[i]));
    SumAffine(absGap, absFlow, 0.0, 0.85);
    InflowAtMostNorm(flows, d);
  }

  lemma {:induction false} IterateContracts(flows: seq<Flow>, r: seq<real>, s: seq<real>, k: nat)
    requires |r| == |s| > 0
    requires InRange(flows, |r|) && Substochastic(flows, |r|)
    ensures Dist(Iterate(flows, r, k), Iterate(flows, s, k)) <= Times(Power(0.85, k), Dist(r, s))
  {
    if k == 0 {
    } else {
      IterateContracts(flows, r, s, k - 1);
      RoundContracts(flows, Iterate(flows, r, k - 1), Iterate(flows, s, k - 1));
      TimesAssociates(0.85, Power(0.85, k - 1), Dist(r, s));
    }
  }

  lemma TimesAssociates(x: real, y: real, z: real)
    ensures x * Times(y, z) == Times(x * y, z)
  {
  }

  ghost predicate FixedPoint(flows: seq<Flow>, rank: seq<real>) {
    |rank| > 0 && InRange(flows, |rank|) && Round(flows, rank) == rank
  }

  lemma {:induction false} FixedPointStays(flows: seq<Flow>, rank: seq<real>, k: nat)
    requires FixedPoint(flows, rank)
    ensures Iterate(flows, rank, k) == rank
  {
    if k == 0 {
    } else {
      FixedPointStays(flows, rank, k - 1);
    }
  }

  /** After k rounds from any start the ranks are within 0.85^k of their starting distance from
      every fixed point. */
  lemma ApproachesFixedPoint(flows: seq<Flow>, start: seq<real>, fixed: seq<real>, k: nat)
    requires FixedPoint(flows, fixed) && |start| == |fixed|
    requires Substochastic(flows, |fixed|)
    ensures Dist(Iterate(flows, start, k), fixed) <= Times(Power(0.85, k), Dist(start, fixed))
  {
    IterateContracts(flows, start, fixed, k);
    FixedPointStays(flows, fixed, k);
  }

  /** There is at most one ranking to converge to. */
  lemma FixedPointUnique(flows: seq<Flow>, r: seq<real>, s: seq<real>)
    requires FixedPoint(flows, r) && FixedPoint(flows, s) && |r| == |s|
    requires Substochastic(flows, |r|)
    ensures r == s
  {
    RoundContracts(flows, r, s);
    ZeroNormIsZero(Minus(r, s));
    forall i | 0 <= i < |r|
      ensures r[i] == s[i]
    {
      assert Minus(r, s)[i] == 0.0;
    }
  }

  /** Every rank keeps its teleportation share, whatever the edge weights are. */
  lemma {:induction false} RanksPositive(flows: seq<Flow>, rank: seq<real>, k: nat)
    requires |rank| > 0 && InRange(flows, |rank|)
    requires forall i :: 0 <= i < |rank| ==> 0.15 / |rank| as real <= rank[i]
    ensures forall i :: 0 <= i < |rank| ==> 0.15 / |rank| as real <= Iterate(flows, rank, k)[i]
  {
    if k == 0 {
    } else {
      RanksPositive(flows, rank, k - 1);
      var r := Iterate(flows, rank, k - 1);
      forall i | 0 <= i < |rank|
        ensures Base(|rank|) <= Round(flows, r)[i]
      {
        InflowNonnegative(flows, r, i);
      }
    }
  }

  lemma {:induction false} InflowNonnegative(flows: seq<Flow>, rank: seq<real>, j: nat)
    requires InRange(flows, |rank|)
    requires forall i :: 0 <= i < |rank| ==> 0.0 <= rank[i]
    ensures 0.0 <= Inflow(flows, rank, j)
  {
    if flows == [] {
    } else {
      InflowNonnegative(flows[..|flows| - 1], rank, j);
    }
  }

  /** Rank mass is conserved up to what the END transitions absorb: it stays within [0.15, 1]. */
  lemma {:induction false} MassBounds(flows: seq<Flow>, rank: seq<real>, k: nat)
    requires |rank| > 0 && InRange(flows, |rank|) && Substochastic(flows, |rank|)
    requires forall i :: 0 <= i < |rank| ==> 0.15 / |rank| as real <= rank[i]
    requires 0.15 <= Sum(rank) <= 1.0
    ensures 0.15 <= Sum(Iterate(flows, rank, k)) <= 1.0
  {
    if k == 0 {
    } else {
      MassBounds(flows, rank, k - 1);
      RanksPositive(flows, rank, k - 1);
      MassAfterRound(flows, Iterate(flows, rank, k - 1));
    }
  }

  lemma MassAfterRound(flows: seq<Flow>, r: seq<real>)
    requires |r| > 0 && InRange(flows, |r|) && Substochastic(flows, |r|)
    requires forall i :: 0 <= i < |r| ==> 0.0 <= r[i]
    ensures 0.15 <= Sum(Round(flows, r)) <= 0.15 + 0.85 * Sum(r)
  {
    RoundMass(flows, r);
    var n := |r|;
    var flow := Inflows(flows, r);
    forall j | 0 <= j < n
      ensures 0.0 <= flow[j]
    {
      InflowNonnegative(flows, r, j);
    }
    NormOfNonnegative(flow);
    NormNonnegative(flow);
    NormOfNonnegative(r);
    InflowAtMostNorm(flows, r);
  }

  lemma RoundMass(flows: seq<Flow>, r: seq<real>)
    requires |r| > 0 && InRange(flows, |r|)
    ensures Sum(Round(flows, r)) == 0.15 + 0.85 * Sum(Inflows(flows, r))
  {
    SumAffine(Round(flows, r), Inflows(flows, r), Base(|r|), 0.85);
    BaseTimesNodes(|r|);
  }

  lemma BaseTimesNodes(n: nat)
    requires n > 0
    ensures Base(n) * n as real == 0.15
    ensures 0.0 < Base(n) <= 1.0 / n as real
  {
  }

  lemma DivideMonotone(a: real, b: real, x: real)
    requires 0.0 < a <= b && 0.0 < x
    ensures 0.0 < a / x <= b / x
  {
  }

  lemma UniformIsAStart(n: nat)
    requires n > 0
    ensures |Uniform(n)| == n && Sum(Uniform(n)) == 1.0
    ensures forall i :: 0 <= i < n ==> 0.15 / n as real <= Uniform(n)[i]
  {
    SumConstant(Uniform(n), 1.0 / n as real);
    BaseTimesNodes(n);
  }

  /** So the ranks the program stops at are within 0.0346 of it. */
  lemma DampingAfterAllRounds()
    ensures 2.0 * Power(0.85, 25) < 0.0346
  {
    var x := 0.85;
    assert Power(x, 5) == 0.4437053125;
    PowerAdds(x, 5, 5);
    PowerAdds(x, 10, 10);
    PowerAdds(x, 20, 5);
  }

  // --- the equation has a solution

  /** Probability of going from node i to node j. */
  ghost function Carry(flows: seq<Flow>, i: nat, j: nat): real {
    if flows == [] then 0.0 else
      var e := flows[|flows| - 1];
      Carry(flows[..|flows| - 1], i, j) + (if e.src == i && e.dst == j && e.p > 0.0 then e.p else 0.0)
  }

  ghost function CarriedFrom(flows: seq<Flow>, i: nat): nat -> real {
    (j: nat) => Carry(flows, i, j)
  }

  ghost function CarriedTo(flows: seq<Flow>, rank: seq<real>, j: nat): nat -> real {
    (i: nat) => if i < |rank| then Times(rank[i], Carry(flows, i, j)) else 0.0
  }

  lemma {:induction false} CarryNonnegative(flows: seq<Flow>, i: nat, j: nat)
    ensures 0.0 <= Carry(flows, i, j)
  {
    if flows == [] {
    } else {
      CarryNonnegative(flows[..|flows| - 1], i, j);
    }
  }

  lemma {:induction false} RowSumIsCarried(flows: seq<Flow>, i: nat, n: nat)
    requires InRange(flows, n)
    ensures RowSum(flows, i) == Upto(CarriedFrom(flows, i), n)
  {
    if flows == [] {
      UptoZero(CarriedFrom(flows, i), n);
    } else {
      var front, e := flows[..|flows| - 1], flows[|flows| - 1];
      RowSumIsCarried(front, i, n);
      UptoChange(CarriedFrom(front, i), CarriedFrom(flows, i), e.dst, n);
    }
  }

  lemma {:induction false} InflowIsCarried(flows: seq<Flow>, rank: seq<real>, j: nat)
    requires InRange(flows, |rank|)
    ensures Inflow(flows, rank, j) == Upto(CarriedTo(flows, rank, j), |rank|)
  {
    if flows == [] {
      UptoZero(CarriedTo(flows, rank, j), |rank|);
    } else {
      var front, e := flows[..|flows| - 1], flows[|flows| - 1];
      InflowIsCarried(front, rank, j);
      UptoChange(CarriedTo(front, rank, j), CarriedTo(flows, rank, j), e.src, |rank|);
      TimesDistributes(rank[e.src], Carry(front, e.src, j), if e.dst == j && e.p > 0.0 then e.p else 0.0);
    }
  }

  /** The random-surfer equation, node by node: a rank is 0.15 shared among all nodes and 0.85 of what every
      node passes on. */
  lemma SurferEquation(flows: seq<Flow>, rank: seq<real>, j: nat)
    requires j < |rank| && InRange(flows, |rank|)
    ensures Round(flows, rank)[j] == 0.15 / |rank| as real + 0.85 * Upto(CarriedTo(flows, rank, j), |rank|)
  {
    InflowIsCarried(flows, rank, j);
  }

  /** The random-surfer equation as a linear system. */
  ghost function Damped(flows: seq<Flow>): Matrix {
    (j: nat, i: nat) => 0.85 * Carry(flows, i, j)
  }

  ghost function Teleport(n: nat): nat -> real
    requires n > 0
  {
    (j: nat) => Base(n)
  }

  lemma DampedIsLeaky(flows: seq<Flow>, n: nat)
    requires InRange(flows, n) && Substochastic(flows, n)
    ensures Leaky(Damped(flows), n)
  {
    forall i: nat, j: nat | i < n && j < n
      ensures 0.0 <= Damped(flows)(j, i)
    {
      CarryNonnegative(flows, i, j);
    }
    var zero: nat -> real := (j: nat) => 0.0;
    UptoZero(zero, n);
    forall i: nat | i < n
      ensures Upto(Column(Damped(flows), i), n) < 1.0
    {
      UptoCombine(zero, CarriedFrom(flows, i), Column(Damped(flows), i), 0.85, n);
      RowSumIsCarried(flows, i, n);
    }
  }

  lemma SolutionIsFixed(flows: seq<Flow>, x: seq<real>)
    requires |x| > 0 && InRange(flows, |x|) && Solves(Damped(flows), Teleport(|x|), x)
    ensures FixedPoint(flows, x)
  {
    var zero: nat -> real := (j: nat) => 0.0;
    UptoZero(zero, |x|);
    forall j: nat | j < |x|
      ensures Round(flows, x)[j] == x[j]
    {
      forall i: nat | i < |x|
        ensures Row(Damped(flows), x, j)(i) == Times(0.85, CarriedTo(flows, x, j)(i))
      {
        TimesReordered(0.85, Carry(flows, i, j), x[i]);
      }
      UptoCombine(zero, CarriedTo(flows, x, j), Row(Damped(flows), x, j), 0.85, |x|);
      InflowIsCarried(flows, x, j);
    }
  }

  lemma TimesReordered(x: real, y: real, z: real)
    ensures Times(x * y, z) == Times(x, Times(z, y))
  {
  }

  /** There is always a ranking that satisfies the random-surfer equation; with at most one such
      ranking, it is what the iteration approximates. It too gives every node its teleportation share and
      has a mass in [0.15, 1]. */
  lemma FixedPointExists(flows: seq<Flow>, n: nat) returns (fixed: seq<real>)
    requires n > 0 && InRange(flows, n) && Substochastic(flows, n)
    ensures FixedPoint(flows, fixed) && |fixed| == n
    ensures forall i :: 0 <= i < n ==> 0.15 / n as real <= fixed[i]
    ensures 0.15 <= Sum(fixed) <= 1.0
  {
    DampedIsLeaky(flows, n);
    BaseTimesNodes(n);
    fixed := Solution(n, Damped(flows), Teleport(n));
    SolutionIsFixed(flows, fixed);
    MassAfterRound(flows, fixed);
  }

  /** The ranks after k rounds are within 2 * 0.85^k, in total, of the one true ranking. */
  lemma RanksApproachTheRanking(flows: seq<Flow>, n: nat, k: nat) returns (fixed: seq<real>)
    requires n > 0 && InRange(flows, n) && Substochastic(flows, n)
    ensures FixedPoint(flows, fixed) && |fixed| == n
    ensures Dist(Iterate(flows, Uniform(n), k), fixed) <= 2.0 * Power(0.85, k)
  {
    fixed := FixedPointExists(flows, n);
    UniformIsAStart(n);
    BaseTimesNodes(n);
    ApproachesFixedPoint(flows, Uniform(n), fixed, k);
    DistAtMostMasses(Uniform(n), fixed);
    PowerNonnegative(k);
    ProductBound(Power(0.85, k), Dist(Uniform(n), fixed));
  }

  lemma {:induction false} PowerNonnegative(k: nat)
    ensures 0.0 <= Power(0.85, k)
  {
    if k == 0 {
    } else {
      PowerNonnegative(k - 1);
    }
  }

  lemma ProductBound(a: real, b: real)
    requires 0.0 <= a && b <= 2.0
    ensures Times(a, b) <= 2.0 * a
  {
  }

  // --- the smallest graph with an edge

  /** Two nodes and one transition: after two rounds the ranks no longer change. */
  lemma {:induction false} TwoNodeRanks(src: nat, dst: nat, p: real, rank: seq<real>, k: nat)
    requires src < 2 && dst < 2 && src != dst && p > 0.0 && |rank| == 2 && k >= 2
    ensures var r := Iterate([Flow(src, dst, p)], rank, k); r[src] == 0.075 && r[dst] == 0.075 * (1.0 + 0.85 * p)
    decreases k
  {
    var flows := [Flow(src, dst, p)];
    OneFlow(flows, Iterate(flows, rank, k - 1));
    if k == 2 {
      OneFlow(flows, rank);
      assert Iterate(flows, rank, 1) == Round(flows, rank);
    } else {
      TwoNodeRanks(src, dst, p, rank, k - 1);
    }
    ShareOfBase(p);
  }

  lemma OneFlow(flows: seq<Flow>, rank: seq<real>)
    requires |rank| == 2 && |flows| == 1 && flows[0].src < 2 && flows[0].dst < 2 && flows[0].p > 0.0
    ensures var r, e := Round(flows, rank), flows[0];
      && (e.src != e.dst ==> r[e.src] == 0.075)
      && r[e.dst] == 0.075 + 0.85 * Times(rank[e.src], e.p)
  {
    var e := flows[0];
    assert flows[..0] == [];
    assert Inflow(flows, rank, e.dst) == Times(rank[e.src], e.p);
    assert e.src != e.dst ==> Inflow(flows, rank, e.src) == 0.0;
  }

  lemma ShareOfBase(p: real)
    ensures 0.075 + 0.85 * Times(0.075, p) == 0.075 * (1.0 + 0.85 * p)
  {
  }

  // --- the iteration itself

  /** Runs the fixed number of rounds, each into a fresh slice that then replaces the ranks. */
  method PowerIterate(flows: seq<Flow>, n: nat) returns (rank: array<real>)
    requires n > 0 && InRange(flows, n)
    ensures rank[..] == Iterate(flows, Uniform(n), 25)
  {
    rank := new real[n](_ => 1.0 / n as real);
    assert rank[..] == Uniform(n);
    for iter := 0 to ITERATIONS
      invariant rank.Length == n
      invariant rank[..] == Iterate(flows, Uniform(n), iter)
    {
      rank := OneRound(flows, rank);
    }
  }

  method OneRound(flows: seq<Flow>, rank: array<real>) returns (next: array<real>)
    requires rank.Length > 0 && InRange(flows, rank.Length)
    ensures fresh(next) && rank[..] == old(rank[..])
    ensures next[..] == Round(flows, rank[..])
  {
    var base := (1.0 - DAMPING) / rank.Length as real;
    next := new real[rank.Length](_ => base);
    ghost var ranks := rank[..];
    assert next[..] == Round([], ranks);
    for k := 0 to |flows|
      invariant rank[..] == ranks
      invariant next[..] == Round(flows[..k], ranks)
    {
      var e := flows[k];
      assert flows[..k + 1] == flows[..k] + [e];
      RoundStep(flows[..k], e, ranks);
      if e.p > 0.0 {
        next[e.dst] := next[e.dst] + DampedShare(rank[e.src], e.p);
      }
    }
    assert flows[..|flows|] == flows;
  }

  lemma RoundStep(front: seq<Flow>, e: Flow, rank: seq<real>)
    requires InRange(front, |rank|) && e.src < |rank| && e.dst < |rank|
    ensures InRange(front + [e], |rank|)
    ensures var next := Round(front, rank);
      Round(front + [e], rank) == if e.p > 0.0 then next[e.dst := next[e.dst] + DampedShare(rank[e.src], e.p)] else next
  {
    assert (front + [e])[..|front|] == front;
    var x := if e.p > 0.0 then Times(rank[e.src], e.p) else 0.0;
    assert forall j :: 0 <= j < |rank| ==>
        Inflow(front + [e], rank, j) == Inflow(front, rank, j) + (if e.dst == j then x else 0.0);
    assert e.p > 0.0 ==> DampedShare(rank[e.src], e.p) == 0.85 * x;
  }

  function DampedShare(x: real, p: real): real {
    DAMPING * x * p
  }

}
