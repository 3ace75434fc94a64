/** From a mined transition matrix to endpoints ranked by criticality
    (pkg/generator/dependency_graph.go). */
module DependencyGraph {
  import opened Options
  import opened Sums
  import opened Sorting
  import opened PageRank

  const END := "END"

  datatype TransitionMatrix = TransitionMatrix(
    counts: map<string, map<string, int>>,
    probabilities: map<string, map<string, real>>,
    totalTransitions: map<string, int>)

  datatype GraphNode = GraphNode(id: string, totalTraffic: int, criticality: real)
  datatype GraphEdge = GraphEdge(src: string, dst: string, count: int, probability: real)
  datatype Graph = Graph(nodes: seq<GraphNode>, edges: seq<GraphEdge>, mostCritical: seq<string>)
  // --- what the graph is meant to contain

  /** A missing row or entry reads as zero. */
  function Probability(m: TransitionMatrix, src: string, dst: string): real {
    if src in m.probabilities && dst in m.probabilities[src] then m.probabilities[src][dst] else 0.0
  }

  ghost function Endpoints(m: TransitionMatrix): set<string> {
    m.counts.Keys + (set src, dst | src in m.counts && dst in m.counts[src] && dst != END :: dst)
  }

  predicate IsEdge(m: TransitionMatrix, e: GraphEdge) {
    && e.src in m.counts && e.dst in m.counts[e.src] && e.dst != END
    && e.count == m.counts[e.src][e.dst]
    && e.probability == if e.src in m.probabilities && e.dst in m.probabilities[e.src]
                        then m.probabilities[e.src][e.dst] else 0.0
  }

  predicate EdgeLeq(a: GraphEdge, b: GraphEdge) {
    if a.src != b.src then LexLeq(a.src, b.src) else LexLeq(a.dst, b.dst)
  }

  predicate MoreCritical(a: GraphNode, b: GraphNode) {
    a.criticality >= b.criticality
  }

  ghost function IndexOf(ids: seq<string>, id: string): (i: nat)
    requires id in ids
    ensures i < |ids| && ids[i] == id
  {
    var i :| 0 <= i < |ids| && ids[i] == id;
    i
  }

  ghost predicate Closed(edges: seq<GraphEdge>, ids: seq<string>) {
    forall e :: e in edges ==> e.src in ids && e.dst in ids
  }

  ghost function Flows(edges: seq<GraphEdge>, ids: seq<string>): (flows: seq<Flow>)
    requires Closed(edges, ids)
    ensures InRange(flows, |ids|)
  {
    seq(|edges|, k requires 0 <= k < |edges| =>
      Flow(IndexOf(ids, edges[k].src), IndexOf(ids, edges[k].dst), edges[k].probability))
  }

  ghost function Ranks(edges: seq<GraphEdge>, ids: seq<string>): (ranks: seq<real>)
    requires |ids| > 0 && Closed(edges, ids)
    ensures |ranks| == |ids|
  {
    Iterate(Flows(edges, ids), Uniform(|ids|), 25)
  }

  ghost predicate IsMax(x: real, v: seq<real>) {
    x in v && forall y :: y in v ==> y <= x
  }

  /** Traffic leaving an endpoint, END included. */
  ghost predicate IsTraffic(m: TransitionMatrix, id: string, traffic: int) {
    traffic as real == if id in m.counts then SumOver(m.counts[id].Keys, CountOf(m.counts[id])) else 0.0
  }

  ghost function CountOf(row: map<string, int>): string -> real {
    (t: string) => if t in row then row[t] as real else 0.0
  }

  /** What a row of the matrix sends on to endpoints. */
  ghost function RowMass(m: TransitionMatrix, src: string): real {
    if src in m.counts then SumOver(m.counts[src].Keys, Onward(m, src)) else 0.0
  }

  ghost function Onward(m: TransitionMatrix, src: string): string -> real {
    (t: string) => if t != END && Probability(m, src, t) > 0.0 then Probability(m, src, t) else 0.0
  }

  ghost function RowWeight(src: string): GraphEdge -> real {
    (e: GraphEdge) => if e.src == src && e.probability > 0.0 then e.probability else 0.0
  }

  ghost predicate IsEdgeList(m: TransitionMatrix, edges: seq<GraphEdge>) {
    && NoDuplicates(edges)
    && (forall e :: e in edges <==> IsEdge(m, e))
    && forall f :: Total(edges, RowWeight(f)) == RowMass(m, f)
  }

  ghost predicate IsNodeFor(m: TransitionMatrix, edges: seq<GraphEdge>, ids: seq<string>, top: real, node: GraphNode)
    requires |ids| > 0 && Closed(edges, ids) && top > 0.0
  {
    && node.id in ids
    && IsTraffic(m, node.id, node.totalTraffic)
    && node.criticality == Ranks(edges, ids)[IndexOf(ids, node.id)] / top
  }

  ghost predicate IsNodeList(m: TransitionMatrix, edges: seq<GraphEdge>, ids: seq<string>, top: real,
                             nodes: seq<GraphNode>)
    requires |ids| > 0 && Closed(edges, ids) && top > 0.0
  {
    && |nodes| == |ids| && NoDuplicates(NodeIds(nodes))
    && forall node :: node in nodes ==> IsNodeFor(m, edges, ids, top, node)
  }

  /** Edges are listed by source, those of one source by target. */
  ghost predicate InEdgeOrder(edges: seq<GraphEdge>) {
    forall i, j :: 0 <= i < j < |edges| ==>
      if edges[i].src == edges[j].src then LexLeq(edges[i].dst, edges[j].dst) else LexLeq(edges[i].src, edges[j].src)
  }

  /** Everything the finished graph says about the matrix. */
  ghost predicate IsGraphOf(g: Graph, m: TransitionMatrix, ids: seq<string>) {
    && Enumerates(ids, Endpoints(m)) && SortedBy(LexLeq, ids) && |ids| > 0
    && IsEdgeList(m, g.edges) && InEdgeOrder(g.edges) && Closed(g.edges, ids)
    && (forall i, j :: 0 <= i < j < |g.nodes| ==> g.nodes[i].criticality >= g.nodes[j].criticality)
    && |g.mostCritical| == |g.nodes| && (forall i :: 0 <= i < |g.nodes| ==> g.mostCritical[i] == g.nodes[i].id)
    && exists top | IsMax(top, Ranks(g.edges, ids)) && top > 0.0 :: IsNodeList(m, g.edges, ids, top, g.nodes)
  }

  function NodeIds(nodes: seq<GraphNode>): seq<string> {
    seq(|nodes|, i requires 0 <= i < |nodes| => nodes[i].id)
  }

  // --- the construction

  method BuildDependencyGraph(matrix: Option<TransitionMatrix>) returns (g: Graph, ghost ids: seq<string>)
    ensures matrix.None? || matrix.value.counts == map[] ==> g == Graph([], [], [])
    ensures matrix.Some? && matrix.value.counts != map[] ==> IsGraphOf(g, matrix.value, ids)
  {
    if matrix.None? || |matrix.value.counts| == 0 {
      return Graph([], [], []), [];
    }
    g, ids := RankMatrix(matrix.value);
  }

  method RankMatrix(m: TransitionMatrix) returns (g: Graph, ghost ids: seq<string>)
    requires m.counts != map[]
    ensures IsGraphOf(g, m, ids)
  {
    var nodeSet := CollectEndpoints(m);
    var nodes := SortedIds(nodeSet);
    ids := nodes;
    ghost var someone :| someone in m.counts;
    assert someone in nodeSet && someone in nodes;
    var indexOf := IndexNodes(nodes);
    var unordered, totalTraffic := CollectEdges(m);
    EdgeOrderIsTotal();
    var edges := Sort(unordered, EdgeLeq);
    EdgesRearranged(m, unordered, edges);
    EdgesOrdered(edges);
    assert Closed(edges, nodes);
    var rank := RankNodes(edges, nodes, indexOf);
    RanksArePositive(edges, nodes);
    var maxRank := Highest(rank);
    assert maxRank in rank;
    var scored := Score(m, nodes, edges, rank, maxRank, totalTraffic);
    var ranked := Sort(scored, MoreCritical);
    RankedKeepsNodes(scored, ranked);
    NodesOrdered(ranked);
    g := Graph(ranked, edges, NodeIds(ranked));
  }

  method CollectEndpoints(m: TransitionMatrix) returns (nodeSet: set<string>)
    ensures nodeSet == Endpoints(m)
  {
    nodeSet := {};
    var froms := m.counts.Keys;
    while froms != {}
      invariant froms <= m.counts.Keys
      invariant nodeSet == (m.counts.Keys - froms) +
                           (set src, dst | src in m.counts.Keys - froms && dst in m.counts[src] && dst != END :: dst)
      decreases froms
    {
      var src :| src in froms;
      nodeSet := nodeSet + {src} + (set dst | dst in m.counts[src] && dst != END);
      froms := froms - {src};
    }
    assert m.counts.Keys - froms == m.counts.Keys;
  }

  ghost predicate Indexes(indexOf: map<string, nat>, ids: seq<string>) {
    && (forall id :: id in indexOf <==> id in ids)
    && forall i :: 0 <= i < |ids| ==> indexOf[ids[i]] == i
  }

  method IndexNodes(ids: seq<string>) returns (indexOf: map<string, nat>)
    requires NoDuplicates(ids)
    ensures Indexes(indexOf, ids)
  {
    indexOf := map[];
    for i := 0 to |ids|
      invariant forall id :: id in indexOf <==> id in ids[..i]
      invariant forall k :: 0 <= k < i ==> indexOf[ids[k]] == k
    {
      indexOf := indexOf[ids[i] := i];
    }
    assert ids[..|ids|] == ids;
  }

  method CollectEdges(m: TransitionMatrix) returns (edges: seq<GraphEdge>, traffic: map<string, int>)
    ensures IsEdgeList(m, edges)
    ensures forall id :: IsTraffic(m, id, Lookup(traffic, id))
  {
    edges, traffic := [], map[];
    var froms := m.counts.Keys;
    while froms != {}
      invariant froms <= m.counts.Keys
      invariant EdgesSoFar(m, edges, froms)
      invariant forall id :: id in traffic ==> id in m.counts && id !in froms
      invariant forall id :: id !in froms ==> IsTraffic(m, id, Lookup(traffic, id))
      decreases froms
    {
      var src :| src in froms;
      var row, total := CollectRow(m, src);
      RowAdded(m, edges, row, src, froms);
      edges := edges + row;
      if m.counts[src] != map[] {
        traffic := traffic[src := total];
      }
      froms := froms - {src};
    }
  }

  function Lookup(traffic: map<string, int>, id: string): int {
    if id in traffic then traffic[id] else 0
  }

  /** The edges of every source not in `froms`. */
  ghost predicate EdgesSoFar(m: TransitionMatrix, edges: seq<GraphEdge>, froms: set<string>) {
    && NoDuplicates(edges)
    && (forall e :: e in edges <==> IsEdge(m, e) && e.src !in froms)
    && forall f :: Total(edges, RowWeight(f)) == if f in froms then 0.0 else RowMass(m, f)
  }

  ghost predicate IsRow(m: TransitionMatrix, row: seq<GraphEdge>, src: string) {
    && NoDuplicates(row)
    && (forall e :: e in row <==> IsEdge(m, e) && e.src == src)
    && forall f :: Total(row, RowWeight(f)) == if f == src then RowMass(m, f) else 0.0
  }

  lemma RowAdded(m: TransitionMatrix, edges: seq<GraphEdge>, row: seq<GraphEdge>, src: string, froms: set<string>)
    requires src in froms && EdgesSoFar(m, edges, froms) && IsRow(m, row, src)
    ensures EdgesSoFar(m, edges + row, froms - {src})
  {
    forall f
      ensures Total(edges + row, RowWeight(f)) == if f in froms - {src} then 0.0 else RowMass(m, f)
    {
      TotalAppend(edges, row, RowWeight(f));
    }
    NoDuplicatesAppend(edges, row);
    assert forall e :: e in edges + row <==> e in edges || e in row;
  }

  /** The edges from `src` into the given endpoints. */
  ghost predicate RowSoFar(m: TransitionMatrix, row: seq<GraphEdge>, src: string, done: set<string>) {
    && NoDuplicates(row)
    && (forall e :: e in row <==> IsEdge(m, e) && e.src == src && e.dst in done)
    && forall f :: Total(row, RowWeight(f)) == if f == src then SumOver(done, Onward(m, src)) else 0.0
  }

  lemma EdgeAdded(m: TransitionMatrix, row: seq<GraphEdge>, src: string, done: set<string>, dst: string)
    requires RowSoFar(m, row, src, done) && src in m.counts && dst in m.counts[src] && dst !in done
    ensures var e := GraphEdge(src, dst, m.counts[src][dst], Probability(m, src, dst));
      RowSoFar(m, if dst == END then row else row + [e], src, done + {dst})
  {
    var e := GraphEdge(src, dst, m.counts[src][dst], Probability(m, src, dst));
    SumOverPick(done + {dst}, Onward(m, src), dst);
    assert done + {dst} - {dst} == done;
    if dst != END {
      forall f
        ensures Total(row + [e], RowWeight(f)) == Total(row, RowWeight(f)) + RowWeight(f)(e)
      {
        TotalAppend(row, [e], RowWeight(f));
      }
      NoDuplicatesAppend(row, [e]);
    }
  }

  /** The edges and the outbound traffic of one endpoint. */
  method CollectRow(m: TransitionMatrix, src: string) returns (row: seq<GraphEdge>, total: int)
    requires src in m.counts
    ensures IsRow(m, row, src)
    ensures IsTraffic(m, src, total)
  {
    row, total := [], 0;
    var targets := m.counts[src];
    var tos := targets.Keys;
    ghost var done: set<string> := {};
    while tos != {}
      invariant tos <= targets.Keys && done == targets.Keys - tos
      invariant RowSoFar(m, row, src, done)
      invariant total as real == SumOver(done, CountOf(targets))
      decreases tos
    {
      var dst :| dst in tos;
      EdgeAdded(m, row, src, done, dst);
      SumOverPick(done + {dst}, CountOf(targets), dst);
      assert done + {dst} - {dst} == done;
      total := total + targets[dst];
      if dst != END {
        row := row + [GraphEdge(src, dst, targets[dst], Probability(m, src, dst))];
      }
      done := done + {dst};
      tos := tos - {dst};
    }
    assert done == targets.Keys;
  }

  lemma EdgeOrderIsTotal()
    ensures TotalPreorder(EdgeLeq)
    ensures TotalPreorder(MoreCritical)
  {
    forall a, b
      ensures EdgeLeq(a, b) || EdgeLeq(b, a)
    {
      LexTotal(a.src, b.src);
      LexTotal(a.dst, b.dst);
    }
    forall a, b, c | EdgeLeq(a, b) && EdgeLeq(b, c)
      ensures EdgeLeq(a, c)
    {
      LexTotal(a.src, b.src);
      LexTotal(b.src, c.src);
      if a.src == b.src == c.src {
        LexTransitive(a.dst, b.dst, c.dst);
      } else if a.src != b.src && b.src != c.src {
        LexTransitive(a.src, b.src, c.src);
      }
    }
  }

  lemma EdgesOrdered(edges: seq<GraphEdge>)
    requires SortedBy(EdgeLeq, edges)
    ensures InEdgeOrder(edges)
  {
    assert forall i, j :: 0 <= i < j < |edges| ==> EdgeLeq(edges[i], edges[j]);
  }

  lemma NodesOrdered(nodes: seq<GraphNode>)
    requires SortedBy(MoreCritical, nodes)
    ensures forall i, j :: 0 <= i < j < |nodes| ==> nodes[i].criticality >= nodes[j].criticality
  {
    assert forall i, j :: 0 <= i < j < |nodes| ==> MoreCritical(nodes[i], nodes[j]);
  }

  lemma EdgesRearranged(m: TransitionMatrix, a: seq<GraphEdge>, b: seq<GraphEdge>)
    requires multiset(a) == multiset(b) && IsEdgeList(m, a)
    ensures IsEdgeList(m, b)
  {
    SameElements(a, b);
    RearrangedNoDuplicates(a, b);
    forall f
      ensures Total(b, RowWeight(f)) == RowMass(m, f)
    {
      TotalIsOrderFree(a, b, RowWeight(f));
    }
  }

  /** The power iteration, looking every edge up in the index as it goes. */
  method RankNodes(edges: seq<GraphEdge>, ids: seq<string>, indexOf: map<string, nat>) returns (rank: seq<real>)
    requires |ids| > 0 && NoDuplicates(ids) && Closed(edges, ids) && Indexes(indexOf, ids)
    ensures rank == Ranks(edges, ids)
  {
    var flows: seq<Flow> := [];
    ghost var all := Flows(edges, ids);
    for k := 0 to |edges|
      invariant flows == all[..k]
    {
      var e := edges[k];
      assert e in edges;
      flows := flows + [Flow(indexOf[e.src], indexOf[e.dst], e.probability)];
    }
    assert flows == all;
    var ranks := PowerIterate(flows, |ids|);
    rank := ranks[..];
  }

  lemma RanksArePositive(edges: seq<GraphEdge>, ids: seq<string>)
    requires |ids| > 0 && Closed(edges, ids)
    ensures forall r :: r in Ranks(edges, ids) ==> r > 0.0
  {
    UniformIsAStart(|ids|);
    BaseTimesNodes(|ids|);
    RanksPositive(Flows(edges, ids), Uniform(|ids|), 25);
  }

  method Highest(rank: seq<real>) returns (maxRank: real)
    requires |rank| > 0 && forall r :: r in rank ==> r > 0.0
    ensures IsMax(maxRank, rank)
  {
    maxRank := 0.0;
    for i := 0 to |rank|
      invariant i == 0 ==> maxRank == 0.0
      invariant i > 0 ==> IsMax(maxRank, rank[..i])
    {
      assert rank[i] in rank;
      if rank[i] > maxRank {
        maxRank := rank[i];
      }
      assert rank[..i + 1] == rank[..i] + [rank[i]];
    }
    assert rank[..|rank|] == rank;
    if maxRank == 0.0 {
      maxRank := 1.0;
    }
  }

  method Score(m: TransitionMatrix, ids: seq<string>, ghost edges: seq<GraphEdge>, rank: seq<real>, maxRank: real,
               traffic: map<string, int>)
    returns (scored: seq<GraphNode>)
    requires |ids| > 0 && NoDuplicates(ids) && Closed(edges, ids) && maxRank > 0.0
    requires rank == Ranks(edges, ids)
    requires forall id :: IsTraffic(m, id, Lookup(traffic, id))
    ensures IsNodeList(m, edges, ids, maxRank, scored)
  {
    scored := [];
    for i := 0 to |ids|
      invariant NodeIds(scored) == ids[..i]
      invariant forall node :: node in scored ==> IsNodeFor(m, edges, ids, maxRank, node)
    {
      var node := GraphNode(ids[i], Lookup(traffic, ids[i]), rank[i] / maxRank);
      assert IsNodeFor(m, edges, ids, maxRank, node);
      assert NodeIds(scored + [node]) == NodeIds(scored) + [node.id];
      scored := scored + [node];
    }
    assert |NodeIds(scored)| == |scored|;
    assert NodeIds(scored) == ids;
  }

  lemma RankedKeepsNodes(scored: seq<GraphNode>, ranked: seq<GraphNode>)
    requires multiset(scored) == multiset(ranked) && NoDuplicates(NodeIds(scored))
    ensures |scored| == |ranked| && NoDuplicates(NodeIds(ranked))
    ensures forall node :: node in ranked <==> node in scored
  {
    SameElements(scored, ranked);
    forall i, j | 0 <= i < j < |scored|
      ensures scored[i] != scored[j]
    {
      assert NodeIds(scored)[i] != NodeIds(scored)[j];
    }
    RearrangedNoDuplicates(scored, ranked);
    forall i, j | 0 <= i < j < |ranked|
      ensures NodeIds(ranked)[i] != NodeIds(ranked)[j]
    {
      assert ranked[i] in scored && ranked[j] in scored;
      var a :| 0 <= a < |scored| && scored[a] == ranked[i];
      var b :| 0 <= b < |scored| && scored[b] == ranked[j];
      assert a != b;
      assert NodeIds(scored)[a] != NodeIds(scored)[b];
    }
  }

  // --- what an operator can rely on

  /** Criticality is a score in (0, 1], and the endpoint listed first scores exactly 1. */
  lemma CriticalityIsAScore(g: Graph, m: TransitionMatrix, ids: seq<string>)
    requires IsGraphOf(g, m, ids)
    ensures |g.nodes| > 0 && g.nodes[0].criticality == 1.0
    ensures forall node :: node in g.nodes ==> 0.0 < node.criticality <= 1.0
  {
    var top :| IsMax(top, Ranks(g.edges, ids)) && top > 0.0 && IsNodeList(m, g.edges, ids, top, g.nodes);
    forall node | node in g.nodes
      ensures 0.0 < node.criticality <= 1.0
    {
      NodeInRange(m, g.edges, ids, top, node);
    }
    var k := SomeNodeScoresOne(m, g.edges, ids, top, g.nodes);
    assert g.nodes[0] in g.nodes;
    assert k > 0 ==> g.nodes[0].criticality >= g.nodes[k].criticality;
  }

  lemma SomeNodeScoresOne(m: TransitionMatrix, edges: seq<GraphEdge>, ids: seq<string>, top: real,
                          nodes: seq<GraphNode>)
    returns (k: nat)
    requires |ids| > 0 && NoDuplicates(ids) && Closed(edges, ids) && top > 0.0 && IsMax(top, Ranks(edges, ids))
    requires IsNodeList(m, edges, ids, top, nodes)
    ensures k < |nodes| && nodes[k].criticality == 1.0
  {
    var ranks := Ranks(edges, ids);
    var i :| 0 <= i < |ranks| && ranks[i] == top;
    k := Covered(nodes, ids, i);
    assert IsNodeFor(m, edges, ids, top, nodes[k]);
    Ratio(top);
  }

  lemma NodeInRange(m: TransitionMatrix, edges: seq<GraphEdge>, ids: seq<string>, top: real, node: GraphNode)
    requires |ids| > 0 && Closed(edges, ids) && top > 0.0 && IsMax(top, Ranks(edges, ids))
    requires IsNodeFor(m, edges, ids, top, node)
    ensures 0.0 < node.criticality <= 1.0
  {
    RanksArePositive(edges, ids);
    var r := Ranks(edges, ids)[IndexOf(ids, node.id)];
    assert r in Ranks(edges, ids);
    DivideMonotone(r, top, top);
    Ratio(top);
  }

  lemma Ratio(x: real)
    requires x > 0.0
    ensures x / x == 1.0
  {
  }

  /** As many distinct nodes as ids, all of them ids: every id has its node. */
  lemma Covered(nodes: seq<GraphNode>, ids: seq<string>, i: nat) returns (k: nat)
    requires i < |ids| == |nodes| && NoDuplicates(NodeIds(nodes)) && NoDuplicates(ids)
    requires forall node :: node in nodes ==> node.id in ids
    ensures k < |nodes| && nodes[k].id == ids[i]
  {
    var names := NodeIds(nodes);
    if ids[i] !in names {
      DistinctCount(names);
      DistinctCount(ids);
      var a, b := set x | x in names, set x | x in ids;
      assert a <= b - {ids[i]} by {
        forall x | x in a
          ensures x in b && x != ids[i]
        {
          var j :| 0 <= j < |names| && names[j] == x;
          assert nodes[j] in nodes;
        }
      }
      SubsetSize(a, b - {ids[i]});
      assert false;
    }
    k :| 0 <= k < |names| && names[k] == ids[i];
  }

  /** The matrix leads from one endpoint to one other and from there, if anywhere, to the end. */
  ghost predicate IsChain(m: TransitionMatrix, a: string, b: string, count: int, p: real) {
    && a != b && b != "END" && p > 0.0
    && a in m.counts && m.counts.Keys <= {a, b} && m.counts[a] == map[b := count]
    && (b in m.counts ==> m.counts[b].Keys <= {"END"})
    && a in m.probabilities && b in m.probabilities[a] && m.probabilities[a][b] == p
  }

  /** Its target is listed first and scores 1, its source scores 1 / (1 + 0.85 p). */
  lemma ChainCriticality(g: Graph, m: TransitionMatrix, ids: seq<string>, a: string, b: string, count: int, p: real)
    requires IsGraphOf(g, m, ids) && IsChain(m, a, b, count, p)
    ensures g.mostCritical == [b, a] && g.edges == [GraphEdge(a, b, count, p)]
    ensures |g.nodes| == 2 && g.nodes[0].criticality == 1.0 && g.nodes[1] == GraphNode(a, count, 1.0 / (1.0 + 0.85 * p))
  {
    ChainEdges(m, g.edges, a, b, count, p);
    ChainEndpoints(m, a, b, count, p);
    TwoIds(ids, a, b);
    var top :| IsMax(top, Ranks(g.edges, ids)) && top > 0.0 && IsNodeList(m, g.edges, ids, top, g.nodes);
    ChainRanks(g.edges, ids, a, b, count, p, top);
    forall x | x in ids
      ensures x == a || x == b
    {
      OneOfTwo(ids, a, b, x);
    }
    ChainNodes(g.nodes, a, b);
    ChainTraffic(m, a, b, count);
    assert g.nodes[0] in g.nodes && g.nodes[1] in g.nodes;
  }

  lemma ChainRanks(edges: seq<GraphEdge>, ids: seq<string>, a: string, b: string, count: int, p: real, top: real)
    requires |ids| == 2 && a in ids && b in ids && a != b && p > 0.0 && edges == [GraphEdge(a, b, count, p)]
    requires Closed(edges, ids) && IsMax(top, Ranks(edges, ids)) && top > 0.0
    ensures Ranks(edges, ids)[IndexOf(ids, a)] / top == 1.0 / (1.0 + 0.85 * p) < 1.0
    ensures Ranks(edges, ids)[IndexOf(ids, b)] / top == 1.0
  {
    var i, j := IndexOf(ids, a), IndexOf(ids, b);
    assert Flows(edges, ids) == [Flow(i, j, p)];
    TwoNodeRanks(i, j, p, Uniform(2), 25);
    TwoShares(Ranks(edges, ids), i, j, p, top);
  }

  lemma TwoShares(ranks: seq<real>, i: nat, j: nat, p: real, top: real)
    requires |ranks| == 2 && i < 2 && j < 2 && i != j && p > 0.0 && IsMax(top, ranks) && top > 0.0
    requires ranks[i] == 0.075 && ranks[j] == 0.075 * (1.0 + 0.85 * p)
    ensures ranks[i] / top == 1.0 / (1.0 + 0.85 * p) < 1.0 && ranks[j] / top == 1.0
  {
    ChainShares(p);
    assert ranks[i] in ranks && ranks[j] in ranks;
    assert top == ranks[j];
    Ratio(top);
  }

  lemma ChainTraffic(m: TransitionMatrix, a: string, b: string, count: int)
    requires a in m.counts && m.counts[a] == map[b := count]
    ensures forall t: int :: IsTraffic(m, a, t) ==> t == count
  {
    SumOverPick({b}, CountOf(m.counts[a]), b);
    assert {b} - {b} == {};
    assert m.counts[a].Keys == {b};
  }

  lemma ChainShares(p: real)
    requires p > 0.0
    ensures 0.0 < 0.075 < 0.075 * (1.0 + 0.85 * p)
    ensures 0.075 / (0.075 * (1.0 + 0.85 * p)) == 1.0 / (1.0 + 0.85 * p) < 1.0
  {
  }

  lemma ChainEdges(m: TransitionMatrix, edges: seq<GraphEdge>, a: string, b: string, count: int, p: real)
    requires NoDuplicates(edges) && (forall e :: e in edges <==> IsEdge(m, e)) && IsChain(m, a, b, count, p)
    ensures edges == [GraphEdge(a, b, count, p)]
  {
    var e := GraphEdge(a, b, count, p);
    assert IsEdge(m, e) && forall x :: IsEdge(m, x) ==> x == e;
    assert e in edges;
    DistinctCount(edges);
    assert (set x | x in edges) == {e};
  }

  lemma ChainEndpoints(m: TransitionMatrix, a: string, b: string, count: int, p: real)
    requires IsChain(m, a, b, count, p)
    ensures Endpoints(m) == {a, b}
  {
    assert b in m.counts[a];
    forall src, dst | src in m.counts && dst in m.counts[src] && dst != "END"
      ensures dst == b
    {
      assert src == a || src == b;
    }
  }

  lemma TwoIds(ids: seq<string>, a: string, b: string)
    requires Enumerates(ids, {a, b}) && a != b
    ensures |ids| == 2 && a in ids && b in ids
  {
    DistinctCount(ids);
    assert (set x | x in ids) == {a, b};
  }

  lemma ChainNodes(nodes: seq<GraphNode>, a: string, b: string)
    requires |nodes| == 2 && NoDuplicates(NodeIds(nodes))
    requires forall node :: node in nodes ==> node.id == a || node.id == b
    requires forall node :: node in nodes ==> if node.id == b then node.criticality == 1.0 else node.criticality < 1.0
    requires nodes[0].criticality >= nodes[1].criticality
    ensures nodes[0].id == b && nodes[1].id == a
  {
    assert nodes[0] in nodes && nodes[1] in nodes;
    assert NodeIds(nodes)[0] != NodeIds(nodes)[1];
  }

  lemma OneOfTwo(ids: seq<string>, a: string, b: string, x: string)
    requires |ids| == 2 && a in ids && b in ids && a != b && x in ids
    ensures x == a || x == b
  {
  }

  /** When no row of the matrix sends on more than all of its traffic, the edge list the ranks are
      computed from satisfies the contraction hypothesis. */
  lemma RowsBoundFlows(g: Graph, m: TransitionMatrix, ids: seq<string>)
    requires IsGraphOf(g, m, ids)
    requires forall f :: RowMass(m, f) <= 1.0
    ensures Substochastic(Flows(g.edges, ids), |ids|)
  {
    forall i | 0 <= i < |ids|
      ensures RowSum(Flows(g.edges, ids), i) <= 1.0
    {
      RowSumIsTotal(g.edges, ids, i);
      assert Total(g.edges, RowWeight(ids[i])) == RowMass(m, ids[i]);
    }
  }

  lemma FlowsGrow(edges: seq<GraphEdge>, ids: seq<string>)
    requires edges != [] && Closed(edges, ids) && Closed(edges[..|edges| - 1], ids)
    ensures var all, e := Flows(edges, ids), edges[|edges| - 1];
      && e.src in ids && e.dst in ids && |all| == |edges|
      && all[..|edges| - 1] == Flows(edges[..|edges| - 1], ids)
      && all[|edges| - 1] == Flow(IndexOf(ids, e.src), IndexOf(ids, e.dst), e.probability)
  {
    assert edges[|edges| - 1] in edges;
  }

  lemma {:induction false} RowSumIsTotal(edges: seq<GraphEdge>, ids: seq<string>, i: nat)
    requires Closed(edges, ids) && NoDuplicates(ids) && i < |ids|
    ensures RowSum(Flows(edges, ids), i) == Total(edges, RowWeight(ids[i]))
  {
    if edges == [] {
    } else {
      var front, e := edges[..|edges| - 1], edges[|edges| - 1];
      assert edges == front + [e];
      assert e in edges;
      assert Closed(front, ids) by {
        assert forall x :: x in front ==> x in edges;
      }
      RowSumIsTotal(front, ids, i);
      FlowsGrow(edges, ids);
      TotalAppend(front, [e], RowWeight(ids[i]));
      assert IndexOf(ids, e.src) == i <==> e.src == ids[i];
    }
  }
}
