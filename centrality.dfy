/** The centrality ranking modules of centrality_measures_module.py: the
    multigraph collapse, the two degree tables and the ranked output. */
module Centrality {
  import opened Common
  import opened Graphs
  import opened Ranking

  /** An edge of the multigraph `MG`, with its `weight` attribute if it has one. */
  datatype MultiEdge = MultiEdge(source: NodeId, target: NodeId, weight: Option<real>)

  /** What the outputs of a ranking module hold. */
  datatype RankingOutputs = RankingOutputs(table: seq<Row>, network: Graph)

  const DegreeScoreAttribute := "Degree Score"
  const WeightedDegreeScoreAttribute := "Weighted Degree Score"
  const BetweennessScoreAttribute := "Betweenness Score"
  const EigenvectorScoreAttribute := "Eigenvector Score"
  const ClosenessScoreAttribute := "Closeness Score"

  /** `data['weight'] if 'weight' in data else 1.0` */
  function EdgeWeight(e: MultiEdge): real
  {
    match e.weight
    case Some(w) => w
    case None => 1.0
  }

  /** The sum of the weights of the multigraph edges from `u` to `v`. */
  function ParallelWeight(edges: seq<MultiEdge>, u: NodeId, v: NodeId): real
  {
    if |edges| == 0 then 0.0
    else
      var e := edges[|edges| - 1];
      ParallelWeight(edges[..|edges| - 1], u, v) + (if e.source == u && e.target == v then EdgeWeight(e) else 0.0)
  }

  /** The ordered pairs joined by at least one multigraph edge. */
  function Arcs(edges: seq<MultiEdge>): set<(NodeId, NodeId)>
  {
    set e | e in edges :: (e.source, e.target)
  }

  /** The nodes that are an endpoint of some multigraph edge. */
  function Endpoints(edges: seq<MultiEdge>): set<NodeId>
  {
    (set e | e in edges :: e.source) + (set e | e in edges :: e.target)
  }

  /** The collapse loop: builds the DiGraph `graph`, whose node order is the
      order in which `add_edge` first meets each endpoint and whose edge
      `(u, v)` carries the summed weight of all multigraph edges u -> v. */
  method CollapseMultiEdges(edges: seq<MultiEdge>) returns (nodes: seq<NodeId>, weight: map<(NodeId, NodeId), real>)
    ensures weight.Keys == Arcs(edges)
    ensures forall p :: p in weight ==> weight[p] == ParallelWeight(edges, p.0, p.1)
    ensures Distinct(nodes)
    ensures forall n :: n in nodes <==> n in Endpoints(edges)
  {
    nodes, weight := [], map[];
    for i := 0 to |edges|
      invariant weight.Keys == Arcs(edges[..i])
      invariant forall p :: p in weight ==> weight[p] == ParallelWeight(edges[..i], p.0, p.1)
      invariant Distinct(nodes)
      invariant forall n :: n in nodes <==> n in Endpoints(edges[..i])
    {
      var e := edges[i];
      var u, v, w := e.source, e.target, EdgeWeight(e);
      ghost var done, old_weight, old_nodes := edges[..i], weight, nodes;
      assert edges[..i + 1] == done + [e];
      ArcsSnoc(done, e);
      EndpointsSnoc(done, e);
      if (u, v) in weight {
        ArcEndpoints(done, u, v);
        weight := weight[(u, v) := weight[(u, v)] + w];
      } else {
        ParallelWeightAbsent(done, u, v);
        weight := weight[(u, v) := w];
        nodes := AddNew(AddNew(nodes, u), v);
      }
      forall p | p in weight ensures weight[p] == ParallelWeight(done + [e], p.0, p.1) {
        ParallelWeightSnoc(done, e, p.0, p.1);
      }
    }
    assert edges[..|edges|] == edges;
  }

  /** `add_edge` adds an endpoint to the node order only the first time. */
  function AddNew(nodes: seq<NodeId>, n: NodeId): (r: seq<NodeId>)
    requires Distinct(nodes)
    ensures Distinct(r)
    ensures forall m :: m in r <==> m in nodes || m == n
  {
    if n in nodes then nodes else nodes + [n]
  }

  lemma ArcsSnoc(edges: seq<MultiEdge>, e: MultiEdge)
    ensures Arcs(edges + [e]) == Arcs(edges) + {(e.source, e.target)}
  {
    forall p | p in Arcs(edges + [e]) ensures p in Arcs(edges) + {(e.source, e.target)} {
      var x :| x in edges + [e] && p == (x.source, x.target);
      if x != e {
        assert x in edges;
      }
    }
    forall p | p in Arcs(edges) ensures p in Arcs(edges + [e]) {
      var x :| x in edges && p == (x.source, x.target);
      assert x in edges + [e];
    }
    assert e in edges + [e];
  }

  lemma EndpointsSnoc(edges: seq<MultiEdge>, e: MultiEdge)
    ensures Endpoints(edges + [e]) == Endpoints(edges) + {e.source, e.target}
  {
    forall n | n in Endpoints(edges + [e]) ensures n in Endpoints(edges) + {e.source, e.target} {
      var x :| x in edges + [e] && (n == x.source || n == x.target);
      if x != e {
        assert x in edges;
      }
    }
    forall n | n in Endpoints(edges) ensures n in Endpoints(edges + [e]) {
      var x :| x in edges && (n == x.source || n == x.target);
      assert x in edges + [e];
    }
    assert e in edges + [e];
  }

  lemma ParallelWeightSnoc(edges: seq<MultiEdge>, e: MultiEdge, u: NodeId, v: NodeId)
    ensures ParallelWeight(edges + [e], u, v)
      == ParallelWeight(edges, u, v) + (if e.source == u && e.target == v then EdgeWeight(e) else 0.0)
  {
    assert (edges + [e])[..|edges|] == edges;
  }

  lemma ArcEndpoints(edges: seq<MultiEdge>, u: NodeId, v: NodeId)
    requires (u, v) in Arcs(edges)
    ensures u in Endpoints(edges) && v in Endpoints(edges)
  {
    var x :| x in edges && (u, v) == (x.source, x.target);
  }

  /** No edge from `u` to `v`, no weight. */
  lemma {:induction false} ParallelWeightAbsent(edges: seq<MultiEdge>, u: NodeId, v: NodeId)
    requires (u, v) !in Arcs(edges)
    ensures ParallelWeight(edges, u, v) == 0.0
  {
    if |edges| > 0 {
      var n := |edges| - 1;
      assert Arcs(edges[..n]) <= Arcs(edges) by {
        forall p | p in Arcs(edges[..n]) ensures p in Arcs(edges) {
          var e :| e in edges[..n] && p == (e.source, e.target);
        }
      }
      assert (edges[n].source, edges[n].target) in Arcs(edges);
      ParallelWeightAbsent(edges[..n], u, v);
    }
  }

  /** The arcs leaving `n` and the arcs entering `n`. */
  function OutArcs(arcs: set<(NodeId, NodeId)>, n: NodeId): set<(NodeId, NodeId)>
  {
    set p | p in arcs && p.0 == n
  }

  function InArcs(arcs: set<(NodeId, NodeId)>, n: NodeId): set<(NodeId, NodeId)>
  {
    set p | p in arcs && p.1 == n
  }

  /** `graph.degree(n)` of a DiGraph without a weight argument: out-degree
      plus in-degree, counting arcs, not their weights. */
  function DiDegree(arcs: set<(NodeId, NodeId)>, n: NodeId): nat
  {
    |OutArcs(arcs, n)| + |InArcs(arcs, n)|
  }

  /** The `weight_degree` loop over the nodes of `graph`. */
  method WeightedDegrees(nodes: seq<NodeId>, weight: map<(NodeId, NodeId), real>) returns (wd: map<NodeId, nat>)
    ensures wd.Keys == set n | n in nodes
    ensures forall n :: n in wd ==> wd[n] == DiDegree(weight.Keys, n)
  {
    wd := map[];
    for i := 0 to |nodes|
      invariant wd.Keys == set n | n in nodes[..i]
      invariant forall n :: n in wd ==> wd[n] == DiDegree(weight.Keys, n)
    {
      var node := nodes[i];
      var out := set p | p in weight.Keys && p.0 == node;
      var inc := set p | p in weight.Keys && p.1 == node;
      wd := wd[node := |out| + |inc|];
      assert nodes[..i + 1] == nodes[..i] + [node];
    }
    assert nodes[..|nodes|] == nodes;
  }

  /** The `degree` loop over the nodes of `G`: one item per node, in `G`'s
      order, scored with its degree. */
  method DegreeScores(g: Graph) returns (degree: seq<Scored>)
    requires g.Valid()
    ensures |degree| == |g.nodes|
    ensures forall k :: 0 <= k < |g.nodes| ==> degree[k] == Scored(g.nodes[k], Degree(g, g.nodes[k]) as real)
  {
    degree := [];
    for i := 0 to |g.nodes|
      invariant |degree| == i
      invariant forall k :: 0 <= k < i ==> degree[k] == Scored(g.nodes[k], Degree(g, g.nodes[k]) as real)
    {
      var node := g.nodes[i];
      degree := degree + [Scored(node, Degree(g, node) as real)];
    }
  }

  /** The degree dict, as the item list `DegreeScores` builds. */
  function DegreeItems(g: Graph): (items: seq<Scored>)
    requires g.Valid()
    ensures |items| == |g.nodes|
  {
    seq(|g.nodes|, k requires 0 <= k < |g.nodes| => Scored(g.nodes[k], Degree(g, g.nodes[k]) as real))
  }

  /** A node -> score dict as the values handed to `set_node_attributes`. */
  function ScoreValues(items: seq<Scored>): (values: map<NodeId, Attr>)
    requires DistinctNodes(items)
    ensures forall k :: 0 <= k < |items| ==> items[k].node in values && values[items[k].node] == RealAttr(items[k].score)
    ensures forall n :: n in values ==> exists k :: 0 <= k < |items| && items[k].node == n
  {
    map k | 0 <= k < |items| :: items[k].node := RealAttr(items[k].score)
  }

  function DegreeValues(g: Graph): (values: map<NodeId, Attr>)
    requires g.Valid()
    ensures values.Keys == set n | n in g.nodes
    ensures forall n :: n in values ==> values[n] == IntAttr(Degree(g, n))
  {
    map n | n in g.nodes :: IntAttr(Degree(g, n))
  }

  function WeightedDegreeValues(wd: map<NodeId, nat>): (values: map<NodeId, Attr>)
    ensures values.Keys == wd.Keys
    ensures forall n :: n in values ==> values[n] == IntAttr(wd[n])
  {
    map n | n in wd :: IntAttr(wd[n])
  }

  lemma DegreeItemsDistinct(g: Graph)
    requires g.Valid()
    ensures DistinctNodes(DegreeItems(g))
  {
  }

  /** `Degree_Ranking.process`: the degree table of `G`, ranked, and `G` with
      `Degree Score` on every node and `Weighted Degree Score` on the nodes
      with an edge in the collapsed multigraph. */
  method DegreeRanking(g: Graph, multiEdges: seq<MultiEdge>) returns (r: Result<RankingOutputs>)
    requires g.Valid()
    ensures r.Success? <==> |g.nodes| > 0
    ensures r.Failure? ==> r.error == EmptyRanking
    ensures r.Success? ==> r.value.table == RankRows(DegreeItems(g))
    ensures r.Success? ==> r.value.network.nodes == g.nodes && r.value.network.adj == g.adj
    ensures r.Success? ==> r.value.network.attrs.Keys == g.attrs.Keys
    ensures r.Success? ==> forall n :: n in g.nodes ==>
      DegreeScoreAttribute in r.value.network.attrs[n] &&
      r.value.network.attrs[n][DegreeScoreAttribute] == IntAttr(Degree(g, n))
    ensures r.Success? ==> forall n :: n in g.nodes && n in Endpoints(multiEdges) ==>
      WeightedDegreeScoreAttribute in r.value.network.attrs[n] &&
      r.value.network.attrs[n][WeightedDegreeScoreAttribute] == IntAttr(DiDegree(Arcs(multiEdges), n))
    ensures r.Success? ==> forall n :: n in g.nodes && n !in Endpoints(multiEdges) ==>
      r.value.network.attrs[n] == g.attrs[n][DegreeScoreAttribute := IntAttr(Degree(g, n))]
    ensures r.Success? ==> forall n, a ::
      n in g.attrs && a in g.attrs[n] && a !in {DegreeScoreAttribute, WeightedDegreeScoreAttribute} ==>
      a in r.value.network.attrs[n] && r.value.network.attrs[n][a] == g.attrs[n][a]
  {
    var graphNodes, weight := CollapseMultiEdges(multiEdges);
    var degree := DegreeScores(g);
    var withDegree := SetNodeAttributes(g, DegreeValues(g), DegreeScoreAttribute);
    var weightDegree := WeightedDegrees(graphNodes, weight);
    var network := SetNodeAttributes(withDegree, WeightedDegreeValues(weightDegree), WeightedDegreeScoreAttribute);
    assert degree == DegreeItems(g);
    var table := RankTable(degree);
    if table.Failure? {
      return Failure(table.error);
    }
    return Success(RankingOutputs(table.value, network));
  }

  /** `Betweenness_Ranking`, `Eigenvector_Ranking` and `Closeness_Ranking`:
      the library's score per node of `G` (in `G`'s order), ranked, and `G`
      with the score attached under `attribute`. */
  method ScoreRanking(g: Graph, scores: seq<Scored>, attribute: string) returns (r: Result<RankingOutputs>)
    requires g.Valid()
    requires |scores| == |g.nodes| && forall k :: 0 <= k < |scores| ==> scores[k].node == g.nodes[k]
    ensures r.Success? <==> |g.nodes| > 0
    ensures r.Failure? ==> r.error == EmptyRanking
    ensures r.Success? ==> r.value.table == RankRows(scores)
    ensures r.Success? ==> r.value.network.nodes == g.nodes && r.value.network.adj == g.adj
    ensures r.Success? ==> r.value.network.attrs.Keys == g.attrs.Keys
    ensures r.Success? ==> forall k :: 0 <= k < |scores| ==>
      scores[k].node in r.value.network.attrs && attribute in r.value.network.attrs[scores[k].node] &&
      r.value.network.attrs[scores[k].node][attribute] == RealAttr(scores[k].score)
    ensures r.Success? ==> forall n, a :: n in g.attrs && a in g.attrs[n] && a != attribute ==>
      a in r.value.network.attrs[n] && r.value.network.attrs[n][a] == g.attrs[n][a]
  {
    assert DistinctNodes(scores);
    var network := SetNodeAttributes(g, ScoreValues(scores), attribute);
    var table := RankTable(scores);
    if table.Failure? {
      return Failure(table.error);
    }
    return Success(RankingOutputs(table.value, network));
  }

  // ---------------------------------------------------------------------
  // What the collapse and the weighted degree promise.

  /** Only the endpoints of the multigraph edges matter to the arcs: the
      weighted degree does not depend on any weight. */
  lemma ArcsIgnoreWeights(e1: seq<MultiEdge>, e2: seq<MultiEdge>)
    requires |e1| == |e2|
    requires forall k :: 0 <= k < |e1| ==> e1[k].source == e2[k].source && e1[k].target == e2[k].target
    ensures Arcs(e1) == Arcs(e2)
    ensures forall n :: DiDegree(Arcs(e1), n) == DiDegree(Arcs(e2), n)
  {
    forall p | p in Arcs(e1) ensures p in Arcs(e2) {
      var e :| e in e1 && p == (e.source, e.target);
      var k :| 0 <= k < |e1| && e1[k] == e;
      assert (e2[k].source, e2[k].target) == p;
    }
    forall p | p in Arcs(e2) ensures p in Arcs(e1) {
      var e :| e in e2 && p == (e.source, e.target);
      var k :| 0 <= k < |e2| && e2[k] == e;
      assert (e1[k].source, e1[k].target) == p;
    }
  }

  /** Every node of the collapsed digraph has weighted degree at least one. */
  lemma EndpointsHaveDegree(edges: seq<MultiEdge>, n: NodeId)
    requires n in Endpoints(edges)
    ensures DiDegree(Arcs(edges), n) >= 1
  {
    var e :| e in edges && (e.source == n || e.target == n);
    var p := (e.source, e.target);
    assert p in Arcs(edges);
    if e.source == n {
      assert p in OutArcs(Arcs(edges), n);
    } else {
      assert p in InArcs(Arcs(edges), n);
    }
  }

  /** (u, v) and (v, u) are separate arcs: the weight of one never includes
      an edge in the other direction. */
  lemma {:induction false} ParallelWeightDirected(edges: seq<MultiEdge>, u: NodeId, v: NodeId)
    requires u != v
    requires forall e :: e in edges ==> e.source == v && e.target == u
    ensures ParallelWeight(edges, u, v) == 0.0
  {
    if |edges| > 0 {
      ParallelWeightDirected(edges[..|edges| - 1], u, v);
    }
  }

  /** Parallel edges 1 -> 2 of weights 2 and 3 collapse into one arc of
      weight 5, and both endpoints get weighted degree 1. */
  lemma ParallelEdgesExample()
    ensures var edges := [MultiEdge(1, 2, Some(2.0)), MultiEdge(1, 2, Some(3.0))];
      && ParallelWeight(edges, 1, 2) == 5.0
      && Arcs(edges) == {(1, 2)}
      && DiDegree(Arcs(edges), 1) == 1
      && DiDegree(Arcs(edges), 2) == 1
  {
    var edges := [MultiEdge(1, 2, Some(2.0)), MultiEdge(1, 2, Some(3.0))];
    assert edges[..1] == [edges[0]];
    assert Arcs(edges) == {(1, 2)};
    assert OutArcs({(1, 2)}, 1) == {(1, 2)};
    assert InArcs({(1, 2)}, 1) == {};
    assert OutArcs({(1, 2)}, 2) == {};
    assert InArcs({(1, 2)}, 2) == {(1, 2)};
  }

  /** Edges without a weight attribute count 1.0 each. */
  lemma {:induction false} UnweightedParallelWeight(edges: seq<MultiEdge>, u: NodeId, v: NodeId)
    requires forall e :: e in edges ==> e.weight == None
    ensures ParallelWeight(edges, u, v) == CountArcs(edges, u, v) as real
  {
    if |edges| > 0 {
      UnweightedParallelWeight(edges[..|edges| - 1], u, v);
    }
  }

  /** The number of multigraph edges from `u` to `v`. */
  function CountArcs(edges: seq<MultiEdge>, u: NodeId, v: NodeId): nat
  {
    if |edges| == 0 then 0
    else
      var e := edges[|edges| - 1];
      CountArcs(edges[..|edges| - 1], u, v) + (if e.source == u && e.target == v then 1 else 0)
  }
}
