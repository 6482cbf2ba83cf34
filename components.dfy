/** `ExtractLargestComponentModule` (components.py): the network's node and
    edge tables split into the first largest connected component and the
    rest. The components come from the graph library and are an input. */
module Components {
  import opened Common
  import opened Graphs

  /** A row of the `nodes` table and a row of the `edges` table. */
  datatype NodeRow = NodeRow(id: NodeId, attributes: map<string, Attr>)
  datatype EdgeRow = EdgeRow(source: NodeId, target: NodeId, attributes: map<string, Attr>)

  /** A network value: its two tables. */
  datatype NetworkData = NetworkData(nodes: seq<NodeRow>, edges: seq<EdgeRow>)

  function NodeIds(nodes: seq<NodeRow>): set<NodeId>
  {
    set r | r in nodes :: r.id
  }

  /** `cs` are the connected components of the network: non-empty, pairwise
      disjoint, covering the node ids, and every edge lies inside one. */
  ghost predicate IsComponentCover(data: NetworkData, cs: seq<set<NodeId>>)
  {
    && (forall i :: 0 <= i < |cs| ==> cs[i] != {})
    && (forall i, j :: 0 <= i < j < |cs| ==> cs[i] !! cs[j])
    && (forall n :: n in NodeIds(data.nodes) <==> exists i :: 0 <= i < |cs| && n in cs[i])
    && (forall e :: e in data.edges ==> exists i :: 0 <= i < |cs| && e.source in cs[i] && e.target in cs[i])
  }

  /** `max(components, key=len)`: the first component of greatest size. */
  function FirstLargest(cs: seq<set<NodeId>>): (k: nat)
    requires |cs| > 0
    ensures k < |cs|
    ensures forall j :: 0 <= j < |cs| ==> |cs[j]| <= |cs[k]|
    ensures forall j :: 0 <= j < k ==> |cs[j]| < |cs[k]|
  {
    if |cs| == 1 then 0
    else
      var k := FirstLargest(cs[..|cs| - 1]);
      assert forall j :: 0 <= j < |cs| - 1 ==> cs[j] == cs[..|cs| - 1][j];
      if |cs[|cs| - 1]| > |cs[k]| then |cs| - 1 else k
  }

  /** The rows whose id is in `s` (`inside`) or not in `s` (not `inside`). */
  function NodesWhere(nodes: seq<NodeRow>, s: set<NodeId>, inside: bool): (r: seq<NodeRow>)
    ensures forall x :: x in r <==> x in nodes && ((x.id in s) == inside)
    ensures |r| <= |nodes|
  {
    if |nodes| == 0 then []
    else
      var rest := NodesWhere(nodes[..|nodes| - 1], s, inside);
      var x := nodes[|nodes| - 1];
      assert nodes == nodes[..|nodes| - 1] + [x];
      if (x.id in s) == inside then rest + [x] else rest
  }

  /** An edge with an endpoint in `s`. */
  predicate Touches(e: EdgeRow, s: set<NodeId>)
  {
    e.source in s || e.target in s
  }

  /** The edges that touch `s` (`touching`) or do not (not `touching`). */
  function EdgesWhere(edges: seq<EdgeRow>, s: set<NodeId>, touching: bool): (r: seq<EdgeRow>)
    ensures forall e :: e in r <==> e in edges && (Touches(e, s) == touching)
    ensures |r| <= |edges|
  {
    if |edges| == 0 then []
    else
      var rest := EdgesWhere(edges[..|edges| - 1], s, touching);
      var e := edges[|edges| - 1];
      assert edges == edges[..|edges| - 1] + [e];
      if Touches(e, s) == touching then rest + [e] else rest
  }

  /** A writable clone of a network's tables, changed by SQL `DELETE`s. */
  class NetworkStore {
    var nodes: seq<NodeRow>
    var edges: seq<EdgeRow>

    function Value(): NetworkData
      reads this
    {
      NetworkData(nodes, edges)
    }

    /** `network_data.clone()` */
    constructor (data: NetworkData)
      ensures Value() == data
    {
      nodes, edges := data.nodes, data.edges;
    }

    /** `DELETE FROM nodes WHERE id NOT IN :nodes` */
    method DeleteNodesNotIn(s: set<NodeId>)
      modifies this
      ensures nodes == NodesWhere(old(nodes), s, true) && edges == old(edges)
    {
      nodes := NodesWhere(nodes, s, true);
    }

    /** `DELETE FROM nodes WHERE id IN :nodes` */
    method DeleteNodesIn(s: set<NodeId>)
      modifies this
      ensures nodes == NodesWhere(old(nodes), s, false) && edges == old(edges)
    {
      nodes := NodesWhere(nodes, s, false);
    }

    /** `DELETE FROM edges WHERE source NOT IN :nodes AND target NOT IN :nodes` */
    method DeleteEdgesAway(s: set<NodeId>)
      modifies this
      ensures edges == EdgesWhere(old(edges), s, true) && nodes == old(nodes)
    {
      edges := EdgesWhere(edges, s, true);
    }

    /** `DELETE FROM edges WHERE source IN :nodes OR target IN :nodes` */
    method DeleteEdgesTouching(s: set<NodeId>)
      modifies this
      ensures edges == EdgesWhere(old(edges), s, false) && nodes == old(nodes)
    {
      edges := EdgesWhere(edges, s, false);
    }
  }

  /** The module's four outputs. */
  datatype Split = Split(largest: NetworkData, others: Option<NetworkData>, count: nat, connected: bool)

  /** What the module outputs: with one component the input itself; with
      none the `ValueError` of `max`; otherwise the two filtered clones. */
  function SplitOf(data: NetworkData, cs: seq<set<NodeId>>): (r: Result<Split>)
  {
    if |cs| == 1 then Success(Split(data, None, 1, true))
    else if |cs| == 0 then Failure(NoComponents)
    else
      var chosen := cs[FirstLargest(cs)];
      Success(Split(
        NetworkData(NodesWhere(data.nodes, chosen, true), EdgesWhere(data.edges, chosen, true)),
        Some(NetworkData(NodesWhere(data.nodes, chosen, false), EdgesWhere(data.edges, chosen, false))),
        |cs|, |cs| == 1))
  }

  /** `ExtractLargestComponentModule.process` */
  method ExtractLargestComponent(data: NetworkData, cs: seq<set<NodeId>>) returns (r: Result<Split>)
    ensures r == SplitOf(data, cs)
  {
    if |cs| == 1 {
      return Success(Split(data, None, 1, true));
    }
    if |cs| == 0 {
      return Failure(NoComponents);
    }
    var chosen := cs[FirstLargest(cs)];
    var largest := new NetworkStore(data);
    largest.DeleteNodesNotIn(chosen);
    largest.DeleteEdgesAway(chosen);
    var others := new NetworkStore(data);
    others.DeleteNodesIn(chosen);
    others.DeleteEdgesTouching(chosen);
    var count := |cs|;
    r := Success(Split(largest.Value(), Some(others.Value()), count, count == 1));
  }

  // ---------------------------------------------------------------------
  // What the split promises.

  /** A connected network comes back as it is. */
  lemma SplitConnected(data: NetworkData, cs: seq<set<NodeId>>)
    requires |cs| == 1
    ensures SplitOf(data, cs) == Success(Split(data, None, 1, true))
  {
  }

  /** An empty network has no component and `max` raises. */
  lemma SplitEmpty(data: NetworkData, cs: seq<set<NodeId>>)
    requires IsComponentCover(data, cs) && |data.nodes| == 0
    ensures SplitOf(data, cs) == Failure(NoComponents)
  {
    if |cs| > 0 {
      forall n | n in cs[0] ensures n in NodeIds(data.nodes) {
      }
    }
  }

  /** The counts: the number of components, and connected iff there is one. */
  lemma SplitCounts(data: NetworkData, cs: seq<set<NodeId>>)
    requires SplitOf(data, cs).Success?
    ensures SplitOf(data, cs).value.count == |cs| >= 1
    ensures SplitOf(data, cs).value.connected <==> SplitOf(data, cs).value.count == 1
    ensures SplitOf(data, cs).value.others.None? <==> |cs| == 1
  {
  }

  /** Node rows: the largest part keeps those in the chosen component, the
      other part the rest; each input row lands in exactly one, as often as
      it occurs. */
  lemma {:induction false} NodesPartition(nodes: seq<NodeRow>, s: set<NodeId>)
    ensures multiset(NodesWhere(nodes, s, true)) + multiset(NodesWhere(nodes, s, false)) == multiset(nodes)
  {
    if |nodes| > 0 {
      var p := nodes[..|nodes| - 1];
      assert nodes == p + [nodes[|nodes| - 1]];
      NodesPartition(p, s);
    }
  }

  lemma {:induction false} EdgesPartition(edges: seq<EdgeRow>, s: set<NodeId>)
    ensures multiset(EdgesWhere(edges, s, true)) + multiset(EdgesWhere(edges, s, false)) == multiset(edges)
  {
    if |edges| > 0 {
      var p := edges[..|edges| - 1];
      assert edges == p + [edges[|edges| - 1]];
      EdgesPartition(p, s);
    }
  }

  /** The node ids of the two outputs are disjoint and together are the
      node ids of the input; the largest part has exactly the chosen
      component's ids. */
  lemma SplitNodes(data: NetworkData, cs: seq<set<NodeId>>)
    requires IsComponentCover(data, cs) && |cs| >= 2
    ensures var sp := SplitOf(data, cs).value;
      var chosen := cs[FirstLargest(cs)];
      && NodeIds(sp.largest.nodes) == chosen
      && NodeIds(sp.others.value.nodes) == NodeIds(data.nodes) - chosen
      && NodeIds(sp.largest.nodes) !! NodeIds(sp.others.value.nodes)
      && multiset(sp.largest.nodes) + multiset(sp.others.value.nodes) == multiset(data.nodes)
  {
    var chosen := cs[FirstLargest(cs)];
    var sp := SplitOf(data, cs).value;
    NodesPartition(data.nodes, chosen);
    forall n | n in chosen ensures n in NodeIds(sp.largest.nodes) {
      assert n in NodeIds(data.nodes);
      var r :| r in data.nodes && r.id == n;
      assert r in sp.largest.nodes;
    }
  }

  /** Under the component cover an edge touches the chosen component iff
      both its ends are in it, so the largest part keeps exactly the edges
      inside the component and the other part exactly the edges of the
      other components; every edge row goes to one of them. */
  lemma SplitEdges(data: NetworkData, cs: seq<set<NodeId>>)
    requires IsComponentCover(data, cs) && |cs| >= 2
    ensures var sp := SplitOf(data, cs).value;
      var chosen := cs[FirstLargest(cs)];
      && (forall e :: e in sp.largest.edges <==> e in data.edges && e.source in chosen && e.target in chosen)
      && (forall e :: e in sp.others.value.edges <==> e in data.edges && e.source !in chosen && e.target !in chosen)
      && multiset(sp.largest.edges) + multiset(sp.others.value.edges) == multiset(data.edges)
  {
    var k := FirstLargest(cs);
    var chosen := cs[k];
    EdgesPartition(data.edges, chosen);
    forall e | e in data.edges && Touches(e, chosen) ensures e.source in chosen && e.target in chosen {
      var i :| 0 <= i < |cs| && e.source in cs[i] && e.target in cs[i];
    }
  }

  /** Every edge of either output joins two nodes of that same output: both
      outputs are well-formed networks. */
  lemma SplitWellFormed(data: NetworkData, cs: seq<set<NodeId>>)
    requires IsComponentCover(data, cs) && |cs| >= 2
    ensures var sp := SplitOf(data, cs).value;
      && (forall e :: e in sp.largest.edges ==> e.source in NodeIds(sp.largest.nodes) && e.target in NodeIds(sp.largest.nodes))
      && (forall e :: e in sp.others.value.edges ==>
            e.source in NodeIds(sp.others.value.nodes) && e.target in NodeIds(sp.others.value.nodes))
  {
    SplitNodes(data, cs);
    SplitEdges(data, cs);
    var chosen := cs[FirstLargest(cs)];
    var sp := SplitOf(data, cs).value;
    forall e | e in sp.others.value.edges
      ensures e.source in NodeIds(sp.others.value.nodes) && e.target in NodeIds(sp.others.value.nodes)
    {
      var i :| 0 <= i < |cs| && e.source in cs[i] && e.target in cs[i];
      assert e.source in NodeIds(data.nodes) && e.target in NodeIds(data.nodes);
    }
  }
}
