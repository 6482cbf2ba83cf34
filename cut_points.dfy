/** `CutPointsList.process` (cutpoints_module.py): every node of `G` is
    flagged `Yes` or `No` under `Cut Point`. The articulation points come
    from the graph library and are an input. */
module CutPoints {
  import opened Common
  import opened Graphs

  const CutPointAttribute := "Cut Point"

  /** The `cut_dict` the loop over `G` builds. */
  function Flags(nodes: seq<NodeId>, cutpoints: seq<NodeId>): (flags: map<NodeId, string>)
    ensures flags.Keys == set n | n in nodes
  {
    map n | n in nodes :: if n in cutpoints then "Yes" else "No"
  }

  /** The loop `for node in G: cut_dict[node] = 'Yes' if node in cutpoints
      else 'No'`. */
  method CutFlags(nodes: seq<NodeId>, cutpoints: seq<NodeId>) returns (flags: map<NodeId, string>)
    ensures flags.Keys == set n | n in nodes
    ensures forall n :: n in flags ==> (flags[n] == "Yes" <==> n in cutpoints)
    ensures forall n :: n in flags ==> (flags[n] == "No" <==> n !in cutpoints)
    ensures flags == Flags(nodes, cutpoints)
  {
    flags := map[];
    for i := 0 to |nodes|
      invariant flags.Keys == set n | n in nodes[..i]
      invariant forall n :: n in flags ==> flags[n] == (if n in cutpoints then "Yes" else "No")
    {
      var node := nodes[i];
      if node in cutpoints {
        flags := flags[node := "Yes"];
      } else {
        flags := flags[node := "No"];
      }
      assert nodes[..i + 1] == nodes[..i] + [node];
    }
    assert nodes[..|nodes|] == nodes;
  }

  /** The nodes flagged `Yes`. */
  function YesNodes(flags: map<NodeId, string>): set<NodeId>
  {
    set n | n in flags && flags[n] == "Yes"
  }

  /** When the cut points are nodes of the graph, as the library's are, the
      `Yes` flags are exactly the distinct cut points. */
  lemma YesAreCutPoints(nodes: seq<NodeId>, cutpoints: seq<NodeId>)
    requires forall c :: c in cutpoints ==> c in nodes
    ensures YesNodes(Flags(nodes, cutpoints)) == set c | c in cutpoints
    ensures |YesNodes(Flags(nodes, cutpoints))| == |set c | c in cutpoints|
  {
    var flags := Flags(nodes, cutpoints);
    forall c | c in cutpoints ensures c in YesNodes(flags) {
      assert c in flags;
    }
  }

  function FlagValues(flags: map<NodeId, string>): (values: map<NodeId, Attr>)
    ensures values.Keys == flags.Keys && forall n :: n in flags ==> values[n] == TextAttr(flags[n])
  {
    map n | n in flags :: TextAttr(flags[n])
  }

  /** `CutPointsList.process`: `network_result` is the library's list as it
      is; `cut_network` is `G` with one `Cut Point` flag per node and
      nothing else changed. */
  method CutPointsList(g: Graph, cutpoints: seq<NodeId>) returns (networkResult: seq<NodeId>, network: Graph)
    requires g.Valid()
    ensures networkResult == cutpoints
    ensures network.nodes == g.nodes && network.adj == g.adj && network.attrs.Keys == g.attrs.Keys
    ensures forall n :: n in g.nodes ==>
      CutPointAttribute in network.attrs[n] &&
      network.attrs[n][CutPointAttribute] == TextAttr(if n in cutpoints then "Yes" else "No")
    ensures forall n, a :: n in g.attrs && a in g.attrs[n] && a != CutPointAttribute ==>
      a in network.attrs[n] && network.attrs[n][a] == g.attrs[n][a]
    ensures forall n :: n in g.attrs ==> network.attrs[n].Keys == g.attrs[n].Keys + {CutPointAttribute}
  {
    var flags := CutFlags(g.nodes, cutpoints);
    network := SetNodeAttributes(g, FlagValues(flags), CutPointAttribute);
    networkResult := cutpoints;
  }
}
