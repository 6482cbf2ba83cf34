/** The simple undirected graph `G` the modules obtain from their network
    data, with the node attributes the modules attach to it. */
module Graphs {
  import opened Common

  /** A node attribute value. */
  datatype Attr = IntAttr(i: int) | RealAttr(r: real) | TextAttr(t: string)

  /** `nodes`: the node iteration order; `adj`: the neighbour sets (a
      self-loop makes a node its own neighbour); `attrs`: node attributes. */
  datatype Graph = Graph(nodes: seq<NodeId>, adj: map<NodeId, set<NodeId>>, attrs: map<NodeId, map<string, Attr>>)
  {
    ghost predicate Valid()
    {
      && Distinct(nodes)
      && (forall n :: n in adj <==> n in nodes)
      && (forall n :: n in attrs <==> n in nodes)
      && (forall u, v :: u in adj && v in adj[u] ==> v in adj && u in adj[v])
    }
  }

  /** `G.degree(n)`: the number of incident edges, a self-loop counting twice. */
  function Degree(g: Graph, n: NodeId): (d: nat)
    requires n in g.adj
    ensures d == |g.adj[n] - {n}| + (if n in g.adj[n] then 2 else 0)
  {
    |g.adj[n]| + (if n in g.adj[n] then 1 else 0)
  }

  /** `nx.set_node_attributes(G, values, name)`: every node of the graph that
      has an entry in `values` gets attribute `name` set to it; entries for
      nodes the graph does not have are ignored. */
  function SetNodeAttributes(g: Graph, values: map<NodeId, Attr>, name: string): (h: Graph)
    ensures h.nodes == g.nodes && h.adj == g.adj && h.attrs.Keys == g.attrs.Keys
    ensures forall n :: n in g.attrs && n in values ==> name in h.attrs[n] && h.attrs[n][name] == values[n]
    ensures forall n :: n in g.attrs && n !in values ==> h.attrs[n] == g.attrs[n]
    ensures forall n, a :: n in g.attrs && a in g.attrs[n] && a != name ==>
      a in h.attrs[n] && h.attrs[n][a] == g.attrs[n][a]
    ensures forall n :: n in g.attrs ==> h.attrs[n].Keys <= g.attrs[n].Keys + {name}
  {
    g.(attrs := map n | n in g.attrs :: if n in values then g.attrs[n][name := values[n]] else g.attrs[n])
  }
}
