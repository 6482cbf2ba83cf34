/** `ModularityCommunity.process` (modularity.py): every member of community
    `i` gets `Modularity_Group` `i`. The communities come from the graph
    library and are an input, in the order the library lists them. */
module Modularity {
  import opened Common
  import opened Graphs

  const ModularityGroupAttribute := "Modularity_Group"

  /** Every node of `s` mapped to `v`. */
  function Stamp(s: set<NodeId>, v: nat): (m: map<NodeId, nat>)
    ensures m.Keys == s && forall n :: n in m ==> m[n] == v
  {
    map n | n in s :: v
  }

  /** The node -> community index dict the nested loop builds: community
      `i` writes `i` for each member, overwriting what an earlier community
      wrote. */
  function Labels(cs: seq<set<NodeId>>): (m: map<NodeId, nat>)
    ensures forall n :: n in m <==> exists i :: 0 <= i < |cs| && n in cs[i]
    ensures forall n :: n in m ==> m[n] < |cs|
  {
    if |cs| == 0 then map[]
    else
      var prefix := cs[..|cs| - 1];
      assert forall i :: 0 <= i < |cs| - 1 ==> prefix[i] == cs[i];
      Labels(prefix) + Stamp(cs[|cs| - 1], |cs| - 1)
  }

  lemma LabelsSnoc(cs: seq<set<NodeId>>, i: nat)
    requires i < |cs|
    ensures Labels(cs[..i + 1]) == Labels(cs[..i]) + Stamp(cs[i], i)
  {
    assert cs[..i + 1][..i] == cs[..i];
  }

  /** One more member of the current community written. */
  lemma StampStep(base: map<NodeId, nat>, c: set<NodeId>, rest: set<NodeId>, name: NodeId, v: nat)
    requires name in rest && rest <= c
    ensures (base + Stamp(c - rest, v))[name := v] == base + Stamp(c - (rest - {name}), v)
  {
    assert c - (rest - {name}) == (c - rest) + {name};
  }

  lemma EmptyIfNoMember(s: set<NodeId>)
    requires forall n :: n !in s
    ensures s == {}
  {
    assert forall n :: n in s <==> n in {};
  }

  /** The set a `for name in c` loop has still to visit holds a member. */
  lemma HasMember(s: set<NodeId>)
    requires s != {}
    ensures exists n :: n in s
  {
    if forall n :: n !in s {
      EmptyIfNoMember(s);
    }
  }

  lemma StampEnds(base: map<NodeId, nat>, c: set<NodeId>, v: nat)
    ensures base + Stamp(c - c, v) == base
  {
    assert c - c == {};
  }

  /** The `for i, c in enumerate(communities): for name in c:` loop. The
      members of a community are visited in an order the model leaves open. */
  method ModularityGroups(cs: seq<set<NodeId>>) returns (m: map<NodeId, nat>)
    ensures m == Labels(cs)
  {
    m := map[];
    for i := 0 to |cs|
      invariant m == Labels(cs[..i])
    {
      ghost var base := m;
      var rest := cs[i];
      StampEnds(base, cs[i], i);
      while rest != {}
        invariant rest <= cs[i]
        invariant m == base + Stamp(cs[i] - rest, i)
        decreases |rest|
      {
        HasMember(rest);
        var name :| name in rest;
        StampStep(base, cs[i], rest, name, i);
        m := m[name := i];
        rest := rest - {name};
      }
      assert cs[i] - rest == cs[i];
      LabelsSnoc(cs, i);
    }
    assert cs[..|cs|] == cs;
  }

  /** A node's label is the index of the last community that holds it. */
  lemma {:induction false} LabelIsLast(cs: seq<set<NodeId>>, n: NodeId)
    requires n in Labels(cs)
    ensures n in cs[Labels(cs)[n]]
    ensures forall j :: Labels(cs)[n] < j < |cs| ==> n !in cs[j]
  {
    var last := |cs| - 1;
    var prefix := cs[..last];
    if n !in cs[last] {
      assert forall i :: 0 <= i < last ==> prefix[i] == cs[i];
      LabelIsLast(prefix, n);
    }
  }

  /** Pairwise disjoint communities. */
  ghost predicate Disjoint(cs: seq<set<NodeId>>)
  {
    forall i, j :: 0 <= i < j < |cs| ==> cs[i] !! cs[j]
  }

  /** For disjoint communities every member of community `i` is labelled `i`. */
  lemma PartitionLabel(cs: seq<set<NodeId>>, i: nat, n: NodeId)
    requires Disjoint(cs) && i < |cs| && n in cs[i]
    ensures n in Labels(cs) && Labels(cs)[n] == i
  {
    LabelIsLast(cs, n);
  }

  /** For disjoint communities two nodes share a label iff they are in the
      same community. */
  lemma SameLabel(cs: seq<set<NodeId>>, i: nat, a: NodeId, b: NodeId)
    requires Disjoint(cs) && i < |cs| && a in cs[i]
    ensures b in Labels(cs) && Labels(cs)[b] == Labels(cs)[a] <==> b in cs[i]
  {
    PartitionLabel(cs, i, a);
    if b in Labels(cs) {
      LabelIsLast(cs, b);
    }
    if b in cs[i] {
      PartitionLabel(cs, i, b);
    }
  }

  /** Overlapping communities: the later one wins. */
  lemma OverlapExample(a: set<NodeId>, b: set<NodeId>, n: NodeId)
    requires n in a && n in b
    ensures Labels([a, b])[n] == 1
  {
    LabelIsLast([a, b], n);
  }

  function GroupValues(m: map<NodeId, nat>): (values: map<NodeId, Attr>)
    ensures values.Keys == m.Keys && forall n :: n in m ==> values[n] == IntAttr(m[n])
  {
    map n | n in m :: IntAttr(m[n])
  }

  /** `ModularityCommunity.process`: `G` with the community index attached
      to every node that is in some community. */
  method ModularityCommunity(g: Graph, cs: seq<set<NodeId>>) returns (h: Graph)
    ensures h.nodes == g.nodes && h.adj == g.adj && h.attrs.Keys == g.attrs.Keys
    ensures forall n :: n in g.attrs && n in Labels(cs) ==>
      ModularityGroupAttribute in h.attrs[n] && h.attrs[n][ModularityGroupAttribute] == IntAttr(Labels(cs)[n])
    ensures forall n :: n in g.attrs && n !in Labels(cs) ==> h.attrs[n] == g.attrs[n]
    ensures forall n, a :: n in g.attrs && a in g.attrs[n] && a != ModularityGroupAttribute ==>
      a in h.attrs[n] && h.attrs[n][a] == g.attrs[n][a]
  {
    var groups := ModularityGroups(cs);
    h := SetNodeAttributes(g, GroupValues(groups), ModularityGroupAttribute);
  }
}
