/** The attributed directed graph (ancestor to descendant) that every
    phylogeny operation queries: the parts of a networkx DiGraph the core
    relies on. */
module Graphs {
  import opened Values

  /** Taxon ids. The loader gives integer ids. */
  type NodeId = int

  /** A phylogeny as a value: the nodes in iteration (insertion) order, each
      node's attribute map, and each node's predecessor and successor lists in
      adjacency order. */
  datatype Graph = Graph(
    nodes: seq<NodeId>,
    attrs: map<NodeId, Attrs>,
    pred: map<NodeId, seq<NodeId>>,
    succ: map<NodeId, seq<NodeId>>)

  predicate Distinct(s: seq<NodeId>)
  {
    forall i, j :: 0 <= i < j < |s| ==> s[i] != s[j]
  }

  /** What a DiGraph guarantees: unique node ids, an attribute map and
      adjacency lists for every node and for nothing else, adjacency lists
      without repeats and inside the graph, and every edge recorded at both
      ends. */
  ghost predicate Valid(g: Graph)
  {
    && Distinct(g.nodes)
    && (forall n :: n in g.attrs <==> n in g.nodes)
    && (forall n :: n in g.pred <==> n in g.nodes)
    && (forall n :: n in g.succ <==> n in g.nodes)
    && (forall n :: n in g.pred ==> Distinct(g.pred[n]))
    && (forall n :: n in g.succ ==> Distinct(g.succ[n]))
    && (forall n, m :: n in g.pred && m in g.pred[n] ==> m in g.nodes)
    && (forall n, m :: n in g.succ && m in g.succ[n] ==> m in g.nodes)
    && (forall u, v :: u in g.succ && v in g.pred ==> (v in g.succ[u] <==> u in g.pred[v]))
  }

  /** A root has no predecessors. */
  predicate IsRoot(g: Graph, n: NodeId)
  {
    n in g.pred && g.pred[n] == []
  }

  /** A leaf has no successors. */
  predicate IsLeaf(g: Graph, n: NodeId)
  {
    n in g.succ && g.succ[n] == []
  }

  /** An acyclicity witness: a numbering below the node count that grows
      along every edge (the position in a topological order is one). The
      `while True` walks of the source terminate exactly because of it. */
  ghost predicate IsTopologicalRank(g: Graph, rank: map<NodeId, nat>)
  {
    && (forall n :: n in g.nodes ==> n in rank && rank[n] < |g.nodes|)
    && (forall u, v :: u in g.succ && v in g.succ[u] ==> u in rank && v in rank && rank[u] < rank[v])
  }

  /** An edge climbs in rank. */
  lemma EdgeRank(g: Graph, rank: map<NodeId, nat>, u: NodeId, v: NodeId)
    requires IsTopologicalRank(g, rank) && u in g.succ && v in g.succ[u]
    ensures u in rank && v in rank && rank[u] < rank[v]
  {
  }

  /** r lists elements of s in the order s lists them. */
  predicate IsSubsequence(r: seq<NodeId>, s: seq<NodeId>)
    decreases |s|
  {
    if r == [] then true
    else if s == [] then false
    else if r[0] == s[0] then IsSubsequence(r[1..], s[1..])
    else IsSubsequence(r, s[1..])
  }

  /** A list comprehension `[x for x in s if keep(x)]`. */
  function Select(s: seq<NodeId>, keep: NodeId -> bool): (r: seq<NodeId>)
    ensures forall x :: x in r <==> x in s && keep(x)
    ensures |r| <= |s|
    ensures Distinct(s) ==> Distinct(r) && IsSubsequence(r, s)
  {
    if s == [] then []
    else if keep(s[0]) then [s[0]] + Select(s[1..], keep)
    else Select(s[1..], keep)
  }

  /** A duplicate-free list has as many elements as its set. */
  lemma {:induction false} DistinctCardinality(s: seq<NodeId>)
    requires Distinct(s)
    ensures |set x | x in s| == |s|
  {
    if s != [] {
      DistinctCardinality(s[1..]);
      assert (set x | x in s) == {s[0]} + (set x | x in s[1..]);
    }
  }

  /** A duplicate-free list is determined by its set when that set has at
      most one element. */
  lemma SingletonList(s: seq<NodeId>, x: NodeId)
    requires Distinct(s)
    requires forall y :: y in s <==> y == x
    ensures s == [x]
  {
    assert x in s;
    ElementIn(s, 0);
    if |s| > 1 {
      ElementIn(s, 1);
    }
  }

  lemma EmptyList(s: seq<NodeId>)
    requires forall y :: y in s ==> false
    ensures s == []
  {
    if |s| > 0 {
      ElementIn(s, 0);
    }
  }

  /** An element of a list is a member of it, stated through a bound
      variable so that membership quantifiers about the list apply. */
  lemma ElementIn(s: seq<NodeId>, i: int)
    requires 0 <= i < |s|
    ensures var x: NodeId := s[i]; x in s
  {
  }

  /** `phylogeny.subgraph(keep).copy()`: the induced subgraph on the kept
      ids, attribute maps copied, adjacency lists filtered. The model keeps
      the original order of nodes and adjacency lists; networkx may list
      the kept nodes in the order of the set it filters by instead. */
  function Subgraph(g: Graph, keep: set<NodeId>): (h: Graph)
    ensures forall n :: n in h.nodes <==> n in g.nodes && n in keep
  {
    Graph(
      Select(g.nodes, n => n in keep),
      map n | n in g.attrs && n in keep :: g.attrs[n],
      map n | n in g.pred && n in keep :: Select(g.pred[n], m => m in keep),
      map n | n in g.succ && n in keep :: Select(g.succ[n], m => m in keep))
  }

  /** The induced subgraph keeps the attribute maps and has exactly the
      edges of the original between kept nodes, in their original direction. */
  lemma SubgraphEdges(g: Graph, keep: set<NodeId>)
    requires Valid(g)
    ensures forall n :: n in Subgraph(g, keep).nodes ==> Subgraph(g, keep).attrs[n] == g.attrs[n]
    ensures forall u, v :: u in Subgraph(g, keep).nodes && v in Subgraph(g, keep).nodes ==>
      (v in Subgraph(g, keep).succ[u] <==> v in g.succ[u]) &&
      (v in Subgraph(g, keep).pred[u] <==> v in g.pred[u])
  {
    SubgraphAdjacency(g, keep);
  }

  /** The induced subgraph is again a DiGraph. */
  lemma SubgraphValid(g: Graph, keep: set<NodeId>)
    requires Valid(g)
    ensures Valid(Subgraph(g, keep))
  {
    var h := Subgraph(g, keep);
    SubgraphAdjacency(g, keep);
    assert Distinct(h.nodes);
    assert forall n :: n in h.attrs <==> n in h.nodes;
    assert forall n :: n in h.pred <==> n in h.nodes;
    assert forall n :: n in h.succ <==> n in h.nodes;
    forall n, m | n in h.pred && m in h.pred[n] ensures m in h.nodes {
      assert m in g.pred[n] && m in keep;
    }
    forall n, m | n in h.succ && m in h.succ[n] ensures m in h.nodes {
      assert m in g.succ[n] && m in keep;
    }
    forall u, v | u in h.succ && v in h.pred ensures v in h.succ[u] <==> u in h.pred[v] {
      assert v in h.succ[u] <==> v in g.succ[u] && v in keep;
      assert u in h.pred[v] <==> u in g.pred[v] && u in keep;
    }
  }

  /** The adjacency lists of the induced subgraph are the original lists
      filtered to the kept ids. */
  lemma SubgraphAdjacency(g: Graph, keep: set<NodeId>)
    ensures forall n :: n in Subgraph(g, keep).pred ==>
      n in g.pred && n in keep && Distinct(g.pred[n]) ==> Distinct(Subgraph(g, keep).pred[n])
    ensures forall n, m :: n in Subgraph(g, keep).pred ==>
      n in g.pred && (m in Subgraph(g, keep).pred[n] <==> m in g.pred[n] && m in keep)
    ensures forall n :: n in Subgraph(g, keep).succ ==>
      n in g.succ && n in keep && Distinct(g.succ[n]) ==> Distinct(Subgraph(g, keep).succ[n])
    ensures forall n, m :: n in Subgraph(g, keep).succ ==>
      n in g.succ && (m in Subgraph(g, keep).succ[n] <==> m in g.succ[n] && m in keep)
  {
    var h := Subgraph(g, keep);
    forall n | n in h.pred ensures h.pred[n] == Select(g.pred[n], m => m in keep) { }
    forall n | n in h.succ ensures h.succ[n] == Select(g.succ[n], m => m in keep) { }
  }

  /** The networkx graph object. Queries read its state; the root, leaf and
      extant-taxa queries write an "id" entry into the attribute maps it
      stores. */
  class Phylogeny {
    var graph: Graph

    constructor (g: Graph)
      ensures graph == g
    {
      graph := g;
    }
  }
}
