/** The topology queries of phylogeny/utils.py: asexuality, roots and leaves,
    and the "id" entry that the dictionary-returning variants write into the
    stored attribute maps. */
module Topology {
  import opened Values
  import opened Graphs

  /** The loop of `is_asexual` over the taxa ns: false at the first taxon
      with two or more parents. */
  function TaxaHaveAtMostOneParent(g: Graph, ns: seq<NodeId>): (b: bool)
    requires forall n :: n in ns ==> n in g.pred
    ensures b <==> forall n :: n in ns ==> |g.pred[n]| <= 1
  {
    if ns == [] then true
    else
      var n: NodeId := ns[0];
      if |g.pred[n]| > 1 then false
      else TaxaHaveAtMostOneParent(g, ns[1..])
  }

  /** `is_asexual`: no taxon has more than one direct ancestor. */
  function IsAsexual(g: Graph): (b: bool)
    requires Valid(g)
    ensures b <==> forall n :: n in g.nodes ==> |g.pred[n]| <= 1
  {
    TaxaHaveAtMostOneParent(g, g.nodes)
  }

  /** `get_root_ids`: the taxa without predecessors, in node order, each once. */
  function RootIds(g: Graph): (r: seq<NodeId>)
    requires Valid(g)
    ensures forall n :: n in r <==> n in g.nodes && g.pred[n] == []
    ensures Distinct(r) && IsSubsequence(r, g.nodes)
  {
    Select(g.nodes, n => IsRoot(g, n))
  }

  /** `get_num_roots`: the number of taxa without predecessors. */
  function NumRoots(g: Graph): (k: nat)
    requires Valid(g)
    ensures k == |set n | n in g.nodes && IsRoot(g, n)|
    ensures k <= |g.nodes|
  {
    var r := RootIds(g);
    DistinctCardinality(r);
    assert (set n | n in r) == set n | n in g.nodes && IsRoot(g, n);
    |r|
  }

  /** `get_leaf_taxa_ids`: the taxa without successors, in node order, each once. */
  function LeafTaxaIds(g: Graph): (r: seq<NodeId>)
    requires Valid(g)
    ensures forall n :: n in r <==> n in g.nodes && g.succ[n] == []
    ensures Distinct(r) && IsSubsequence(r, g.nodes)
  {
    Select(g.nodes, n => IsLeaf(g, n))
  }

  /** The stored attribute maps after `m[n]["id"] = n` for every n in ids. */
  function WithIds(attrs: map<NodeId, Attrs>, ids: set<NodeId>): (r: map<NodeId, Attrs>)
  {
    map n | n in attrs :: if n in ids then attrs[n]["id" := Int(n)] else attrs[n]
  }

  /** The loop `for e in selected: selected[e]["id"] = e`, which through
      aliasing writes into the maps the graph stores, followed by reading the
      selected maps back: the returned dictionary is keyed by exactly the
      selected ids, each value the stored map with "id" set to its key, and
      no other taxon changes. */
  method CollectWithIds(p: Phylogeny, ids: seq<NodeId>) returns (selected: map<NodeId, Attrs>)
    requires forall n :: n in ids ==> n in p.graph.attrs
    modifies p
    ensures p.graph == old(p.graph).(attrs := WithIds(old(p.graph.attrs), set n | n in ids))
    ensures selected.Keys == set n | n in ids
    ensures forall n :: n in selected ==> selected[n] == p.graph.attrs[n] == old(p.graph.attrs[n])["id" := Int(n)]
  {
    ghost var before := p.graph.attrs;
    for i := 0 to |ids|
      invariant p.graph == old(p.graph).(attrs := WithIds(before, set n | n in ids[..i]))
    {
      var n := ids[i];
      assert n in p.graph.attrs;
      assert p.graph.attrs[n]["id" := Int(n)] == before[n]["id" := Int(n)];
      p.graph := p.graph.(attrs := p.graph.attrs[n := p.graph.attrs[n]["id" := Int(n)]]);
      assert ids[..i + 1] == ids[..i] + [n];
    }
    assert ids[..|ids|] == ids;
    selected := map n | n in ids :: p.graph.attrs[n];
  }

  /** `get_roots`: the root taxa's attribute maps keyed by id, each with "id"
      added in the graph as well. */
  method GetRoots(p: Phylogeny) returns (roots: map<NodeId, Attrs>)
    requires Valid(p.graph)
    modifies p
    ensures p.graph == old(p.graph).(attrs := WithIds(old(p.graph.attrs), set n | n in RootIds(old(p.graph))))
    ensures roots.Keys == set n | n in old(p.graph.nodes) && IsRoot(old(p.graph), n)
    ensures forall n :: n in roots ==> roots[n] == p.graph.attrs[n] == old(p.graph.attrs[n])["id" := Int(n)]
    ensures Valid(p.graph)
  {
    roots := CollectWithIds(p, RootIds(p.graph));
  }

  /** `get_leaf_taxa`: the leaf taxa's attribute maps keyed by id, each with
      "id" added in the graph as well. */
  method GetLeafTaxa(p: Phylogeny) returns (leaves: map<NodeId, Attrs>)
    requires Valid(p.graph)
    modifies p
    ensures p.graph == old(p.graph).(attrs := WithIds(old(p.graph.attrs), set n | n in LeafTaxaIds(old(p.graph))))
    ensures leaves.Keys == set n | n in old(p.graph.nodes) && IsLeaf(old(p.graph), n)
    ensures forall n :: n in leaves ==> leaves[n] == p.graph.attrs[n] == old(p.graph.attrs[n])["id" := Int(n)]
    ensures Valid(p.graph)
  {
    leaves := CollectWithIds(p, LeafTaxaIds(p.graph));
  }
}
