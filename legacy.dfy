/** The older phylogeny_utils.py. Its attribute check, asexuality check,
    root ids, root and leaf dictionaries and lineage extraction are the same
    code as in phylogeny/utils.py and are modelled once, in Validation,
    Topology and Lineages. What differs is modelled here: the root count is
    the number of weakly connected components, and extant taxa are those
    whose "destruction_time" equals the not-destroyed marker. */
module LegacyUtils {
  import opened Values
  import opened Graphs
  import opened Validation
  import opened Topology
  import opened Extant

  /** A split of the taxa into the blocks networkx reports as weakly
      connected components: nonempty, pairwise disjoint, covering exactly
      the taxa, and closed under edges in both directions. That each block
      is connected is not part of the predicate. */
  ghost predicate IsComponentDecomposition(g: Graph, cs: seq<set<NodeId>>)
    requires Valid(g)
  {
    && (forall i :: 0 <= i < |cs| ==> cs[i] != {})
    && (forall i, j :: 0 <= i < j < |cs| ==> cs[i] !! cs[j])
    && (forall i, n :: 0 <= i < |cs| && n in cs[i] ==> n in g.nodes)
    && (forall n :: n in g.nodes ==> exists i :: 0 <= i < |cs| && n in cs[i])
    && (forall i, u, v :: 0 <= i < |cs| && u in cs[i] && u in g.pred && v in g.pred[u] ==> v in cs[i])
  }

  lemma Pick(s: set<NodeId>) returns (x: NodeId)
    requires s != {}
    ensures x in s
  {
    if forall y :: y !in s {
      assert false;
    }
    x :| x in s;
  }

  /** Pairwise disjoint blocks that each meet s are at most as many as the
      elements of s. */
  lemma {:induction false} DisjointBlocksMeetingSet(cs: seq<set<NodeId>>, s: set<NodeId>)
    requires forall i, j :: 0 <= i < j < |cs| ==> cs[i] !! cs[j]
    requires forall i :: 0 <= i < |cs| ==> cs[i] * s != {}
    ensures |cs| <= |s|
  {
    if cs != [] {
      var x := Pick(cs[0] * s);
      var rest := s - cs[0];
      forall i | 0 <= i < |cs[1..]| ensures cs[1..][i] * rest != {} {
        assert cs[0] !! cs[i + 1];
        assert cs[1..][i] * rest == cs[i + 1] * s;
      }
      DisjointBlocksMeetingSet(cs[1..], rest);
      assert rest <= s - {x};
    }
  }

  /** How many blocks a decomposition has, against the number of taxa. */
  lemma BlockCount(g: Graph, components: seq<set<NodeId>>)
    requires Valid(g) && IsComponentDecomposition(g, components)
    ensures |components| == 0 <==> g.nodes == []
    ensures |components| <= |g.nodes|
  {
    var taxa := set n | n in g.nodes;
    forall i | 0 <= i < |components| ensures components[i] * taxa != {} {
      var x := Pick(components[i]);
      assert x in components[i] * taxa;
    }
    DisjointBlocksMeetingSet(components, taxa);
    DistinctCardinality(g.nodes);
    if g.nodes != [] {
      ElementIn(g.nodes, 0);
      var n: NodeId := g.nodes[0];
      assert exists i :: 0 <= i < |components| && n in components[i];
    }
    if components != [] {
      var x := Pick(components[0]);
      assert x in g.nodes;
    }
  }

  /** `get_num_roots` of the older module: `nx.number_weakly_connected_components`,
      the number of blocks of the decomposition. It is zero exactly for the
      empty graph and never exceeds the number of taxa. */
  function NumRoots(g: Graph, components: seq<set<NodeId>>): (k: nat)
    requires Valid(g) && IsComponentDecomposition(g, components)
    ensures k == 0 <==> g.nodes == []
    ensures k <= |g.nodes|
  {
    BlockCount(g, components);
    |components|
  }

  /** Under acyclicity, walking back through first parents from any taxon of
      a block ends at a root of that block. */
  lemma RootInBlock(g: Graph, rank: map<NodeId, nat>, block: set<NodeId>, x: NodeId) returns (root: NodeId)
    requires Valid(g) && IsTopologicalRank(g, rank)
    requires x in block && x in g.nodes
    requires forall u, v :: u in block && u in g.pred && v in g.pred[u] ==> v in block
    ensures root in block && root in g.nodes && IsRoot(g, root)
    decreases rank[x]
  {
    if g.pred[x] == [] {
      root := x;
    } else {
      var p: NodeId := g.pred[x][0];
      assert p in g.pred[x];
      assert x in g.succ[p];
      assert rank[p] < rank[x];
      root := RootInBlock(g, rank, block, p);
    }
  }

  /** The taxa without parents, as a set. */
  ghost function RootSet(g: Graph): set<NodeId>
  {
    set n | n in g.nodes && IsRoot(g, n)
  }

  /** Under acyclicity every component holds a root. */
  lemma ComponentRoot(g: Graph, rank: map<NodeId, nat>, components: seq<set<NodeId>>, i: int)
    returns (root: NodeId)
    requires Valid(g) && IsTopologicalRank(g, rank) && IsComponentDecomposition(g, components)
    requires 0 <= i < |components|
    ensures root in components[i] && root in RootSet(g)
  {
    var block := components[i];
    var x := Pick(block);
    root := RootInBlock(g, rank, block, x);
  }

  /** Under acyclicity every component meets the set of roots. */
  lemma ComponentsMeetRoots(g: Graph, rank: map<NodeId, nat>, components: seq<set<NodeId>>)
    requires Valid(g) && IsTopologicalRank(g, rank) && IsComponentDecomposition(g, components)
    ensures forall i :: 0 <= i < |components| ==> components[i] * RootSet(g) != {}
  {
    forall i | 0 <= i < |components| ensures components[i] * RootSet(g) != {} {
      var root := ComponentRoot(g, rank, components, i);
      assert root in components[i] * RootSet(g);
    }
  }

  /** In an acyclic graph every component holds a root, so the older count
      never exceeds the newer one, `len(get_root_ids(phylogeny))`. */
  lemma ComponentsAtMostRoots(g: Graph, rank: map<NodeId, nat>, components: seq<set<NodeId>>)
    requires Valid(g) && IsTopologicalRank(g, rank) && IsComponentDecomposition(g, components)
    ensures NumRoots(g, components) <= Topology.NumRoots(g)
  {
    ComponentsMeetRoots(g, rank, components);
    DisjointBlocksMeetingSet(components, RootSet(g));
    assert Topology.NumRoots(g) == |RootSet(g)|;
  }

  /** Two roots 1 and 2 with the common child 3. */
  function CommonChild(): Graph
  {
    Graph([1, 2, 3], map[1 := map[], 2 := map[], 3 := map[]],
          map[1 := [], 2 := [], 3 := [1, 2]], map[1 := [3], 2 := [3], 3 := []])
  }

  lemma CommonChildAdjacency()
    ensures var g := CommonChild();
      && (forall n :: n in g.pred ==> Distinct(g.pred[n]) && Distinct(g.succ[n]))
      && (forall n, m :: n in g.pred && m in g.pred[n] ==> m in g.nodes)
      && (forall n, m :: n in g.succ && m in g.succ[n] ==> m in g.nodes)
  {
    var g := CommonChild();
    forall n | n in g.pred ensures Distinct(g.pred[n]) && Distinct(g.succ[n]) {
      assert n == 1 || n == 2 || n == 3;
    }
    forall n, m | n in g.pred && m in g.pred[n] ensures m in g.nodes {
      assert n == 1 || n == 2 || n == 3;
    }
    forall n, m | n in g.succ && m in g.succ[n] ensures m in g.nodes {
      assert n == 1 || n == 2 || n == 3;
    }
  }

  lemma CommonChildEdges()
    ensures var g := CommonChild();
      forall u, v :: u in g.succ && v in g.pred ==> (v in g.succ[u] <==> u in g.pred[v])
  {
    var g := CommonChild();
    forall u, v | u in g.succ && v in g.pred ensures v in g.succ[u] <==> u in g.pred[v] {
      assert u == 1 || u == 2 || u == 3;
      assert v == 1 || v == 2 || v == 3;
    }
  }

  lemma CommonChildValid()
    ensures Valid(CommonChild())
  {
    var g := CommonChild();
    assert g.pred.Keys == g.succ.Keys == g.attrs.Keys == {1, 2, 3};
    assert forall n :: n in g.nodes <==> n in {1, 2, 3};
    assert Distinct(g.nodes);
    CommonChildAdjacency();
    CommonChildEdges();
  }

  /** All taxa of a nonempty graph form one block that passes the
      decomposition predicate. */
  lemma AllTaxaOneBlock(g: Graph)
    requires Valid(g) && g.nodes != []
    ensures IsComponentDecomposition(g, [set n | n in g.nodes])
    ensures NumRoots(g, [set n | n in g.nodes]) == 1
  {
    var cs := [set n | n in g.nodes];
    ElementIn(g.nodes, 0);
    assert g.nodes[0] in cs[0];
    forall n | n in g.nodes ensures exists i :: 0 <= i < |cs| && n in cs[i] {
      assert n in cs[0];
    }
  }

  /** Three taxa of which the first two are roots and the third is not. */
  lemma TwoRootsOfThree(g: Graph)
    requires Valid(g) && |g.nodes| == 3
    requires g.nodes[0] in g.pred && g.nodes[1] in g.pred && g.nodes[2] in g.pred
    requires g.pred[g.nodes[0]] == [] && g.pred[g.nodes[1]] == [] && g.pred[g.nodes[2]] != []
    ensures Topology.NumRoots(g) == 2
  {
    var a, b, c := g.nodes[0], g.nodes[1], g.nodes[2];
    var roots := RootIds(g);
    forall n | n in g.nodes ensures n == a || n == b || n == c { }
    assert a in roots && b in roots && c !in roots;
    assert a != b;
    assert (set n | n in roots) == {a, b};
    DistinctCardinality(roots);
  }

  /** Two roots with a common child form one weakly connected component,
      so the older count reports one root where the newer count reports
      two. */
  lemma CommonChildMergesRoots()
    ensures var g := CommonChild(); var cs := [set n | n in g.nodes];
      && Valid(g) && IsComponentDecomposition(g, cs)
      && NumRoots(g, cs) == 1 && Topology.NumRoots(g) == 2
  {
    CommonChildValid();
    AllTaxaOneBlock(CommonChild());
    TwoRootsOfThree(CommonChild());
  }

  /** Does the taxon n carry the not-destroyed marker under "destruction_time"? */
  predicate MarkedNotDestroyed(g: Graph, n: NodeId, notDestroyed: Value)
  {
    n in g.attrs && "destruction_time" in g.attrs[n] && g.attrs[n]["destruction_time"] == notDestroyed
  }

  /** `get_extant_taxa_ids_by_destruction_time`: raise unless every taxon has
      "destruction_time"; otherwise the taxa whose value there equals the
      marker, in node order. */
  function ExtantTaxaIdsByDestructionTime(g: Graph, notDestroyed: Value): (r: Result<seq<NodeId>>)
    requires Valid(g)
    ensures r.Err? <==> !AllTaxaHaveAttribute(g, "destruction_time")
    ensures r.Err? ==> r.error == MissingAttribute("destruction_time")
    ensures r.Ok? ==> forall n :: n in r.value <==>
      n in g.nodes && g.attrs[n]["destruction_time"] == notDestroyed
    ensures r.Ok? ==> Distinct(r.value) && IsSubsequence(r.value, g.nodes)
  {
    if !AllTaxaHaveAttribute(g, "destruction_time") then Err(MissingAttribute("destruction_time"))
    else Ok(Select(g.nodes, n => MarkedNotDestroyed(g, n, notDestroyed)))
  }

  /** Whenever the newer query at "present" with the default attribute names
      succeeds, the older query succeeds too and returns a subset of it; a
      taxon the newer query keeps is dropped by the older one only when its
      destruction time sorts after "present". */
  lemma ByDestructionTimeWithinExtant(g: Graph, notDestroyed: Value)
    requires Valid(g)
    requires ExtantTaxaIds(g, Present, notDestroyed, "destruction_time", "origin_time").Ok?
    ensures var cur := ExtantTaxaIds(g, Present, notDestroyed, "destruction_time", "origin_time").value;
      var old_ := ExtantTaxaIdsByDestructionTime(g, notDestroyed);
      && old_.Ok?
      && (forall n :: n in old_.value ==> n in cur)
      && (forall n :: n in cur ==>
            (n in old_.value <==> Greater(g.attrs[n]["destruction_time"], Present) != Ok(true)
                                   || g.attrs[n]["destruction_time"] == notDestroyed))
  {
  }

  /** A taxon destroyed at integer time 5: the older query reports no extant
      taxa, the newer one at "present" raises TypeError. */
  lemma IntegerDestructionTimeQueries()
    ensures var g := Graph([7], map[7 := map["destruction_time" := Int(5)]], map[7 := []], map[7 := []]);
      && Valid(g)
      && ExtantTaxaIdsByDestructionTime(g, NotDestroyed) == Ok([])
      && ExtantTaxaIds(g, Present, NotDestroyed, "destruction_time", "origin_time") == Err(TypeError)
  {
    var g := Graph([7], map[7 := map["destruction_time" := Int(5)]], map[7 := []], map[7 := []]);
    assert !MarkedNotDestroyed(g, 7, NotDestroyed);
    assert Select(g.nodes, n => MarkedNotDestroyed(g, n, NotDestroyed)) == [];
  }

  /** `get_extant_taxa_by_destruction_time`: the same selection as attribute
      maps keyed by id, each with "id" added in the graph too; on an error
      the graph is left unchanged. */
  method GetExtantTaxaByDestructionTime(p: Phylogeny, notDestroyed: Value)
    returns (r: Result<map<NodeId, Attrs>>)
    requires Valid(p.graph)
    modifies p
    ensures var ids := ExtantTaxaIdsByDestructionTime(old(p.graph), notDestroyed);
      && (ids.Err? ==> r == Err(ids.error) && p.graph == old(p.graph))
      && (ids.Ok? ==>
            && r.Ok? && r.value.Keys == (set n | n in ids.value)
            && p.graph == old(p.graph).(attrs := WithIds(old(p.graph.attrs), set n | n in ids.value)))
    ensures r.Ok? ==> forall n :: n in r.value ==> r.value[n] == p.graph.attrs[n] == old(p.graph.attrs[n])["id" := Int(n)]
    ensures Valid(p.graph)
  {
    var ids := ExtantTaxaIdsByDestructionTime(p.graph, notDestroyed);
    if ids.Err? {
      return Err(ids.error);
    }
    var extant := CollectWithIds(p, ids.value);
    r := Ok(extant);
  }
}
