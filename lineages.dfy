/** Asexual lineages (phylogeny/utils.py, "lineages-specific utilities"):
    recognising a root-to-tip chain by walking forward from the root, and
    extracting a taxon's ancestry by walking back to a root. */
module Lineages {
  import opened Values
  import opened Graphs
  import opened Topology

  /** Every step of w moves to the only neighbour adj records. */
  ghost predicate FollowsSole(adj: map<NodeId, seq<NodeId>>, w: seq<NodeId>)
  {
    forall i :: 0 <= i < |w| - 1 ==> w[i] in adj && adj[w[i]] == [w[i + 1]]
  }

  /** The last taxon of w has no neighbour in adj. */
  ghost predicate EndsAtDeadEnd(adj: map<NodeId, seq<NodeId>>, w: seq<NodeId>)
  {
    |w| > 0 && w[|w| - 1] in adj && adj[w[|w| - 1]] == []
  }

  /** The walk that `is_asexual_lineage` accepts: it starts at the only root,
      each taxon has exactly one successor, the next one, and it stops at a
      leaf. */
  ghost predicate IsLineageChain(g: Graph, w: seq<NodeId>)
    requires Valid(g)
  {
    && |w| > 0
    && RootIds(g) == [w[0]]
    && FollowsSole(g.succ, w)
    && EndsAtDeadEnd(g.succ, w)
  }

  /** What `is_asexual_lineage` decides. */
  ghost predicate IsAsexualLineageGraph(g: Graph)
    requires Valid(g)
  {
    exists w :: IsLineageChain(g, w)
  }

  /** `ids_on_lineage` of `extract_asexual_lineage`: t, then each taxon's
      only parent, ending at a root. */
  ghost predicate IsAncestry(g: Graph, t: NodeId, a: seq<NodeId>)
  {
    && |a| > 0
    && a[0] == t
    && t in g.nodes
    && FollowsSole(g.pred, a)
    && EndsAtDeadEnd(g.pred, a)
  }

  /** A walk that follows sole neighbours from the start of a walk that ends
      at a dead end is a prefix of it. */
  lemma {:induction false} SoleWalkIsPrefix(adj: map<NodeId, seq<NodeId>>, p: seq<NodeId>, w: seq<NodeId>)
    requires |p| > 0 && |w| > 0 && p[0] == w[0]
    requires FollowsSole(adj, p) && FollowsSole(adj, w) && EndsAtDeadEnd(adj, w)
    ensures |p| <= |w| && p == w[..|p|]
  {
    if |p| > 1 {
      var k := |p| - 1;
      var q := p[..k];
      assert FollowsSole(adj, q) by {
        forall i | 0 <= i < |q| - 1 ensures q[i] in adj && adj[q[i]] == [q[i + 1]] {
          assert q[i] == p[i] && q[i + 1] == p[i + 1];
        }
      }
      SoleWalkIsPrefix(adj, q, w);
      assert p[k - 1] == q[k - 1] == w[k - 1];
      assert adj[p[k - 1]] == [p[k]];
      assert k < |w|;
      assert adj[w[k - 1]] == [w[k]];
      assert p == w[..k + 1];
    }
  }

  /** Two walks from one start that follow sole neighbours to a dead end are
      the same walk. */
  lemma SoleWalkUnique(adj: map<NodeId, seq<NodeId>>, p: seq<NodeId>, w: seq<NodeId>)
    requires |p| > 0 && |w| > 0 && p[0] == w[0]
    requires FollowsSole(adj, p) && EndsAtDeadEnd(adj, p)
    requires FollowsSole(adj, w) && EndsAtDeadEnd(adj, w)
    ensures p == w
  {
    SoleWalkIsPrefix(adj, p, w);
    SoleWalkIsPrefix(adj, w, p);
  }

  /** A graph has at most one lineage chain. */
  lemma LineageChainUnique(g: Graph, w: seq<NodeId>, v: seq<NodeId>)
    requires Valid(g) && IsLineageChain(g, w) && IsLineageChain(g, v)
    ensures w == v
  {
    SoleWalkUnique(g.succ, w, v);
  }

  /** A taxon has at most one ancestry. */
  lemma AncestryUnique(g: Graph, t: NodeId, a: seq<NodeId>, b: seq<NodeId>)
    requires IsAncestry(g, t, a) && IsAncestry(g, t, b)
    ensures a == b
  {
    SoleWalkUnique(g.pred, a, b);
  }

  /** Along a successor walk the acyclicity rank strictly grows. */
  lemma {:induction false} SuccessorWalkRanksIncrease(g: Graph, rank: map<NodeId, nat>, w: seq<NodeId>)
    requires IsTopologicalRank(g, rank) && FollowsSole(g.succ, w)
    ensures forall i, j :: 0 <= i < j < |w| ==> w[i] in rank && w[j] in rank && rank[w[i]] < rank[w[j]]
  {
    if |w| > 1 {
      var k := |w| - 1;
      var q := w[..k];
      assert FollowsSole(g.succ, q) by {
        forall i | 0 <= i < |q| - 1 ensures q[i] in g.succ && g.succ[q[i]] == [q[i + 1]] {
          assert q[i] == w[i] && q[i + 1] == w[i + 1];
        }
      }
      SuccessorWalkRanksIncrease(g, rank, q);
      var u, v: NodeId := w[k - 1], w[k];
      assert v in g.succ[u];
      EdgeRank(g, rank, u, v);
      forall i, j | 0 <= i < j < |w| ensures w[i] in rank && w[j] in rank && rank[w[i]] < rank[w[j]] {
        if j < k {
          assert q[i] == w[i] && q[j] == w[j];
        } else if i < k - 1 {
          assert q[i] == w[i] && q[k - 1] == w[k - 1];
        } else {
          assert w[i] == u && w[j] == v;
        }
      }
    }
  }

  /** Along a predecessor walk the acyclicity rank strictly falls. */
  lemma {:induction false} PredecessorWalkRanksDecrease(g: Graph, rank: map<NodeId, nat>, a: seq<NodeId>)
    requires Valid(g) && IsTopologicalRank(g, rank) && FollowsSole(g.pred, a)
    requires |a| > 0 ==> a[0] in g.nodes
    ensures forall i :: 0 <= i < |a| ==> a[i] in g.nodes
    ensures forall i, j :: 0 <= i < j < |a| ==> a[i] in rank && a[j] in rank && rank[a[j]] < rank[a[i]]
  {
    if |a| > 1 {
      var k := |a| - 1;
      var q := a[..k];
      assert FollowsSole(g.pred, q) by {
        forall i | 0 <= i < |q| - 1 ensures q[i] in g.pred && g.pred[q[i]] == [q[i + 1]] {
          assert q[i] == a[i] && q[i + 1] == a[i + 1];
        }
      }
      PredecessorWalkRanksDecrease(g, rank, q);
      var child, parent: NodeId := a[k - 1], a[k];
      assert q[k - 1] == child;
      assert parent in g.pred[child];
      ParentRank(g, rank, child, parent);
      forall i, j | 0 <= i < j < |a| ensures a[i] in rank && a[j] in rank && rank[a[j]] < rank[a[i]] {
        if j < k {
          assert q[i] == a[i] && q[j] == a[j];
        } else if i < k - 1 {
          assert q[i] == a[i] && q[k - 1] == a[k - 1];
        }
      }
      forall i | 0 <= i < |a| ensures a[i] in g.nodes {
        if i < k {
          assert q[i] == a[i];
        }
      }
    }
  }

  /** A recorded parent lies in the graph and has a smaller rank. */
  lemma ParentRank(g: Graph, rank: map<NodeId, nat>, child: NodeId, parent: NodeId)
    requires Valid(g) && IsTopologicalRank(g, rank)
    requires child in g.nodes && parent in g.pred[child]
    ensures parent in g.nodes && child in rank && parent in rank && rank[parent] < rank[child]
  {
    assert parent in g.nodes;
    assert child in g.succ[parent];
    EdgeRank(g, rank, parent, child);
  }

  /** Ranks that strictly grow along a walk make its taxa distinct. */
  lemma RanksIncreasingDistinct(w: seq<NodeId>, rank: map<NodeId, nat>)
    requires forall i, j :: 0 <= i < j < |w| ==> w[i] in rank && w[j] in rank && rank[w[i]] < rank[w[j]]
    ensures Distinct(w)
  {
  }

  /** Each taxon of w has the next one as its only successor, and the last
      has none: the links the lineage walks follow. */
  ghost predicate Links(g: Graph, w: seq<NodeId>)
  {
    && |w| > 0
    && forall i :: 0 <= i < |w| ==>
         && w[i] in g.succ
         && (i < |w| - 1 ==> g.succ[w[i]] == [w[i + 1]])
         && (i == |w| - 1 ==> g.succ[w[i]] == [])
  }

  /** The link of w at position i. The walks of the metrics and of the
      abstraction carry `Links` rather than `IsLineageChain`: it needs
      neither `Valid` nor the root list, which keeps their loop contexts
      small. */
  lemma LinkAt(g: Graph, w: seq<NodeId>, i: int)
    requires Links(g, w) && 0 <= i < |w|
    ensures w[i] in g.succ
    ensures i < |w| - 1 ==> g.succ[w[i]] == [w[i + 1]]
    ensures i == |w| - 1 ==> g.succ[w[i]] == []
  {
  }

  /** A lineage chain starts at the only root and follows its links. */
  lemma LineageChainLinks(g: Graph, w: seq<NodeId>)
    requires Valid(g) && IsLineageChain(g, w)
    ensures Links(g, w) && RootIds(g) == [w[0]]
  {
  }

  /** The taxa of a lineage chain lie in the graph. */
  lemma {:induction false} ChainInGraph(g: Graph, w: seq<NodeId>)
    requires Valid(g) && IsLineageChain(g, w)
    ensures forall i :: 0 <= i < |w| ==> w[i] in g.nodes
  {
    var r: NodeId := w[0];
    assert r in RootIds(g);
    forall i | 0 <= i < |w| ensures w[i] in g.nodes {
      if i > 0 {
        var u, v: NodeId := w[i - 1], w[i];
        assert v in g.succ[u];
      }
    }
  }

  /** Under acyclicity every taxon lies on the lineage chain: its ancestors
      reach back to the only root, and the chain leaves each of its taxa to
      that taxon's only child. */
  lemma ChainReachesEveryTaxon(g: Graph, rank: map<NodeId, nat>, w: seq<NodeId>, x: NodeId)
    requires Valid(g) && IsTopologicalRank(g, rank) && IsLineageChain(g, w) && x in g.nodes
    ensures x in w
    decreases rank[x]
  {
    if g.pred[x] == [] {
      assert x in RootIds(g);
      ElementIn(w, 0);
    } else {
      var y := g.pred[x][0];
      ParentRank(g, rank, x, y);
      ChainReachesEveryTaxon(g, rank, w, y);
      var i :| 0 <= i < |w| && w[i] == y;
      assert x in g.succ[y];
      assert i < |w| - 1;
      ElementIn(w, i + 1);
    }
  }

  /** Under acyclicity a lineage chain lists every taxon exactly once, and a
      graph with one is asexual: the only root has no parent and every other
      taxon has the previous taxon of the chain as its only parent. */
  lemma LineageChainCoversGraph(g: Graph, rank: map<NodeId, nat>, w: seq<NodeId>)
    requires Valid(g) && IsTopologicalRank(g, rank) && IsLineageChain(g, w)
    ensures forall x :: x in w <==> x in g.nodes
    ensures Distinct(w) && |w| == |g.nodes|
    ensures IsAsexual(g)
  {
    ChainInGraph(g, w);
    forall x | x in g.nodes ensures x in w {
      ChainReachesEveryTaxon(g, rank, w, x);
    }
    SuccessorWalkRanksIncrease(g, rank, w);
    RanksIncreasingDistinct(w, rank);
    DistinctCardinality(w);
    DistinctCardinality(g.nodes);
    assert (set x | x in w) == (set x | x in g.nodes);
    forall x | x in g.nodes ensures |g.pred[x]| <= 1 {
      var j :| 0 <= j < |w| && w[j] == x;
      if j == 0 {
        assert x in RootIds(g);
      } else {
        ChainParent(g, w, j);
      }
    }
  }

  /** On a chain that covers the graph, the parent of each non-root taxon is
      the one before it. */
  lemma ChainParent(g: Graph, w: seq<NodeId>, j: int)
    requires Valid(g) && IsLineageChain(g, w) && Distinct(w)
    requires forall x :: x in g.nodes ==> x in w
    requires 0 < j < |w|
    ensures g.pred[w[j]] == [w[j - 1]]
  {
    ChainInGraph(g, w);
    var x, p: NodeId := w[j], w[j - 1];
    assert x in g.succ[p];
    forall y | y in g.pred[x] ensures y == p {
      assert y in g.nodes;
      var i :| 0 <= i < |w| && w[i] == y;
      assert x in g.succ[y];
      assert i < |w| - 1;
      assert w[i + 1] == x;
    }
    SingletonList(g.pred[x], p);
  }

  /** The root 1 and the taxon 3, its own parent and child. */
  function SelfLoop(): Graph
  {
    Graph([1, 3], map[1 := map[], 3 := map[]], map[1 := [], 3 := [3]], map[1 := [], 3 := [3]])
  }

  lemma SelfLoopValid()
    ensures Valid(SelfLoop())
  {
    var g := SelfLoop();
    assert g.pred.Keys == g.succ.Keys == g.attrs.Keys == {1, 3};
    assert forall n :: n in g.nodes <==> n in {1, 3};
    assert Distinct(g.nodes);
    forall n | n in g.pred ensures Distinct(g.pred[n]) && Distinct(g.succ[n]) {
      assert n == 1 || n == 3;
    }
    forall u, v | u in g.succ && v in g.pred ensures v in g.succ[u] <==> u in g.pred[v] {
      assert u == 1 || u == 3;
      assert v == 1 || v == 3;
    }
  }

  /** Without acyclicity the walk can miss taxa: the root 1 alone is a
      lineage chain that `is_asexual_lineage` accepts, although taxon 3 is
      not on it. */
  lemma CyclicGraphEscapesWalk()
    ensures Valid(SelfLoop()) && IsLineageChain(SelfLoop(), [1]) && 3 in SelfLoop().nodes
  {
    SelfLoopValid();
    var g := SelfLoop();
    forall y ensures y in RootIds(g) <==> y == 1 {
      assert y in g.nodes && g.pred[y] == [] <==> y == 1;
    }
    SingletonList(RootIds(g), 1);
  }

  /** A walk from the only root that follows sole successors, laid beside a
      lineage chain, ends at a taxon with at most one successor. */
  lemma WalkTipOnChain(g: Graph, p: seq<NodeId>, w: seq<NodeId>)
    requires Valid(g) && IsLineageChain(g, w)
    requires |p| > 0 && p[0] == w[0] && FollowsSole(g.succ, p)
    ensures p[|p| - 1] in g.succ && |g.succ[p[|p| - 1]]| <= 1
  {
    SoleWalkIsPrefix(g.succ, p, w);
    var k := |p|;
    assert p[k - 1] == w[k - 1];
    if k < |w| {
      assert g.succ[w[k - 1]] == [w[k]];
    }
  }

  /** A walk from the only root that follows sole successors can only be
      part of a lineage chain if its last taxon has at most one successor. */
  lemma ChainNeedsSoleSuccessor(g: Graph, p: seq<NodeId>)
    requires Valid(g) && |p| > 0 && RootIds(g) == [p[0]] && FollowsSole(g.succ, p)
    requires p[|p| - 1] in g.succ
    ensures IsAsexualLineageGraph(g) ==> |g.succ[p[|p| - 1]]| <= 1
  {
    if IsAsexualLineageGraph(g) {
      var w :| IsLineageChain(g, w);
      WalkTipOnChain(g, p, w);
    }
  }

  /** `is_asexual_lineage`: exactly one root, then follow the only successor
      until a leaf, giving up at a taxon with two or more successors. The
      chain walked is returned as a ghost witness. */
  method IsAsexualLineage(g: Graph, ghost rank: map<NodeId, nat>) returns (b: bool, ghost chain: seq<NodeId>)
    requires Valid(g) && IsTopologicalRank(g, rank)
    ensures b <==> IsAsexualLineageGraph(g)
    ensures b ==> IsLineageChain(g, chain)
    ensures |RootIds(g)| != 1 ==> !b
  {
    var lineage := RootIds(g);
    if |lineage| != 1 {
      return false, [];
    }
    var r: NodeId := lineage[0];
    assert r in g.nodes;
    while true
      invariant |lineage| > 0 && RootIds(g) == [lineage[0]]
      invariant FollowsSole(g.succ, lineage)
      invariant lineage[|lineage| - 1] in g.nodes
      decreases |g.nodes| - rank[lineage[|lineage| - 1]]
    {
      var successors := g.succ[lineage[|lineage| - 1]];
      if |successors| > 1 {
        ChainNeedsSoleSuccessor(g, lineage);
        return false, [];
      }
      if |successors| == 0 {
        break;
      }
      var next: NodeId := successors[0];
      assert successors == [next];
      assert next in g.succ[lineage[|lineage| - 1]];
      lineage := lineage + [next];
    }
    assert IsLineageChain(g, lineage);
    return true, lineage;
  }

  /** The list reversed. */
  function Reversed(s: seq<NodeId>): (r: seq<NodeId>)
    ensures |r| == |s|
    ensures forall i :: 0 <= i < |s| ==> r[i] == s[|s| - 1 - i]
  {
    if s == [] then [] else Reversed(s[1..]) + [s[0]]
  }

  /** The only child of an ancestry's taxon that lies on the ancestry is the
      taxon before it; t has none there. */
  lemma AncestryChildMembers(g: Graph, t: NodeId, a: seq<NodeId>, i: int)
    requires Valid(g) && IsAncestry(g, t, a) && Distinct(a)
    requires forall k :: 0 <= k < |a| ==> a[k] in g.nodes
    requires 0 <= i < |a|
    ensures a[i] in g.succ
    ensures forall m :: m in g.succ[a[i]] && m in a <==> i > 0 && m == a[i - 1]
  {
    var x: NodeId := a[i];
    forall m | m in g.succ[x] && m in a ensures i > 0 && m == a[i - 1] {
      var j :| 0 <= j < |a| && a[j] == m;
      assert x in g.pred[m];
      assert j < |a| - 1;
      assert a[j + 1] == x;
    }
    if i > 0 {
      var p: NodeId := a[i - 1];
      ElementIn(a, i - 1);
      assert x in g.pred[p];
      assert p in g.succ[x];
    }
  }

  /** Within the subgraph on an ancestry, a taxon's children are the taxon
      before it, and t has none. */
  lemma AncestryChildren(g: Graph, t: NodeId, a: seq<NodeId>, i: int)
    requires Valid(g) && IsAncestry(g, t, a) && Distinct(a)
    requires forall k :: 0 <= k < |a| ==> a[k] in g.nodes
    requires 0 <= i < |a|
    ensures var h := Subgraph(g, set x | x in a);
      a[i] in h.succ && h.succ[a[i]] == if i == 0 then [] else [a[i - 1]]
  {
    var keep := set x | x in a;
    var h := Subgraph(g, keep);
    SubgraphAdjacency(g, keep);
    AncestryChildMembers(g, t, a, i);
    var x: NodeId := a[i];
    assert x in keep;
    assert x in h.succ;
    assert forall m :: m in h.succ[x] <==> m in g.succ[x] && m in keep;
    if i == 0 {
      EmptyList(h.succ[x]);
    } else {
      SingletonList(h.succ[x], a[i - 1]);
    }
  }

  /** In the subgraph on an ancestry the i-th taxon keeps its parent list
      as it is in the whole graph: the next taxon of the ancestry, or none
      for its end. */
  lemma AncestryParentKept(g: Graph, t: NodeId, a: seq<NodeId>, i: int)
    requires Valid(g) && IsAncestry(g, t, a)
    requires forall k :: 0 <= k < |a| ==> a[k] in g.nodes
    requires 0 <= i < |a|
    ensures var h := Subgraph(g, set x | x in a);
      && a[i] in h.pred && h.pred[a[i]] == g.pred[a[i]]
      && (i < |a| - 1 ==> h.pred[a[i]] == [a[i + 1]])
  {
    var keep := set x | x in a;
    var h := Subgraph(g, keep);
    SubgraphAdjacency(g, keep);
    var y: NodeId := a[i];
    assert y in keep;
    if i < |a| - 1 {
      var p: NodeId := a[i + 1];
      assert p in keep && g.pred[y] == [p];
      SingletonList(h.pred[y], p);
    } else {
      EmptyList(h.pred[y]);
    }
  }

  /** In the subgraph on an ancestry every taxon keeps its parent list. */
  lemma AncestryParentsKept(g: Graph, t: NodeId, a: seq<NodeId>)
    requires Valid(g) && IsAncestry(g, t, a)
    requires forall k :: 0 <= k < |a| ==> a[k] in g.nodes
    ensures var h := Subgraph(g, set x | x in a);
      forall i :: 0 <= i < |a| ==> a[i] in h.pred && h.pred[a[i]] == g.pred[a[i]]
  {
    var h := Subgraph(g, set x | x in a);
    forall i | 0 <= i < |a| ensures a[i] in h.pred && h.pred[a[i]] == g.pred[a[i]] {
      AncestryParentKept(g, t, a, i);
    }
  }

  /** In the subgraph on an ancestry the end of the ancestry is the only
      root. */
  lemma AncestryRoot(g: Graph, t: NodeId, a: seq<NodeId>)
    requires Valid(g) && IsAncestry(g, t, a) && Distinct(a)
    requires forall k :: 0 <= k < |a| ==> a[k] in g.nodes
    ensures var h := Subgraph(g, set x | x in a);
      Valid(h) && RootIds(h) == [a[|a| - 1]]
  {
    var h := Subgraph(g, set x | x in a);
    SubgraphValid(g, set x | x in a);
    var root: NodeId := a[|a| - 1];
    AncestryParentKept(g, t, a, |a| - 1);
    forall y | y in RootIds(h) ensures y == root {
      var i :| 0 <= i < |a| && a[i] == y;
      AncestryParentKept(g, t, a, i);
    }
    SingletonList(RootIds(h), root);
  }

  /** Read backwards, an ancestry walks the subgraph on it through each
      taxon's only child down to t, which has none. */
  lemma ReversedAncestryFollowsChildren(g: Graph, t: NodeId, a: seq<NodeId>)
    requires Valid(g) && IsAncestry(g, t, a) && Distinct(a)
    requires forall k :: 0 <= k < |a| ==> a[k] in g.nodes
    ensures var h := Subgraph(g, set x | x in a);
      FollowsSole(h.succ, Reversed(a)) && EndsAtDeadEnd(h.succ, Reversed(a))
  {
    var h := Subgraph(g, set x | x in a);
    var c := Reversed(a);
    var n := |a|;
    forall j | 0 <= j < n - 1 ensures c[j] in h.succ && h.succ[c[j]] == [c[j + 1]] {
      AncestryChildren(g, t, a, n - 1 - j);
    }
    AncestryChildren(g, t, a, 0);
  }

  /** The extracted subgraph is itself an asexual lineage, walked from the
      root of the ancestry down to t. */
  lemma ExtractedLineageIsChain(g: Graph, rank: map<NodeId, nat>, t: NodeId, a: seq<NodeId>)
    requires Valid(g) && IsTopologicalRank(g, rank) && IsAncestry(g, t, a)
    ensures var h := Subgraph(g, set x | x in a);
      Valid(h) && IsLineageChain(h, Reversed(a))
  {
    PredecessorWalkRanksDecrease(g, rank, a);
    AncestryRoot(g, t, a);
    ReversedAncestryFollowsChildren(g, t, a);
  }

  /** `extract_asexual_lineage`: fail for an unknown taxon, then for a graph
      that is not asexual; otherwise follow the only parent back to a root
      and return the subgraph on the taxa visited. */
  method ExtractAsexualLineage(g: Graph, t: NodeId, ghost rank: map<NodeId, nat>)
    returns (r: Result<Graph>, ghost ancestry: seq<NodeId>)
    requires Valid(g) && IsTopologicalRank(g, rank)
    ensures t !in g.nodes ==> r == Err(NotFound(t))
    ensures t in g.nodes && !IsAsexual(g) ==> r == Err(NotAsexual)
    ensures t in g.nodes && IsAsexual(g) ==>
      && r.Ok? && IsAncestry(g, t, ancestry)
      && r.value == Subgraph(g, set x | x in ancestry)
    ensures r.Ok? ==> Valid(r.value) && IsLineageChain(r.value, Reversed(ancestry))
  {
    if t !in g.nodes {
      return Err(NotFound(t)), [];
    }
    if !IsAsexual(g) {
      return Err(NotAsexual), [];
    }
    var ids := [t];
    while true
      invariant |ids| > 0 && ids[0] == t
      invariant FollowsSole(g.pred, ids)
      invariant ids[|ids| - 1] in g.nodes
      decreases rank[ids[|ids| - 1]]
    {
      var last := ids[|ids| - 1];
      var ancestors := g.pred[last];
      if |ancestors| == 0 {
        break;
      }
      var parent: NodeId := ancestors[0];
      assert ancestors == [parent];
      ParentRank(g, rank, last, parent);
      ids := ids + [parent];
    }
    ExtractedLineageIsChain(g, rank, t, ids);
    return Ok(Subgraph(g, set x | x in ids)), ids;
  }
}
