/** The state of a taxon over an attribute list, and the states met along a
    lineage: what the lineage metrics and the lineage abstraction compare. */
module States {
  import opened Values
  import opened Graphs
  import opened Validation
  import opened Topology
  import opened Lineages

  /** `[node[attr] for attr in attribute_list]`. */
  function Projection(node: Attrs, attributeList: seq<string>): (s: seq<Value>)
    requires forall a :: a in attributeList ==> a in node
    ensures |s| == |attributeList|
    ensures forall j :: 0 <= j < |s| ==> s[j] == node[attributeList[j]]
  {
    if attributeList == [] then []
    else [node[attributeList[0]]] + Projection(node, attributeList[1..])
  }

  /** Every taxon of w is in the graph and carries every listed attribute. */
  ghost predicate Carries(g: Graph, w: seq<NodeId>, attributeList: seq<string>)
  {
    forall i :: 0 <= i < |w| ==> w[i] in g.attrs && forall a :: a in attributeList ==> a in g.attrs[w[i]]
  }

  /** The state of each taxon of w, in order. */
  function StatesAlong(g: Graph, w: seq<NodeId>, attributeList: seq<string>): (ps: seq<seq<Value>>)
    requires Carries(g, w, attributeList)
    ensures |ps| == |w|
    ensures forall k :: 0 <= k < |w| ==> ps[k] == Projection(g.attrs[w[k]], attributeList)
  {
    if w == [] then []
    else
      var init := w[..|w| - 1];
      assert forall i :: 0 <= i < |init| ==> init[i] == w[i];
      StatesAlong(g, init, attributeList) + [Projection(g.attrs[w[|w| - 1]], attributeList)]
  }

  /** The number of maximal runs of equal consecutive states. */
  function NumRuns(ps: seq<seq<Value>>): nat
  {
    if |ps| <= 1 then |ps|
    else NumRuns(ps[..|ps| - 1]) + (if ps[|ps| - 2] != ps[|ps| - 1] then 1 else 0)
  }

  /** The state changes between positions i and i + 1. */
  predicate ChangesAt(ps: seq<seq<Value>>, i: int)
  {
    0 <= i < |ps| - 1 && ps[i] != ps[i + 1]
  }

  /** The positions where the state changes from one taxon to the next. */
  function Changes(ps: seq<seq<Value>>): set<int>
  {
    set i | 0 <= i < |ps| - 1 && ChangesAt(ps, i)
  }

  /** A non-empty list has between one run and one run per element, and the
      runs are one more than the state changes. */
  lemma {:induction false} NumRunsCountsChanges(ps: seq<seq<Value>>)
    requires ps != []
    ensures NumRuns(ps) == 1 + |Changes(ps)|
    ensures 1 <= NumRuns(ps) <= |ps|
  {
    if |ps| > 1 {
      NumRunsCountsChanges(ps[..|ps| - 1]);
      ChangesOfLonger(ps);
    }
  }

  /** The changes of a list are those of the list without its last state,
      and one more when the last state differs from the one before. */
  lemma ChangesOfLonger(ps: seq<seq<Value>>)
    requires |ps| > 1
    ensures |Changes(ps)| == |Changes(ps[..|ps| - 1])| + (if ps[|ps| - 2] != ps[|ps| - 1] then 1 else 0)
  {
    var init := ps[..|ps| - 1];
    var n := |ps| - 2;
    forall i | 0 <= i < n ensures ChangesAt(ps, i) <==> ChangesAt(init, i) {
      assert init[i] == ps[i] && init[i + 1] == ps[i + 1];
    }
    assert n !in Changes(init);
    if ChangesAt(ps, n) {
      assert Changes(ps) == Changes(init) + {n};
    } else {
      assert Changes(ps) == Changes(init);
    }
  }

  /** The distinct states of a list. */
  function StateSet(ps: seq<seq<Value>>): set<seq<Value>>
  {
    set p | p in ps
  }

  /** A list holds no more distinct states than it has runs. */
  lemma {:induction false} DistinctStatesAtMostRuns(ps: seq<seq<Value>>)
    ensures |StateSet(ps)| <= NumRuns(ps)
  {
    if |ps| > 1 {
      var init := ps[..|ps| - 1];
      var last := ps[|ps| - 1];
      DistinctStatesAtMostRuns(init);
      assert ps == init + [last];
      assert StateSet(ps) == StateSet(init) + {last};
      if ps[|ps| - 2] == last {
        assert last in init;
        assert StateSet(ps) == StateSet(init);
      }
    } else if |ps| == 1 {
      assert StateSet(ps) == {ps[0]};
    }
  }

  /** Appending a state adds it to the distinct states. */
  lemma StateSetAppend(ps: seq<seq<Value>>, p: seq<Value>)
    ensures StateSet(ps + [p]) == StateSet(ps) + {p}
  {
  }

  /** The first state of a list is among its distinct states. */
  lemma StateSetHasFirst(ps: seq<seq<Value>>)
    requires ps != []
    ensures |StateSet(ps)| >= 1
  {
    assert ps[0] in StateSet(ps);
  }

  /** Appending a state adds a run only when the state differs from the last. */
  lemma NumRunsAppend(ps: seq<seq<Value>>, p: seq<Value>)
    requires ps != []
    ensures NumRuns(ps + [p]) == NumRuns(ps) + (if ps[|ps| - 1] != p then 1 else 0)
  {
    assert (ps + [p])[..|ps|] == ps;
  }

  /** The states along w are those along w without its last taxon, then
      the last taxon's state. */
  lemma StatesAlongLast(g: Graph, w: seq<NodeId>, attributeList: seq<string>)
    requires Carries(g, w, attributeList) && |w| > 0
    ensures Carries(g, w[..|w| - 1], attributeList)
    ensures StatesAlong(g, w, attributeList)
      == StatesAlong(g, w[..|w| - 1], attributeList) + [Projection(g.attrs[w[|w| - 1]], attributeList)]
  {
  }

  /** The checks that open every lineage metric and the lineage
      abstraction, in the source's order: the graph must be an asexual
      lineage, then every taxon must carry every listed attribute. On
      success the chain is returned as a ghost witness. */
  method CheckLineageAttributes(g: Graph, attributeList: seq<string>, ghost rank: map<NodeId, nat>)
    returns (r: Outcome, ghost chain: seq<NodeId>)
    requires Valid(g) && IsTopologicalRank(g, rank)
    ensures !IsAsexualLineageGraph(g) ==> r == Fail(NotAsexualLineage)
    ensures IsAsexualLineageGraph(g) && !AllTaxaHaveAttributes(g, attributeList) ==> r == Fail(MissingAttributes)
    ensures IsAsexualLineageGraph(g) && AllTaxaHaveAttributes(g, attributeList) ==> r == Pass
    ensures r == Pass ==> IsLineageChain(g, chain) && Carries(g, chain, attributeList) && |chain| == |g.nodes|
  {
    var isLineage;
    isLineage, chain := IsAsexualLineage(g, rank);
    if !isLineage {
      return Fail(NotAsexualLineage), chain;
    }
    if !AllTaxaHaveAttributes(g, attributeList) {
      return Fail(MissingAttributes), chain;
    }
    ChainInGraph(g, chain);
    LineageChainCoversGraph(g, rank, chain);
    forall i | 0 <= i < |chain|
      ensures chain[i] in g.attrs && forall a :: a in attributeList ==> a in g.attrs[chain[i]]
    {
      var n: NodeId := chain[i];
      assert n in g.nodes;
    }
    return Pass, chain;
  }
}
