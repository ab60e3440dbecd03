/** The asexual-lineage metrics of phylogeny/metrics.py. Each walks the
    lineage from its root along the only successor until the leaf. */
module Metrics {
  import opened Values
  import opened Graphs
  import opened Validation
  import opened Topology
  import opened Lineages
  import opened States

  /** `get_asexual_lineage_length`: the number of taxa of an asexual
      lineage, which is the length of its chain. */
  method AsexualLineageLength(g: Graph, ghost rank: map<NodeId, nat>) returns (r: Result<nat>)
    requires Valid(g) && IsTopologicalRank(g, rank)
    ensures r.Ok? <==> IsAsexualLineageGraph(g)
    ensures r.Err? ==> r.error == NotAsexualLineage
    ensures r.Ok? ==> r.value == |g.nodes| && forall w :: IsLineageChain(g, w) ==> r.value == |w|
  {
    var isLineage, chain := IsAsexualLineage(g, rank);
    if !isLineage {
      return Err(NotAsexualLineage);
    }
    LineageChainCoversGraph(g, rank, chain);
    forall w | IsLineageChain(g, w) ensures w == chain {
      LineageChainUnique(g, w, chain);
    }
    return Ok(|g.nodes|);
  }

  /** `get_asexual_lineage_num_discrete_state_changes`: one for the root's
      state, plus one each time a taxon's state differs from the state
      before it, i.e. the number of runs of equal states along the chain. */
  method NumDiscreteStateChanges(g: Graph, attributeList: seq<string>, ghost rank: map<NodeId, nat>)
    returns (r: Result<nat>)
    requires Valid(g) && IsTopologicalRank(g, rank)
    ensures !IsAsexualLineageGraph(g) ==> r == Err(NotAsexualLineage)
    ensures IsAsexualLineageGraph(g) && !AllTaxaHaveAttributes(g, attributeList) ==> r == Err(MissingAttributes)
    ensures IsAsexualLineageGraph(g) && AllTaxaHaveAttributes(g, attributeList) ==> r.Ok?
    ensures r.Ok? ==> r.value >= 1 && forall w :: IsLineageChain(g, w) ==>
      Carries(g, w, attributeList) && r.value == NumRuns(StatesAlong(g, w, attributeList))
  {
    var check, chain := CheckLineageAttributes(g, attributeList, rank);
    if check.Fail? {
      return Err(check.error);
    }
    forall w | IsLineageChain(g, w) ensures w == chain {
      LineageChainUnique(g, w, chain);
    }
    LineageChainLinks(g, chain);
    var numStates := CountRuns(g, attributeList, RootIds(g)[0], chain);
    NumRunsCountsChanges(StatesAlong(g, chain, attributeList));
    return Ok(numStates);
  }

  /** The loop of `get_asexual_lineage_num_discrete_state_changes`: walk
      from the root through sole successors, counting a new state whenever
      the state differs from the current one. */
  method CountRuns(g: Graph, attributeList: seq<string>, root: NodeId, ghost chain: seq<NodeId>)
    returns (numStates: nat)
    requires Links(g, chain) && chain[0] == root && Carries(g, chain, attributeList)
    ensures numStates == NumRuns(StatesAlong(g, chain, attributeList))
  {
    ghost var ps := StatesAlong(g, chain, attributeList);
    var lineageId := root;
    numStates := 1;
    var curState := Projection(g.attrs[lineageId], attributeList);
    ghost var i := 0;
    while true
      invariant 0 <= i < |chain| && lineageId == chain[i]
      invariant curState == ps[i]
      invariant numStates == NumRuns(ps[..i + 1])
      decreases |chain| - i
    {
      LinkAt(g, chain, i);
      var successors := g.succ[lineageId];
      if |successors| == 0 {
        break;
      }
      lineageId := successors[0];
      var state := Projection(g.attrs[lineageId], attributeList);
      assert ps[..i + 2] == ps[..i + 1] + [state];
      NumRunsAppend(ps[..i + 1], state);
      if curState != state {
        curState := state;
        numStates := numStates + 1;
      }
      i := i + 1;
    }
    LinkAt(g, chain, i);
    assert ps[..i + 1] == ps;
  }

  /** `get_asexual_lineage_num_discrete_unique_states`: the number of
      distinct states met along the chain, at least one and at most the
      number of state runs. */
  method NumDiscreteUniqueStates(g: Graph, attributeList: seq<string>, ghost rank: map<NodeId, nat>)
    returns (r: Result<nat>)
    requires Valid(g) && IsTopologicalRank(g, rank)
    ensures !IsAsexualLineageGraph(g) ==> r == Err(NotAsexualLineage)
    ensures IsAsexualLineageGraph(g) && !AllTaxaHaveAttributes(g, attributeList) ==> r == Err(MissingAttributes)
    ensures IsAsexualLineageGraph(g) && AllTaxaHaveAttributes(g, attributeList) ==> r.Ok?
    ensures r.Ok? ==> forall w :: IsLineageChain(g, w) ==>
      && Carries(g, w, attributeList)
      && r.value == |StateSet(StatesAlong(g, w, attributeList))|
      && 1 <= r.value <= NumRuns(StatesAlong(g, w, attributeList))
  {
    var check, chain := CheckLineageAttributes(g, attributeList, rank);
    if check.Fail? {
      return Err(check.error);
    }
    forall w | IsLineageChain(g, w) ensures w == chain {
      LineageChainUnique(g, w, chain);
    }
    LineageChainLinks(g, chain);
    var uniqueStates := CollectStates(g, attributeList, RootIds(g)[0], chain);
    ghost var ps := StatesAlong(g, chain, attributeList);
    DistinctStatesAtMostRuns(ps);
    StateSetHasFirst(ps);
    return Ok(|uniqueStates|);
  }

  /** The loop of `get_asexual_lineage_num_discrete_unique_states`: walk
      from the root through sole successors, adding every state met to a
      set. */
  method CollectStates(g: Graph, attributeList: seq<string>, root: NodeId, ghost chain: seq<NodeId>)
    returns (uniqueStates: set<seq<Value>>)
    requires Links(g, chain) && chain[0] == root && Carries(g, chain, attributeList)
    ensures uniqueStates == StateSet(StatesAlong(g, chain, attributeList))
  {
    ghost var ps := StatesAlong(g, chain, attributeList);
    var lineageId := root;
    uniqueStates := {Projection(g.attrs[lineageId], attributeList)};
    ghost var i := 0;
    assert ps[..1] == [ps[0]];
    while true
      invariant 0 <= i < |chain| && lineageId == chain[i]
      invariant uniqueStates == StateSet(ps[..i + 1])
      decreases |chain| - i
    {
      LinkAt(g, chain, i);
      var successors := g.succ[lineageId];
      if |successors| == 0 {
        break;
      }
      lineageId := successors[0];
      var state := Projection(g.attrs[lineageId], attributeList);
      assert ps[..i + 2] == ps[..i + 1] + [state];
      StateSetAppend(ps[..i + 1], state);
      uniqueStates := uniqueStates + {state};
      i := i + 1;
    }
    LinkAt(g, chain, i);
    assert ps[..i + 1] == ps;
  }

  /** Every listed attribute of every taxon of ns holds an int. */
  ghost predicate IntValued(g: Graph, ns: seq<NodeId>, attributeList: seq<string>)
    requires Carries(g, ns, attributeList)
  {
    forall i, a :: 0 <= i < |ns| && a in attributeList ==> g.attrs[ns[i]][a].Int?
  }

  /** The listed attributes of the taxa at positions lo to hi - 1 hold ints. */
  ghost predicate IntsBetween(g: Graph, ns: seq<NodeId>, attributeList: seq<string>, lo: int, hi: int)
    requires Carries(g, ns, attributeList)
  {
    forall k, a :: lo <= k < hi && 0 <= k < |ns| && a in attributeList ==> g.attrs[ns[k]][a].Int?
  }

  /** The sum of an attribute over the taxa at positions lo to hi - 1, added
      in order. */
  ghost function RangeTotal(g: Graph, ns: seq<NodeId>, attributeList: seq<string>, attribute: string, lo: int, hi: int): int
    requires Carries(g, ns, attributeList) && attribute in attributeList
    requires 0 <= lo <= hi <= |ns| && IntsBetween(g, ns, attributeList, lo, hi)
    decreases hi - lo
  {
    if hi == lo then 0
    else RangeTotal(g, ns, attributeList, attribute, lo, hi - 1) + g.attrs[ns[hi - 1]][attribute].i
  }

  /** The sum of a listed attribute's int values over the taxa ns. */
  ghost function Total(g: Graph, ns: seq<NodeId>, attributeList: seq<string>, attribute: string): int
    requires Carries(g, ns, attributeList) && IntValued(g, ns, attributeList) && attribute in attributeList
  {
    RangeTotal(g, ns, attributeList, attribute, 0, |ns|)
  }

  /** A range sum depends only on the taxa in the range. */
  lemma {:induction false} RangeTotalShift(g: Graph, c: seq<NodeId>, w: seq<NodeId>, attributeList: seq<string>,
                                           attribute: string, start: nat, h: nat)
    requires Carries(g, c, attributeList) && Carries(g, w, attributeList) && attribute in attributeList
    requires h <= |c| && start + h <= |w| && forall k :: 0 <= k < h ==> c[k] == w[start + k]
    requires IntsBetween(g, c, attributeList, 0, h) && IntsBetween(g, w, attributeList, start, start + h)
    ensures RangeTotal(g, c, attributeList, attribute, 0, h) == RangeTotal(g, w, attributeList, attribute, start, start + h)
  {
    if h > 0 {
      RangeTotalShift(g, c, w, attributeList, attribute, start, h - 1);
    }
  }

  /** A range sum is its first value plus the sum of the rest. */
  lemma {:induction false} RangeTotalFirst(g: Graph, w: seq<NodeId>, attributeList: seq<string>, attribute: string, h: nat)
    requires Carries(g, w, attributeList) && attribute in attributeList
    requires 1 <= h <= |w| && IntsBetween(g, w, attributeList, 0, h)
    ensures RangeTotal(g, w, attributeList, attribute, 0, h)
      == g.attrs[w[0]][attribute].i + RangeTotal(g, w, attributeList, attribute, 1, h)
  {
    if h > 1 {
      RangeTotalFirst(g, w, attributeList, attribute, h - 1);
    }
  }

  /** Accumulating without the root takes the root's value off each
      attribute's total. */
  lemma TotalWithoutRoot(g: Graph, w: seq<NodeId>, attributeList: seq<string>, attribute: string)
    requires |w| > 0 && Carries(g, w, attributeList) && IntValued(g, w, attributeList) && attribute in attributeList
    ensures Carries(g, w[1..], attributeList) && IntValued(g, w[1..], attributeList)
    ensures Total(g, w[1..], attributeList, attribute)
      == Total(g, w, attributeList, attribute) - g.attrs[w[0]][attribute].i
  {
    var c := w[1..];
    assert forall k :: 0 <= k < |c| ==> c[k] == w[1 + k];
    RangeTotalShift(g, c, w, attributeList, attribute, 1, |c|);
    RangeTotalFirst(g, w, attributeList, attribute, |w|);
  }

  /** What one taxon adds to an accumulator: the attribute's value once for
      each time the attribute is listed. */
  function Weight(xs: seq<string>, node: Attrs, attribute: string): int
    requires forall k :: 0 <= k < |xs| ==> xs[k] in node && node[xs[k]].Int?
  {
    if xs == [] then 0
    else Weight(xs[..|xs| - 1], node, attribute) + (if xs[|xs| - 1] == attribute then node[attribute].i else 0)
  }

  lemma Distribute(m: int, t: int, x: int)
    ensures m * (t + x) == m * t + m * x
  {
  }

  /** The weight is the multiplicity in the list times the value. */
  lemma {:induction false} WeightCounts(xs: seq<string>, node: Attrs, attribute: string)
    requires forall k :: 0 <= k < |xs| ==> xs[k] in node && node[xs[k]].Int?
    ensures Weight(xs, node, attribute) == if attribute in xs then multiset(xs)[attribute] * node[attribute].i else 0
  {
    if xs != [] {
      var init := xs[..|xs| - 1];
      var last := xs[|xs| - 1];
      WeightCounts(init, node, attribute);
      assert xs == init + [last];
      assert multiset(xs) == multiset(init) + multiset{last};
      var c := multiset(init)[attribute];
      if last == attribute {
        var v := node[attribute].i;
        assert multiset(xs)[attribute] == c + 1;
        if attribute in init {
          Distribute(v, c, 1);
          assert (c + 1) * v == c * v + v;
        } else {
          assert c == 0;
        }
      } else {
        assert multiset(xs)[attribute] == c;
        assert attribute in xs <==> attribute in init;
      }
    }
  }

  /** The inner loop of `get_asexual_lineage_mutation_accumulation` over one
      taxon: each listed attribute's value is added to its accumulator, once
      per occurrence in the list; a str value raises TypeError. */
  method AddMutations(acc: map<string, int>, node: Attrs, attributeList: seq<string>)
    returns (r: Result<map<string, int>>)
    requires forall a :: a in attributeList ==> a in acc && a in node
    ensures r.Ok? <==> forall a :: a in attributeList ==> node[a].Int?
    ensures r.Err? ==> r.error == TypeError
    ensures r.Ok? ==> r.value.Keys == acc.Keys && forall a :: a in acc ==>
      r.value[a] == acc[a] + (if a in attributeList then multiset(attributeList)[a] * node[a].i else 0)
  {
    var sums := acc;
    for j := 0 to |attributeList|
      invariant sums.Keys == acc.Keys
      invariant forall k :: 0 <= k < j ==> node[attributeList[k]].Int?
      invariant forall a :: a in acc ==> sums[a] == acc[a] + Weight(attributeList[..j], node, a)
    {
      var a := attributeList[j];
      var v := node[a];
      if v.Str? {
        return Err(TypeError);
      }
      assert attributeList[..j + 1][..j] == attributeList[..j];
      sums := sums[a := sums[a] + v.i];
    }
    assert attributeList[..|attributeList|] == attributeList;
    forall a | a in acc
      ensures sums[a] == acc[a] + (if a in attributeList then multiset(attributeList)[a] * node[a].i else 0)
    {
      WeightCounts(attributeList, node, a);
    }
    return Ok(sums);
  }

  /** The taxa whose values are accumulated: the whole chain, or the chain
      without its root. */
  function Counted(w: seq<NodeId>, skipRoot: bool): (c: seq<NodeId>)
    requires |w| > 0
    ensures |c| == if skipRoot then |w| - 1 else |w|
  {
    if skipRoot then w[1..] else w
  }

  /** The counted taxa are the chain from position start on. */
  lemma CountedSlice(g: Graph, w: seq<NodeId>, attributeList: seq<string>, skipRoot: bool)
    requires |w| > 0 && Carries(g, w, attributeList)
    ensures Carries(g, Counted(w, skipRoot), attributeList)
    ensures forall k :: 0 <= k < |Counted(w, skipRoot)| ==> Counted(w, skipRoot)[k] == w[(if skipRoot then 1 else 0) + k]
  {
  }

  /** What the accumulation over the chain w returns: TypeError exactly when
      a counted value is a str, and otherwise, for each listed attribute, its
      multiplicity in the list times its sum over the counted taxa. */
  ghost predicate Accumulated(g: Graph, w: seq<NodeId>, attributeList: seq<string>, skipRoot: bool,
                              r: Result<map<string, int>>)
  {
    && |w| > 0
    && Carries(g, Counted(w, skipRoot), attributeList)
    && (r.Ok? <==> IntValued(g, Counted(w, skipRoot), attributeList))
    && (r.Err? ==> r.error == TypeError)
    && (r.Ok? ==>
          && r.value.Keys == (set a | a in attributeList)
          && forall a :: a in attributeList ==>
               r.value[a] == multiset(attributeList)[a] * Total(g, Counted(w, skipRoot), attributeList, a))
  }

  /** `get_asexual_lineage_mutation_accumulation`: for each listed attribute
      the sum of its values over the chain (without the root when asked),
      counted once per occurrence in the list; TypeError if a summed value
      is a str. */
  method MutationAccumulation(g: Graph, attributeList: seq<string>, skipRoot: bool, ghost rank: map<NodeId, nat>)
    returns (r: Result<map<string, int>>)
    requires Valid(g) && IsTopologicalRank(g, rank)
    ensures !IsAsexualLineageGraph(g) ==> r == Err(NotAsexualLineage)
    ensures IsAsexualLineageGraph(g) && !AllTaxaHaveAttributes(g, attributeList) ==> r == Err(MissingAttributes)
    ensures IsAsexualLineageGraph(g) && AllTaxaHaveAttributes(g, attributeList) ==>
      forall w :: IsLineageChain(g, w) ==> Accumulated(g, w, attributeList, skipRoot, r)
  {
    var check, chain := CheckLineageAttributes(g, attributeList, rank);
    if check.Fail? {
      return Err(check.error);
    }
    forall w | IsLineageChain(g, w) ensures w == chain {
      LineageChainUnique(g, w, chain);
    }
    LineageChainLinks(g, chain);
    r := AccumulateAlong(g, attributeList, skipRoot, RootIds(g)[0], chain);
  }

  /** The walk of the accumulation from the root along the links of chain. */
  method AccumulateAlong(g: Graph, attributeList: seq<string>, skipRoot: bool, root: NodeId, ghost chain: seq<NodeId>)
    returns (r: Result<map<string, int>>)
    requires Links(g, chain) && chain[0] == root && Carries(g, chain, attributeList)
    ensures Accumulated(g, chain, attributeList, skipRoot, r)
  {
    ghost var start := if skipRoot then 1 else 0;
    var accumulators := Zeros(attributeList);
    var lineageId := root;
    if !skipRoot {
      var added := AddMutations(accumulators, g.attrs[lineageId], attributeList);
      if added.Err? {
        CountedTypeError(g, chain, attributeList, skipRoot, 0);
        return Err(TypeError);
      }
      accumulators := added.value;
    }
    RunningTotalsAtRoot(g, chain, attributeList, skipRoot, accumulators);
    ghost var i := 0;
    while true
      invariant 0 <= i < |chain| && lineageId == chain[i]
      invariant RunningTotals(g, chain, attributeList, start, i, accumulators)
      decreases |chain| - i
    {
      LinkAt(g, chain, i);
      var successors := g.succ[lineageId];
      if |successors| == 0 {
        break;
      }
      lineageId := successors[0];
      var added := AddMutations(accumulators, g.attrs[lineageId], attributeList);
      if added.Err? {
        CountedTypeError(g, chain, attributeList, skipRoot, i + 1);
        return Err(TypeError);
      }
      MutationStep(g, chain, attributeList, start, i, accumulators, added.value);
      accumulators := added.value;
      i := i + 1;
    }
    assert i == |chain| - 1;
    MutationResult(g, chain, attributeList, skipRoot, accumulators);
    return Ok(accumulators);
  }

  /** A str value at a counted position of the chain is a TypeError. */
  lemma CountedTypeError(g: Graph, chain: seq<NodeId>, attributeList: seq<string>, skipRoot: bool, k: int)
    requires Carries(g, chain, attributeList) && 0 <= k < |chain| && (skipRoot ==> k > 0)
    requires !forall a :: a in attributeList ==> g.attrs[chain[k]][a].Int?
    ensures Accumulated(g, chain, attributeList, skipRoot, Err(TypeError))
  {
    CountedSlice(g, chain, attributeList, skipRoot);
    var a :| a in attributeList && !g.attrs[chain[k]][a].Int?;
    CountedNotInt(g, chain, attributeList, skipRoot, k, a);
  }

  lemma CountedNotInt(g: Graph, chain: seq<NodeId>, attributeList: seq<string>, skipRoot: bool, k: int, a: string)
    requires Carries(g, chain, attributeList) && 0 <= k < |chain| && (skipRoot ==> k > 0)
    requires a in attributeList && !g.attrs[chain[k]][a].Int?
    ensures Carries(g, Counted(chain, skipRoot), attributeList) && !IntValued(g, Counted(chain, skipRoot), attributeList)
  {
    var start := if skipRoot then 1 else 0;
    var c := Counted(chain, skipRoot);
    CountedSlice(g, chain, attributeList, skipRoot);
    var n: NodeId := c[k - start];
    assert n == chain[k];
    assert !g.attrs[n][a].Int?;
  }

  /** The loop invariant of the accumulation: the taxa counted so far, chain
      positions start to i, hold int values, and each accumulator is the
      multiplicity of its attribute times the attribute's sum over them. */
  ghost predicate RunningTotals(g: Graph, chain: seq<NodeId>, attributeList: seq<string>, start: int, i: int,
                                acc: map<string, int>)
  {
    && Carries(g, chain, attributeList) && 0 <= start <= i + 1 && i < |chain|
    && IntsBetween(g, chain, attributeList, start, i + 1)
    && acc.Keys == (set a | a in attributeList)
    && forall a :: a in attributeList ==>
         acc[a] == multiset(attributeList)[a] * RangeTotal(g, chain, attributeList, a, start, i + 1)
  }

  /** A zero accumulator for each listed attribute. */
  function Zeros(attributeList: seq<string>): (z: map<string, int>)
    ensures z.Keys == (set a | a in attributeList)
    ensures forall a :: a in z ==> z[a] == 0
  {
    map a | a in attributeList :: 0
  }

  /** Before the walk the totals cover the root exactly when it is counted. */
  lemma RunningTotalsAtRoot(g: Graph, chain: seq<NodeId>, attributeList: seq<string>, skipRoot: bool,
                            acc: map<string, int>)
    requires |chain| > 0 && Carries(g, chain, attributeList)
    requires acc.Keys == Zeros(attributeList).Keys
    requires skipRoot ==> acc == Zeros(attributeList)
    requires !skipRoot ==> forall a :: a in attributeList ==> g.attrs[chain[0]][a].Int?
    requires !skipRoot ==> forall a :: a in Zeros(attributeList) ==>
      acc[a] == Zeros(attributeList)[a] + (if a in attributeList then multiset(attributeList)[a] * g.attrs[chain[0]][a].i else 0)
    ensures RunningTotals(g, chain, attributeList, if skipRoot then 1 else 0, 0, acc)
  {
    var start := if skipRoot then 1 else 0;
    assert IntsBetween(g, chain, attributeList, start, 1);
    forall a | a in attributeList
      ensures acc[a] == multiset(attributeList)[a] * RangeTotal(g, chain, attributeList, a, start, 1)
    {
      if !skipRoot {
        assert RangeTotal(g, chain, attributeList, a, 0, 1) == g.attrs[chain[0]][a].i;
      }
    }
  }

  /** One loop step of the accumulation keeps the running totals. */
  lemma MutationStep(g: Graph, chain: seq<NodeId>, attributeList: seq<string>, start: int, i: int,
                     before: map<string, int>, after: map<string, int>)
    requires RunningTotals(g, chain, attributeList, start, i, before) && i < |chain| - 1
    requires forall a :: a in attributeList ==> g.attrs[chain[i + 1]][a].Int?
    requires after.Keys == before.Keys && forall a :: a in before ==>
      after[a] == before[a] + (if a in attributeList then multiset(attributeList)[a] * g.attrs[chain[i + 1]][a].i else 0)
    ensures RunningTotals(g, chain, attributeList, start, i + 1, after)
  {
    assert IntsBetween(g, chain, attributeList, start, i + 2);
    forall a | a in attributeList
      ensures after[a] == multiset(attributeList)[a] * RangeTotal(g, chain, attributeList, a, start, i + 2)
    {
      Distribute(multiset(attributeList)[a], RangeTotal(g, chain, attributeList, a, start, i + 1),
                 g.attrs[chain[i + 1]][a].i);
    }
  }

  /** The counted taxa hold ints when the chain positions they come from do. */
  lemma CountedIntValued(g: Graph, chain: seq<NodeId>, attributeList: seq<string>, skipRoot: bool)
    requires |chain| > 0 && Carries(g, chain, attributeList)
    requires IntsBetween(g, chain, attributeList, if skipRoot then 1 else 0, |chain|)
    ensures Carries(g, Counted(chain, skipRoot), attributeList) && IntValued(g, Counted(chain, skipRoot), attributeList)
  {
    var start := if skipRoot then 1 else 0;
    var c := Counted(chain, skipRoot);
    CountedSlice(g, chain, attributeList, skipRoot);
    forall k, a | 0 <= k < |c| && a in attributeList ensures g.attrs[c[k]][a].Int? {
      assert c[k] == chain[start + k];
    }
  }

  /** At the leaf the running totals are the totals over the counted taxa. */
  lemma MutationResult(g: Graph, chain: seq<NodeId>, attributeList: seq<string>, skipRoot: bool, acc: map<string, int>)
    requires |chain| > 0
    requires RunningTotals(g, chain, attributeList, if skipRoot then 1 else 0, |chain| - 1, acc)
    ensures Carries(g, Counted(chain, skipRoot), attributeList) && IntValued(g, Counted(chain, skipRoot), attributeList)
    ensures forall a :: a in attributeList ==>
      acc[a] == multiset(attributeList)[a] * Total(g, Counted(chain, skipRoot), attributeList, a)
    ensures Accumulated(g, chain, attributeList, skipRoot, Ok(acc))
  {
    var start := if skipRoot then 1 else 0;
    var c := Counted(chain, skipRoot);
    CountedIntValued(g, chain, attributeList, skipRoot);
    forall a | a in attributeList
      ensures acc[a] == multiset(attributeList)[a] * Total(g, c, attributeList, a)
    {
      RangeTotalShift(g, c, chain, attributeList, a, start, |c|);
    }
  }
}
