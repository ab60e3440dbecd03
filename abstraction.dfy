/** `abstract_asexual_lineage`: an asexual lineage compressed into the
    sequence of its states, each state a run of consecutive taxa whose
    listed attributes agree. */
module Abstraction {
  import opened Values
  import opened Graphs
  import opened Validation
  import opened Topology
  import opened Lineages
  import opened States

  /** A node of the abstract lineage: its "state_id", its "node_state"
      (the listed attributes' values), the time and listed attributes copied
      onto it, and its "members" dict, whose keys are kept in insertion
      order and whose values are the members' attribute maps. */
  datatype State = State(
    stateId: nat,
    nodeState: seq<Value>,
    attrs: Attrs,
    members: seq<NodeId>,
    memberAttrs: map<NodeId, Attrs>)

  /** The abstract lineage: states 0, 1, ... with an edge from each state to
      the next, in the order the edges are added. */
  datatype AbstractLineage = AbstractLineage(states: seq<State>, edges: seq<(nat, nat)>)

  /** What the abstraction copies onto its states: the listed attributes,
      and each of the two time attributes, under the name the caller gives,
      when it is tracked. */
  datatype Settings = Settings(
    attributeList: seq<string>,
    originAttr: string,
    destructionAttr: string,
    trackOrigin: bool,
    trackDestruction: bool)

  /** The edges (0, 1), (1, 2), ... of a chain of n states. */
  predicate ChainEdges(edges: seq<(nat, nat)>, n: nat)
  {
    |edges| == n - 1 && forall k :: 0 <= k < |edges| ==> edges[k] == (k, k + 1)
  }

  lemma ChainEdgesAppend(edges: seq<(nat, nat)>, last: nat, next: nat)
    requires ChainEdges(edges, last + 1) && next == last + 1
    ensures ChainEdges(edges + [(last, next)], next + 1)
  {
  }

  /** The members of the states one after the other. */
  function Flatten(states: seq<State>): seq<NodeId>
  {
    if states == [] then [] else Flatten(states[..|states| - 1]) + states[|states| - 1].members
  }

  /** The listed attributes of a taxon, as the state copies them. */
  function Copied(node: Attrs, attributeList: seq<string>): (c: Attrs)
    requires forall a :: a in attributeList ==> a in node
    ensures c.Keys == (set a | a in attributeList)
    ensures forall a :: a in c ==> c[a] == node[a]
  {
    map a | a in attributeList :: node[a]
  }

  /** The attribute loop `for attr in attribute_list: state[attr] = node[attr]`. */
  method CopyAttributes(target: Attrs, node: Attrs, attributeList: seq<string>) returns (r: Attrs)
    requires forall a :: a in attributeList ==> a in node
    ensures r.Keys == target.Keys + (set a | a in attributeList)
    ensures forall a :: a in r ==> r[a] == if a in attributeList then node[a] else target[a]
    ensures r == target + Copied(node, attributeList)
  {
    r := target;
    for j := 0 to |attributeList|
      invariant r == target + Copied(node, attributeList[..j])
    {
      assert attributeList[..j + 1] == attributeList[..j] + [attributeList[j]];
      r := r[attributeList[j] := node[attributeList[j]]];
    }
    assert attributeList[..|attributeList|] == attributeList;
  }

  /** The taxon carries every attribute the settings read from it. */
  predicate Readable(node: Attrs, st: Settings)
  {
    && (forall a :: a in st.attributeList ==> a in node)
    && (st.trackOrigin ==> st.originAttr in node)
    && (st.trackDestruction ==> st.destructionAttr in node)
  }

  /** Every taxon of w is in the graph and readable. */
  ghost predicate ReadableAlong(g: Graph, w: seq<NodeId>, st: Settings)
  {
    forall i :: 0 <= i < |w| ==> w[i] in g.attrs && Readable(g.attrs[w[i]], st)
  }

  lemma ReadablePrefix(g: Graph, w: seq<NodeId>, st: Settings, k: int)
    requires ReadableAlong(g, w, st) && 0 <= k <= |w|
    ensures ReadableAlong(g, w[..k], st)
  {
    forall i | 0 <= i < k ensures w[..k][i] in g.attrs && Readable(g.attrs[w[..k][i]], st) {
      assert w[..k][i] == w[i];
    }
  }

  /** The time and listed attributes of state k, whose first member carries
      `first`, whose last carries `last` and which has `size` members. State
      0 copies the listed attributes, then "origin_time", then
      "destruction_time" (the root's, later overwritten by each new member).
      A later state sets "origin_time" before the listed attributes and
      receives "destruction_time" only from its second member on. Later
      writes win where names collide. */
  function StateAttributes(k: nat, first: Attrs, last: Attrs, size: nat, st: Settings): Attrs
    requires Readable(first, st) && Readable(last, st)
  {
    if k == 0 then
      var copied := Copied(first, st.attributeList);
      var withOrigin := if st.trackOrigin then copied["origin_time" := first[st.originAttr]] else copied;
      if st.trackDestruction then withOrigin["destruction_time" := last[st.destructionAttr]] else withOrigin
    else
      var origin: Attrs := if st.trackOrigin then map["origin_time" := first[st.originAttr]] else map[];
      var withCopy := origin + Copied(first, st.attributeList);
      if st.trackDestruction && size >= 2 then withCopy["destruction_time" := last[st.destructionAttr]] else withCopy
  }

  /** State k opened by the taxon m. */
  function Opened(k: nat, m: NodeId, node: Attrs, st: Settings): (s: State)
    requires Readable(node, st)
    ensures s.nodeState == Projection(node, st.attributeList) && s.members == [m]
  {
    State(k, Projection(node, st.attributeList), StateAttributes(k, node, node, 1, st), [m], map[m := node])
  }

  /** The state s after the taxon m joined it. */
  function Joined(s: State, m: NodeId, node: Attrs, st: Settings): (s': State)
    requires Readable(node, st)
    ensures s'.nodeState == s.nodeState && s'.stateId == s.stateId && s'.members == s.members + [m]
  {
    var attrs := if st.trackDestruction then s.attrs["destruction_time" := node[st.destructionAttr]] else s.attrs;
    s.(attrs := attrs, members := s.members + [m], memberAttrs := s.memberAttrs[m := node])
  }

  /** One step of the walk: the taxon m joins the last state when it is in
      that state, and opens the next state otherwise. */
  function Extend(states: seq<State>, m: NodeId, node: Attrs, st: Settings): (r: seq<State>)
    requires states != [] && Readable(node, st)
    ensures |r| > 0 && r[|r| - 1].nodeState == Projection(node, st.attributeList)
    ensures |r| == |states| + if states[|states| - 1].nodeState == Projection(node, st.attributeList) then 0 else 1
  {
    var last := states[|states| - 1];
    if last.nodeState == Projection(node, st.attributeList) then states[..|states| - 1] + [Joined(last, m, node, st)]
    else states + [Opened(|states|, m, node, st)]
  }

  /** The states the walk builds over the taxa w, root first. */
  function Abstract(g: Graph, w: seq<NodeId>, st: Settings): (states: seq<State>)
    requires |w| > 0 && ReadableAlong(g, w, st)
    ensures |states| > 0 && states[|states| - 1].nodeState == Projection(g.attrs[w[|w| - 1]], st.attributeList)
  {
    if |w| == 1 then [Opened(0, w[0], g.attrs[w[0]], st)]
    else
      ReadablePrefix(g, w, st, |w| - 1);
      Extend(Abstract(g, w[..|w| - 1], st), w[|w| - 1], g.attrs[w[|w| - 1]], st)
  }

  /** s is a faithful state number k: its members, all in the graph and all
      in state `nodeState`; their attribute maps; and its attributes as
      `StateAttributes` gives them from its first and last member. */
  ghost predicate IsStateOf(g: Graph, st: Settings, s: State, k: nat)
  {
    && s.stateId == k
    && |s.members| > 0
    && (forall j :: 0 <= j < |s.members| ==>
          && s.members[j] in g.attrs && Readable(g.attrs[s.members[j]], st)
          && Projection(g.attrs[s.members[j]], st.attributeList) == s.nodeState)
    && (forall m :: m in s.memberAttrs <==> m in s.members)
    && (forall m :: m in s.memberAttrs ==> m in g.attrs && s.memberAttrs[m] == g.attrs[m])
    && s.attrs == StateAttributes(k, g.attrs[s.members[0]], g.attrs[s.members[|s.members| - 1]], |s.members|, st)
  }

  /** Every state is faithful. */
  ghost predicate Faithful(g: Graph, st: Settings, states: seq<State>)
  {
    forall k :: 0 <= k < |states| ==> IsStateOf(g, st, states[k], k)
  }

  /** Consecutive states differ. */
  predicate Alternating(states: seq<State>)
  {
    forall k :: 0 <= k < |states| - 1 ==> states[k].nodeState != states[k + 1].nodeState
  }

  /** states abstracts the taxa w: their members are w in order, split into
      runs of one state, consecutive states differ, and each state is
      faithful. */
  ghost predicate IsAbstraction(g: Graph, w: seq<NodeId>, st: Settings, states: seq<State>)
  {
    Flatten(states) == w && Faithful(g, st, states) && Alternating(states)
  }

  lemma FlattenAppend(states: seq<State>, s: State)
    ensures Flatten(states + [s]) == Flatten(states) + s.members
  {
    assert (states + [s])[..|states|] == states;
  }

  /** A state opened by one taxon is faithful. */
  lemma OpenedState(g: Graph, st: Settings, k: nat, m: NodeId)
    requires m in g.attrs && Readable(g.attrs[m], st)
    ensures IsStateOf(g, st, Opened(k, m, g.attrs[m], st), k)
  {
  }

  /** The state a joining taxon extends is again faithful. */
  lemma JoinedState(g: Graph, st: Settings, s: State, k: nat, m: NodeId)
    requires IsStateOf(g, st, s, k)
    requires m in g.attrs && Readable(g.attrs[m], st) && Projection(g.attrs[m], st.attributeList) == s.nodeState
    ensures IsStateOf(g, st, Joined(s, m, g.attrs[m], st), k)
  {
    var s' := Joined(s, m, g.attrs[m], st);
    var members := s'.members;
    assert members[0] == s.members[0];
    assert members[|members| - 1] == m;
    forall j | 0 <= j < |members|
      ensures && members[j] in g.attrs && Readable(g.attrs[members[j]], st)
              && Projection(g.attrs[members[j]], st.attributeList) == s.nodeState
    {
      if j < |s.members| {
        assert members[j] == s.members[j];
      }
    }
    StateAttributesJoin(k, g.attrs[s.members[0]], g.attrs[s.members[|s.members| - 1]], g.attrs[m], |s.members|, st);
  }

  /** A joining member moves "destruction_time" to its own, when tracked. */
  lemma StateAttributesJoin(k: nat, first: Attrs, last: Attrs, next: Attrs, size: nat, st: Settings)
    requires Readable(first, st) && Readable(last, st) && Readable(next, st) && size >= 1
    ensures var before := StateAttributes(k, first, last, size, st);
      StateAttributes(k, first, next, size + 1, st)
        == if st.trackDestruction then before["destruction_time" := next[st.destructionAttr]] else before
  {
  }

  /** Joining keeps every state faithful. */
  lemma JoinFaithful(g: Graph, st: Settings, states: seq<State>, m: NodeId)
    requires Faithful(g, st, states) && states != []
    requires m in g.attrs && Readable(g.attrs[m], st)
    requires Projection(g.attrs[m], st.attributeList) == states[|states| - 1].nodeState
    ensures Faithful(g, st, states[..|states| - 1] + [Joined(states[|states| - 1], m, g.attrs[m], st)])
  {
    var n := |states|;
    var states' := states[..n - 1] + [Joined(states[n - 1], m, g.attrs[m], st)];
    JoinedState(g, st, states[n - 1], n - 1, m);
    forall k | 0 <= k < n ensures IsStateOf(g, st, states'[k], k) {
      if k < n - 1 {
        assert states'[k] == states[k];
      }
    }
  }

  /** Opening a state keeps every state faithful. */
  lemma OpenFaithful(g: Graph, st: Settings, states: seq<State>, m: NodeId)
    requires Faithful(g, st, states)
    requires m in g.attrs && Readable(g.attrs[m], st)
    ensures Faithful(g, st, states + [Opened(|states|, m, g.attrs[m], st)])
  {
    var states' := states + [Opened(|states|, m, g.attrs[m], st)];
    OpenedState(g, st, |states|, m);
    forall k | 0 <= k < |states'| ensures IsStateOf(g, st, states'[k], k) {
      if k < |states| {
        assert states'[k] == states[k];
      }
    }
  }

  /** Replacing the last state by one in the same state keeps consecutive
      states different. */
  lemma AlternatingReplaceLast(states: seq<State>, s: State)
    requires Alternating(states) && states != []
    requires s.nodeState == states[|states| - 1].nodeState
    ensures Alternating(states[..|states| - 1] + [s])
  {
    var n := |states|;
    var states' := states[..n - 1] + [s];
    forall k | 0 <= k < n - 1 ensures states'[k].nodeState != states'[k + 1].nodeState {
      assert states'[k] == states[k];
      if k + 1 < n - 1 {
        assert states'[k + 1] == states[k + 1];
      }
    }
  }

  /** Appending a state that differs from the last keeps consecutive states
      different. */
  lemma AlternatingAppend(states: seq<State>, s: State)
    requires Alternating(states) && states != []
    requires s.nodeState != states[|states| - 1].nodeState
    ensures Alternating(states + [s])
  {
    var n := |states|;
    var states' := states + [s];
    forall k | 0 <= k < n ensures states'[k].nodeState != states'[k + 1].nodeState {
      assert states'[k] == states[k];
      if k + 1 < n {
        assert states'[k + 1] == states[k + 1];
      }
    }
  }

  /** A taxon in the last state's state joins it, keeping the abstraction. */
  lemma JoinIsAbstraction(g: Graph, w: seq<NodeId>, st: Settings, states: seq<State>, m: NodeId)
    requires IsAbstraction(g, w, st, states) && states != []
    requires m in g.attrs && Readable(g.attrs[m], st)
    requires states[|states| - 1].nodeState == Projection(g.attrs[m], st.attributeList)
    ensures IsAbstraction(g, w + [m], st, states[..|states| - 1] + [Joined(states[|states| - 1], m, g.attrs[m], st)])
  {
    JoinFaithful(g, st, states, m);
    assert states == states[..|states| - 1] + [states[|states| - 1]];
    JoinFlatten(states[..|states| - 1], states[|states| - 1], Joined(states[|states| - 1], m, g.attrs[m], st), m);
    AlternatingReplaceLast(states, Joined(states[|states| - 1], m, g.attrs[m], st));
  }

  /** Adding the taxon m to the members of the last state adds m at the
      end of the members one after the other. */
  lemma JoinFlatten(init: seq<State>, last: State, joined: State, m: NodeId)
    requires joined.members == last.members + [m]
    ensures Flatten(init + [joined]) == Flatten(init + [last]) + [m]
  {
    FlattenAppend(init, last);
    FlattenAppend(init, joined);
    var f := Flatten(init);
    assert f + (last.members + [m]) == (f + last.members) + [m];
  }

  /** A taxon in another state opens the next one, keeping the abstraction. */
  lemma OpenIsAbstraction(g: Graph, w: seq<NodeId>, st: Settings, states: seq<State>, m: NodeId)
    requires IsAbstraction(g, w, st, states) && states != []
    requires m in g.attrs && Readable(g.attrs[m], st)
    requires states[|states| - 1].nodeState != Projection(g.attrs[m], st.attributeList)
    ensures IsAbstraction(g, w + [m], st, states + [Opened(|states|, m, g.attrs[m], st)])
  {
    var openedState := Opened(|states|, m, g.attrs[m], st);
    OpenFaithful(g, st, states, m);
    FlattenAppend(states, openedState);
    AlternatingAppend(states, openedState);
  }

  /** One step of the walk keeps the abstraction. */
  lemma ExtendIsAbstraction(g: Graph, w: seq<NodeId>, st: Settings, states: seq<State>, m: NodeId)
    requires IsAbstraction(g, w, st, states) && states != []
    requires m in g.attrs && Readable(g.attrs[m], st)
    ensures IsAbstraction(g, w + [m], st, Extend(states, m, g.attrs[m], st))
  {
    if states[|states| - 1].nodeState == Projection(g.attrs[m], st.attributeList) {
      JoinIsAbstraction(g, w, st, states, m);
    } else {
      OpenIsAbstraction(g, w, st, states, m);
    }
  }

  /** The walk over one more taxon extends the states over the taxa before it. */
  lemma AbstractStep(g: Graph, w: seq<NodeId>, st: Settings, k: int)
    requires ReadableAlong(g, w, st) && 1 <= k < |w|
    ensures ReadableAlong(g, w[..k], st) && ReadableAlong(g, w[..k + 1], st)
    ensures Abstract(g, w[..k + 1], st) == Extend(Abstract(g, w[..k], st), w[k], g.attrs[w[k]], st)
  {
    ReadablePrefix(g, w, st, k);
    ReadablePrefix(g, w, st, k + 1);
    var next := w[..k + 1];
    assert next[..|next| - 1] == w[..k];
    assert next[|next| - 1] == w[k];
  }

  /** The states the walk builds abstract the taxa it walks. */
  lemma {:induction false} AbstractIsAbstraction(g: Graph, w: seq<NodeId>, st: Settings)
    requires |w| > 0 && ReadableAlong(g, w, st)
    ensures IsAbstraction(g, w, st, Abstract(g, w, st))
  {
    if |w| == 1 {
      var s := Opened(0, w[0], g.attrs[w[0]], st);
      OpenedState(g, st, 0, w[0]);
      FlattenAppend([], s);
      assert [s] == [] + [s];
    } else {
      var n := |w|;
      var init, m := w[..n - 1], w[n - 1];
      assert init + [m] == w;
      AbstractStep(g, w, st, n - 1);
      assert w[..n] == w;
      AbstractIsAbstraction(g, init, st);
      ExtendIsAbstraction(g, init, st, Abstract(g, init, st), m);
    }
  }

  /** The walk builds one state per run of equal states along the taxa. */
  lemma {:induction false} AbstractCountsRuns(g: Graph, w: seq<NodeId>, st: Settings)
    requires |w| > 0 && ReadableAlong(g, w, st)
    ensures Carries(g, w, st.attributeList)
    ensures |Abstract(g, w, st)| == NumRuns(StatesAlong(g, w, st.attributeList))
  {
    if |w| > 1 {
      var n := |w|;
      var init := w[..n - 1];
      AbstractStep(g, w, st, n - 1);
      assert w[..n] == w;
      AbstractCountsRuns(g, init, st);
      StatesAlongLast(g, w, st.attributeList);
      var ps := StatesAlong(g, init, st.attributeList);
      CountStep(Abstract(g, init, st), ps, w[n - 1], g.attrs[w[n - 1]], st);
    } else {
      assert |StatesAlong(g, w, st.attributeList)| == 1;
    }
  }

  /** One step of the walk keeps the number of states equal to the number
      of runs of the states met. */
  lemma CountStep(before: seq<State>, ps: seq<seq<Value>>, m: NodeId, node: Attrs, st: Settings)
    requires before != [] && ps != [] && Readable(node, st)
    requires |before| == NumRuns(ps) && before[|before| - 1].nodeState == ps[|ps| - 1]
    ensures |Extend(before, m, node, st)| == NumRuns(ps + [Projection(node, st.attributeList)])
  {
    NumRunsAppend(ps, Projection(node, st.attributeList));
  }

  /** The root's state: the listed attributes copied, then the tracked
      time attributes. */
  method FirstState(root: NodeId, node: Attrs, st: Settings) returns (s: State)
    requires Readable(node, st)
    ensures s == Opened(0, root, node, st)
  {
    var attrs := CopyAttributes(map[], node, st.attributeList);
    if st.trackOrigin {
      attrs := attrs["origin_time" := node[st.originAttr]];
    }
    if st.trackDestruction {
      attrs := attrs["destruction_time" := node[st.destructionAttr]];
    }
    assert map[] + Copied(node, st.attributeList) == Copied(node, st.attributeList);
    s := State(0, Projection(node, st.attributeList), attrs, [root], map[root := node]);
  }

  /** A new state k > 0: the tracked origin time first, then the listed
      attributes. */
  method OpenState(k: nat, m: NodeId, node: Attrs, st: Settings) returns (s: State)
    requires Readable(node, st) && k > 0
    ensures s == Opened(k, m, node, st)
  {
    var attrs: Attrs := map[];
    if st.trackOrigin {
      attrs := attrs["origin_time" := node[st.originAttr]];
    }
    attrs := CopyAttributes(attrs, node, st.attributeList);
    s := State(k, Projection(node, st.attributeList), attrs, [m], map[m := node]);
  }

  /** A taxon joins the current state: it becomes a member and, when
      tracked, moves the state's destruction time to its own. */
  method JoinState(current: State, m: NodeId, node: Attrs, st: Settings) returns (s: State)
    requires Readable(node, st)
    ensures s == Joined(current, m, node, st)
  {
    var attrs := current.attrs;
    if st.trackDestruction {
      attrs := attrs["destruction_time" := node[st.destructionAttr]];
    }
    s := current.(attrs := attrs, members := current.members + [m], memberAttrs := current.memberAttrs[m := node]);
  }

  /** The walk of `abstract_asexual_lineage` after its checks: from the root
      along the links of chain, extending the current state or opening a
      new one. */
  method AbstractAlong(g: Graph, st: Settings, root: NodeId, ghost chain: seq<NodeId>) returns (ab: AbstractLineage)
    requires Links(g, chain) && chain[0] == root && ReadableAlong(g, chain, st)
    ensures ab.states == Abstract(g, chain, st)
    ensures ChainEdges(ab.edges, |ab.states|)
  {
    var first := FirstState(root, g.attrs[root], st);
    var states := [first];
    var edges: seq<(nat, nat)> := [];
    ReadablePrefix(g, chain, st, 1);
    assert chain[..1] == [root];
    var lineageId := root;
    ghost var i := 0;
    while true
      invariant 0 <= i < |chain| && lineageId == chain[i]
      invariant ReadableAlong(g, chain[..i + 1], st)
      invariant states == Abstract(g, chain[..i + 1], st)
      invariant ChainEdges(edges, |states|)
      decreases |chain| - i
    {
      LinkAt(g, chain, i);
      var successors := g.succ[lineageId];
      if |successors| == 0 {
        break;
      }
      lineageId := successors[0];
      var node := g.attrs[lineageId];
      AbstractStep(g, chain, st, i + 1);
      ghost var before := states;
      var stateId: nat := |states| - 1;
      var current := states[stateId];
      if current.nodeState == Projection(node, st.attributeList) {
        var joined := JoinState(current, lineageId, node, st);
        states := states[..stateId] + [joined];
      } else {
        var next: nat := stateId + 1;
        var openedState := OpenState(next, lineageId, node, st);
        states := states + [openedState];
        ChainEdgesAppend(edges, stateId, next);
        edges := edges + [(stateId, next)];
      }
      assert states == Extend(before, lineageId, node, st);
      assert lineageId == chain[i + 1];
      assert states == Abstract(g, chain[..i + 2], st);
      i := i + 1;
    }
    assert chain[..i + 1] == chain;
    return AbstractLineage(states, edges);
  }

  /** The settings `abstract_asexual_lineage` runs with: a time attribute is
      tracked exactly when every taxon carries it. */
  function SettingsOf(g: Graph, attributeList: seq<string>, originAttr: string, destructionAttr: string): (st: Settings)
    requires Valid(g)
    ensures st.attributeList == attributeList
    ensures st.trackOrigin <==> forall n :: n in g.nodes ==> originAttr in g.attrs[n]
    ensures st.trackDestruction <==> forall n :: n in g.nodes ==> destructionAttr in g.attrs[n]
  {
    Settings(attributeList, originAttr, destructionAttr,
             AllTaxaHaveAttribute(g, originAttr), AllTaxaHaveAttribute(g, destructionAttr))
  }

  /** The taxa of a lineage chain are readable with those settings. */
  lemma ChainReadable(g: Graph, w: seq<NodeId>, attributeList: seq<string>, originAttr: string, destructionAttr: string)
    requires Valid(g) && IsLineageChain(g, w) && Carries(g, w, attributeList)
    ensures ReadableAlong(g, w, SettingsOf(g, attributeList, originAttr, destructionAttr))
  {
    ChainInGraph(g, w);
    forall i | 0 <= i < |w| ensures w[i] in g.nodes {
      var n: NodeId := w[i];
      assert n in g.nodes;
    }
  }

  /** `abstract_asexual_lineage`: errors in the source's order (not an
      asexual lineage, a listed attribute missing somewhere, then a reserved
      attribute name listed); otherwise the abstraction of the lineage chain,
      tracking each time attribute exactly when every taxon carries it, with
      as many states as the chain has runs of equal states. */
  method AbstractAsexualLineage(g: Graph, attributeList: seq<string>, originAttr: string, destructionAttr: string,
                                ghost rank: map<NodeId, nat>)
    returns (r: Result<AbstractLineage>)
    requires Valid(g) && IsTopologicalRank(g, rank)
    ensures !IsAsexualLineageGraph(g) ==> r == Err(NotAsexualLineage)
    ensures IsAsexualLineageGraph(g) && !AllTaxaHaveAttributes(g, attributeList) ==> r == Err(MissingAttributes)
    ensures IsAsexualLineageGraph(g) && AllTaxaHaveAttributes(g, attributeList) ==>
      && ("node_state" in attributeList ==> r == Err(ReservedAttribute("node_state")))
      && ("node_state" !in attributeList && "members" in attributeList ==> r == Err(ReservedAttribute("members")))
      && ("node_state" !in attributeList && "members" !in attributeList && "state_id" in attributeList ==>
            r == Err(ReservedAttribute("state_id")))
      && ("node_state" !in attributeList && "members" !in attributeList && "state_id" !in attributeList ==> r.Ok?)
    ensures r.Ok? ==>
      && ChainEdges(r.value.edges, |r.value.states|)
      && forall w :: IsLineageChain(g, w) ==>
           var st := SettingsOf(g, attributeList, originAttr, destructionAttr);
           && |w| > 0 && ReadableAlong(g, w, st)
           && r.value.states == Abstract(g, w, st)
           && IsAbstraction(g, w, st, r.value.states)
           && Carries(g, w, attributeList)
           && |r.value.states| == NumRuns(StatesAlong(g, w, attributeList))
  {
    var check, chain := CheckLineageAttributes(g, attributeList, rank);
    if check.Fail? {
      return Err(check.error);
    }
    if "node_state" in attributeList {
      return Err(ReservedAttribute("node_state"));
    }
    if "members" in attributeList {
      return Err(ReservedAttribute("members"));
    }
    if "state_id" in attributeList {
      return Err(ReservedAttribute("state_id"));
    }
    var st := SettingsOf(g, attributeList, originAttr, destructionAttr);
    forall w | IsLineageChain(g, w) ensures w == chain {
      LineageChainUnique(g, w, chain);
    }
    LineageChainLinks(g, chain);
    ChainReadable(g, chain, attributeList, originAttr, destructionAttr);
    AbstractIsAbstraction(g, chain, st);
    AbstractCountsRuns(g, chain, st);
    var ab := AbstractAlong(g, st, RootIds(g)[0], chain);
    return Ok(ab);
  }
}
