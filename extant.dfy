/** The temporal extant-taxa query of phylogeny/utils.py: `taxon_is_alive`
    and the queries built on it. */
module Extant {
  import opened Values
  import opened Graphs
  import opened Validation
  import opened Topology

  /** `node[key]` on a Python dict: KeyError when the key is absent. */
  function Lookup(node: Attrs, key: string): (r: Result<Value>)
    ensures r.Ok? <==> key in node
    ensures r.Ok? ==> r.value == node[key]
    ensures r.Err? ==> r.error == KeyError(key)
  {
    if key in node then Ok(node[key]) else Err(KeyError(key))
  }

  /** `taxon_is_alive`, with Python's short-circuit evaluation: the
      destruction value is read under the literal key "destruction_time",
      `node[destructionAttribute] > time` is evaluated only when that value
      differs from the not-destroyed marker, and the origin is read only when
      the query is not at "present". */
  function TaxonIsAlive(node: Attrs, time: Value, notDestroyed: Value,
                        destructionAttribute: string, originAttribute: string): (r: Result<bool>)
    ensures r == Ok(true) <==>
      && "destruction_time" in node
      && (node["destruction_time"] == notDestroyed
          || (destructionAttribute in node && Greater(node[destructionAttribute], time) == Ok(true)))
      && (time == Present || (originAttribute in node && Less(node[originAttribute], time) == Ok(true)))
    ensures "destruction_time" !in node ==> r == Err(KeyError("destruction_time"))
    ensures r.Err? ==> r.error.KeyError? || r.error == TypeError
    ensures r.Ok? <==>
      && "destruction_time" in node
      && (node["destruction_time"] != notDestroyed ==>
            destructionAttribute in node && node[destructionAttribute].Int? == time.Int?)
      && (var notDead := node["destruction_time"] == notDestroyed || Greater(node[destructionAttribute], time) == Ok(true);
          notDead && time != Present ==> originAttribute in node && node[originAttribute].Int? == time.Int?)
  {
    var destruction :- Lookup(node, "destruction_time");
    var notDead :- if destruction == notDestroyed then Ok(true)
                   else (var d :- Lookup(node, destructionAttribute); Greater(d, time));
    if !notDead then Ok(false)
    else if time == Present then Ok(true)
    else (var origin :- Lookup(node, originAttribute); Less(origin, time))
  }

  /** A taxon born at 5 and never destroyed is extant now and at 10, and was
      not yet born at 3. */
  lemma AliveExample()
    ensures var node := map["origin_time" := Int(5), "destruction_time" := NotDestroyed];
      && TaxonIsAlive(node, Present, NotDestroyed, "destruction_time", "origin_time") == Ok(true)
      && TaxonIsAlive(node, Int(10), NotDestroyed, "destruction_time", "origin_time") == Ok(true)
      && TaxonIsAlive(node, Int(3), NotDestroyed, "destruction_time", "origin_time") == Ok(false)
  {
    var node := map["origin_time" := Int(5), "destruction_time" := NotDestroyed];
    assert Less(node["origin_time"], Int(3)) == Ok(false);
  }

  /** The not-destroyed test reads the key "destruction_time" whatever
      destruction attribute is named: a taxon marked "none" there is extant
      although the named attribute says it was destroyed at 3. */
  lemma LiteralDestructionKey()
    ensures var node := map["destruction_time" := NotDestroyed, "death" := Int(3), "birth" := Int(1)];
      TaxonIsAlive(node, Int(10), NotDestroyed, "death", "birth") == Ok(true)
  {
  }

  /** A taxon destroyed at an integer time makes a query at "present" raise
      TypeError, since Python 3 does not order ints against strs. */
  lemma IntegerDestructionAtPresentRaises(node: Attrs, d: int)
    requires "destruction_time" in node && node["destruction_time"] == Int(d)
    ensures TaxonIsAlive(node, Present, NotDestroyed, "destruction_time", "origin_time") == Err(TypeError)
  {
  }

  /** The comprehension over the taxa ns with `taxon_is_alive` as the filter;
      the first error raised propagates. */
  function SelectAlive(g: Graph, ns: seq<NodeId>, time: Value, notDestroyed: Value,
                       destructionAttribute: string, originAttribute: string): (r: Result<seq<NodeId>>)
    requires forall n :: n in ns ==> n in g.attrs
    ensures r.Ok? <==> forall n :: n in ns ==>
      TaxonIsAlive(g.attrs[n], time, notDestroyed, destructionAttribute, originAttribute).Ok?
    ensures r.Ok? ==> forall n :: n in r.value <==>
      (n in ns && TaxonIsAlive(g.attrs[n], time, notDestroyed, destructionAttribute, originAttribute) == Ok(true))
    ensures r.Ok? && Distinct(ns) ==> Distinct(r.value) && IsSubsequence(r.value, ns)
    ensures r.Err? ==> r.error.KeyError? || r.error == TypeError
  {
    if ns == [] then Ok([])
    else
      var n: NodeId := ns[0];
      var alive :- TaxonIsAlive(g.attrs[n], time, notDestroyed, destructionAttribute, originAttribute);
      var rest :- SelectAlive(g, ns[1..], time, notDestroyed, destructionAttribute, originAttribute);
      if alive then Ok([n] + rest) else Ok(rest)
  }

  /** Every taxon has the key "destruction_time" and the named destruction
      attribute; a taxon not marked as never destroyed has a destruction
      time of the query time's kind; and for a query not at "present" every
      origin time is of that kind. */
  ghost predicate TimesComparable(g: Graph, time: Value, notDestroyed: Value,
                                  destructionAttribute: string, originAttribute: string)
    requires Valid(g)
  {
    forall n :: n in g.nodes ==>
      && "destruction_time" in g.attrs[n]
      && destructionAttribute in g.attrs[n]
      && (g.attrs[n]["destruction_time"] != notDestroyed ==> g.attrs[n][destructionAttribute].Int? == time.Int?)
      && (time != Present ==> originAttribute in g.attrs[n] && g.attrs[n][originAttribute].Int? == time.Int?)
  }

  /** `get_extant_taxa_ids`: the destruction attribute is validated always,
      the origin attribute only for a query not at "present"; then the taxa
      alive at the query time, in node order. */
  function ExtantTaxaIds(g: Graph, time: Value, notDestroyed: Value,
                         destructionAttribute: string, originAttribute: string): (r: Result<seq<NodeId>>)
    requires Valid(g)
    ensures !AllTaxaHaveAttribute(g, destructionAttribute) ==> r == Err(MissingAttribute(destructionAttribute))
    ensures AllTaxaHaveAttribute(g, destructionAttribute) && time != Present && !AllTaxaHaveAttribute(g, originAttribute)
      ==> r == Err(MissingAttribute(originAttribute))
    ensures r.Ok? ==> forall n :: n in r.value <==>
      (n in g.nodes && TaxonIsAlive(g.attrs[n], time, notDestroyed, destructionAttribute, originAttribute) == Ok(true))
    ensures r.Ok? ==> Distinct(r.value) && IsSubsequence(r.value, g.nodes)
    ensures AllTaxaHaveAttribute(g, destructionAttribute) && (time == Present || AllTaxaHaveAttribute(g, originAttribute))
      ==> (r.Ok? <==> forall n :: n in g.nodes ==>
             TaxonIsAlive(g.attrs[n], time, notDestroyed, destructionAttribute, originAttribute).Ok?)
    ensures r.Err? ==> r.error.MissingAttribute? || r.error.KeyError? || r.error == TypeError
    ensures TimesComparable(g, time, notDestroyed, destructionAttribute, originAttribute) ==> r.Ok?
  {
    if ValidateTimeAttribute(g, destructionAttribute).Fail? then Err(MissingAttribute(destructionAttribute))
    else if time != Present && ValidateTimeAttribute(g, originAttribute).Fail? then Err(MissingAttribute(originAttribute))
    else SelectAlive(g, g.nodes, time, notDestroyed, destructionAttribute, originAttribute)
  }

  /** Taxa that are never destroyed and carry integer origin times, queried
      at an integer time: the query succeeds and returns the taxa born
      before that time. */
  lemma NeverDestroyedQueriedAtIntTime(g: Graph, t: int)
    requires Valid(g)
    requires forall n :: n in g.nodes ==>
      && "destruction_time" in g.attrs[n] && g.attrs[n]["destruction_time"] == NotDestroyed
      && "origin_time" in g.attrs[n] && g.attrs[n]["origin_time"].Int?
    ensures var r := ExtantTaxaIds(g, Int(t), NotDestroyed, "destruction_time", "origin_time");
      r.Ok? && forall n :: n in r.value <==> n in g.nodes && g.attrs[n]["origin_time"].i < t
  {
  }

  /** `get_extant_taxa`: the same selection, returned as the taxa's
      attribute maps keyed by id, each with "id" added in the graph too; on
      an error the graph is left unchanged. */
  method GetExtantTaxa(p: Phylogeny, time: Value, notDestroyed: Value,
                       destructionAttribute: string, originAttribute: string)
    returns (r: Result<map<NodeId, Attrs>>)
    requires Valid(p.graph)
    modifies p
    ensures var ids := ExtantTaxaIds(old(p.graph), time, notDestroyed, destructionAttribute, originAttribute);
      && (ids.Err? ==> r == Err(ids.error) && p.graph == old(p.graph))
      && (ids.Ok? ==>
            && r.Ok? && r.value.Keys == (set n | n in ids.value)
            && p.graph == old(p.graph).(attrs := WithIds(old(p.graph.attrs), set n | n in ids.value)))
    ensures r.Ok? ==> forall n :: n in r.value ==> r.value[n] == p.graph.attrs[n] == old(p.graph.attrs[n])["id" := Int(n)]
    ensures Valid(p.graph)
  {
    var ids := ExtantTaxaIds(p.graph, time, notDestroyed, destructionAttribute, originAttribute);
    if ids.Err? {
      return Err(ids.error);
    }
    var extant := CollectWithIds(p, ids.value);
    r := Ok(extant);
  }
}
