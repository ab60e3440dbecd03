/** The attribute-presence checks that queries run before they read an
    attribute (phylogeny/utils.py, "Verification"). */
module Validation {
  import opened Values
  import opened Graphs

  /** The loop of `all_taxa_have_attribute` over the taxa ns: false at the
      first taxon without the attribute. */
  function TaxaHaveAttribute(g: Graph, ns: seq<NodeId>, attribute: string): (b: bool)
    requires forall n :: n in ns ==> n in g.attrs
    ensures b <==> forall n :: n in ns ==> attribute in g.attrs[n]
  {
    if ns == [] then true
    else
      var n: NodeId := ns[0];
      if attribute !in g.attrs[n] then false
      else TaxaHaveAttribute(g, ns[1..], attribute)
  }

  /** `all_taxa_have_attribute`: does every taxon carry the attribute? */
  function AllTaxaHaveAttribute(g: Graph, attribute: string): (b: bool)
    requires Valid(g)
    ensures b <==> forall n :: n in g.nodes ==> attribute in g.attrs[n]
  {
    TaxaHaveAttribute(g, g.nodes, attribute)
  }

  /** The inner loop of `all_taxa_have_attributes` over one taxon. */
  function HasAttributes(node: Attrs, attributeList: seq<string>): (b: bool)
    ensures b <==> forall a :: a in attributeList ==> a in node
  {
    if attributeList == [] then true
    else if attributeList[0] !in node then false
    else HasAttributes(node, attributeList[1..])
  }

  /** The outer loop of `all_taxa_have_attributes` over the taxa ns. */
  function TaxaHaveAttributes(g: Graph, ns: seq<NodeId>, attributeList: seq<string>): (b: bool)
    requires forall n :: n in ns ==> n in g.attrs
    ensures b <==> forall n, a :: n in ns && a in attributeList ==> a in g.attrs[n]
  {
    if ns == [] then true
    else
      var n: NodeId := ns[0];
      if !HasAttributes(g.attrs[n], attributeList) then false
      else TaxaHaveAttributes(g, ns[1..], attributeList)
  }

  /** `all_taxa_have_attributes`: does every taxon carry every listed
      attribute? It is the conjunction of `all_taxa_have_attribute` over the
      list, and holds for an empty list and for an empty graph. */
  function AllTaxaHaveAttributes(g: Graph, attributeList: seq<string>): (b: bool)
    requires Valid(g)
    ensures b <==> forall n, a :: n in g.nodes && a in attributeList ==> a in g.attrs[n]
    ensures b <==> forall a :: a in attributeList ==> AllTaxaHaveAttribute(g, a)
    ensures attributeList == [] || g.nodes == [] ==> b
  {
    TaxaHaveAttributes(g, g.nodes, attributeList)
  }

  /** `validate_destruction_time` and `validate_origin_time` (the same code
      with different default names): raise unless every taxon carries the
      attribute. */
  function ValidateTimeAttribute(g: Graph, attribute: string): (r: Outcome)
    requires Valid(g)
    ensures r == Pass <==> forall n :: n in g.nodes ==> attribute in g.attrs[n]
    ensures r != Pass ==> r == Fail(MissingAttribute(attribute))
  {
    if AllTaxaHaveAttribute(g, attribute) then Pass else Fail(MissingAttribute(attribute))
  }
}
