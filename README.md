# Phylogeny queries and asexual-lineage metrics

This project models the query core of the ALife Data Standards development
library (`ALifeStdDev`). It covers three modules:

- `phylogeny/utils.py`: attribute checks, asexuality, roots and leaves,
  extant taxa, lineage extraction and lineage abstraction;
- `phylogeny/metrics.py`: asexual-lineage metrics;
- the older `phylogeny_utils.py`.

The model proves properties of each.

A phylogeny is a `networkx.DiGraph`. Edges run from ancestor to descendant,
and every taxon carries an attribute dictionary. In the model the graph is
the value `Graphs.Graph`, which holds:

- the node list in iteration order;
- each node's attribute map;
- each node's predecessor and successor lists.

`Graphs.Valid` states what a DiGraph guarantees: unique ids, adjacency only
inside the graph, and every edge recorded at both ends. Attribute values are
`Values.Value`, an int or a str. Python's `<` and `>` on them are modelled
exactly: they compare numerically or lexicographically, and raise `TypeError`
when an int meets a str. Raised exceptions become `Err` values of
`Values.Error`.

Several queries return dictionaries keyed by id (`get_roots`,
`get_leaf_taxa`, `get_extant_taxa` and their older counterparts). These write
an `"id"` entry into the attribute maps the graph stores. The model shows this
in-place update as a class, `Graphs.Phylogeny`, whose methods modify its
`graph` field.

The source walks lineages with `while True` loops. These stop only because a
phylogeny is acyclic. The model takes acyclicity as a ghost topological
numbering `rank` (`Graphs.IsTopologicalRank`).

The loops are modelled as methods that walk the graph. Each is proved against
a specification:

- `Lineages.IsLineageChain`: the one root-to-leaf chain of sole successors;
- `Lineages.IsAncestry`: the walk back through sole parents;
- `States.NumRuns` and `States.StateSet` over `States.StatesAlong`: the runs
  of equal states along a chain, and its distinct states;
- `Metrics.Accumulated`: sums weighted by multiplicity in the attribute list;
- `Abstraction.Abstract` and `Abstraction.IsAbstraction`: the state sequence
  of an abstract lineage.

The main theorems are these:

- A lineage chain is unique. In an acyclic graph it covers every taxon, and
  the graph is then asexual.
- The state-change count is the number of runs, which is one more than the
  number of changes.
- The number of unique states is at least one and at most the number of runs.
- The accumulation is each attribute's multiplicity times its sum over the
  counted taxa.
- The abstraction splits the chain into maximal runs, in order, with faithful
  states, and has one state per run.
- A lineage extracted from an acyclic asexual graph is itself an asexual
  lineage, walked from the root down the ancestry.
- In the older module:
  - the component count never exceeds the root count, and a concrete graph
    shows that it can be smaller;
  - the destruction-time query is contained in the newer query at
    "present".

Where functions of `phylogeny_utils.py` are the same code as in
`phylogeny/utils.py`, they are modelled once, and their rows below name
the older lines as well.

## Model

| member | source | states |
|---|---|---|
| Values.Less | ALifeStdDev/phylogeny/utils.py:257-263 | Python's `<` fails with an error exactly when one operand is an int and the other a str |
| Values.LessIsStrictOrder | ALifeStdDev/phylogeny/utils.py:257-263 | on values of one kind, `<` is irreflexive, asymmetric and transitive |
| Values.StrLessTransitive | ALifeStdDev/phylogeny/utils.py:257-263 | lexicographic string order is transitive |
| Values.StrLessIrreflexive | ALifeStdDev/phylogeny/utils.py:257-263 | no string sorts before itself |
| Values.StrLessAsymmetric | ALifeStdDev/phylogeny/utils.py:257-263 | two strings never sort before each other |
| Values.DigitStringPrecedesPresent | ALifeStdDev/phylogeny/utils.py:257-263 | a digit string (a time read from CSV) is never `> "present"`, so a taxon destroyed at such a time is not alive at the default query time |
| Validation.TaxaHaveAttribute | ALifeStdDev/phylogeny/utils.py:15-17 | the loop returns true iff every visited taxon has the attribute |
| Validation.AllTaxaHaveAttribute | ALifeStdDev/phylogeny/utils.py:4-17 | true iff every taxon of the graph carries the attribute; the older copy at phylogeny_utils.py:4-10 is the same code |
| Validation.HasAttributes | ALifeStdDev/phylogeny/utils.py:31-32 | one taxon has every listed attribute |
| Validation.TaxaHaveAttributes | ALifeStdDev/phylogeny/utils.py:30-33 | true iff every visited taxon has every listed attribute |
| Validation.AllTaxaHaveAttributes | ALifeStdDev/phylogeny/utils.py:19-33 | true iff every taxon carries every listed attribute; equal to the conjunction of the single-attribute check over the list; true for an empty list or an empty graph |
| Validation.ValidateTimeAttribute | ALifeStdDev/phylogeny/utils.py:266-273 | passes iff every taxon carries the time attribute, otherwise fails with MissingAttribute of that name |
| Topology.TaxaHaveAtMostOneParent | ALifeStdDev/phylogeny/utils.py:47-49 | the loop returns true iff no visited taxon has two or more parents |
| Topology.IsAsexual | ALifeStdDev/phylogeny/utils.py:35-49 | true iff no taxon has more than one predecessor; the older copy at phylogeny_utils.py:12-18 is the same code |
| Topology.RootIds | ALifeStdDev/phylogeny/utils.py:90-99 | exactly the taxa without predecessors, each once, in node order; the older copy at phylogeny_utils.py:31-35 is the same code |
| Topology.NumRoots | ALifeStdDev/phylogeny/utils.py:116-126 | the size of the set of root taxa, at most the number of taxa |
| Topology.LeafTaxaIds | ALifeStdDev/phylogeny/utils.py:177-187 | exactly the taxa without successors, each once, in node order; the older `get_extant_taxa_ids_from_pruned` (phylogeny_utils.py:69-74) is the same code |
| Topology.CollectWithIds | ALifeStdDev/phylogeny/utils.py:112-114 | the returned dictionary has exactly the selected ids as keys; every value is the stored map with "id" set to its key; the graph's maps change the same way; no other taxon changes |
| Topology.GetRoots | ALifeStdDev/phylogeny/utils.py:101-114 | the keys are exactly the roots; the graph afterwards holds the maps with "id" added for the roots only, and stays valid; the older copy at phylogeny_utils.py:37-40 is the same code |
| Topology.GetLeafTaxa | ALifeStdDev/phylogeny/utils.py:161-174 | the keys are exactly the leaves; the graph afterwards holds the maps with "id" added for the leaves only, and stays valid; the older `get_extant_taxa_from_pruned` (phylogeny_utils.py:60-67) is the same code |
| Extant.Lookup | ALifeStdDev/phylogeny/utils.py:257-263 | a dict lookup succeeds iff the key is present, and otherwise raises KeyError of that key |
| Extant.TaxonIsAlive | ALifeStdDev/phylogeny/utils.py:257-263 | alive iff the literal "destruction_time" key holds the not-destroyed marker or the named destruction value is later than the query time, and either the query is at "present" or the origin is earlier; KeyError when "destruction_time" is absent; otherwise only KeyError or TypeError; no error exactly when "destruction_time" is present, the named destruction value is present and of the query time's kind unless the marker short-circuits it, and, for a taxon not yet dead at a query not at "present", the origin is present and of that kind |
| Extant.AliveExample | ALifeStdDev/phylogeny/utils.py:257-263 | a taxon born at 5 and never destroyed is alive at "present" and at 10, and not at 3 |
| Extant.LiteralDestructionKey | ALifeStdDev/phylogeny/utils.py:260-261 | the not-destroyed test reads "destruction_time" whatever destruction attribute is named |
| Extant.IntegerDestructionAtPresentRaises | ALifeStdDev/phylogeny/utils.py:260-261 | a taxon with an integer destruction time makes a query at "present" raise TypeError |
| Extant.SelectAlive | ALifeStdDev/phylogeny/utils.py:212-218 | succeeds iff no taxon's test raises; then holds exactly the alive taxa, in order and without repeats |
| Extant.ExtantTaxaIds | ALifeStdDev/phylogeny/utils.py:190-218 | MissingAttribute for a missing destruction attribute, then, for a query not at "present", for a missing origin attribute; once those pass, success exactly when no taxon's test raises, and then exactly the alive taxa in node order; every error is MissingAttribute, KeyError or TypeError; success when only destruction times not short-circuited by the marker, and origin times for a query not at "present", are required to be of the query time's kind |
| Extant.NeverDestroyedQueriedAtIntTime | ALifeStdDev/phylogeny/utils.py:190-218 | taxa never destroyed, with integer origin times, queried at an integer time: the query succeeds and returns exactly the taxa born before that time |
| Extant.GetExtantTaxa | ALifeStdDev/phylogeny/utils.py:221-254 | on an error, the same error and the graph unchanged; otherwise keys exactly the extant ids, and "id" added in the graph for those taxa only |
| Lineages.IsAsexualLineage | ALifeStdDev/phylogeny/utils.py:51-72 | true iff a lineage chain exists (one root, sole successors down to a leaf); false whenever the root count is not one |
| Lineages.SoleWalkIsPrefix | ALifeStdDev/phylogeny/utils.py:67-71 | a walk through sole neighbours is a prefix of any such walk from the same start that ends at a dead end |
| Lineages.SoleWalkUnique | ALifeStdDev/phylogeny/utils.py:67-71 | two sole-neighbour walks from one start that both end at a dead end are equal |
| Lineages.LineageChainUnique | ALifeStdDev/phylogeny/utils.py:63-72 | a graph has at most one lineage chain |
| Lineages.AncestryUnique | ALifeStdDev/phylogeny/utils.py:294-298 | a taxon has at most one ancestry walk |
| Lineages.SuccessorWalkRanksIncrease | ALifeStdDev/phylogeny/utils.py:67-71 | along a successor walk the topological rank strictly increases, so the forward walk terminates |
| Lineages.PredecessorWalkRanksDecrease | ALifeStdDev/phylogeny/utils.py:295-298 | along a parent walk from a taxon every step stays in the graph and the rank strictly decreases, so the backward walk terminates |
| Lineages.ParentRank | ALifeStdDev/phylogeny/utils.py:296-298 | a parent is in the graph and ranks below its child |
| Lineages.RanksIncreasingDistinct | ALifeStdDev/phylogeny/utils.py:67-71 | a walk of strictly increasing rank visits no taxon twice |
| Lineages.LinkAt | ALifeStdDev/phylogeny/utils.py:67-71 | from the link predicate the metric walks carry: w[i] has a successor list in g; that list is [w[i+1]], or empty at the last position |
| Lineages.LineageChainLinks | ALifeStdDev/phylogeny/utils.py:63-72 | a lineage chain is linked and starts at the only root |
| Lineages.ChainInGraph | ALifeStdDev/phylogeny/utils.py:63-72 | every chain taxon is in the graph |
| Lineages.ChainReachesEveryTaxon | ALifeStdDev/phylogeny/utils.py:63-72 | in an acyclic graph with a lineage chain, every taxon is on the chain |
| Lineages.LineageChainCoversGraph | ALifeStdDev/phylogeny/utils.py:51-72 | in an acyclic graph, a lineage chain lists every taxon exactly once (length = number of taxa), and the graph is asexual |
| Lineages.ChainParent | ALifeStdDev/phylogeny/utils.py:51-72 | on a chain covering the graph, each taxon after the root has its predecessor on the chain as its only parent |
| Lineages.CyclicGraphEscapesWalk | ALifeStdDev/phylogeny/utils.py:63-72 | without acyclicity the walk can accept a graph whose self-looping taxon lies off the chain (why acyclicity is assumed) |
| Lineages.SelfLoopValid | ALifeStdDev/phylogeny/utils.py:63-72 | the graph of that example is a well-formed DiGraph |
| Lineages.WalkTipOnChain | ALifeStdDev/phylogeny/utils.py:68-69 | a forward walk from the root of a lineage chain never reaches a taxon with two successors |
| Lineages.ChainNeedsSoleSuccessor | ALifeStdDev/phylogeny/utils.py:69 | when the walk meets two successors, the graph is not an asexual lineage |
| Lineages.Reversed | ALifeStdDev/phylogeny/utils.py:299 | the reversal places element i at position length - 1 - i |
| Lineages.AncestryChildMembers | ALifeStdDev/phylogeny/utils.py:299 | among the ancestry taxa, the only child of an ancestry taxon is the one before it on the walk |
| Lineages.AncestryChildren | ALifeStdDev/phylogeny/utils.py:299 | in the extracted subgraph each ancestry taxon's successor list is exactly the taxon before it (none for the start) |
| Lineages.AncestryParentKept | ALifeStdDev/phylogeny/utils.py:299 | in the extracted subgraph the i-th ancestry taxon's parent list equals its list in the whole graph: the next taxon, or none at the end |
| Lineages.AncestryParentsKept | ALifeStdDev/phylogeny/utils.py:299 | every ancestry taxon is in the extracted subgraph with its parent list equal to its list in the whole graph |
| Lineages.AncestryRoot | ALifeStdDev/phylogeny/utils.py:299 | the extracted subgraph has exactly one root, the end of the walk |
| Lineages.ReversedAncestryFollowsChildren | ALifeStdDev/phylogeny/utils.py:299 | read backwards, the ancestry steps through each taxon's only child in the extracted subgraph and ends at t, which has none |
| Lineages.ExtractedLineageIsChain | ALifeStdDev/phylogeny/utils.py:278-299 | the extracted subgraph is valid and is an asexual lineage whose chain is the ancestry reversed |
| Lineages.ExtractAsexualLineage | ALifeStdDev/phylogeny/utils.py:278-299 | NotFound for an unknown taxon, then NotAsexual; otherwise the induced subgraph on the unique ancestry walk (nodes in the parent graph's order), which is a valid asexual lineage from the root down to the taxon; the older copy at phylogeny_utils.py:99-112 is the same code |
| States.Projection | ALifeStdDev/phylogeny/metrics.py:30 | the state lists the taxon's listed attribute values in list order |
| States.StatesAlong | ALifeStdDev/phylogeny/metrics.py:32-39 | the k-th state along a walk is the state of its k-th taxon |
| States.StatesAlongLast | ALifeStdDev/phylogeny/metrics.py:36 | the states along a walk are those of its prefix followed by the last taxon's state |
| States.NumRunsCountsChanges | ALifeStdDev/phylogeny/metrics.py:29-39 | the number of runs is one more than the number of positions where the state changes, and lies between 1 and the length |
| States.ChangesOfLonger | ALifeStdDev/phylogeny/metrics.py:37-39 | one more taxon adds a change exactly when its state differs from the previous one |
| States.NumRunsAppend | ALifeStdDev/phylogeny/metrics.py:37-39 | one more state adds a run exactly when it differs from the last |
| States.DistinctStatesAtMostRuns | ALifeStdDev/phylogeny/metrics.py:42-58 | a list has no more distinct states than runs |
| States.StateSetAppend | ALifeStdDev/phylogeny/metrics.py:57 | adding a state to the list adds it to the set of states |
| States.StateSetHasFirst | ALifeStdDev/phylogeny/metrics.py:52 | a nonempty list has at least one distinct state |
| States.CheckLineageAttributes | ALifeStdDev/phylogeny/metrics.py:23-26 | NotAsexualLineage first, then MissingAttributes, otherwise a pass with the chain of every taxon, all carrying the listed attributes |
| Metrics.AsexualLineageLength | ALifeStdDev/phylogeny/metrics.py:5-12 | NotAsexualLineage, or the number of taxa, which is the length of the lineage chain |
| Metrics.NumDiscreteStateChanges | ALifeStdDev/phylogeny/metrics.py:14-40 | errors in source order; otherwise at least 1 and equal to the number of runs of equal states along the chain |
| Metrics.CountRuns | ALifeStdDev/phylogeny/metrics.py:27-40 | the walk counts exactly the runs of equal states along the chain |
| Metrics.NumDiscreteUniqueStates | ALifeStdDev/phylogeny/metrics.py:42-58 | errors in source order; otherwise the number of distinct states along the chain, between 1 and the number of runs |
| Metrics.CollectStates | ALifeStdDev/phylogeny/metrics.py:49-58 | the walk collects exactly the set of states along the chain |
| Metrics.RangeTotalShift | ALifeStdDev/phylogeny/metrics.py:74-80 | a range sum depends only on the taxa inside the range |
| Metrics.RangeTotalFirst | ALifeStdDev/phylogeny/metrics.py:71-80 | a sum from the root is the root's value plus the sum of the rest |
| Metrics.TotalWithoutRoot | ALifeStdDev/phylogeny/metrics.py:71-73 | skipping the root takes the root's value off each total |
| Metrics.WeightCounts | ALifeStdDev/phylogeny/metrics.py:79-80 | adding one taxon's values over the list adds each attribute's value once per occurrence in the list |
| Metrics.AddMutations | ALifeStdDev/phylogeny/metrics.py:79-80 | TypeError iff some listed value is a str; otherwise each accumulator grows by its multiplicity times the taxon's value and no key is added |
| Metrics.Counted | ALifeStdDev/phylogeny/metrics.py:71 | the counted taxa are the chain, one shorter when the root is skipped |
| Metrics.CountedSlice | ALifeStdDev/phylogeny/metrics.py:71 | the counted taxa are the chain from position 0 or 1 on |
| Metrics.MutationAccumulation | ALifeStdDev/phylogeny/metrics.py:60-81 | errors in source order; otherwise TypeError iff a counted value is a str, and else keys exactly the listed attributes, each mapped to its multiplicity in the list times its sum over the counted taxa |
| Metrics.AccumulateAlong | ALifeStdDev/phylogeny/metrics.py:67-81 | the walk computes exactly that accumulation, with or without the root |
| Metrics.CountedTypeError | ALifeStdDev/phylogeny/metrics.py:73 | a str at any counted position makes TypeError the correct outcome |
| Metrics.CountedNotInt | ALifeStdDev/phylogeny/metrics.py:80 | a str at a counted position means the counted taxa are not all int-valued |
| Metrics.Zeros | ALifeStdDev/phylogeny/metrics.py:68 | the initial accumulator maps each listed attribute to zero |
| Metrics.RunningTotalsAtRoot | ALifeStdDev/phylogeny/metrics.py:68-73 | before the walk, the totals cover the root exactly when it is counted |
| Metrics.MutationStep | ALifeStdDev/phylogeny/metrics.py:74-80 | one step of the walk extends the running totals by the next taxon |
| Metrics.CountedIntValued | ALifeStdDev/phylogeny/metrics.py:71-80 | the counted taxa hold ints when the positions they come from do |
| Metrics.MutationResult | ALifeStdDev/phylogeny/metrics.py:81 | at the leaf, the running totals are the totals over the counted taxa |
| Abstraction.ChainEdgesAppend | ALifeStdDev/phylogeny/utils.py:356 | adding the edge from the previous state to the new one keeps the edges (0,1), (1,2), … |
| Abstraction.Copied | ALifeStdDev/phylogeny/utils.py:330-331 | the copied map has exactly the listed attributes, with the taxon's values |
| Abstraction.CopyAttributes | ALifeStdDev/phylogeny/utils.py:362-363 | the loop overwrites exactly the listed attributes with the taxon's values and keeps the rest |
| Abstraction.ReadablePrefix | ALifeStdDev/phylogeny/utils.py:340-365 | readability of the walked taxa holds for every prefix |
| Abstraction.Opened | ALifeStdDev/phylogeny/utils.py:353-365 | a new state records the taxon's state and has it as its only member |
| Abstraction.Joined | ALifeStdDev/phylogeny/utils.py:346-351 | joining keeps the state and its id and appends the member |
| Abstraction.Extend | ALifeStdDev/phylogeny/utils.py:344-365 | after a step the last state is the taxon's state, and the count grows exactly when the state differs |
| Abstraction.Abstract | ALifeStdDev/phylogeny/utils.py:323-365 | the walk's states end in the last taxon's state |
| Abstraction.FlattenAppend | ALifeStdDev/phylogeny/utils.py:365 | the members of an added state follow those before it |
| Abstraction.JoinFlatten | ALifeStdDev/phylogeny/utils.py:349 | a joining taxon follows the members already listed |
| Abstraction.OpenedState | ALifeStdDev/phylogeny/utils.py:353-365 | a state opened by a taxon is a faithful state of its number |
| Abstraction.JoinedState | ALifeStdDev/phylogeny/utils.py:346-351 | a taxon of the same state joining keeps the state faithful, with its destruction time as the state's last |
| Abstraction.StateAttributesJoin | ALifeStdDev/phylogeny/utils.py:350-351 | a join updates only "destruction_time", and only when it is tracked |
| Abstraction.JoinFaithful | ALifeStdDev/phylogeny/utils.py:346-351 | a join keeps every state faithful |
| Abstraction.OpenFaithful | ALifeStdDev/phylogeny/utils.py:353-365 | opening a state keeps every state faithful |
| Abstraction.AlternatingReplaceLast | ALifeStdDev/phylogeny/utils.py:346 | a join keeps consecutive states different |
| Abstraction.AlternatingAppend | ALifeStdDev/phylogeny/utils.py:352-354 | a new state differs from the one before it |
| Abstraction.JoinIsAbstraction | ALifeStdDev/phylogeny/utils.py:346-351 | a join extends an abstraction of a walk to an abstraction of the longer walk |
| Abstraction.OpenIsAbstraction | ALifeStdDev/phylogeny/utils.py:352-365 | opening a state extends an abstraction of a walk to one of the longer walk |
| Abstraction.ExtendIsAbstraction | ALifeStdDev/phylogeny/utils.py:344-365 | every step keeps the abstraction property |
| Abstraction.AbstractStep | ALifeStdDev/phylogeny/utils.py:340-365 | the states for one more taxon are one step applied to the states before |
| Abstraction.AbstractIsAbstraction | ALifeStdDev/phylogeny/utils.py:323-365 | the states the walk builds list the walked taxa in order as their members, split into maximal runs of equal state, each state faithful to its members |
| Abstraction.AbstractCountsRuns | ALifeStdDev/phylogeny/utils.py:323-365 | the walk builds one state per run of equal states |
| Abstraction.CountStep | ALifeStdDev/phylogeny/utils.py:346-354 | one step keeps the state count equal to the number of runs |
| Abstraction.FirstState | ALifeStdDev/phylogeny/utils.py:323-337 | the root state is state 0 with the root as its only member |
| Abstraction.OpenState | ALifeStdDev/phylogeny/utils.py:353-365 | a later state is opened by the taxon with the next id |
| Abstraction.JoinState | ALifeStdDev/phylogeny/utils.py:346-351 | the taxon joins the current state |
| Abstraction.AbstractAlong | ALifeStdDev/phylogeny/utils.py:339-365 | the loop builds exactly the walk's states, with edges (0,1), (1,2), … between consecutive states |
| Abstraction.SettingsOf | ALifeStdDev/phylogeny/utils.py:317-318 | a time attribute is tracked iff every taxon carries it |
| Abstraction.ChainReadable | ALifeStdDev/phylogeny/utils.py:306-318 | after the checks, every chain taxon can be read as the abstraction reads it |
| Abstraction.AbstractAsexualLineage | ALifeStdDev/phylogeny/utils.py:301-367 | NotAsexualLineage, then MissingAttributes, then the reserved names "node_state", "members" and "state_id" in that order; otherwise a chain of states that abstracts the lineage chain, with one state per run of equal states |
| LegacyUtils.DisjointBlocksMeetingSet | ALifeStdDev/phylogeny_utils.py:42-46 | pairwise disjoint blocks that each meet a set are no more numerous than the set |
| LegacyUtils.BlockCount | ALifeStdDev/phylogeny_utils.py:42-46 | a decomposition into components has no blocks iff the graph is empty, and at most one block per taxon |
| LegacyUtils.NumRoots | ALifeStdDev/phylogeny_utils.py:42-46 | the number of weakly connected components: zero iff the graph is empty, at most the number of taxa |
| LegacyUtils.RootInBlock | ALifeStdDev/phylogeny_utils.py:42-46 | in an acyclic graph every block closed under parents holds a root |
| LegacyUtils.ComponentRoot | ALifeStdDev/phylogeny_utils.py:42-46 | in an acyclic graph every component holds a root |
| LegacyUtils.ComponentsMeetRoots | ALifeStdDev/phylogeny_utils.py:42-46 | in an acyclic graph every component meets the set of roots |
| LegacyUtils.ComponentsAtMostRoots | ALifeStdDev/phylogeny_utils.py:42-46 | in an acyclic graph, the older root count never exceeds the newer one (utils.py:116-126) |
| LegacyUtils.CommonChildValid | ALifeStdDev/phylogeny_utils.py:42-46 | two roots with a common child form a well-formed DiGraph |
| LegacyUtils.AllTaxaOneBlock | ALifeStdDev/phylogeny_utils.py:42-46 | all taxa of a nonempty graph form one block that passes the decomposition predicate |
| LegacyUtils.TwoRootsOfThree | ALifeStdDev/phylogeny/utils.py:116-126 | three taxa of which exactly the first two are roots have two roots |
| LegacyUtils.CommonChildMergesRoots | ALifeStdDev/phylogeny_utils.py:42-46 | two roots with a common child: the older count gives 1, the newer count gives 2 |
| LegacyUtils.ExtantTaxaIdsByDestructionTime | ALifeStdDev/phylogeny_utils.py:76-84 | MissingAttribute("destruction_time") iff some taxon lacks it; otherwise exactly the taxa whose "destruction_time" equals the marker, in node order |
| LegacyUtils.ByDestructionTimeWithinExtant | ALifeStdDev/phylogeny_utils.py:76-84 | when the newer query at "present" succeeds, the older query succeeds with a subset of its taxa; an extant taxon is dropped only when its destruction time sorts after "present" and is not the marker |
| LegacyUtils.IntegerDestructionTimeQueries | ALifeStdDev/phylogeny_utils.py:76-84 | for a taxon destroyed at 5, the older query returns no taxa while the newer query at "present" raises TypeError |
| LegacyUtils.GetExtantTaxaByDestructionTime | ALifeStdDev/phylogeny_utils.py:86-95 | on an error, the same error and the graph unchanged; otherwise keys exactly the selected ids, with "id" added in the graph for those taxa only |

## Left out

- The loaders (`phylogeny/loader.py`, `phylogeny_loader.py`): these read files, which is I/O. Taxon ids are taken as integers, as the loader produces.
- `has_single_root`, `get_num_independent_phylogenies` and `get_independent_phylogenies`: these wrap networkx connectivity algorithms, which the model cannot see.
- LegacyUtils.NumRoots: states the result as the size of a decomposition supplied by the caller. That decomposition is nonempty, disjoint, covering and closed under edges. That each block is connected is not stated, because networkx's component search is not modelled.
- `get_mrca_tree_depth_asexual`: `tests/test_phylogeny_metrics.py:44-67` calls it, but it is not defined in `phylogeny/metrics.py`; it is not part of this model.
- Cyclic graphs: every walk requires a ghost topological numbering. The source's `while True` loops need acyclicity to terminate. `Lineages.CyclicGraphEscapesWalk` shows what the forward walk accepts without it.
- Floats and list values: values are ints or strs. A float time or attribute value is not modelled. Nor is a list-valued attribute such as the `ancestor_list` the loader sets on every taxon (`phylogeny/loader.py:24-25`). With list values the model loses three behaviours:
  - `get_asexual_lineage_num_discrete_unique_states` would raise a TypeError when it hashes a state tuple holding a list (`phylogeny/metrics.py:52,57`); `Metrics.NumDiscreteUniqueStates` never fails there.
  - `get_asexual_lineage_mutation_accumulation` would raise a TypeError when it adds a list to the integer accumulator (`phylogeny/metrics.py:73,80`); `Metrics.MutationAccumulation` only sees ints and strs.
  - The state comparisons accept lists and compare them element by element (`phylogeny/metrics.py:37`, `phylogeny/utils.py:346`). The model compares `Value`s only.
- Lineages.ExtractAsexualLineage: the model gives the extracted lineage the parent graph's node order. networkx's subgraph view may iterate the kept nodes in the order of a Python set when fewer than half of the nodes are kept, and `.copy()` inserts them in that order. So the node order of the result, and of node-ordered queries run on it, is not pinned by the source; the chain, node set, attributes and edges are.
- Exception messages: each raised exception is kept as a kind of `Values.Error` without its text.
- Aliasing of attribute dictionaries beyond the graph:
  - The returned root, leaf and extant dictionaries hold the stored maps as values, with "id" added. Mutation through those returned dictionaries afterwards is not modelled.
  - The returned dictionaries are Dafny maps, which have no key order. In the source their keys are in node order, since each comprehension inserts in node order; the id lists (`Topology.RootIds`, `Topology.LeafTaxaIds`, `Extant.ExtantTaxaIds`, `LegacyUtils.ExtantTaxaIdsByDestructionTime`) keep that order.
  - The "members" dictionary of an abstract state holds copies of the members' maps, not references to them.
- The abstract lineage is a value: `Abstraction.AbstractLineage` lists its states and edges. It is not a DiGraph with attribute maps, so the "state_id", "node_state" and "members" entries are fields of `Abstraction.State`.
- The test files and their constant phylogenies: not part of this model.
