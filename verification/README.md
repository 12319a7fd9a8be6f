# Lineage tracer core, modelled in Dafny

The lineage tracer reads metadata records. Each record is a triple
`(sources, target, transformation_id)`, where `sources` holds
whitespace-separated table names. The tool answers two questions:

- which tables feed a chosen final table;
- how that lineage looks as an Apache Atlas entity document.

This project models the two pure pieces that answer them, and proves what
they compute.

- `build_graph` (`trace_lineage.py`) folds the records into a NetworkX
  `DiGraph`. It splits each `sources` cell with Python's `str.split()` and
  adds one edge per table name, labelled with the record's transformation id.
  It then keeps the final target and its ancestors (`nx.ancestors`), and
  returns a copy of the induced subgraph.
- `graph_to_atlas` (`export_to_atlas_json.py`) lists one `Table` entity per
  node, then one `Process` entity per edge. It returns them with an empty
  `relationships` list.

Modules, one per file:

- `Wrappers` (`wrappers.dfy`): `Option` and `Result`.
- `Tokens` (`tokens.dfy`): argument-less `str.split()`. Its whitespace set is
  exactly the set of characters for which Python's `str.isspace()` holds.
- `DiGraph` (`digraph.dfy`): the simple directed graph. Nodes keep insertion
  order, each node's successors keep insertion order, and every edge has one
  attribute record. The module defines `add_edge`, `graph.edges(data=True)`,
  the induced subgraph copy and reachability.
- `Reachability` (`reachability.dfy`): `nx.ancestors` as a breadth-first
  search over predecessors with a visited set. It is proved to stop on cyclic
  graphs and to return exactly the strict reverse-reachability set.
- `TraceLineage` (`lineage.dfy`): the record fold and `build_graph`.
- `AtlasExport` (`atlas.dfy`): `graph_to_atlas` with `create_entity` and
  `create_process`.

A transformation id is a `TransformationId`: a string (`Id`), or Python's
`None` (`NoneId`), which `get_metadata.py` produces for an empty cell and
`add_edge` stores without complaint. An edge's label is an
`Option<TransformationId>`: `None` means the edge has no `transformation_id`
key at all. `build_graph` always stores the key. `graph_to_atlas` accepts any
graph: it falls back to `"transformation"` only when the key is missing, and
it renders a stored `None` as the text `None`, so such a process is named
`source_to_target_None`.

`trace_lineage.py` builds a plain `DiGraph`. There are no parallel edges: a
later record on the same (source, target) pair overwrites the label, and
`TraceLineage.LastWriterWins` proves it. The code also has no record
validation modes and no enumeration of transformation paths, so the model
has none either.

## Model

| member | source | states |
|---|---|---|
| `Tokens.Split` | trace_lineage.py:27 | every table name that `sources.split()` yields is non-empty and holds no whitespace |
| `Tokens.SplitEmptyIff` | trace_lineage.py:27 | the split is empty exactly when the cell is empty or all whitespace |
| `Tokens.SplitKeepsNonSpace` | trace_lineage.py:27 | the names, concatenated, are the cell's non-whitespace characters in order: splitting drops only whitespace and reorders nothing |
| `Tokens.SplitJoinSpace` | trace_lineage.py:27 | round trip: names joined by single spaces split back into the same names in the same order; proved as the one-space case of `SplitInterleave` |
| `Tokens.SplitInterleave` | trace_lineage.py:27 | round trip: names separated by any non-empty runs of whitespace (spaces, tabs, newlines, ...), with any whitespace before and after, split back into exactly those names in order |
| `Tokens.SplitGaps` | trace_lineage.py:27 | every cell is its split names laid out with whitespace runs, non-empty between two names |
| `Tokens.SplitIff` | trace_lineage.py:27 | the split of a cell is a given list of names exactly when the cell is those names with whitespace separators, non-empty between names |
| `DiGraph.AddEdge` | trace_lineage.py:28 | `add_edge` keeps the graph well formed; it adds just the two endpoints and the one edge, and it overwrites only that edge's label. New endpoints are appended to the node list, `u` before `v`; a new `v` is appended to the end of `u`'s successors; every other successor list is unchanged |
| `DiGraph.Predecessors` | trace_lineage.py:30 | the listed nodes are exactly those with an edge into `v` |
| `DiGraph.Edges` | export_to_atlas_json.py:43 | `graph.edges(data=True)` lists every edge with its attributes, and no (source, target) pair twice |
| `DiGraph.EdgesInOrder` | export_to_atlas_json.py:43 | the edges are listed by source in node order, and edges leaving the same node in the order their targets were added |
| `DiGraph.InducedSubgraph` | trace_lineage.py:31 | the copy is well formed; its nodes are the kept nodes of `g`; its edges are exactly `g`'s edges with both ends kept; every label is unchanged |
| `DiGraph.ClosedHoldsReaching` | trace_lineage.py:30 | a node set that holds `t` and is closed under predecessors holds every node that reaches `t` |
| `Reachability.Ancestors` | trace_lineage.py:30 | the search stops on every graph, cyclic ones included, and returns exactly the nodes other than `t` with a path to `t` |
| `Reachability.SearchStep` | trace_lineage.py:30 | one search step keeps the search invariant (visited nodes reach `t`; a dequeued node's predecessors are visited) and strictly decreases the termination measure |
| `Reachability.VisitAll` | trace_lineage.py:30 | every predecessor ends up visited; only predecessors are newly visited, and each one is queued |
| `TraceLineage.AddSources` | trace_lineage.py:27-28 | the inner loop keeps the graph well formed and leaves the labels that the `Relabel` reference fold gives |
| `TraceLineage.AddSourcesNodes` | trace_lineage.py:27-28 | the inner loop adds the sources as nodes, plus the target when there is at least one source, and nothing else |
| `TraceLineage.AddRecord` | trace_lineage.py:27-28 | one record makes its sources nodes, and its target too when it has a source; it adds exactly its source-to-target edges, labels each with its transformation id, and keeps every other label |
| `TraceLineage.RelabelSpec` | trace_lineage.py:28 | one record labels exactly its source-to-target pairs with its transformation id, and every other label stays as it was |
| `TraceLineage.LabelsKeys` | trace_lineage.py:26-28 | after the fold, the labelled pairs are the old ones plus those some record produces |
| `TraceLineage.LabelsKeepUnproduced` | trace_lineage.py:26-28 | a pair that no record produces keeps its label |
| `TraceLineage.LabelsLastWriter` | trace_lineage.py:26-28 | a pair's label is the id of the last record that produces it |
| `TraceLineage.LabelsPresent` | trace_lineage.py:28 | every label the fold writes carries a transformation id |
| `TraceLineage.BlankSourcesAddNothing` | trace_lineage.py:27-28 | a record whose `sources` is empty or all whitespace leaves the graph unchanged, so its target is not added as a node |
| `TraceLineage.Build` | trace_lineage.py:25-28 | the record fold keeps the graph well formed, keeps earlier nodes in place, and leaves exactly the labels of the `Labels` reference fold |
| `TraceLineage.FullGraph` | trace_lineage.py:25-28 | the graph of all records, before the restriction, has exactly the names some record mentions as nodes and exactly the pairs some record produces as edges |
| `TraceLineage.BuildNodes` | trace_lineage.py:25-28 | the built graph's nodes are exactly the names the records mention: every source, and each target that has at least one source |
| `TraceLineage.BuildEdges` | trace_lineage.py:25-28 | the built graph has an edge `s -> t` exactly when some record has `s` among its sources and `t` as its target |
| `TraceLineage.LastWriterWins` | trace_lineage.py:25-28 | a pair that several records produce has one edge, labelled with the id of the last of them in list order |
| `TraceLineage.BuildGraph` | trace_lineage.py:14-32 | the call fails with `NodeNotInGraph` exactly when no record makes the final target a node. On success: the result holds the target; its nodes are exactly those that reach the target in the full graph; its edges are exactly the records' edges between such nodes; its labels are the full graph's labels, unchanged and present |
| `TraceLineage.AncestorSubgraph` | trace_lineage.py:30-31 | the induced subgraph on the nodes that reach the target holds exactly those nodes and the records' edges between them, each with a label |
| `AtlasExport.CreateEntity` | export_to_atlas_json.py:19-26 | the entity has the given type (`Table` by default), the given name, and qualified name `namespace.name`, from which dropping `namespace.` gives back the name |
| `AtlasExport.CreateProcess` | export_to_atlas_json.py:28-38 | the entity is a `Process` with the given name, qualified name `namespace.name` (dropping `namespace.` gives back the name), exactly the given inputs and outputs, and operation type `TRANSFORM` |
| `AtlasExport.ProcessName` | export_to_atlas_json.py:44-45 | the name is the source, `_to_`, the target, `_` and the id text, at fixed positions; the id text is `transformation` when the edge has no `transformation_id` key, `None` for a stored `None`, and the stored string otherwise |
| `AtlasExport.ProcessTid` | export_to_atlas_json.py:44-45 | the id text in a process name is `"transformation"` when the edge has no `transformation_id` key, `"None"` when the stored value is `None`, and the stored string otherwise |
| `AtlasExport.GraphToAtlas` | export_to_atlas_json.py:5-53 | the document has one entity per node plus one per edge, and empty `relationships`. Entry `i` is the `Table` named after node `i`, with qualified name `namespace.node`. Entry `n + j`, where `n` is the node count, is the `Process` named `source_to_target_tid` for edge `j`, with the tid text of `ProcessTid`, qualified name `namespace.name`, one input `namespace.source`, one output `namespace.target`, and operation type `TRANSFORM` |
| `AtlasExport.ReferentialIntegrity` | export_to_atlas_json.py:40-48 | every input and output qualified name of every process is the qualified name of some `Table` entity in the same document |
| `AtlasExport.QualifiedNameInjective` | export_to_atlas_json.py:23 | within one namespace, distinct names give distinct qualified names |
| `AtlasExport.TableQualifiedNamesDistinct` | export_to_atlas_json.py:19-26 | no two `Table` entities share a qualified name |
| `AtlasExport.StripQualifiedName` | export_to_atlas_json.py:23 | removing the `namespace.` prefix from a qualified name gives back the name |
| `AtlasExport.TableNamesOfTables` | export_to_atlas_json.py:40-41 | the table names read back from the table entities are the node list |
| `AtlasExport.PairsOfProcesses` | export_to_atlas_json.py:43-48 | the (input, output) pairs read back from the processes are the edges' (source, target) pairs, in order |
| `AtlasExport.AtlasRecoversGraph` | export_to_atlas_json.py:40-53 | round trip: the document gives back the graph's node list from its table names, and its edge list, in order, from its processes' inputs and outputs |
| `AtlasExport.ProcessNamesCanCollide` | export_to_atlas_json.py:45 | process names need not be unique: the edges `a -> b_to_c` and `a_to_b -> c` with the same id both give `a_to_b_to_c_t` |

## Left out

- `draw_graph`, `main` and the command-line and logging entry point in
  `trace_lineage.py` are left out. They are rendering and orchestration.
- `draw_plotly_with_annotation.py` is left out. It is Plotly rendering with
  floating-point layout.
- `get_metadata.py` is left out. It is spreadsheet I/O. Its cleaned string
  triples are the input `seq<Record>`. `get_metadata_from_csv` is not part of
  this model.
- `save_atlas_json` is left out. It is a file write with JSON formatting.
- Records whose `sources` or target is `None` are not modelled: both fields
  are strings. In the code, a `None` `sources` makes `sources.split()` raise
  `AttributeError`. A `None` target makes `add_edge` raise `ValueError`
  ("None cannot be a node"), but only when `sources` has at least one name.
  A `None` transformation id is modelled (`NoneId`).
- NetworkX internals are not modelled. The graph is an abstract datatype that
  keeps NetworkX's observable orders: node insertion order, and edges by
  source node and then successor insertion order.
- DiGraph.InducedSubgraph: keeps the kept nodes in the full graph's order.
  When fewer than half the nodes are kept, NetworkX's subgraph view may
  iterate them in the order of the Python set passed in, and the copy
  inherits that order. Only the node set, edge set and labels are stated for
  the result; the order of the copy is not promised to match NetworkX.
- DiGraph.Predecessors: lists predecessors in node order, not NetworkX's
  predecessor order. Only the search's result, a set, depends on it.
- `relationships` is never filled by the code. Its element type is therefore
  modelled as the entity type.
- Parallel edges, record validation modes, transformation-path enumeration
  and path limits are not modelled, because the code has none of them.
