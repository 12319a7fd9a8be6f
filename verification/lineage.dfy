/** `build_graph`: folds metadata records into a `DiGraph`, then keeps only
    the final target and its ancestors. */
module TraceLineage {
  import opened Wrappers
  import opened Tokens
  import opened DiGraph
  import Reachability

  /** One `(sources, target, transformation_id)` triple; `sources` is the raw
      cell, holding whitespace-separated table names. */
  datatype Record = Record(sources: string, target: Node, transformationId: TransformationId)

  /** `nx.ancestors` raises when the final target is not a node. */
  datatype LineageError = NodeNotInGraph(node: Node)

  /** Record `r` asks for the edge `u -> v`. */
  predicate Produces(r: Record, u: Node, v: Node) {
    v == r.target && u in Split(r.sources)
  }

  /** Record `r` makes `n` a node: as a source, or as the target of at least
      one edge. */
  predicate Mentions(r: Record, n: Node) {
    n in Split(r.sources) || (n == r.target && Split(r.sources) != [])
  }

  /** Some record of `rs` asks for the edge `u -> v`. */
  ghost predicate ProducedBy(rs: seq<Record>, u: Node, v: Node) {
    exists i :: 0 <= i < |rs| && Produces(rs[i], u, v)
  }

  /** Some record of `rs` makes `n` a node. */
  ghost predicate MentionedBy(rs: seq<Record>, n: Node) {
    exists i :: 0 <= i < |rs| && Mentions(rs[i], n)
  }

  lemma ProducedByCons(rs: seq<Record>, u: Node, v: Node)
    requires rs != []
    ensures ProducedBy(rs, u, v) <==> Produces(rs[0], u, v) || ProducedBy(rs[1..], u, v)
  {
    if i :| 0 <= i < |rs| && Produces(rs[i], u, v) {
      if i > 0 {
        assert Produces(rs[1..][i - 1], u, v);
      }
    }
    if i :| 0 <= i < |rs| - 1 && Produces(rs[1..][i], u, v) {
      assert Produces(rs[i + 1], u, v);
    }
  }

  lemma MentionedByCons(rs: seq<Record>, n: Node)
    requires rs != []
    ensures MentionedBy(rs, n) <==> Mentions(rs[0], n) || MentionedBy(rs[1..], n)
  {
    if i :| 0 <= i < |rs| && Mentions(rs[i], n) {
      if i > 0 {
        assert Mentions(rs[1..][i - 1], n);
      }
    }
    if i :| 0 <= i < |rs| - 1 && Mentions(rs[1..][i], n) {
      assert Mentions(rs[i + 1], n);
    }
  }

  /** The edge attributes after one record: each `source -> target` pair is
      (re)labelled with the record's transformation id. */
  function Relabel(m: map<(Node, Node), EdgeData>, srcs: seq<Node>, target: Node, tid: TransformationId)
    : map<(Node, Node), EdgeData>
    decreases |srcs|
  {
    if srcs == [] then m
    else Relabel(m[(srcs[0], target) := EdgeData(Some(tid))], srcs[1..], target, tid)
  }

  /** The edge attributes after all records, in list order. */
  function Labels(m: map<(Node, Node), EdgeData>, rs: seq<Record>): map<(Node, Node), EdgeData>
    decreases |rs|
  {
    if rs == [] then m
    else Labels(Relabel(m, Split(rs[0].sources), rs[0].target, rs[0].transformationId), rs[1..])
  }

  /** The inner loop: one `add_edge(source, target, ...)` per source, in order. */
  function AddSources(g: Graph, srcs: seq<Node>, target: Node, tid: TransformationId): (h: Graph)
    requires WF(g)
    ensures WF(h)
    ensures g.nodes <= h.nodes
    ensures h.attrs == Relabel(g.attrs, srcs, target, tid)
    decreases |srcs|
  {
    if srcs == [] then g
    else AddSources(AddEdge(g, srcs[0], target, tid), srcs[1..], target, tid)
  }

  /** The sources become nodes, and so does the target when there is at
      least one source; nothing else is added. */
  lemma {:induction false} AddSourcesNodes(g: Graph, srcs: seq<Node>, target: Node, tid: TransformationId)
    requires WF(g)
    ensures forall n :: n in AddSources(g, srcs, target, tid).nodes <==>
      n in g.nodes || n in srcs || (n == target && srcs != [])
    decreases |srcs|
  {
    if srcs != [] {
      AddSourcesNodes(AddEdge(g, srcs[0], target, tid), srcs[1..], target, tid);
      assert forall n :: n in srcs <==> n == srcs[0] || n in srcs[1..];
    }
  }

  /** One record labels exactly its `source -> target` pairs with its id and
      leaves every other pair as it was. */
  lemma {:induction false} RelabelSpec(m: map<(Node, Node), EdgeData>, srcs: seq<Node>, target: Node, tid: TransformationId)
    ensures forall e :: e in Relabel(m, srcs, target, tid) <==> e in m || (e.0 in srcs && e.1 == target)
    ensures forall e :: e in Relabel(m, srcs, target, tid) ==>
      Relabel(m, srcs, target, tid)[e] == if e.0 in srcs && e.1 == target then EdgeData(Some(tid)) else m[e]
    decreases |srcs|
  {
    if srcs != [] {
      RelabelSpec(m[(srcs[0], target) := EdgeData(Some(tid))], srcs[1..], target, tid);
      assert forall n :: n in srcs <==> n == srcs[0] || n in srcs[1..];
    }
  }

  /** The labelled pairs after the fold: the old ones and those some record
      produces. */
  lemma {:induction false} LabelsKeys(m: map<(Node, Node), EdgeData>, rs: seq<Record>)
    ensures forall a, b :: (a, b) in Labels(m, rs) <==> (a, b) in m || ProducedBy(rs, a, b)
    decreases |rs|
  {
    if rs != [] {
      var m1 := Relabel(m, Split(rs[0].sources), rs[0].target, rs[0].transformationId);
      RelabelSpec(m, Split(rs[0].sources), rs[0].target, rs[0].transformationId);
      LabelsKeys(m1, rs[1..]);
      forall a, b
        ensures ProducedBy(rs, a, b) <==> Produces(rs[0], a, b) || ProducedBy(rs[1..], a, b)
      {
        ProducedByCons(rs, a, b);
      }
    }
  }

  /** A pair that no record produces keeps its label through the fold. */
  lemma {:induction false} LabelsKeepUnproduced(m: map<(Node, Node), EdgeData>, rs: seq<Record>, a: Node, b: Node)
    requires (a, b) in m && !ProducedBy(rs, a, b)
    ensures (a, b) in Labels(m, rs) && Labels(m, rs)[(a, b)] == m[(a, b)]
    decreases |rs|
  {
    if rs != [] {
      ProducedByCons(rs, a, b);
      RelabelSpec(m, Split(rs[0].sources), rs[0].target, rs[0].transformationId);
      LabelsKeepUnproduced(Relabel(m, Split(rs[0].sources), rs[0].target, rs[0].transformationId), rs[1..], a, b);
    }
  }

  /** The label of a pair is the id of the last record that produces it. */
  lemma {:induction false} LabelsLastWriter(m: map<(Node, Node), EdgeData>, rs: seq<Record>, i: nat, a: Node, b: Node)
    requires i < |rs| && Produces(rs[i], a, b)
    requires forall j :: i < j < |rs| ==> !Produces(rs[j], a, b)
    ensures (a, b) in Labels(m, rs) && Labels(m, rs)[(a, b)] == EdgeData(Some(rs[i].transformationId))
    decreases |rs|
  {
    var m1 := Relabel(m, Split(rs[0].sources), rs[0].target, rs[0].transformationId);
    if i == 0 {
      RelabelSpec(m, Split(rs[0].sources), rs[0].target, rs[0].transformationId);
      forall j | 0 <= j < |rs| - 1
        ensures !Produces(rs[1..][j], a, b)
      {
        assert rs[1..][j] == rs[j + 1];
      }
      LabelsKeepUnproduced(m1, rs[1..], a, b);
    } else {
      assert Produces(rs[1..][i - 1], a, b);
      forall j | i - 1 < j < |rs| - 1
        ensures !Produces(rs[1..][j], a, b)
      {
        assert rs[1..][j] == rs[j + 1];
      }
      LabelsLastWriter(m1, rs[1..], i - 1, a, b);
    }
  }

  /** Every label the fold writes carries a transformation id. */
  lemma {:induction false} LabelsPresent(m: map<(Node, Node), EdgeData>, rs: seq<Record>)
    requires forall e :: e in m ==> m[e].transformationId.Some?
    ensures forall e :: e in Labels(m, rs) ==> Labels(m, rs)[e].transformationId.Some?
    decreases |rs|
  {
    if rs != [] {
      RelabelSpec(m, Split(rs[0].sources), rs[0].target, rs[0].transformationId);
      LabelsPresent(Relabel(m, Split(rs[0].sources), rs[0].target, rs[0].transformationId), rs[1..]);
    }
  }

  /** One pass of the outer loop: the record's sources and, when it has any,
      its target become nodes; it adds exactly its `source -> target` edges,
      labels them with its id, and leaves every other label alone. */
  function AddRecord(g: Graph, r: Record): (h: Graph)
    requires WF(g)
    ensures WF(h)
    ensures forall n :: n in h.nodes <==> n in g.nodes || Mentions(r, n)
    ensures forall a, b :: HasEdge(h, a, b) <==> HasEdge(g, a, b) || Produces(r, a, b)
    ensures forall a, b :: Produces(r, a, b) ==> h.attrs[(a, b)] == EdgeData(Some(r.transformationId))
    ensures forall e :: e in g.attrs && !Produces(r, e.0, e.1) ==> e in h.attrs && h.attrs[e] == g.attrs[e]
  {
    var srcs := Split(r.sources);
    AddSourcesNodes(g, srcs, r.target, r.transformationId);
    RelabelSpec(g.attrs, srcs, r.target, r.transformationId);
    AddSources(g, srcs, r.target, r.transformationId)
  }

  /** A record whose `sources` cell is empty or all whitespace changes
      nothing: no edge, and its target does not become a node. */
  lemma BlankSourcesAddNothing(g: Graph, r: Record)
    requires WF(g) && AllWhitespace(r.sources)
    ensures AddRecord(g, r) == g
  {
    SplitEmptyIff(r.sources);
  }

  /** The outer loop over the records, in list order, starting from `g`. */
  function Build(g: Graph, rs: seq<Record>): (h: Graph)
    requires WF(g)
    ensures WF(h)
    ensures g.nodes <= h.nodes
    ensures h.attrs == Labels(g.attrs, rs)
    decreases |rs|
  {
    if rs == [] then g else Build(AddRecord(g, rs[0]), rs[1..])
  }

  /** The nodes after the fold: the old ones and those some record mentions. */
  lemma {:induction false} BuildNodes(g: Graph, rs: seq<Record>)
    requires WF(g)
    ensures forall n :: n in Build(g, rs).nodes <==> n in g.nodes || MentionedBy(rs, n)
    decreases |rs|
  {
    if rs != [] {
      var g1 := AddRecord(g, rs[0]);
      AddSourcesNodes(g, Split(rs[0].sources), rs[0].target, rs[0].transformationId);
      BuildNodes(g1, rs[1..]);
      forall n
        ensures MentionedBy(rs, n) <==> Mentions(rs[0], n) || MentionedBy(rs[1..], n)
      {
        MentionedByCons(rs, n);
      }
    }
  }

  /** The edges after the fold: the old ones and those some record produces. */
  lemma {:induction false} BuildEdges(g: Graph, rs: seq<Record>)
    requires WF(g)
    ensures forall a, b :: HasEdge(Build(g, rs), a, b) <==> HasEdge(g, a, b) || ProducedBy(rs, a, b)
  {
    LabelsKeys(g.attrs, rs);
  }

  /** The graph of all records, before the ancestor restriction. */
  function FullGraph(rs: seq<Record>): (g: Graph)
    ensures WF(g)
    ensures forall n :: n in g.nodes <==> MentionedBy(rs, n)
    ensures forall a, b :: HasEdge(g, a, b) <==> ProducedBy(rs, a, b)
  {
    BuildNodes(EmptyGraph(), rs);
    BuildEdges(EmptyGraph(), rs);
    Build(EmptyGraph(), rs)
  }

  /** Last writer wins: the one edge `a -> b` carries the transformation id
      of the last record, in list order, that produces it. */
  lemma LastWriterWins(rs: seq<Record>, i: nat, a: Node, b: Node)
    requires i < |rs| && Produces(rs[i], a, b)
    requires forall j :: i < j < |rs| ==> !Produces(rs[j], a, b)
    ensures HasEdge(FullGraph(rs), a, b)
    ensures FullGraph(rs).attrs[(a, b)] == EdgeData(Some(rs[i].transformationId))
  {
    LabelsLastWriter(EmptyGraph().attrs, rs, i, a, b);
  }

  /** `build_graph(metadata, final_target)`. */
  method BuildGraph(metadata: seq<Record>, finalTarget: Node) returns (r: Result<Graph, LineageError>)
    ensures r.Failure? <==> !MentionedBy(metadata, finalTarget)
    ensures r.Failure? ==> r.error == NodeNotInGraph(finalTarget)
    ensures r.Success? ==> WF(r.value) && finalTarget in r.value.nodes
    ensures r.Success? ==> forall n :: n in r.value.nodes <==> Reaches(FullGraph(metadata), n, finalTarget)
    ensures r.Success? ==> forall a, b :: HasEdge(r.value, a, b) <==>
      && ProducedBy(metadata, a, b)
      && Reaches(FullGraph(metadata), a, finalTarget)
      && Reaches(FullGraph(metadata), b, finalTarget)
    ensures r.Success? ==> forall e :: e in r.value.attrs ==>
      e in FullGraph(metadata).attrs && r.value.attrs[e] == FullGraph(metadata).attrs[e]
    ensures r.Success? ==> forall e :: e in r.value.attrs ==> r.value.attrs[e].transformationId.Some?
  {
    var full := FullGraph(metadata);
    BuildNodes(EmptyGraph(), metadata);
    if finalTarget !in full.nodes {
      return Failure(NodeNotInGraph(finalTarget));
    }
    var anc := Reachability.Ancestors(full, finalTarget);
    ReachesSelf(full, finalTarget);
    var keep := anc + {finalTarget};
    AncestorSubgraph(metadata, finalTarget, keep);
    r := Success(InducedSubgraph(full, keep));
  }

  /** The induced subgraph on the nodes that reach the target holds exactly
      those nodes and the records' edges between them, with labels present. */
  lemma {:induction false} AncestorSubgraph(metadata: seq<Record>, finalTarget: Node, keep: set<Node>)
    requires finalTarget in FullGraph(metadata).nodes
    requires forall u :: u in keep <==> Reaches(FullGraph(metadata), u, finalTarget)
    ensures var sub := InducedSubgraph(FullGraph(metadata), keep);
      && (forall n :: n in sub.nodes <==> Reaches(FullGraph(metadata), n, finalTarget))
      && (forall a, b :: HasEdge(sub, a, b) <==>
            && ProducedBy(metadata, a, b)
            && Reaches(FullGraph(metadata), a, finalTarget)
            && Reaches(FullGraph(metadata), b, finalTarget))
      && (forall e :: e in sub.attrs ==> sub.attrs[e].transformationId.Some?)
  {
    var full := FullGraph(metadata);
    BuildEdges(EmptyGraph(), metadata);
    LabelsPresent(EmptyGraph().attrs, metadata);
    forall n | Reaches(full, n, finalTarget)
      ensures n in full.nodes
    {
      var p :| IsPath(full, p) && p[0] == n && p[|p| - 1] == finalTarget;
    }
  }
}
