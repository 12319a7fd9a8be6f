/** `graph_to_atlas`: the Apache Atlas entity list for a lineage graph, one
    `Table` per node followed by one `Process` per edge. */
module AtlasExport {
  import opened Wrappers
  import opened DiGraph

  /** `{"uniqueAttributes": {"qualifiedName": ...}}`. */
  datatype ObjectRef = ObjectRef(qualifiedName: string)

  /** The `attributes` object of an entity. */
  datatype Attributes =
    | TableAttributes(qualifiedName: string, name: string)
    | ProcessAttributes(
        qualifiedName: string,
        name: string,
        inputs: seq<ObjectRef>,
        outputs: seq<ObjectRef>,
        operationType: string)

  datatype Entity = Entity(typeName: string, attributes: Attributes)

  /** The returned dict. `relationships` is never filled, so its entries are
      given the entity type. */
  datatype AtlasDoc = AtlasDoc(entities: seq<Entity>, relationships: seq<Entity>)

  /** The id used for an edge without a `transformation_id` attribute. */
  const DefaultTransformation: string := "transformation"

  /** `f"{namespace}.{name}"`. */
  function QualifiedName(namespace: string, name: string): string {
    namespace + "." + name
  }

  /** `create_entity(name)`; the source only ever uses the default type. The
      name is read back from the qualified name by dropping
      `namespace.`. */
  function CreateEntity(namespace: string, name: string, typeName: string := "Table"): (e: Entity)
    ensures e.typeName == typeName
    ensures typeName == "Table" ==> IsTable(e)
    ensures e.attributes.TableAttributes? && e.attributes.name == name
    ensures e.attributes.qualifiedName == namespace + "." + name
    ensures StripNamespace(namespace, e.attributes.qualifiedName) == Some(name)
  {
    StripQualifiedName(namespace, name);
    Entity(typeName, TableAttributes(QualifiedName(namespace, name), name))
  }

  /** `create_process(name, inputs, outputs)`: a `TRANSFORM` process that
      reads exactly `inputs` and writes exactly `outputs`. */
  function CreateProcess(namespace: string, name: string, inputs: seq<ObjectRef>, outputs: seq<ObjectRef>): (p: Entity)
    ensures IsProcess(p)
    ensures p.attributes.name == name
    ensures p.attributes.qualifiedName == namespace + "." + name
    ensures StripNamespace(namespace, p.attributes.qualifiedName) == Some(name)
    ensures p.attributes.inputs == inputs && p.attributes.outputs == outputs
    ensures p.attributes.operationType == "TRANSFORM"
  {
    StripQualifiedName(namespace, name);
    Entity("Process", ProcessAttributes(QualifiedName(namespace, name), name, inputs, outputs, "TRANSFORM"))
  }

  /** How an f-string renders a `transformation_id` value: `None` prints as
      `"None"`. */
  function TidText(t: TransformationId): string {
    match t
    case NoneId => "None"
    case Id(s) => s
  }

  /** `data.get('transformation_id', 'transformation')` as the f-string
      renders it: the default applies only when the key is missing, and a
      `None` value prints as `"None"`. */
  function ProcessTid(d: EdgeData): (t: string)
    ensures d.transformationId == None ==> t == "transformation"
    ensures d.transformationId == Some(NoneId) ==> t == "None"
    ensures forall s :: d.transformationId == Some(Id(s)) ==> t == s
  {
    TidText(d.transformationId.GetOr(Id(DefaultTransformation)))
  }

  /** `f"{source}_to_{target}_{transformation_id}"`: the source, `_to_`, the
      target, `_`, and the id text, which is `transformation` for an edge
      without a `transformation_id` key and `None` for a stored `None`. */
  function ProcessName(e: Edge): (n: string)
    ensures |n| == |e.source| + 4 + |e.target| + 1 + |ProcessTid(e.data)|
    ensures n[..|e.source|] == e.source
    ensures n[|e.source|..|e.source| + 4] == "_to_"
    ensures n[|e.source| + 4..|e.source| + 4 + |e.target|] == e.target
    ensures e.data.transformationId == None ==> n == e.source + "_to_" + e.target + "_transformation"
    ensures e.data.transformationId == Some(NoneId) ==> n == e.source + "_to_" + e.target + "_None"
    ensures forall s :: e.data.transformationId == Some(Id(s)) ==> n == e.source + "_to_" + e.target + "_" + s
  {
    var n := e.source + "_to_" + e.target + "_" + ProcessTid(e.data);
    assert n[..|e.source|] == e.source;
    assert n[|e.source|..|e.source| + 4] == "_to_";
    assert n[|e.source| + 4..|e.source| + 4 + |e.target|] == e.target;
    n
  }

  function ProcessFor(namespace: string, e: Edge): Entity {
    CreateProcess(namespace, ProcessName(e),
                  [ObjectRef(QualifiedName(namespace, e.source))],
                  [ObjectRef(QualifiedName(namespace, e.target))])
  }

  /** The first loop: one `Table` entity per node, in node order. */
  function Tables(namespace: string, ns: seq<Node>): (ts: seq<Entity>)
    ensures |ts| == |ns|
  {
    seq(|ns|, i requires 0 <= i < |ns| => CreateEntity(namespace, ns[i]))
  }

  /** The second loop: one `Process` entity per edge, in edge order. */
  function Processes(namespace: string, es: seq<Edge>): (ps: seq<Entity>)
    ensures |ps| == |es|
  {
    seq(|es|, j requires 0 <= j < |es| => ProcessFor(namespace, es[j]))
  }

  predicate IsTable(e: Entity) {
    e.typeName == "Table" && e.attributes.TableAttributes?
  }

  predicate IsProcess(e: Entity) {
    e.typeName == "Process" && e.attributes.ProcessAttributes?
  }

  /** `graph_to_atlas(graph, namespace)`: entry `i < |nodes|` is the `Table`
      of the `i`-th node; entry `|nodes| + j` is the `Process` of the `j`-th
      edge, named from its endpoints and transformation id (default
      `"transformation"`), reading exactly the source table and writing
      exactly the target table. */
  function GraphToAtlas(g: Graph, namespace: string): (doc: AtlasDoc)
    requires WF(g)
    ensures |doc.entities| == |g.nodes| + |Edges(g)|
    ensures doc.relationships == []
    ensures forall i :: 0 <= i < |g.nodes| ==>
      && IsTable(doc.entities[i])
      && doc.entities[i].attributes.name == g.nodes[i]
      && doc.entities[i].attributes.qualifiedName == namespace + "." + g.nodes[i]
    ensures forall j :: 0 <= j < |Edges(g)| ==>
      var e := Edges(g)[j];
      var p := doc.entities[|g.nodes| + j];
      && IsProcess(p)
      && p.attributes.name == e.source + "_to_" + e.target + "_" + ProcessTid(e.data)
      && p.attributes.qualifiedName == namespace + "." + p.attributes.name
      && p.attributes.inputs == [ObjectRef(namespace + "." + e.source)]
      && p.attributes.outputs == [ObjectRef(namespace + "." + e.target)]
      && p.attributes.operationType == "TRANSFORM"
  {
    AtlasDoc(Tables(namespace, g.nodes) + Processes(namespace, Edges(g)), [])
  }

  /** Some `Table` entity of `doc` has this `qualifiedName`. */
  ghost predicate HasTable(doc: AtlasDoc, qualifiedName: string) {
    exists i :: 0 <= i < |doc.entities| && IsTable(doc.entities[i])
      && doc.entities[i].attributes.qualifiedName == qualifiedName
  }

  /** Referential integrity: every input and output of every process names a
      `Table` entity of the same document, because edge endpoints are nodes. */
  lemma ReferentialIntegrity(g: Graph, namespace: string)
    requires WF(g)
    ensures var doc := GraphToAtlas(g, namespace);
      forall k, r ::
        (&& 0 <= k < |doc.entities|
         && IsProcess(doc.entities[k])
         && (r in doc.entities[k].attributes.inputs || r in doc.entities[k].attributes.outputs))
        ==> HasTable(doc, r.qualifiedName)
  {
    var doc := GraphToAtlas(g, namespace);
    var es := Edges(g);
    forall k, r | 0 <= k < |doc.entities| && IsProcess(doc.entities[k]) &&
        (r in doc.entities[k].attributes.inputs || r in doc.entities[k].attributes.outputs)
      ensures HasTable(doc, r.qualifiedName)
    {
      var j := k - |g.nodes|;
      var e := es[j];
      assert e in es;
      var n := if r in doc.entities[k].attributes.inputs then e.source else e.target;
      assert n in g.nodes;
      var i :| 0 <= i < |g.nodes| && g.nodes[i] == n;
      assert IsTable(doc.entities[i]) && doc.entities[i].attributes.qualifiedName == r.qualifiedName;
    }
  }

  /** Qualified names in one namespace are distinct for distinct names. */
  lemma QualifiedNameInjective(namespace: string, a: string, b: string)
    requires QualifiedName(namespace, a) == QualifiedName(namespace, b)
    ensures a == b
  {
    var p := namespace + ".";
    assert QualifiedName(namespace, a) == p + a;
    assert QualifiedName(namespace, b) == p + b;
    assert a == (p + a)[|p|..];
    assert b == (p + b)[|p|..];
  }

  /** No two `Table` entities share a `qualifiedName`, so Atlas sees one
      table per node. */
  lemma TableQualifiedNamesDistinct(g: Graph, namespace: string, i: nat, j: nat)
    requires WF(g) && i < j < |g.nodes|
    ensures GraphToAtlas(g, namespace).entities[i].attributes.qualifiedName
         != GraphToAtlas(g, namespace).entities[j].attributes.qualifiedName
  {
    if QualifiedName(namespace, g.nodes[i]) == QualifiedName(namespace, g.nodes[j]) {
      QualifiedNameInjective(namespace, g.nodes[i], g.nodes[j]);
    }
  }

  /** The name left after removing the `namespace.` prefix, if present. */
  function StripNamespace(namespace: string, qualifiedName: string): Option<string> {
    var p := namespace + ".";
    if p <= qualifiedName then Some(qualifiedName[|p|..]) else None
  }

  lemma StripQualifiedName(namespace: string, name: string)
    ensures StripNamespace(namespace, QualifiedName(namespace, name)) == Some(name)
  {
    var p := namespace + ".";
    assert QualifiedName(namespace, name) == p + name;
    assert (p + name)[|p|..] == name;
  }

  /** The table names a reader recovers from the `Table` entities. */
  function TableNames(entities: seq<Entity>): seq<string> {
    if entities == [] then []
    else (if IsTable(entities[0]) then [entities[0].attributes.name] else []) + TableNames(entities[1..])
  }

  /** The (source, target) pairs a reader recovers from the processes'
      single input and output, with the namespace stripped. */
  function ProcessPairs(namespace: string, entities: seq<Entity>): seq<(Option<string>, Option<string>)> {
    if entities == [] then []
    else
      var e := entities[0];
      var rest := ProcessPairs(namespace, entities[1..]);
      if IsProcess(e) && |e.attributes.inputs| == 1 && |e.attributes.outputs| == 1 then
        [(StripNamespace(namespace, e.attributes.inputs[0].qualifiedName),
          StripNamespace(namespace, e.attributes.outputs[0].qualifiedName))] + rest
      else rest
  }

  lemma {:induction false} TableNamesOfTables(namespace: string, ns: seq<Node>, ps: seq<Entity>)
    requires forall k :: 0 <= k < |ps| ==> IsProcess(ps[k])
    ensures TableNames(Tables(namespace, ns) + ps) == ns
    decreases |ns|
  {
    var ts := Tables(namespace, ns);
    if ns == [] {
      assert ts + ps == ps;
      NoTableNames(ps);
    } else {
      assert (ts + ps)[0] == ts[0];
      assert (ts + ps)[1..] == Tables(namespace, ns[1..]) + ps;
      TableNamesOfTables(namespace, ns[1..], ps);
      assert ns == [ns[0]] + ns[1..];
    }
  }

  lemma {:induction false} NoTableNames(ps: seq<Entity>)
    requires forall k :: 0 <= k < |ps| ==> IsProcess(ps[k])
    ensures TableNames(ps) == []
    decreases |ps|
  {
    if ps != [] {
      NoTableNames(ps[1..]);
    }
  }

  /** The (source, target) pairs of an edge list, as a reader recovers them. */
  function EndpointPairs(es: seq<Edge>): seq<(Option<string>, Option<string>)> {
    seq(|es|, j requires 0 <= j < |es| => (Some(es[j].source), Some(es[j].target)))
  }

  lemma {:induction false} PairsOfProcesses(namespace: string, es: seq<Edge>)
    ensures ProcessPairs(namespace, Processes(namespace, es)) == EndpointPairs(es)
    decreases |es|
  {
    var ps := Processes(namespace, es);
    if es != [] {
      assert ps[1..] == Processes(namespace, es[1..]);
      assert EndpointPairs(es)[1..] == EndpointPairs(es[1..]);
      PairsOfProcesses(namespace, es[1..]);
      StripQualifiedName(namespace, es[0].source);
      StripQualifiedName(namespace, es[0].target);
    }
  }

  lemma {:induction false} PairsSkipTables(namespace: string, ts: seq<Entity>, ps: seq<Entity>)
    requires forall k :: 0 <= k < |ts| ==> IsTable(ts[k])
    ensures ProcessPairs(namespace, ts + ps) == ProcessPairs(namespace, ps)
    decreases |ts|
  {
    if ts == [] {
      assert ts + ps == ps;
    } else {
      var all := ts + ps;
      assert all[0] == ts[0];
      assert !IsProcess(all[0]);
      assert all[1..] == ts[1..] + ps;
      assert ProcessPairs(namespace, all) == ProcessPairs(namespace, all[1..]);
      PairsSkipTables(namespace, ts[1..], ps);
    }
  }

  /** Round trip: a reader of the document recovers the graph's node list
      from the `Table` names, and its edge list, as (source, target) pairs in
      order, from the processes' inputs and outputs. */
  lemma {:induction false} AtlasRecoversGraph(g: Graph, namespace: string)
    requires WF(g)
    ensures TableNames(GraphToAtlas(g, namespace).entities) == g.nodes
    ensures ProcessPairs(namespace, GraphToAtlas(g, namespace).entities) == EndpointPairs(Edges(g))
  {
    var tables := Tables(namespace, g.nodes);
    var processes := Processes(namespace, Edges(g));
    TableNamesOfTables(namespace, g.nodes, processes);
    PairsSkipTables(namespace, tables, processes);
    PairsOfProcesses(namespace, Edges(g));
  }

  /** Process names are not unique: two different edges whose table names
      contain `_to_` can produce the same name, and so the same
      `qualifiedName`, which Atlas treats as one entity. */
  lemma ProcessNamesCanCollide()
    ensures var e1 := Edge("a", "b_to_c", EdgeData(Some(Id("t"))));
      var e2 := Edge("a_to_b", "c", EdgeData(Some(Id("t"))));
      e1 != e2 && ProcessName(e1) == ProcessName(e2)
  {
    assert "a" + "_to_" + "b_to_c" + "_" + "t" == "a_to_b_to_c_t";
    assert "a_to_b" + "_to_" + "c" + "_" + "t" == "a_to_b_to_c_t";
  }
}
