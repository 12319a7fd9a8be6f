/** The simple directed graph that `build_graph` builds (a NetworkX `DiGraph`):
    nodes in insertion order, for every node its successors in insertion
    order, and one attribute record per ordered node pair. */
module DiGraph {
  import opened Wrappers

  type Node = string

  /** A `transformation_id` value as Python holds it: a string, or `None`
      when the metadata cell was empty. */
  datatype TransformationId = NoneId | Id(name: string)

  /** The attributes of one edge. `build_graph` always stores a
      `transformation_id` key (`Some`); a graph from elsewhere may lack it
      (`None`). */
  datatype EdgeData = EdgeData(transformationId: Option<TransformationId>)

  datatype Graph = Graph(
    nodes: seq<Node>,
    succ: map<Node, seq<Node>>,
    attrs: map<(Node, Node), EdgeData>)

  /** One entry of `graph.edges(data=True)`. */
  datatype Edge = Edge(source: Node, target: Node, data: EdgeData)

  predicate NoDup<T(==)>(s: seq<T>) {
    forall i, j :: 0 <= i < j < |s| ==> s[i] != s[j]
  }

  predicate HasEdge(g: Graph, u: Node, v: Node) {
    u in g.succ && v in g.succ[u]
  }

  /** What a `DiGraph` always satisfies: nodes appear once, every node has a
      successor list and only nodes are successors, successor lists have no
      repeats (no parallel edges), and there is an attribute record for
      exactly the edges. */
  ghost predicate WF(g: Graph) {
    && NoDup(g.nodes)
    && (forall n :: n in g.succ <==> n in g.nodes)
    && (forall u :: u in g.succ ==> NoDup(g.succ[u]) && forall v :: v in g.succ[u] ==> v in g.nodes)
    && (forall u, v :: (u, v) in g.attrs <==> HasEdge(g, u, v))
  }

  /** `nx.DiGraph()`. */
  function EmptyGraph(): (g: Graph)
    ensures WF(g)
    ensures g.nodes == []
    ensures forall u, v :: !HasEdge(g, u, v)
  {
    Graph([], map[], map[])
  }

  /** The elements of `s` that satisfy `keep`, in their original order. */
  function Filter(s: seq<Node>, keep: Node -> bool): (r: seq<Node>)
    ensures forall x :: x in r <==> x in s && keep(x)
    ensures NoDup(s) ==> NoDup(r)
  {
    if s == [] then []
    else
      var rest := Filter(s[1..], keep);
      assert NoDup(s) ==> s[0] !in s[1..];
      if keep(s[0]) then [s[0]] + rest else rest
  }

  /** Adds `n` with no edges unless it is already a node. */
  function AddNode(g: Graph, n: Node): (h: Graph)
    requires WF(g)
    ensures WF(h)
    ensures h.nodes == if n in g.nodes then g.nodes else g.nodes + [n]
    ensures forall u, v :: HasEdge(h, u, v) <==> HasEdge(g, u, v)
    ensures h.attrs == g.attrs
    ensures forall x :: x in g.succ ==> x in h.succ && h.succ[x] == g.succ[x]
    ensures n !in g.succ ==> h.succ[n] == []
  {
    if n in g.succ then g else Graph(g.nodes + [n], g.succ[n := []], g.attrs)
  }

  /** `graph.add_edge(u, v, transformation_id=tid)`: adds `u`, then `v`, as
      nodes when they are new, adds the edge when it is new, and in every
      case overwrites the edge's `transformation_id`. */
  function AddEdge(g: Graph, u: Node, v: Node, tid: TransformationId): (h: Graph)
    requires WF(g)
    ensures WF(h)
    ensures g.nodes <= h.nodes
    ensures forall n :: n in h.nodes <==> n in g.nodes || n == u || n == v
    ensures forall a, b :: HasEdge(h, a, b) <==> HasEdge(g, a, b) || (a == u && b == v)
    ensures h.attrs == g.attrs[(u, v) := EdgeData(Some(tid))]
    ensures h.nodes == g.nodes + (if u in g.nodes then [] else [u])
                               + (if v in g.nodes || v == u then [] else [v])
    ensures h.succ[u] == if u in g.succ then (if v in g.succ[u] then g.succ[u] else g.succ[u] + [v]) else [v]
    ensures forall x :: x in g.succ && x != u ==> h.succ[x] == g.succ[x]
  {
    var g1 := AddNode(AddNode(g, u), v);
    var out := g1.succ[u];
    var h := Graph(g1.nodes,
                   g1.succ[u := if v in out then out else out + [v]],
                   g1.attrs[(u, v) := EdgeData(Some(tid))]);
    AddEdgeKeepsWF(g1, u, v, h);
    AddNodesOrder(g, u, v);
    AddEdgeOrder(g, g1, u, v, h);
    h
  }

  /** The orders `AddEdge` leaves: new endpoints after the old nodes, `u`
      before `v`, and a new `v` at the end of `u`'s successors. Here `g1` is
      `g` with `u` and `v` added as nodes. */
  lemma AddEdgeOrder(g: Graph, g1: Graph, u: Node, v: Node, h: Graph)
    requires g1.nodes == g.nodes + (if u in g.nodes then [] else [u])
                                 + (if v in g.nodes || v == u then [] else [v])
    requires u in g1.succ && g1.succ[u] == (if u in g.succ then g.succ[u] else [])
    requires forall x :: x in g.succ ==> x in g1.succ && g1.succ[x] == g.succ[x]
    requires h.nodes == g1.nodes
    requires h.succ == g1.succ[u := if v in g1.succ[u] then g1.succ[u] else g1.succ[u] + [v]]
    ensures h.nodes == g.nodes + (if u in g.nodes then [] else [u])
                               + (if v in g.nodes || v == u then [] else [v])
    ensures g.nodes <= h.nodes
    ensures forall n :: n in h.nodes <==> n in g.nodes || n == u || n == v
    ensures h.succ[u] == if u in g.succ then (if v in g.succ[u] then g.succ[u] else g.succ[u] + [v]) else [v]
    ensures forall x :: x in g.succ && x != u ==> h.succ[x] == g.succ[x]
  {
    assert [] + [v] == [v];
  }

  /** Adding `u` and then `v` appends the new ones in that order, gives a
      new node no successors, and keeps every other successor list. */
  lemma AddNodesOrder(g: Graph, u: Node, v: Node)
    requires WF(g)
    ensures var g1 := AddNode(AddNode(g, u), v);
      && g1.nodes == g.nodes + (if u in g.nodes then [] else [u])
                             + (if v in g.nodes || v == u then [] else [v])
      && u in g1.succ && g1.succ[u] == (if u in g.succ then g.succ[u] else [])
      && forall x :: x in g.succ ==> x in g1.succ && g1.succ[x] == g.succ[x]
  {
    var g0 := AddNode(g, u);
    assert v in g0.nodes <==> v in g.nodes || v == u;
  }

  lemma AddEdgeKeepsWF(g1: Graph, u: Node, v: Node, h: Graph)
    requires WF(g1) && u in g1.nodes && v in g1.nodes
    requires h.nodes == g1.nodes
    requires h.succ == g1.succ[u := if v in g1.succ[u] then g1.succ[u] else g1.succ[u] + [v]]
    requires h.attrs.Keys == g1.attrs.Keys + {(u, v)}
    ensures WF(h)
    ensures forall a, b :: HasEdge(h, a, b) <==> HasEdge(g1, a, b) || (a == u && b == v)
  {
    var out := g1.succ[u];
    var out' := h.succ[u];
    assert NoDup(out') by {
      if v !in out {
        forall i, j | 0 <= i < j < |out'| ensures out'[i] != out'[j] {
          if j == |out| {
            assert out'[i] in out;
          }
        }
      }
    }
    forall a, b ensures HasEdge(h, a, b) <==> HasEdge(g1, a, b) || (a == u && b == v) {
      if a == u {
        assert b in out' <==> b in out || b == v;
      }
    }
  }

  /** The nodes with an edge into `v`. */
  function Predecessors(g: Graph, v: Node): (ps: seq<Node>)
    requires WF(g)
    ensures forall u :: u in ps <==> HasEdge(g, u, v)
  {
    Filter(g.nodes, (u: Node) => HasEdge(g, u, v))
  }

  /** The edges leaving `u`, in successor order. */
  function OutEdges(g: Graph, u: Node): (es: seq<Edge>)
    requires WF(g) && u in g.succ
    ensures |es| == |g.succ[u]|
    ensures forall i :: 0 <= i < |es| ==>
      es[i].source == u && es[i].target == g.succ[u][i] && es[i].data == g.attrs[(u, g.succ[u][i])]
  {
    seq(|g.succ[u]|, i requires 0 <= i < |g.succ[u]| =>
      Edge(u, g.succ[u][i], g.attrs[(u, g.succ[u][i])]))
  }

  /** No ordered node pair occurs twice in `es`. */
  predicate DistinctPairs(es: seq<Edge>) {
    forall i, j :: 0 <= i < j < |es| ==> es[i].source != es[j].source || es[i].target != es[j].target
  }

  /** The edges leaving the nodes of `ns`, node by node. */
  function EdgesFrom(g: Graph, ns: seq<Node>): (es: seq<Edge>)
    requires WF(g)
    requires forall n :: n in ns ==> n in g.nodes
    ensures forall e :: e in es <==>
      e.source in ns && HasEdge(g, e.source, e.target) && e.data == g.attrs[(e.source, e.target)]
    ensures NoDup(ns) ==> DistinctPairs(es)
  {
    if ns == [] then []
    else
      var out := OutEdges(g, ns[0]);
      var rest := EdgesFrom(g, ns[1..]);
      assert forall e :: e in out <==>
        e.source == ns[0] && HasEdge(g, e.source, e.target) && e.data == g.attrs[(e.source, e.target)]
      by {
        forall e: Edge | e.source == ns[0] && HasEdge(g, e.source, e.target) && e.data == g.attrs[(e.source, e.target)]
          ensures e in out
        {
          var k :| 0 <= k < |g.succ[ns[0]]| && g.succ[ns[0]][k] == e.target;
          assert out[k] == e;
        }
      }
      assert NoDup(ns) ==> DistinctPairs(out + rest) by {
        if NoDup(ns) {
          assert ns[0] !in ns[1..];
          DistinctPairsAppend(g, ns[0], out, rest);
        }
      }
      out + rest
  }

  lemma DistinctPairsAppend(g: Graph, u: Node, out: seq<Edge>, rest: seq<Edge>)
    requires WF(g) && u in g.succ
    requires out == OutEdges(g, u)
    requires DistinctPairs(rest)
    requires forall e :: e in rest ==> e.source != u
    ensures DistinctPairs(out + rest)
  {
    forall i, j | 0 <= i < j < |out + rest|
      ensures (out + rest)[i].source != (out + rest)[j].source
           || (out + rest)[i].target != (out + rest)[j].target
    {
      if j < |out| {
        assert NoDup(g.succ[u]);
      } else if i >= |out| {
        assert (out + rest)[i] == rest[i - |out|];
        assert (out + rest)[j] == rest[j - |out|];
      } else {
        assert (out + rest)[j] in rest;
      }
    }
  }

  /** `graph.edges(data=True)`: every edge exactly once, with its attributes,
      grouped by source in node order (see `EdgesInOrder`). */
  function Edges(g: Graph): (es: seq<Edge>)
    requires WF(g)
    ensures forall e :: e in es <==> HasEdge(g, e.source, e.target) && e.data == g.attrs[(e.source, e.target)]
    ensures DistinctPairs(es)
  {
    EdgesFrom(g, g.nodes)
  }

  /** The position of `x` in `s`. */
  function IndexOf(s: seq<Node>, x: Node): (k: nat)
    requires x in s
    ensures k < |s| && s[k] == x
    ensures forall i :: 0 <= i < k ==> s[i] != x
  {
    if s[0] == x then 0 else 1 + IndexOf(s[1..], x)
  }

  lemma IndexOfNoDup(s: seq<Node>, k: nat)
    requires NoDup(s) && k < |s|
    ensures IndexOf(s, s[k]) == k
  {
  }

  /** Edge `a` is listed before edge `b`: both are edges of `g` leaving
      nodes of `ns`, and `a`'s source comes earlier in `ns`, or both leave the
      same node and `a`'s target was added to that node's successors first. */
  predicate ListedBefore(g: Graph, ns: seq<Node>, a: Edge, b: Edge) {
    && a.source in ns && b.source in ns
    && HasEdge(g, a.source, a.target) && HasEdge(g, b.source, b.target)
    && (|| IndexOf(ns, a.source) < IndexOf(ns, b.source)
        || (a.source == b.source && IndexOf(g.succ[a.source], a.target) < IndexOf(g.succ[a.source], b.target)))
  }

  /** Every edge of `es` is listed before every later one. */
  predicate InOrder(g: Graph, ns: seq<Node>, es: seq<Edge>) {
    forall i, j :: 0 <= i < j < |es| ==> ListedBefore(g, ns, es[i], es[j])
  }

  lemma {:induction false} EdgesFromInOrder(g: Graph, ns: seq<Node>)
    requires WF(g) && NoDup(ns)
    requires forall n :: n in ns ==> n in g.nodes
    ensures InOrder(g, ns, EdgesFrom(g, ns))
    decreases |ns|
  {
    if ns != [] {
      var out := OutEdges(g, ns[0]);
      var rest := EdgesFrom(g, ns[1..]);
      assert EdgesFrom(g, ns) == out + rest;
      EdgesFromInOrder(g, ns[1..]);
      forall i, j | 0 <= i < j < |out + rest|
        ensures ListedBefore(g, ns, (out + rest)[i], (out + rest)[j])
      {
        AppendInOrder(g, ns, out, rest, i, j);
      }
    }
  }

  /** The edges of the first node, followed by those of the later nodes in
      their own order, are in order. */
  lemma AppendInOrder(g: Graph, ns: seq<Node>, out: seq<Edge>, rest: seq<Edge>, i: nat, j: nat)
    requires WF(g) && NoDup(ns) && ns != [] && ns[0] in g.nodes
    requires out == OutEdges(g, ns[0])
    requires forall e :: e in rest ==> e.source in ns[1..] && HasEdge(g, e.source, e.target)
    requires InOrder(g, ns[1..], rest)
    requires i < j < |out + rest|
    ensures ListedBefore(g, ns, (out + rest)[i], (out + rest)[j])
  {
    var es := out + rest;
    assert ns[0] !in ns[1..];
    if j < |out| {
      assert es[i] == out[i] && es[j] == out[j];
      SameSourceInOrder(g, ns, i, j);
    } else if i < |out| {
      assert es[i] == out[i] && es[j] == rest[j - |out|];
      assert es[j] in rest;
      assert IndexOf(ns, es[j].source) != 0;
    } else {
      var i', j' := i - |out|, j - |out|;
      assert es[i] == rest[i'] && es[j] == rest[j'];
      assert ListedBefore(g, ns[1..], rest[i'], rest[j']);
      ListedBeforeTail(g, ns, es[i], es[j]);
    }
  }

  /** Two edges leaving the first node are listed in successor order. */
  lemma SameSourceInOrder(g: Graph, ns: seq<Node>, i: nat, j: nat)
    requires WF(g) && ns != [] && ns[0] in g.nodes
    requires i < j < |g.succ[ns[0]]|
    ensures var out := OutEdges(g, ns[0]); ListedBefore(g, ns, out[i], out[j])
  {
    IndexOfNoDup(g.succ[ns[0]], i);
    IndexOfNoDup(g.succ[ns[0]], j);
  }

  /** Order among edges that leave later nodes carries over from `ns[1..]`. */
  lemma ListedBeforeTail(g: Graph, ns: seq<Node>, a: Edge, b: Edge)
    requires ns != []
    requires a.source != ns[0] && b.source != ns[0]
    requires ListedBefore(g, ns[1..], a, b)
    ensures ListedBefore(g, ns, a, b)
  {
    assert IndexOf(ns, a.source) == 1 + IndexOf(ns[1..], a.source);
    assert IndexOf(ns, b.source) == 1 + IndexOf(ns[1..], b.source);
  }

  /** `graph.edges()` order: by source in node order, then by target in the
      order the edges were added. */
  lemma EdgesInOrder(g: Graph)
    requires WF(g)
    ensures InOrder(g, g.nodes, Edges(g))
  {
    assert Edges(g) == EdgesFrom(g, g.nodes);
    EdgesFromInOrder(g, g.nodes);
  }

  /** `graph.subgraph(keep).copy()`: the nodes of `g` in `keep`, and every
      edge of `g` between two of them with its attributes unchanged. */
  function InducedSubgraph(g: Graph, keep: set<Node>): (h: Graph)
    requires WF(g)
    ensures WF(h)
    ensures forall n :: n in h.nodes <==> n in g.nodes && n in keep
    ensures forall u, v :: HasEdge(h, u, v) <==> HasEdge(g, u, v) && u in keep && v in keep
    ensures forall e :: e in h.attrs ==> e in g.attrs && h.attrs[e] == g.attrs[e]
  {
    var ns := Filter(g.nodes, (n: Node) => n in keep);
    var h := Graph(ns,
                   map n | n in ns :: Filter(g.succ[n], (m: Node) => m in keep),
                   map e | e in g.attrs && e.0 in keep && e.1 in keep :: g.attrs[e]);
    InducedEdges(g, keep, h);
    h
  }

  lemma InducedEdges(g: Graph, keep: set<Node>, h: Graph)
    requires WF(g)
    requires h.nodes == Filter(g.nodes, (n: Node) => n in keep)
    requires h.succ == map n | n in h.nodes :: Filter(g.succ[n], (m: Node) => m in keep)
    requires h.attrs == map e | e in g.attrs && e.0 in keep && e.1 in keep :: g.attrs[e]
    ensures WF(h)
    ensures forall u, v :: HasEdge(h, u, v) <==> HasEdge(g, u, v) && u in keep && v in keep
  {
    forall u, v ensures HasEdge(h, u, v) <==> HasEdge(g, u, v) && u in keep && v in keep {
      if u in h.succ {
        assert h.succ[u] == Filter(g.succ[u], (m: Node) => m in keep);
      }
    }
    forall u | u in h.succ ensures NoDup(h.succ[u]) && forall v :: v in h.succ[u] ==> v in h.nodes {
      assert h.succ[u] == Filter(g.succ[u], (m: Node) => m in keep);
    }
    forall u, v ensures (u, v) in h.attrs <==> HasEdge(h, u, v) {
      assert (u, v) in h.attrs <==> (u, v) in g.attrs && u in keep && v in keep;
    }
  }

  /** `p` is a walk of `g`: a non-empty node sequence whose neighbours are
      joined by edges. */
  ghost predicate IsPath(g: Graph, p: seq<Node>) {
    && |p| > 0
    && (forall i :: 0 <= i < |p| ==> p[i] in g.nodes)
    && (forall i :: 0 <= i < |p| - 1 ==> HasEdge(g, p[i], p[i + 1]))
  }

  /** There is a directed path (possibly without edges) from `u` to `v`. */
  ghost predicate Reaches(g: Graph, u: Node, v: Node) {
    exists p :: IsPath(g, p) && p[0] == u && p[|p| - 1] == v
  }

  lemma ReachesSelf(g: Graph, v: Node)
    requires v in g.nodes
    ensures Reaches(g, v, v)
  {
    assert IsPath(g, [v]);
  }

  /** An edge into a node that reaches `t` extends to a path to `t`. */
  lemma ReachesStep(g: Graph, u: Node, v: Node, t: Node)
    requires WF(g)
    requires HasEdge(g, u, v) && Reaches(g, v, t)
    ensures Reaches(g, u, t)
  {
    var p :| IsPath(g, p) && p[0] == v && p[|p| - 1] == t;
    var q := [u] + p;
    assert forall i :: 1 <= i < |q| ==> q[i] == p[i - 1];
    assert IsPath(g, q);
  }

  /** A node set that holds `t` and every predecessor of its members holds
      every node that reaches `t`. */
  lemma {:induction false} ClosedHoldsReaching(g: Graph, t: Node, s: set<Node>, u: Node)
    requires t in s
    requires forall a, b :: b in s && HasEdge(g, a, b) ==> a in s
    requires Reaches(g, u, t)
    ensures u in s
  {
    var p :| IsPath(g, p) && p[0] == u && p[|p| - 1] == t;
    var i := |p| - 1;
    while i > 0
      invariant 0 <= i < |p|
      invariant p[i] in s
    {
      assert HasEdge(g, p[i - 1], p[i]);
      i := i - 1;
    }
  }
}
