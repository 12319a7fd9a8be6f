/** `nx.ancestors(graph, t)`: the nodes with a directed path to `t`, found by
    a breadth-first search over predecessors from `t`. */
module Reachability {
  import opened DiGraph

  function NodeSet(g: Graph): set<Node> {
    set n | n in g.nodes
  }

  /** Termination measure of the search: unvisited nodes count twice, queued
      nodes once. */
  function Pending(universe: set<Node>, visited: set<Node>, work: seq<Node>): nat {
    2 * |universe - visited| + |work|
  }

  /** What the search keeps true: it has visited only nodes that reach `t`,
      queued only visited nodes, and every visited node no longer queued has
      had all its predecessors visited. */
  ghost predicate SearchInvariant(g: Graph, t: Node, visited: set<Node>, work: seq<Node>) {
    && visited <= NodeSet(g)
    && t in visited
    && (forall w :: w in work ==> w in visited)
    && (forall u :: u in visited ==> Reaches(g, u, t))
    && (forall a, b :: b in visited && b !in work && HasEdge(g, a, b) ==> a in visited)
  }

  /** The strict ancestors of `t`: every node other than `t` that reaches it.
      The search keeps a visited set, so it stops on graphs with cycles, and
      `t` is never reported even when it lies on a cycle. */
  method Ancestors(g: Graph, t: Node) returns (anc: set<Node>)
    requires WF(g) && t in g.nodes
    ensures forall u :: u in anc <==> u != t && Reaches(g, u, t)
  {
    var visited := {t};
    var work := [t];
    ReachesSelf(g, t);
    while work != []
      invariant SearchInvariant(g, t, visited, work)
      decreases Pending(NodeSet(g), visited, work)
    {
      visited, work := SearchStep(g, t, visited, work);
    }
    anc := visited - {t};
    forall u | Reaches(g, u, t)
      ensures u in visited
    {
      ClosedHoldsReaching(g, t, visited, u);
    }
  }

  /** Takes the first queued node and visits its predecessors. */
  method SearchStep(g: Graph, t: Node, visited: set<Node>, work: seq<Node>)
    returns (visited': set<Node>, work': seq<Node>)
    requires WF(g) && work != []
    requires SearchInvariant(g, t, visited, work)
    ensures SearchInvariant(g, t, visited', work')
    ensures Pending(NodeSet(g), visited', work') < Pending(NodeSet(g), visited, work)
  {
    var v := work[0];
    var rest := work[1..];
    var preds := Predecessors(g, v);
    forall u | u in preds
      ensures u in NodeSet(g) && Reaches(g, u, t)
    {
      ReachesStep(g, u, v, t);
    }
    visited', work' := VisitAll(NodeSet(g), preds, visited, rest);
    forall w | w in work'
      ensures w in visited'
    {
      if w !in visited' - visited {
        assert w in rest;
      }
    }
    forall a, b | b in visited' && b !in work' && HasEdge(g, a, b)
      ensures a in visited'
    {
      if b == v {
        assert a in preds;
      } else {
        assert b in work ==> b in rest;
      }
    }
  }

  /** Marks and queues, in order, every node of `preds` not yet visited, and
      nothing else. */
  method VisitAll(ghost universe: set<Node>, preds: seq<Node>, visited: set<Node>, work: seq<Node>)
    returns (visited': set<Node>, work': seq<Node>)
    requires visited <= universe
    requires forall u :: u in preds ==> u in universe
    ensures visited <= visited' <= universe
    ensures forall u :: u in preds ==> u in visited'
    ensures forall u :: u in visited' ==> u in visited || u in preds
    ensures work <= work'
    ensures forall w :: w in work' ==> w in work || w in visited' - visited
    ensures forall w :: w in visited' - visited ==> w in work'
    ensures Pending(universe, visited', work') <= Pending(universe, visited, work)
  {
    visited', work' := visited, work;
    var i := 0;
    while i < |preds|
      invariant 0 <= i <= |preds|
      invariant visited <= visited' <= universe
      invariant forall k :: 0 <= k < i ==> preds[k] in visited'
      invariant forall u :: u in visited' ==> u in visited || u in preds[..i]
      invariant work <= work'
      invariant forall w :: w in work' ==> w in work || w in visited' - visited
      invariant forall w :: w in visited' - visited ==> w in work'
      invariant Pending(universe, visited', work') <= Pending(universe, visited, work)
    {
      var u := preds[i];
      assert preds[..i + 1] == preds[..i] + [u];
      if u !in visited' {
        assert universe - visited' == (universe - (visited' + {u})) + {u};
        visited' := visited' + {u};
        work' := work' + [u];
      }
      i := i + 1;
    }
    assert preds[..i] == preds;
  }
}
