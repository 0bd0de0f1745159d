/**
 Directed graphs on the nodes `0..n-1`, given by their successor and
 predecessor lists, and topological orders of them.

 networkx is not modelled: the caller supplies the lists `G.successors` and
 `G.predecessors` return and the order `nx.topological_sort` returns, and
 the layout checks that order instead of asking networkx whether the graph
 is acyclic.
 */
module Graphs {

  /** `succs[u]` and `preds[v]`, each in the order networkx iterates them. */
  datatype Graph = Graph(succs: seq<seq<nat>>, preds: seq<seq<nat>>) {
    function Size(): nat {
      |succs|
    }
  }

  /** Both adjacency lists describe the same edge set on the nodes `0..Size()-1`. */
  ghost predicate WellFormed(g: Graph) {
    && |g.preds| == |g.succs|
    && (forall u, k :: 0 <= u < |g.succs| && 0 <= k < |g.succs[u]| ==>
          g.succs[u][k] < |g.succs| && u in g.preds[g.succs[u][k]])
    && (forall v, k :: 0 <= v < |g.preds| && 0 <= k < |g.preds[v]| ==>
          g.preds[v][k] < |g.succs| && v in g.succs[g.preds[v][k]])
  }

  /** The position of `v` in `order`, or `|order|` when it does not occur. */
  function Index(order: seq<nat>, v: nat): (k: nat)
    ensures k <= |order|
    ensures k < |order| ==> order[k] == v
    ensures k == |order| <==> v !in order
  {
    if |order| == 0 then 0
    else if order[0] == v then 0
    else 1 + Index(order[1..], v)
  }

  /** No node occurs twice. */
  predicate Distinct(order: seq<nat>) {
    forall i, j :: 0 <= i < j < |order| ==> order[i] != order[j]
  }

  lemma {:induction false} IndexOfDistinct(order: seq<nat>, i: nat)
    requires Distinct(order) && i < |order|
    ensures Index(order, order[i]) == i
  {
    var k := Index(order, order[i]);
    assert order[k] == order[i];
  }

  /** `order` lists every node exactly once, and every edge goes forward in it. */
  predicate IsTopological(g: Graph, order: seq<nat>) {
    && (forall k :: 0 <= k < |order| ==> order[k] < g.Size())
    && (forall v :: 0 <= v < g.Size() ==> v in order)
    && Distinct(order)
    && (forall u, k :: 0 <= u < g.Size() && 0 <= k < |g.succs[u]| ==>
          Index(order, u) < Index(order, g.succs[u][k]))
  }

  /** A predecessor comes earlier in a topological order. */
  lemma PredecessorFirst(g: Graph, order: seq<nat>, v: nat, p: nat)
    requires WellFormed(g) && IsTopological(g, order)
    requires v < g.Size() && p in g.preds[v]
    ensures p < g.Size() && Index(order, p) < Index(order, v)
  {
    var k :| 0 <= k < |g.preds[v]| && g.preds[v][k] == p;
    var j :| 0 <= j < |g.succs[p]| && g.succs[p][j] == v;
  }

  /** A closed walk: every step follows an edge, and it ends where it starts. */
  ghost predicate IsCycle(g: Graph, path: seq<nat>) {
    && |path| >= 2 && path[0] == path[|path| - 1]
    && (forall k :: 0 <= k < |path| - 1 ==> path[k] < g.Size() && path[k + 1] in g.succs[path[k]])
  }

  lemma {:induction false} ForwardAlongPath(g: Graph, order: seq<nat>, path: seq<nat>, k: nat)
    requires IsTopological(g, order)
    requires forall j :: 0 <= j < |path| - 1 ==> path[j] < g.Size() && path[j + 1] in g.succs[path[j]]
    requires 1 <= k < |path|
    ensures Index(order, path[0]) < Index(order, path[k])
  {
    if k > 1 {
      ForwardAlongPath(g, order, path, k - 1);
    }
    var u := path[k - 1];
    assert path[k] in g.succs[u];
    var j :| 0 <= j < |g.succs[u]| && g.succs[u][j] == path[k];
  }

  /** A graph with a cycle has no topological order, so every order offered for it is rejected. */
  lemma CycleHasNoOrder(g: Graph, path: seq<nat>, order: seq<nat>)
    requires IsCycle(g, path)
    ensures !IsTopological(g, order)
  {
    if IsTopological(g, order) {
      ForwardAlongPath(g, order, path, |path| - 1);
    }
  }
}
