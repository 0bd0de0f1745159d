/**
 `netron_style_layout_balanced`: places the nodes of a DAG on a grid, with
 the longest path (the "spine") in the middle column and every other node
 pushed to the left or right of it, one row per depth.

 Node positions are `(x, y)` pairs of integers; the spacings are integers.
 */
module Layout {
  import opened Results
  import opened Graphs

  function Max(a: nat, b: nat): nat {
    if a >= b then a else b
  }

  function Zeros(n: nat): (s: seq<nat>)
    ensures |s| == n && forall k :: 0 <= k < n ==> s[k] == 0
  {
    seq(n, k => 0)
  }

  function Nones(n: nat): (s: seq<Option<nat>>)
    ensures |s| == n && forall k :: 0 <= k < n ==> s[k] == None
  {
    seq(n, k => None)
  }

  /** Every entry of `ps` is a node of a graph with `n` nodes. */
  predicate Nodes(ps: seq<nat>, n: nat) {
    forall k :: 0 <= k < |ps| ==> ps[k] < n
  }

  lemma WellFormedNodes(g: Graph, u: nat)
    requires WellFormed(g) && u < g.Size()
    ensures Nodes(g.succs[u], g.Size()) && Nodes(g.preds[u], g.Size())
  {
  }

  // ---------------------------------------------------------------- step 2: node_depth

  /** `0 if not preds else max(depth[p] + 1 for p in preds)`. */
  function Best(depth: seq<nat>, ps: seq<nat>): nat
    requires Nodes(ps, |depth|)
    decreases |ps|
  {
    if |ps| == 0 then 0 else Max(depth[ps[0]] + 1, Best(depth, ps[1..]))
  }

  /** `Best` is 0 without predecessors, and otherwise the greatest predecessor depth plus one. */
  lemma {:induction false} BestIsMax(depth: seq<nat>, ps: seq<nat>)
    requires Nodes(ps, |depth|)
    ensures |ps| == 0 ==> Best(depth, ps) == 0
    ensures forall k :: 0 <= k < |ps| ==> depth[ps[k]] + 1 <= Best(depth, ps)
    ensures |ps| > 0 ==> exists k :: 0 <= k < |ps| && Best(depth, ps) == depth[ps[k]] + 1
    decreases |ps|
  {
    if |ps| > 0 {
      BestIsMax(depth, ps[1..]);
      forall k | 1 <= k < |ps| ensures depth[ps[k]] + 1 <= Best(depth, ps) {
        assert ps[k] == ps[1..][k - 1];
      }
      if |ps| > 1 && Best(depth, ps) != depth[ps[0]] + 1 {
        var k :| 0 <= k < |ps[1..]| && Best(depth, ps[1..]) == depth[ps[1..][k]] + 1;
        assert Best(depth, ps) == depth[ps[k + 1]] + 1;
      }
    }
  }

  /** `Best` reads only the entries of `ps`. */
  lemma {:induction false} BestFrame(d1: seq<nat>, d2: seq<nat>, ps: seq<nat>)
    requires Nodes(ps, |d1|) && Nodes(ps, |d2|)
    requires forall k :: 0 <= k < |ps| ==> d1[ps[k]] == d2[ps[k]]
    ensures Best(d1, ps) == Best(d2, ps)
    decreases |ps|
  {
    if |ps| > 0 {
      BestFrame(d1, d2, ps[1..]);
    }
  }

  /** The loop of step 2 from position `i` of the order on. */
  function DepthFrom(g: Graph, order: seq<nat>, i: nat, depth: seq<nat>): (r: seq<nat>)
    requires WellFormed(g) && Nodes(order, g.Size()) && |depth| == g.Size() && i <= |order|
    ensures |r| == |depth|
    decreases |order| - i
  {
    if i == |order| then depth
    else
      var u := order[i];
      WellFormedNodes(g, u);
      DepthFrom(g, order, i + 1, depth[u := Best(depth, g.preds[u])])
  }

  /**
   `node_depth`, as a sequence indexed by node.  For a topological order a
   node's depth is 0 when it has no predecessors and otherwise one more
   than its deepest predecessor's.
   */
  function NodeDepth(g: Graph, order: seq<nat>): (depth: seq<nat>)
    requires WellFormed(g) && Nodes(order, g.Size())
    ensures |depth| == g.Size()
    ensures IsTopological(g, order) ==>
      forall v :: 0 <= v < g.Size() ==> Nodes(g.preds[v], g.Size()) && depth[v] == Best(depth, g.preds[v])
  {
    var depth := DepthFrom(g, order, 0, Zeros(g.Size()));
    if IsTopological(g, order) then
      DepthFromSettles(g, order, 0, Zeros(g.Size()));
      SettledEverywhere(g, order, depth);
      depth
    else depth
  }

  /** Every node of `order` before position `i` has its final depth. */
  ghost predicate DepthsSettled(g: Graph, order: seq<nat>, i: nat, depth: seq<nat>)
    requires WellFormed(g) && |depth| == g.Size()
  {
    forall v :: 0 <= v < g.Size() && Index(order, v) < i ==>
      Nodes(g.preds[v], g.Size()) && depth[v] == Best(depth, g.preds[v])
  }

  /** Assigning the depth of `order[i]` leaves the depths of earlier nodes, and what they are computed from, alone. */
  lemma DepthStepAt(g: Graph, order: seq<nat>, i: nat, depth: seq<nat>, v: nat)
    requires WellFormed(g) && IsTopological(g, order) && |depth| == g.Size() && i < |order|
    requires DepthsSettled(g, order, i, depth)
    requires v < g.Size() && Index(order, v) <= i
    ensures var u := order[i];
      var depth' := depth[u := Best(depth, g.preds[u])];
      && Nodes(g.preds[v], g.Size())
      && depth'[v] == Best(depth', g.preds[v])
  {
    var u := order[i];
    WellFormedNodes(g, u);
    WellFormedNodes(g, v);
    var depth' := depth[u := Best(depth, g.preds[u])];
    IndexOfDistinct(order, i);
    forall k | 0 <= k < |g.preds[v]| ensures depth[g.preds[v][k]] == depth'[g.preds[v][k]] {
      PredecessorFirst(g, order, v, g.preds[v][k]);
    }
    BestFrame(depth, depth', g.preds[v]);
    if v != u {
      assert Index(order, v) < i;
      assert depth'[v] == depth[v] == Best(depth, g.preds[v]);
    }
  }

  lemma DepthStep(g: Graph, order: seq<nat>, i: nat, depth: seq<nat>)
    requires WellFormed(g) && IsTopological(g, order) && |depth| == g.Size() && i < |order|
    requires DepthsSettled(g, order, i, depth)
    ensures var u := order[i];
      && Nodes(g.preds[u], g.Size())
      && DepthsSettled(g, order, i + 1, depth[u := Best(depth, g.preds[u])])
  {
    var u := order[i];
    WellFormedNodes(g, u);
    var depth' := depth[u := Best(depth, g.preds[u])];
    forall v | 0 <= v < g.Size() && Index(order, v) < i + 1
      ensures Nodes(g.preds[v], g.Size()) && depth'[v] == Best(depth', g.preds[v])
    {
      DepthStepAt(g, order, i, depth, v);
    }
  }

  lemma {:induction false} DepthFromSettles(g: Graph, order: seq<nat>, i: nat, depth: seq<nat>)
    requires WellFormed(g) && IsTopological(g, order) && |depth| == g.Size() && i <= |order|
    requires DepthsSettled(g, order, i, depth)
    ensures DepthsSettled(g, order, |order|, DepthFrom(g, order, i, depth))
    decreases |order| - i
  {
    if i < |order| {
      var u := order[i];
      DepthStep(g, order, i, depth);
      DepthFromSettles(g, order, i + 1, depth[u := Best(depth, g.preds[u])]);
    }
  }

  /** Once the whole order is processed, every node has its final depth. */
  lemma SettledEverywhere(g: Graph, order: seq<nat>, depth: seq<nat>)
    requires WellFormed(g) && IsTopological(g, order) && |depth| == g.Size()
    requires DepthsSettled(g, order, |order|, depth)
    ensures forall v :: 0 <= v < g.Size() ==> Nodes(g.preds[v], g.Size()) && depth[v] == Best(depth, g.preds[v])
  {
    forall v | 0 <= v < g.Size() ensures Nodes(g.preds[v], g.Size()) && depth[v] == Best(depth, g.preds[v]) {
      assert Index(order, v) < |order|;
    }
  }

  // ---------------------------------------------------------------- step 1: longest paths

  /** The inner loop of step 1: relax the edges from `u` to each node of `ss`, in order. */
  function RelaxEdges(dist: seq<nat>, pred: seq<Option<nat>>, u: nat, ss: seq<nat>): (r: (seq<nat>, seq<Option<nat>>))
    requires |pred| == |dist| && u < |dist| && Nodes(ss, |dist|)
    ensures |r.0| == |dist| && |r.1| == |dist|
    decreases |ss|
  {
    if |ss| == 0 then (dist, pred)
    else
      var s := ss[0];
      if dist[u] + 1 > dist[s] then RelaxEdges(dist[s := dist[u] + 1], pred[s := Some(u)], u, ss[1..])
      else RelaxEdges(dist, pred, u, ss[1..])
  }

  /**
   What relaxing the edges from `u` does to node `v`: a successor's distance
   becomes at least `dist[u] + 1`, and its predecessor becomes `u` exactly
   when that raised it. Nothing else changes.
   */
  lemma {:induction false} RelaxEdgesAt(dist: seq<nat>, pred: seq<Option<nat>>, u: nat, ss: seq<nat>, v: nat)
    requires |pred| == |dist| && u < |dist| && Nodes(ss, |dist|) && u !in ss && v < |dist|
    ensures var r := RelaxEdges(dist, pred, u, ss);
      && r.0[v] == (if v in ss then Max(dist[v], dist[u] + 1) else dist[v])
      && r.1[v] == (if v in ss && dist[u] + 1 > dist[v] then Some(u) else pred[v])
    decreases |ss|
  {
    if |ss| > 0 {
      var s := ss[0];
      assert v in ss <==> v == s || v in ss[1..];
      if dist[u] + 1 > dist[s] {
        RelaxEdgesAt(dist[s := dist[u] + 1], pred[s := Some(u)], u, ss[1..], v);
      } else {
        RelaxEdgesAt(dist, pred, u, ss[1..], v);
      }
    }
  }

  /** The loop of step 1 from position `i` of the order on. */
  function RelaxFrom(g: Graph, order: seq<nat>, i: nat, dist: seq<nat>, pred: seq<Option<nat>>): (r: (seq<nat>, seq<Option<nat>>))
    requires WellFormed(g) && Nodes(order, g.Size()) && |dist| == g.Size() && |pred| == g.Size() && i <= |order|
    ensures |r.0| == g.Size() && |r.1| == g.Size()
    decreases |order| - i
  {
    if i == |order| then (dist, pred)
    else
      var u := order[i];
      WellFormedNodes(g, u);
      var r := RelaxEdges(dist, pred, u, g.succs[u]);
      RelaxFrom(g, order, i + 1, r.0, r.1)
  }

  /**
   `dist` and `pred` after step 1.  Given a topological order, the forward
   relaxation computes the longest path into every node, which is its
   `node_depth`, and `pred` links each node to a predecessor one level
   below it.
   */
  function Relax(g: Graph, order: seq<nat>): (r: (seq<nat>, seq<Option<nat>>))
    requires WellFormed(g) && Nodes(order, g.Size())
    ensures |r.0| == g.Size() && |r.1| == g.Size()
    ensures IsTopological(g, order) ==> r.0 == NodeDepth(g, order) && Chained(g, r.0, r.1)
  {
    var r := RelaxFrom(g, order, 0, Zeros(g.Size()), Nones(g.Size()));
    if IsTopological(g, order) then
      RelaxComputesDepth(g, order, r);
      r
    else r
  }

  /** `Best`, counting only the predecessors that come before position `i` of the order. */
  function PartialBest(depth: seq<nat>, order: seq<nat>, ps: seq<nat>, i: nat): nat
    requires Nodes(ps, |depth|)
    decreases |ps|
  {
    if |ps| == 0 then 0
    else Max(if Index(order, ps[0]) < i then depth[ps[0]] + 1 else 0, PartialBest(depth, order, ps[1..], i))
  }

  lemma {:induction false} PartialBestNone(depth: seq<nat>, order: seq<nat>, ps: seq<nat>)
    requires Nodes(ps, |depth|)
    ensures PartialBest(depth, order, ps, 0) == 0
    decreases |ps|
  {
    if |ps| > 0 {
      PartialBestNone(depth, order, ps[1..]);
    }
  }

  lemma {:induction false} PartialBestAll(depth: seq<nat>, order: seq<nat>, ps: seq<nat>, i: nat)
    requires Nodes(ps, |depth|)
    requires forall k :: 0 <= k < |ps| ==> Index(order, ps[k]) < i
    ensures PartialBest(depth, order, ps, i) == Best(depth, ps)
    decreases |ps|
  {
    if |ps| > 0 {
      PartialBestAll(depth, order, ps[1..], i);
    }
  }

  /** Moving past `order[i]` adds exactly that node to the predecessors counted. */
  lemma {:induction false} PartialBestStep(depth: seq<nat>, order: seq<nat>, ps: seq<nat>, i: nat)
    requires Nodes(ps, |depth|) && i < |order| && order[i] < |depth| && Index(order, order[i]) == i
    ensures PartialBest(depth, order, ps, i + 1) ==
      if order[i] in ps then Max(PartialBest(depth, order, ps, i), depth[order[i]] + 1)
      else PartialBest(depth, order, ps, i)
    decreases |ps|
  {
    if |ps| > 0 {
      PartialBestStep(depth, order, ps[1..], i);
      assert order[i] in ps <==> order[i] == ps[0] || order[i] in ps[1..];
      assert Index(order, ps[0]) == i ==> ps[0] == order[i];
    }
  }

  /** `u` is a predecessor of `v` exactly when `v` is a successor of `u`. */
  lemma EdgeBothWays(g: Graph, u: nat, v: nat)
    requires WellFormed(g) && u < g.Size() && v < g.Size()
    ensures v in g.succs[u] <==> u in g.preds[v]
  {
    if v in g.succs[u] {
      var k :| 0 <= k < |g.succs[u]| && g.succs[u][k] == v;
    }
    if u in g.preds[v] {
      var k :| 0 <= k < |g.preds[v]| && g.preds[v][k] == u;
    }
  }

  /** No node of a graph with a topological order is its own successor. */
  lemma NoSelfLoop(g: Graph, order: seq<nat>, u: nat)
    requires IsTopological(g, order) && u < g.Size()
    ensures u !in g.succs[u]
  {
    forall k | 0 <= k < |g.succs[u]| ensures g.succs[u][k] != u {
      assert Index(order, u) < Index(order, g.succs[u][k]);
    }
  }

  /**
   The state of step 1 for node `v` once the first `i` nodes of the order
   are processed: `dist[v]` is the longest path into `v` through those
   nodes, and `pred[v]`, when set, is a predecessor one level below.
   */
  ghost predicate RelaxedAt(g: Graph, order: seq<nat>, depth: seq<nat>, i: nat, dist: seq<nat>, pred: seq<Option<nat>>, v: nat)
    requires WellFormed(g) && |depth| == g.Size() && |dist| == g.Size() && |pred| == g.Size() && v < g.Size()
  {
    && Nodes(g.preds[v], g.Size())
    && dist[v] == PartialBest(depth, order, g.preds[v], i)
    && (pred[v].None? ==> dist[v] == 0)
    && (pred[v].Some? ==> pred[v].value < g.Size() && v in g.succs[pred[v].value] && dist[v] == depth[pred[v].value] + 1)
  }

  ghost predicate Relaxed(g: Graph, order: seq<nat>, depth: seq<nat>, i: nat, dist: seq<nat>, pred: seq<Option<nat>>)
    requires WellFormed(g) && |depth| == g.Size()
  {
    && |dist| == g.Size() && |pred| == g.Size()
    && forall v :: 0 <= v < g.Size() ==> RelaxedAt(g, order, depth, i, dist, pred, v)
  }

  /** When `order[i]` is reached, its distance is final: all its predecessors came before it. */
  lemma ReachedIsFinal(g: Graph, order: seq<nat>, depth: seq<nat>, i: nat, dist: seq<nat>, pred: seq<Option<nat>>)
    requires WellFormed(g) && IsTopological(g, order) && |depth| == g.Size() && i < |order|
    requires DepthsSettled(g, order, |order|, depth)
    requires Relaxed(g, order, depth, i, dist, pred)
    ensures dist[order[i]] == depth[order[i]]
  {
    var u := order[i];
    IndexOfDistinct(order, i);
    assert RelaxedAt(g, order, depth, i, dist, pred, u);
    forall k | 0 <= k < |g.preds[u]| ensures Index(order, g.preds[u][k]) < i {
      PredecessorFirst(g, order, u, g.preds[u][k]);
    }
    PartialBestAll(depth, order, g.preds[u], i);
  }

  lemma RelaxStepAt(g: Graph, order: seq<nat>, depth: seq<nat>, i: nat, dist: seq<nat>, pred: seq<Option<nat>>, v: nat)
    requires WellFormed(g) && IsTopological(g, order) && |depth| == g.Size() && i < |order| && v < g.Size()
    requires DepthsSettled(g, order, |order|, depth)
    requires Relaxed(g, order, depth, i, dist, pred)
    ensures var u := order[i];
      && Nodes(g.succs[u], g.Size())
      && var r := RelaxEdges(dist, pred, u, g.succs[u]);
      RelaxedAt(g, order, depth, i + 1, r.0, r.1, v)
  {
    var u := order[i];
    WellFormedNodes(g, u);
    IndexOfDistinct(order, i);
    ReachedIsFinal(g, order, depth, i, dist, pred);
    NoSelfLoop(g, order, u);
    RelaxEdgesAt(dist, pred, u, g.succs[u], v);
    assert RelaxedAt(g, order, depth, i, dist, pred, v);
    PartialBestStep(depth, order, g.preds[v], i);
    EdgeBothWays(g, u, v);
  }

  lemma RelaxStep(g: Graph, order: seq<nat>, depth: seq<nat>, i: nat, dist: seq<nat>, pred: seq<Option<nat>>)
    requires WellFormed(g) && IsTopological(g, order) && |depth| == g.Size() && i < |order|
    requires DepthsSettled(g, order, |order|, depth)
    requires Relaxed(g, order, depth, i, dist, pred)
    ensures var u := order[i];
      && Nodes(g.succs[u], g.Size())
      && var r := RelaxEdges(dist, pred, u, g.succs[u]);
      Relaxed(g, order, depth, i + 1, r.0, r.1)
  {
    var u := order[i];
    WellFormedNodes(g, u);
    var (dist', pred') := RelaxEdges(dist, pred, u, g.succs[u]);
    var next := i + 1;
    forall v | 0 <= v < g.Size() ensures RelaxedAt(g, order, depth, next, dist', pred', v) {
      RelaxStepAt(g, order, depth, i, dist, pred, v);
    }
  }

  lemma {:induction false} RelaxFromKeeps(g: Graph, order: seq<nat>, depth: seq<nat>, i: nat, dist: seq<nat>, pred: seq<Option<nat>>)
    requires WellFormed(g) && IsTopological(g, order) && |depth| == g.Size() && i <= |order|
    requires DepthsSettled(g, order, |order|, depth)
    requires Relaxed(g, order, depth, i, dist, pred)
    ensures var r := RelaxFrom(g, order, i, dist, pred);
      Relaxed(g, order, depth, |order|, r.0, r.1)
    decreases |order| - i
  {
    if i < |order| {
      var u := order[i];
      RelaxStep(g, order, depth, i, dist, pred);
      var r := RelaxEdges(dist, pred, u, g.succs[u]);
      RelaxFromKeeps(g, order, depth, i + 1, r.0, r.1);
    }
  }

  /** Following `pred` from any node goes one level down per step and stops at distance 0. */
  ghost predicate Chained(g: Graph, dist: seq<nat>, pred: seq<Option<nat>>) {
    && |dist| == g.Size() && |pred| == g.Size()
    && forall v :: 0 <= v < g.Size() ==>
      && (pred[v].None? ==> dist[v] == 0)
      && (pred[v].Some? ==> pred[v].value < g.Size() && v in g.succs[pred[v].value] && dist[v] == dist[pred[v].value] + 1)
  }

  lemma RelaxedInitially(g: Graph, order: seq<nat>, depth: seq<nat>)
    requires WellFormed(g) && |depth| == g.Size()
    ensures Relaxed(g, order, depth, 0, Zeros(g.Size()), Nones(g.Size()))
  {
    var n := g.Size();
    forall v | 0 <= v < n ensures RelaxedAt(g, order, depth, 0, Zeros(n), Nones(n), v) {
      WellFormedNodes(g, v);
      PartialBestNone(depth, order, g.preds[v]);
    }
  }

  /** Once every node is processed, each distance is the node's depth and each link goes one level down. */
  lemma RelaxedFinally(g: Graph, order: seq<nat>, depth: seq<nat>, dist: seq<nat>, pred: seq<Option<nat>>, v: nat)
    requires WellFormed(g) && IsTopological(g, order) && |depth| == g.Size() && v < g.Size()
    requires DepthsSettled(g, order, |order|, depth)
    requires Relaxed(g, order, depth, |order|, dist, pred)
    ensures dist[v] == depth[v]
    ensures pred[v].None? ==> depth[v] == 0
    ensures pred[v].Some? ==> pred[v].value < g.Size() && v in g.succs[pred[v].value] && depth[v] == depth[pred[v].value] + 1
  {
    assert RelaxedAt(g, order, depth, |order|, dist, pred, v);
    forall k | 0 <= k < |g.preds[v]| ensures Index(order, g.preds[v][k]) < |order| {
      assert g.preds[v][k] in order;
    }
    PartialBestAll(depth, order, g.preds[v], |order|);
    assert Index(order, v) < |order|;
  }

  /** Step 1 from the start computes the depths, and its `pred` links go one level down. */
  lemma RelaxComputesDepth(g: Graph, order: seq<nat>, r: (seq<nat>, seq<Option<nat>>))
    requires WellFormed(g) && IsTopological(g, order)
    requires r == RelaxFrom(g, order, 0, Zeros(g.Size()), Nones(g.Size()))
    ensures r.0 == NodeDepth(g, order) && Chained(g, r.0, r.1)
  {
    var depth := NodeDepth(g, order);
    var n := g.Size();
    DepthFromSettles(g, order, 0, Zeros(n));
    RelaxedInitially(g, order, depth);
    RelaxFromKeeps(g, order, depth, 0, Zeros(n), Nones(n));
    var (dist, pred) := r;
    forall v | 0 <= v < n
      ensures dist[v] == depth[v]
      ensures pred[v].None? ==> dist[v] == 0
      ensures pred[v].Some? ==> pred[v].value < n && v in g.succs[pred[v].value] && dist[v] == dist[pred[v].value] + 1
    {
      RelaxedFinally(g, order, depth, dist, pred, v);
      if pred[v].Some? {
        RelaxedFinally(g, order, depth, dist, pred, pred[v].value);
      }
    }
  }

  // ---------------------------------------------------------------- the spine

  /**
   The index in `order` of `max(dist, key=dist.get)`, scanning from position
   `k` with the winner so far at position `best`: a later node wins only with
   a strictly greater distance, so ties go to the earliest node.
   */
  function FirstMaxFrom(order: seq<nat>, dist: seq<nat>, k: nat, best: nat): (j: nat)
    requires Nodes(order, |dist|) && best < k <= |order|
    ensures j < |order|
    decreases |order| - k
  {
    if k == |order| then best
    else FirstMaxFrom(order, dist, k + 1, if dist[order[k]] > dist[order[best]] then k else best)
  }

  /** The position in `order` of the end node; `dist` iterates in the order its keys were inserted. */
  function FirstMax(order: seq<nat>, dist: seq<nat>): (j: nat)
    requires Nodes(order, |dist|) && |order| > 0
    ensures j < |order|
  {
    FirstMaxFrom(order, dist, 1, 0)
  }

  lemma {:induction false} FirstMaxFromSpec(order: seq<nat>, dist: seq<nat>, k: nat, best: nat)
    requires Nodes(order, |dist|) && best < k <= |order|
    requires forall m :: 0 <= m < k ==> dist[order[m]] <= dist[order[best]]
    requires forall m :: 0 <= m < best ==> dist[order[m]] < dist[order[best]]
    ensures var j := FirstMaxFrom(order, dist, k, best);
      && (forall m :: 0 <= m < |order| ==> dist[order[m]] <= dist[order[j]])
      && (forall m :: 0 <= m < j ==> dist[order[m]] < dist[order[j]])
    decreases |order| - k
  {
    if k < |order| {
      FirstMaxFromSpec(order, dist, k + 1, if dist[order[k]] > dist[order[best]] then k else best);
    }
  }

  /** The end node has the greatest distance, and no node before it in the order has as great a one. */
  lemma FirstMaxSpec(order: seq<nat>, dist: seq<nat>)
    requires Nodes(order, |dist|) && |order| > 0
    ensures var j := FirstMax(order, dist);
      && (forall m :: 0 <= m < |order| ==> dist[order[m]] <= dist[order[j]])
      && (forall m :: 0 <= m < j ==> dist[order[m]] < dist[order[j]])
  {
    FirstMaxFromSpec(order, dist, 1, 0);
  }

  /** The list the `while n is not None` loop builds: `n`, `pred[n]`, `pred[pred[n]]`, ... */
  function Walk(g: Graph, dist: seq<nat>, pred: seq<Option<nat>>, n: nat): (w: seq<nat>)
    requires Chained(g, dist, pred) && n < g.Size()
    ensures |w| == dist[n] + 1 && w[0] == n
    decreases dist[n]
  {
    match pred[n]
    case None => [n]
    case Some(p) => [n] + Walk(g, dist, pred, p)
  }

  /** `w` goes down one level per step from `n`, following edges backwards. */
  ghost predicate Descends(g: Graph, dist: seq<nat>, n: nat, w: seq<nat>)
    requires |dist| == g.Size() && n < g.Size()
  {
    && (forall m :: 0 <= m < |w| ==> w[m] < g.Size() && dist[w[m]] + m == dist[n])
    && (forall m :: 0 <= m < |w| - 1 ==> w[m] in g.succs[w[m + 1]])
  }

  lemma {:induction false} WalkDescends(g: Graph, dist: seq<nat>, pred: seq<Option<nat>>, n: nat)
    requires Chained(g, dist, pred) && n < g.Size()
    ensures Descends(g, dist, n, Walk(g, dist, pred, n))
    decreases dist[n]
  {
    if pred[n].Some? {
      var p := pred[n].value;
      var t := Walk(g, dist, pred, p);
      WalkDescends(g, dist, pred, p);
      assert dist[n] == dist[p] + 1 && n in g.succs[p];
      var w := [n] + t;
      forall m | 1 <= m < |w| ensures w[m] < g.Size() && dist[w[m]] + m == dist[n] {
        var m' := m - 1;
        assert w[m] == t[m'];
      }
      forall m | 0 <= m < |w| - 1 ensures w[m] in g.succs[w[m + 1]] {
        if m > 0 {
          var m' := m - 1;
          assert w[m] == t[m'] && w[m + 1] == t[m' + 1];
        }
      }
      assert Walk(g, dist, pred, n) == w;
    }
  }

  /** `list.reverse()`. */
  function Reverse(s: seq<nat>): (r: seq<nat>)
    ensures |r| == |s|
  {
    seq(|s|, k requires 0 <= k < |s| => s[|s| - 1 - k])
  }

  /** `s` starts at depth 0, climbs one level per node, and every step along it is an edge. */
  ghost predicate Climbs(g: Graph, depth: seq<nat>, s: seq<nat>)
    requires |depth| == g.Size()
  {
    && (forall k :: 0 <= k < |s| ==> s[k] < g.Size() && depth[s[k]] == k)
    && (forall k :: 0 <= k < |s| - 1 ==> s[k + 1] in g.succs[s[k]])
  }

  lemma ReversedWalkClimbs(g: Graph, dist: seq<nat>, n: nat, w: seq<nat>)
    requires |dist| == g.Size() && n < g.Size()
    requires Descends(g, dist, n, w) && |w| == dist[n] + 1
    ensures Climbs(g, dist, Reverse(w))
  {
    var s := Reverse(w);
    forall k | 0 <= k < |s| ensures s[k] < g.Size() && dist[s[k]] == k {
      var m := |w| - 1 - k;
      assert s[k] == w[m];
    }
    forall k | 0 <= k < |s| - 1 ensures s[k + 1] in g.succs[s[k]] {
      var m := |w| - 2 - k;
      assert s[k] == w[m + 1] && s[k + 1] == w[m];
    }
  }

  /** The node `max(dist, key=dist.get)` picks, over nodes listed in `order`. */
  function EndNode(order: seq<nat>, dist: seq<nat>): (e: nat)
    requires Nodes(order, |dist|) && |order| > 0
    ensures e in order && e < |dist|
    ensures forall m :: 0 <= m < |order| ==> dist[order[m]] <= dist[e]
  {
    FirstMaxSpec(order, dist);
    order[FirstMax(order, dist)]
  }

  /** When `order` lists every node, the end node has the greatest distance of all. */
  lemma EndNodeDeepest(order: seq<nat>, dist: seq<nat>)
    requires Nodes(order, |dist|) && |order| > 0
    requires forall v :: 0 <= v < |dist| ==> v in order
    ensures forall v :: 0 <= v < |dist| ==> dist[v] <= dist[EndNode(order, dist)]
  {
    FirstMaxSpec(order, dist);
    forall v | 0 <= v < |dist| ensures dist[v] <= dist[EndNode(order, dist)] {
      var m := Index(order, v);
      assert order[m] == v;
    }
  }

  /** The spine: the walk back from the end node, reversed. */
  function Spine(g: Graph, order: seq<nat>): (s: seq<nat>)
    requires WellFormed(g) && IsTopological(g, order) && |order| > 0
    ensures Nodes(s, g.Size()) && Climbs(g, NodeDepth(g, order), s)
  {
    var (dist, pred) := Relax(g, order);
    var e := EndNode(order, dist);
    WalkDescends(g, dist, pred, e);
    ReversedWalkClimbs(g, dist, e, Walk(g, dist, pred, e));
    Reverse(Walk(g, dist, pred, e))
  }

  /**
   The spine ends at the end node, which has the greatest depth; with
   `Climbs` it is a longest path of the graph.
   */
  lemma SpineShape(g: Graph, order: seq<nat>)
    requires WellFormed(g) && IsTopological(g, order) && |order| > 0
    ensures var s, depth, e := Spine(g, order), NodeDepth(g, order), EndNode(order, Relax(g, order).0);
      && |s| == depth[e] + 1 && s[|s| - 1] == e
      && (forall v :: 0 <= v < g.Size() ==> depth[v] <= depth[e])
  {
    var (dist, pred) := Relax(g, order);
    var e := EndNode(order, dist);
    EndNodeDeepest(order, dist);
    assert Spine(g, order) == Reverse(Walk(g, dist, pred, e));
  }

  // ---------------------------------------------------------------- step 4: side branches

  /** `side`: `"left"`, `"right"` or `None`. */
  datatype Side = Left | Right | Unclear

  /** `max_attempts`. */
  const MaxAttempts: nat := 10

  function Sum(xs: seq<int>): int
    decreases |xs|
  {
    if |xs| == 0 then 0 else xs[0] + Sum(xs[1..])
  }

  /** `[pos[p][0] for p in preds if p in pos]`. */
  function PredXs(pos: map<nat, (int, int)>, ps: seq<nat>): (xs: seq<int>)
    ensures |xs| <= |ps|
    ensures (forall k :: 0 <= k < |ps| ==> ps[k] in pos) ==> |xs| == |ps|
    decreases |ps|
  {
    if |ps| == 0 then []
    else (if ps[0] in pos then [pos[ps[0]].0] else []) + PredXs(pos, ps[1..])
  }

  /** Every entry of `PredXs` is the x of a placed predecessor. */
  lemma {:induction false} PredXsArePlaced(pos: map<nat, (int, int)>, ps: seq<nat>, j: nat)
    requires j < |PredXs(pos, ps)|
    ensures exists k :: 0 <= k < |ps| && ps[k] in pos && PredXs(pos, ps)[j] == pos[ps[k]].0
    decreases |ps|
  {
    var head: seq<int> := if ps[0] in pos then [pos[ps[0]].0] else [];
    var tail := PredXs(pos, ps[1..]);
    assert PredXs(pos, ps) == head + tail;
    if j < |head| {
      assert PredXs(pos, ps)[j] == pos[ps[0]].0;
    } else {
      PredXsArePlaced(pos, ps[1..], j - |head|);
      var k :| 0 <= k < |ps[1..]| && ps[1..][k] in pos && tail[j - |head|] == pos[ps[1..][k]].0;
      assert ps[k + 1] == ps[1..][k];
    }
  }

  /**
   The side chosen from the predecessors' x positions: right exactly when
   their mean is above `hs / 2`, left exactly when it is below `-hs / 2`
   and not above, and neither without placed predecessors.  Python compares
   the float mean `sum / len` with `hs / 2`; both sides are multiplied out
   here by the positive `2 * len`, and the contract restates the test with
   exact real numbers.
   */
  function ChooseSide(xs: seq<int>, hs: int): (side: Side)
    ensures side == Right <==>
      |xs| > 0 && (Sum(xs) as real) / (|xs| as real) > (hs as real) / 2.0
    ensures side == Left <==>
      |xs| > 0 && !((Sum(xs) as real) / (|xs| as real) > (hs as real) / 2.0)
        && (Sum(xs) as real) / (|xs| as real) < -(hs as real) / 2.0
  {
    if |xs| == 0 then Unclear
    else
      MeanComparison(Sum(xs), |xs|, hs);
      if 2 * Sum(xs) > hs * |xs| then Right
      else if 2 * Sum(xs) < -hs * |xs| then Left
      else Unclear
  }

  /** Multiplying by a positive number keeps the order. */
  lemma ScaleLess(a: real, b: real, c: real)
    requires c > 0.0
    ensures a < b <==> a * c < b * c
  {
    if a < b {
      assert (b - a) * c > 0.0;
    } else {
      assert (a - b) * c >= 0.0;
    }
  }

  /** Comparing the mean with half the spacing is comparing the multiplied-out integers. */
  lemma MeanComparison(total: int, n: nat, hs: int)
    requires n > 0
    ensures (total as real) / (n as real) > (hs as real) / 2.0 <==> 2 * total > hs * n
    ensures (total as real) / (n as real) < -(hs as real) / 2.0 <==> 2 * total < -hs * n
  {
    var c := 2.0 * (n as real);
    var mean := (total as real) / (n as real);
    assert mean * c == (2 * total) as real;
    assert ((hs as real) / 2.0) * c == (hs * n) as real;
    assert (-(hs as real) / 2.0) * c == (-hs * n) as real;
    ScaleLess((hs as real) / 2.0, mean, c);
    ScaleLess(mean, -(hs as real) / 2.0, c);
  }

  /**
   The column, in multiples of `hs`, of attempt `i`: outwards on the chosen
   side, and otherwise alternating left and right, `(-1)**i * ((i + 1) // 2)`.
   */
  function Column(side: Side, i: nat): (c: int)
    ensures side == Left ==> c <= 0 && -c == i
    ensures side == Right ==> c >= 0 && c == i
    ensures side == Unclear ==> (c > 0 <==> i > 0 && i % 2 == 0) && (c == (i + 1) / 2 || -c == (i + 1) / 2)
  {
    match side
    case Left => -(i as int)
    case Right => i
    case Unclear => (if i % 2 == 0 then 1 else -1) * ((i + 1) / 2)
  }

  /** Without a side, attempts `2k - 1` and `2k` try the `k`-th column to the left and then to the right. */
  lemma UnclearAlternates(k: nat)
    requires k >= 1
    ensures Column(Unclear, 2 * k - 1) == -(k as int) && Column(Unclear, 2 * k) == k
  {
  }

  /** The columns tried number from 1 to `MaxAttempts - 1` outwards, never the spine's. */
  predicate Tried(c: int) {
    c != 0 && -(MaxAttempts - 1) <= c <= MaxAttempts - 1
  }

  lemma ColumnTried(side: Side, i: nat)
    requires 1 <= i < MaxAttempts
    ensures Tried(Column(side, i))
  {
  }

  /** `(max_attempts + 1) * horizontal_spacing`: the column used when every attempt is taken. */
  function FallbackColumn(): int {
    MaxAttempts + 1
  }

  /** The first attempt from `i` on whose slot at `depth` is free, if any. */
  function FirstFree(side: Side, hs: int, depth: nat, occupied: set<(nat, int)>, i: nat): (r: Option<nat>)
    requires 1 <= i <= MaxAttempts
    ensures r.Some? ==> i <= r.value < MaxAttempts && (depth, Column(side, r.value) * hs) !in occupied
    ensures r.Some? ==> forall j :: i <= j < r.value ==> (depth, Column(side, j) * hs) in occupied
    ensures r.None? ==> forall j :: i <= j < MaxAttempts ==> (depth, Column(side, j) * hs) in occupied
    decreases MaxAttempts - i
  {
    if i == MaxAttempts then None
    else if (depth, Column(side, i) * hs) !in occupied then Some(i)
    else FirstFree(side, hs, depth, occupied, i + 1)
  }

  /** Positions placed so far, and the `(depth, x)` slots they fill. */
  datatype Placement = Placement(pos: map<nat, (int, int)>, occupied: set<(nat, int)>)

  /** The x `FirstFree` leads to: the free attempt's column, or the fallback column. */
  function ChosenX(side: Side, hs: int, depth: nat, occupied: set<(nat, int)>): (x: int)
    ensures x == FallbackColumn() * hs || exists i :: 1 <= i < MaxAttempts && x == Column(side, i) * hs
    ensures x == FallbackColumn() * hs || (depth, x) !in occupied
  {
    match FirstFree(side, hs, depth, occupied, 1)
    case Some(i) => Column(side, i) * hs
    case None => FallbackColumn() * hs
  }

  /** One pass of the loop over `top_order`: a node not yet placed goes to the first free slot. */
  function PlaceNode(g: Graph, depth: seq<nat>, vs: int, hs: int, st: Placement, v: nat): (r: Placement)
    requires WellFormed(g) && |depth| == g.Size() && v < g.Size()
    ensures v in st.pos ==> r == st
    ensures v !in st.pos ==>
      && r.pos.Keys == st.pos.Keys + {v}
      && (forall u :: u in st.pos ==> r.pos[u] == st.pos[u])
      && r.pos[v].1 == -depth[v] * vs
      && (r.pos[v].0 == FallbackColumn() * hs || (depth[v], r.pos[v].0) !in st.occupied)
      && r.occupied == st.occupied + {(depth[v], r.pos[v].0)}
  {
    if v in st.pos then st
    else
      var d := depth[v];
      var side := ChooseSide(PredXs(st.pos, g.preds[v]), hs);
      var x := ChosenX(side, hs, d, st.occupied);
      Placement(st.pos[v := (x, -d * vs)], st.occupied + {(d, x)})
  }

  /** The loop over `top_order` from position `i`. */
  function PlaceFrom(g: Graph, order: seq<nat>, depth: seq<nat>, vs: int, hs: int, st: Placement, i: nat): (r: Placement)
    requires WellFormed(g) && |depth| == g.Size() && Nodes(order, g.Size()) && i <= |order|
    ensures forall k :: i <= k < |order| ==> order[k] in r.pos
    ensures forall u :: u in st.pos ==> u in r.pos && r.pos[u] == st.pos[u]
    ensures forall u :: u in r.pos ==> u in st.pos || u in order[i..]
    decreases |order| - i
  {
    if i == |order| then st
    else
      var next := PlaceNode(g, depth, vs, hs, st, order[i]);
      assert forall u :: u in order[i..] <==> u == order[i] || u in order[i + 1..];
      PlaceFrom(g, order, depth, vs, hs, next, i + 1)
  }

  // ---------------------------------------------------------------- what step 4 keeps

  /** `x` is `c * hs` for a column `c` that an attempt or the fallback uses. */
  ghost predicate OffSpineColumn(x: int, hs: int) {
    exists c :: (Tried(c) || c == FallbackColumn()) && x == c * hs
  }

  /** Off the spine no node sits in the middle column, unless the spacing is 0. */
  lemma OffSpineNotCentre(x: int, hs: int)
    requires OffSpineColumn(x, hs) && hs != 0
    ensures x != 0
  {
    var c :| (Tried(c) || c == FallbackColumn()) && x == c * hs;
    assert c != 0;
  }

  /**
   What holds of the positions throughout step 4: every placed node sits at
   `-depth * vs`, fills the slot recorded for it, spine nodes are in column 0
   and all other nodes in an attempted or the fallback column, and two nodes
   share a slot only in the fallback column.
   */
  ghost predicate Sound(g: Graph, depth: seq<nat>, spine: seq<nat>, vs: int, hs: int, st: Placement)
    requires |depth| == g.Size()
  {
    && (forall v :: v in st.pos ==> v < g.Size())
    && (forall v :: v in st.pos ==> st.pos[v].1 == -depth[v] * vs && (depth[v], st.pos[v].0) in st.occupied)
    && (forall k :: 0 <= k < |spine| ==> spine[k] in st.pos && st.pos[spine[k]].0 == 0)
    && (forall v :: v in st.pos && v !in spine ==> OffSpineColumn(st.pos[v].0, hs))
    && Apart(depth, hs, st.pos)
  }

  /** Two nodes at the same depth and the same x are both in the fallback column. */
  ghost predicate Apart(depth: seq<nat>, hs: int, pos: map<nat, (int, int)>)
    requires forall v :: v in pos ==> v < |depth|
  {
    forall u, v :: u in pos && v in pos && u != v && depth[u] == depth[v] && pos[u].0 == pos[v].0 ==>
      pos[u].0 == FallbackColumn() * hs
  }

  /** Adding a node off the spine in a free slot, or in the fallback column, keeps `Sound`. */
  lemma AddKeepsSound(g: Graph, depth: seq<nat>, spine: seq<nat>, vs: int, hs: int, st: Placement, v: nat, x: int)
    requires |depth| == g.Size() && v < g.Size() && v !in st.pos && v !in spine
    requires Sound(g, depth, spine, vs, hs, st)
    requires OffSpineColumn(x, hs)
    requires x == FallbackColumn() * hs || (depth[v], x) !in st.occupied
    ensures Sound(g, depth, spine, vs, hs, Placement(st.pos[v := (x, -depth[v] * vs)], st.occupied + {(depth[v], x)}))
  {
    var pos := st.pos[v := (x, -depth[v] * vs)];
    var occ := st.occupied + {(depth[v], x)};
    forall u | u in pos ensures pos[u].1 == -depth[u] * vs && (depth[u], pos[u].0) in occ {
      if u != v {
        assert pos[u] == st.pos[u];
      }
    }
    forall u | u in pos && u !in spine ensures OffSpineColumn(pos[u].0, hs) {
      if u != v {
        assert pos[u] == st.pos[u];
      }
    }
    assert forall u :: u in st.pos ==> pos[u] == st.pos[u];
    if x == FallbackColumn() * hs {
      forall u, w | u in pos && w in pos && u != w && depth[u] == depth[w] && pos[u].0 == pos[w].0
        ensures pos[u].0 == FallbackColumn() * hs
      {
        if u != v && w != v {
          assert pos[u] == st.pos[u] && pos[w] == st.pos[w];
        }
      }
    } else {
      assert forall u :: u in st.pos ==> (depth[u], pos[u].0) != (depth[v], x);
      assert Apart(depth, hs, pos);
    }
  }

  /** Placing one node keeps `Sound`. */
  lemma PlaceNodeKeeps(g: Graph, depth: seq<nat>, spine: seq<nat>, vs: int, hs: int, st: Placement, v: nat)
    requires WellFormed(g) && |depth| == g.Size() && v < g.Size()
    requires Sound(g, depth, spine, vs, hs, st)
    ensures Sound(g, depth, spine, vs, hs, PlaceNode(g, depth, vs, hs, st, v))
  {
    if v !in st.pos {
      var d := depth[v];
      var side := ChooseSide(PredXs(st.pos, g.preds[v]), hs);
      var x := ChosenX(side, hs, d, st.occupied);
      assert PlaceNode(g, depth, vs, hs, st, v) == Placement(st.pos[v := (x, -d * vs)], st.occupied + {(d, x)});
      assert v !in spine;
      if x == FallbackColumn() * hs {
        var c := FallbackColumn();
        assert (Tried(c) || c == FallbackColumn()) && x == c * hs;
        assert OffSpineColumn(x, hs);
      } else {
        var i :| 1 <= i < MaxAttempts && x == Column(side, i) * hs;
        var c := Column(side, i);
        ColumnTried(side, i);
        assert (Tried(c) || c == FallbackColumn()) && x == c * hs;
        assert OffSpineColumn(x, hs);
      }
      AddKeepsSound(g, depth, spine, vs, hs, st, v, x);
    }
  }

  lemma {:induction false} PlaceFromKeeps(g: Graph, order: seq<nat>, depth: seq<nat>, spine: seq<nat>, vs: int, hs: int, st: Placement, i: nat)
    requires WellFormed(g) && |depth| == g.Size() && Nodes(order, g.Size()) && i <= |order|
    requires Sound(g, depth, spine, vs, hs, st)
    ensures Sound(g, depth, spine, vs, hs, PlaceFrom(g, order, depth, vs, hs, st, i))
    decreases |order| - i
  {
    if i < |order| {
      var next := PlaceNode(g, depth, vs, hs, st, order[i]);
      PlaceNodeKeeps(g, depth, spine, vs, hs, st, order[i]);
      PlaceFromKeeps(g, order, depth, spine, vs, hs, next, i + 1);
    }
  }

  // ---------------------------------------------------------------- step 3: the spine at x = 0

  /** `for node in spine: pos[node] = (0, -node_depth[node] * vs)`. */
  function PlaceSpine(spine: seq<nat>, depth: seq<nat>, vs: int, pos: map<nat, (int, int)>): (pos': map<nat, (int, int)>)
    requires Nodes(spine, |depth|)
    ensures forall v :: v in pos' <==> v in pos || v in spine
    decreases |spine|
  {
    if |spine| == 0 then pos
    else
      assert forall v :: v in spine <==> v == spine[0] || v in spine[1..];
      PlaceSpine(spine[1..], depth, vs, pos[spine[0] := (0, -depth[spine[0]] * vs)])
  }

  lemma {:induction false} PlaceSpineSpec(spine: seq<nat>, depth: seq<nat>, vs: int, pos: map<nat, (int, int)>)
    requires Nodes(spine, |depth|)
    ensures var pos' := PlaceSpine(spine, depth, vs, pos);
      && (forall v :: v in spine ==> pos'[v] == (0, -depth[v] * vs))
      && (forall v :: v in pos && v !in spine ==> pos'[v] == pos[v])
    decreases |spine|
  {
    if |spine| > 0 {
      PlaceSpineSpec(spine[1..], depth, vs, pos[spine[0] := (0, -depth[spine[0]] * vs)]);
      assert forall v :: v in spine <==> v == spine[0] || v in spine[1..];
    }
  }

  /** The pre-filled slots: `occupied_slots.add((node_depth[node], pos[node][0]))` for each spine node. */
  function SpineSlots(spine: seq<nat>, depth: seq<nat>, pos: map<nat, (int, int)>, occupied: set<(nat, int)>): set<(nat, int)>
    requires Nodes(spine, |depth|) && forall k :: 0 <= k < |spine| ==> spine[k] in pos
    decreases |spine|
  {
    if |spine| == 0 then occupied
    else SpineSlots(spine[1..], depth, pos, occupied + {(depth[spine[0]], pos[spine[0]].0)})
  }

  lemma {:induction false} SpineSlotsSpec(spine: seq<nat>, depth: seq<nat>, pos: map<nat, (int, int)>, occupied: set<(nat, int)>)
    requires Nodes(spine, |depth|) && forall k :: 0 <= k < |spine| ==> spine[k] in pos
    ensures var occ := SpineSlots(spine, depth, pos, occupied);
      && occupied <= occ
      && forall k :: 0 <= k < |spine| ==> (depth[spine[k]], pos[spine[k]].0) in occ
    decreases |spine|
  {
    if |spine| > 0 {
      SpineSlotsSpec(spine[1..], depth, pos, occupied + {(depth[spine[0]], pos[spine[0]].0)});
      forall k | 1 <= k < |spine| ensures (depth[spine[k]], pos[spine[k]].0) in SpineSlots(spine, depth, pos, occupied) {
        assert spine[k] == spine[1..][k - 1];
      }
    }
  }

  /** Depths tell the nodes of a climbing path apart. */
  lemma ClimbsInjective(g: Graph, depth: seq<nat>, s: seq<nat>)
    requires |depth| == g.Size() && Climbs(g, depth, s)
    ensures forall u, v :: u in s && v in s && depth[u] == depth[v] ==> u == v
  {
    forall u, v | u in s && v in s && depth[u] == depth[v] ensures u == v {
      var k :| 0 <= k < |s| && s[k] == u;
      var m :| 0 <= m < |s| && s[m] == v;
    }
  }

  // ---------------------------------------------------------------- the whole layout

  /**
   `netron_style_layout_balanced(G, vertical_spacing, horizontal_spacing)`,
   with `order` standing for `nx.topological_sort(G)`. An order that is not
   topological stands for a graph with a cycle (see `CycleHasNoOrder`);
   an empty graph makes `max(dist, ...)` raise.
   */
  function NetronLayout(g: Graph, order: seq<nat>, vs: int, hs: int): (r: Result<map<nat, (int, int)>>)
    requires WellFormed(g)
    ensures r.Failure? <==> !IsTopological(g, order) || |order| == 0
    ensures r.Failure? ==> r.error == (if IsTopological(g, order) then EmptyGraph else NotADag)
  {
    if !IsTopological(g, order) then Failure(NotADag)
    else if |order| == 0 then Failure(EmptyGraph)
    else
      var spine := Spine(g, order);
      var depth := NodeDepth(g, order);
      var pos := PlaceSpine(spine, depth, vs, map[]);
      var occupied := SpineSlots(spine, depth, pos, {});
      Success(PlaceFrom(g, order, depth, vs, hs, Placement(pos, occupied), 0).pos)
  }

  /** The state after step 3 and the pre-filling of the spine's slots is `Sound`. */
  lemma SpinePlacedSound(g: Graph, depth: seq<nat>, spine: seq<nat>, vs: int, hs: int)
    requires |depth| == g.Size() && Nodes(spine, g.Size()) && Climbs(g, depth, spine)
    ensures var pos := PlaceSpine(spine, depth, vs, map[]);
      Sound(g, depth, spine, vs, hs, Placement(pos, SpineSlots(spine, depth, pos, {})))
  {
    PlaceSpineSpec(spine, depth, vs, map[]);
    var pos := PlaceSpine(spine, depth, vs, map[]);
    SpineSlotsSpec(spine, depth, pos, {});
    var occ := SpineSlots(spine, depth, pos, {});
    forall v | v in pos ensures v < g.Size() && pos[v].1 == -depth[v] * vs && (depth[v], pos[v].0) in occ {
      var k :| 0 <= k < |spine| && spine[k] == v;
    }
    ClimbsInjective(g, depth, spine);
    assert Apart(depth, hs, pos);
  }

  /**
   What the layout promises: every node gets a position and nothing else
   does; each sits in the row of its depth; the spine is a longest path
   placed in column 0; every other node sits in a column the attempts or
   the fallback use; and two nodes of one row share a position only in the
   fallback column.
   */
  lemma NetronLayoutPlaces(g: Graph, order: seq<nat>, vs: int, hs: int)
    requires WellFormed(g) && IsTopological(g, order) && |order| > 0
    ensures var pos, spine, depth := NetronLayout(g, order, vs, hs).value, Spine(g, order), NodeDepth(g, order);
      && (forall v: nat :: v in pos <==> v < g.Size())
      && (forall v :: v in pos ==> pos[v].1 == -depth[v] * vs)
      && (forall k :: 0 <= k < |spine| ==> pos[spine[k]].0 == 0)
      && (forall v :: v in pos && v !in spine ==> OffSpineColumn(pos[v].0, hs))
      && Apart(depth, hs, pos)
  {
    var spine, depth := Spine(g, order), NodeDepth(g, order);
    SpineShape(g, order);
    PlaceSpineSpec(spine, depth, vs, map[]);
    var pos := PlaceSpine(spine, depth, vs, map[]);
    var st := Placement(pos, SpineSlots(spine, depth, pos, {}));
    SpinePlacedSound(g, depth, spine, vs, hs);
    PlaceFromKeeps(g, order, depth, spine, vs, hs, st, 0);
    var st' := PlaceFrom(g, order, depth, vs, hs, st, 0);
    assert NetronLayout(g, order, vs, hs).value == st'.pos;
    forall v: nat | v < g.Size() ensures v in st'.pos {
      var k := Index(order, v);
    }
  }

  /** With a non-zero spacing, column 0 holds the spine and nothing else. */
  lemma OnlySpineInCentre(g: Graph, order: seq<nat>, vs: int, hs: int)
    requires WellFormed(g) && IsTopological(g, order) && |order| > 0 && hs != 0
    ensures var pos, spine := NetronLayout(g, order, vs, hs).value, Spine(g, order);
      forall v :: v in pos ==> (pos[v].0 == 0 <==> v in spine)
  {
    NetronLayoutPlaces(g, order, vs, hs);
    var pos, spine := NetronLayout(g, order, vs, hs).value, Spine(g, order);
    forall v | v in pos ensures pos[v].0 == 0 <==> v in spine {
      if v !in spine {
        OffSpineNotCentre(pos[v].0, hs);
      } else {
        var k :| 0 <= k < |spine| && spine[k] == v;
      }
    }
  }
}
