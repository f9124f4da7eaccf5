/** The node arena behind the CFG and the graph facts every pass relies on.
    Nodes are addressed by their arena index; `succ[i]` and `pred[i]` are the
    ordered successor and predecessor lists of node i (CFGNode.successors and
    CFGNode.predecessors). Node i carries the Java id i + 1. */
module Graph {
  import opened Util

  /** Successor (or predecessor) lists, one per node. */
  type Adjacency = seq<seq<nat>>

  /** Every listed neighbour is a node of the arena. */
  predicate Closed(g: Adjacency)
  {
    forall i, j :: 0 <= i < |g| && 0 <= j < |g[i]| ==> g[i][j] < |g|
  }

  /** The indices of the nodes of `g`. */
  function Nodes(g: Adjacency): (r: set<nat>)
    ensures forall i :: i in r <==> 0 <= i < |g|
  {
    Below(|g|)
  }

  function Below(n: nat): (r: set<nat>)
    ensures forall i :: i in r <==> 0 <= i < n
  {
    if n == 0 then {} else Below(n - 1) + {n - 1}
  }

  /** The label and edge lists of every node built so far. */
  datatype Arena = Arena(labels: seq<string>, succ: Adjacency, pred: Adjacency)

  /** The arena of a fresh builder: no nodes yet. */
  const EmptyArena := Arena([], [], [])

  function Size(a: Arena): nat
  {
    |a.labels|
  }

  /** The shape addSuccessor keeps: edges point at nodes, no list holds a
      node twice, and `j` follows `i` exactly when `i` precedes `j`. */
  predicate WellFormed(a: Arena)
  {
    && |a.succ| == |a.labels|
    && |a.pred| == |a.labels|
    && Closed(a.succ)
    && Closed(a.pred)
    && (forall i :: 0 <= i < |a.labels| ==> NoDup(a.succ[i]) && NoDup(a.pred[i]))
    && (forall i, j :: 0 <= i < |a.labels| && 0 <= j < |a.labels| ==> (j in a.succ[i] <==> i in a.pred[j]))
  }

  /** `new CFGNode(label)` (CFGNode.java:17-26): a node with no edges, whose
      index is the number of nodes created before it. */
  function AddNode(a: Arena, nodeLabel: string): (r: Arena)
    requires WellFormed(a)
    ensures WellFormed(r) && |r.labels| == |a.labels| + 1
    ensures r.labels[|a.labels|] == nodeLabel && r.succ[|a.labels|] == [] && r.pred[|a.labels|] == []
    ensures r.labels[..|a.labels|] == a.labels && r.succ[..|a.labels|] == a.succ && r.pred[..|a.labels|] == a.pred
  {
    Arena(a.labels + [nodeLabel], a.succ + [[]], a.pred + [[]])
  }

  /** `from.addSuccessor(to)` (CFGNode.java:35-40). */
  function AddEdge(a: Arena, from: nat, to: nat): (r: Arena)
    requires WellFormed(a) && from < |a.labels| && to < |a.labels|
    ensures WellFormed(r)
    ensures r.labels == a.labels
    ensures to in r.succ[from] && from in r.pred[to]
    // a repeated call changes nothing, so no successor is listed twice
    ensures to in a.succ[from] ==> r == a
    ensures to !in a.succ[from] ==> r.succ[from] == a.succ[from] + [to] && r.pred[to] == a.pred[to] + [from]
    // no other list changes
    ensures forall i :: 0 <= i < |a.labels| && i != from ==> r.succ[i] == a.succ[i]
    ensures forall i :: 0 <= i < |a.labels| && i != to ==> r.pred[i] == a.pred[i]
  {
    if to in a.succ[from] then a
    else Arena(a.labels, a.succ[from := a.succ[from] + [to]], a.pred[to := a.pred[to] + [from]])
  }

  // ---------------------------------------------------------------------
  // Paths and reachability

  ghost predicate IsPath(g: Adjacency, p: seq<nat>)
  {
    && |p| > 0
    && (forall i :: 0 <= i < |p| ==> p[i] < |g|)
    && (forall i :: 0 < i < |p| ==> p[i] in g[p[i - 1]])
  }

  /** `to` can be reached from `from` by following successor edges. */
  ghost predicate Reachable(g: Adjacency, from: nat, to: nat)
  {
    exists p :: IsPath(g, p) && p[0] == from && p[|p| - 1] == to
  }

  lemma ReachableRefl(g: Adjacency, n: nat)
    requires n < |g|
    ensures Reachable(g, n, n)
  {
    assert IsPath(g, [n]);
  }

  /** An edge followed by a path is a path. */
  lemma {:induction false} ReachableStep(g: Adjacency, from: nat, mid: nat, to: nat)
    requires from < |g| && mid in g[from]
    requires Reachable(g, mid, to)
    ensures Reachable(g, from, to)
  {
    var p :| IsPath(g, p) && p[0] == mid && p[|p| - 1] == to;
    var q := [from] + p;
    assert forall i :: 0 < i < |q| ==> q[i] == p[i - 1];
    assert IsPath(g, q);
  }

  /** A path followed by an edge is a path. */
  lemma {:induction false} ReachableExtend(g: Adjacency, from: nat, mid: nat, to: nat)
    requires Reachable(g, from, mid)
    requires mid < |g| && to in g[mid] && to < |g|
    ensures Reachable(g, from, to)
  {
    var p :| IsPath(g, p) && p[0] == from && p[|p| - 1] == mid;
    var q := p + [to];
    assert IsPath(g, q);
  }

  /** The last step of a path to a node other than its start comes from a predecessor
      that is itself reachable. */
  lemma {:induction false} ReachableHasParent(g: Adjacency, from: nat, to: nat)
    requires Reachable(g, from, to) && to != from
    ensures exists p :: 0 <= p < |g| && to in g[p] && Reachable(g, from, p)
  {
    var path :| IsPath(g, path) && path[0] == from && path[|path| - 1] == to;
    var k := |path| - 1;
    assert k > 0;
    var prefix := path[..k];
    assert IsPath(g, prefix);
    assert to in g[path[k - 1]] && Reachable(g, from, path[k - 1]);
  }

  /** A node set that holds `from` and is closed under successors holds everything
      reachable from `from`. */
  lemma {:induction false} ClosedSetHoldsReachable(g: Adjacency, s: set<nat>, from: nat, to: nat)
    requires from in s
    requires forall x :: x in s && x < |g| ==> forall y :: y in g[x] ==> y in s
    requires Reachable(g, from, to)
    ensures to in s
  {
    var p :| IsPath(g, p) && p[0] == from && p[|p| - 1] == to;
    var i := 0;
    while i < |p| - 1
      invariant 0 <= i < |p|
      invariant p[i] in s
    {
      assert p[i + 1] in g[p[i]];
      i := i + 1;
    }
  }

  /** Adding nodes, and edges at the ends of the lists, keeps every path. */
  lemma ReachableGrows(g: Adjacency, h: Adjacency, from: nat, to: nat)
    requires |g| <= |h| && forall i :: 0 <= i < |g| ==> g[i] <= h[i]
    requires Reachable(g, from, to)
    ensures Reachable(h, from, to)
  {
    var p :| IsPath(g, p) && p[0] == from && p[|p| - 1] == to;
    forall i | 0 < i < |p| ensures p[i] in h[p[i - 1]] {
      assert p[i] in g[p[i - 1]];
      assert g[p[i - 1]] <= h[p[i - 1]];
    }
    assert IsPath(h, p);
  }

  // ---------------------------------------------------------------------
  // Depth-first post-order (CFGNode.getPostOrder / dfsPostOrder, CFGNode.java:55-72).
  // Successors are visited in list order; the source iterates a HashSet copy of
  // the list, whose order Java leaves unspecified.

  /** dfsPostOrder(node, order, visited): returns the new visited set and order. */
  function Dfs(g: Adjacency, node: nat, visited: set<nat>, order: seq<nat>): (r: (set<nat>, seq<nat>))
    requires Closed(g) && node < |g| && node !in visited && visited <= Nodes(g)
    ensures visited + {node} <= r.0 <= Nodes(g)
    decreases Nodes(g) - visited, 0, 0
  {
    assert node in Nodes(g) - visited;
    var inner := DfsList(g, node, g[node], visited + {node}, order);
    (inner.0, inner.1 + [node])
  }

  /** The loop of dfsPostOrder over the successors `ss` of `parent`. */
  function DfsList(g: Adjacency, parent: nat, ss: seq<nat>, visited: set<nat>, order: seq<nat>): (r: (set<nat>, seq<nat>))
    requires Closed(g) && visited <= Nodes(g)
    requires forall i :: 0 <= i < |ss| ==> ss[i] < |g|
    ensures visited <= r.0 <= Nodes(g)
    decreases Nodes(g) - visited, 1, |ss|
  {
    if ss == [] then (visited, order)
    else if ss[0] in visited then DfsList(g, parent, ss[1..], visited, order)
    else
      var next := Dfs(g, ss[0], visited, order);
      assert ss[0] in Nodes(g) - visited && ss[0] !in Nodes(g) - next.0;
      DfsList(g, parent, ss[1..], next.0, next.1)
  }

  /** getPostOrder(): the post-order of everything reachable from `start`. */
  function PostOrder(g: Adjacency, start: nat): seq<nat>
    requires Closed(g) && start < |g|
  {
    Dfs(g, start, {}, []).1
  }

  /** What one dfsPostOrder call adds: every node it newly visits, once, after
      the nodes already listed, with `node` last; each of them is reachable from
      `src`, and its successors are all visited by the time the call returns. */
  lemma {:induction false} DfsFacts(g: Adjacency, src: nat, node: nat, visited: set<nat>, order: seq<nat>)
    requires Closed(g) && node < |g| && node !in visited && visited <= Nodes(g)
    requires NoDup(order) && forall x :: x in order ==> x in visited
    requires Reachable(g, src, node)
    ensures var r := Dfs(g, node, visited, order);
      && |r.1| > |order| && r.1[..|order|] == order
      && r.1[|r.1| - 1] == node
      && NoDup(r.1)
      && (forall x :: x in r.1 <==> x in order || x in r.0 - visited)
      && (forall x :: x in r.0 - visited ==> forall y :: y in g[x] ==> y in r.0)
      && (forall x :: x in r.0 - visited ==> Reachable(g, src, x))
    decreases Nodes(g) - visited, 0, 0
  {
    var v1 := visited + {node};
    assert node in Nodes(g) - visited;
    forall s | s in g[node] ensures Reachable(g, src, s) {
      ReachableExtend(g, src, node, s);
    }
    DfsListFacts(g, src, node, g[node], v1, order);
    var inner := DfsList(g, node, g[node], v1, order);
    var r := Dfs(g, node, visited, order);
    assert r == (inner.0, inner.1 + [node]);
    assert node !in inner.1;
    assert r.1[..|order|] == inner.1[..|order|];
    forall x | x in r.0 - visited ensures Reachable(g, src, x) {
      if x == node { } else { assert x in inner.0 - v1; }
    }
  }

  /** What the successor loop of one dfsPostOrder call adds. */
  lemma {:induction false} DfsListFacts(g: Adjacency, src: nat, parent: nat, ss: seq<nat>, visited: set<nat>, order: seq<nat>)
    requires Closed(g) && visited <= Nodes(g)
    requires forall i :: 0 <= i < |ss| ==> ss[i] < |g| && Reachable(g, src, ss[i])
    requires NoDup(order) && forall x :: x in order ==> x in visited
    ensures var r := DfsList(g, parent, ss, visited, order);
      && |r.1| >= |order| && r.1[..|order|] == order
      && NoDup(r.1)
      && (forall x :: x in r.1 <==> x in order || x in r.0 - visited)
      && (forall s :: s in ss ==> s in r.0)
      && (forall x :: x in r.0 - visited ==> forall y :: y in g[x] ==> y in r.0)
      && (forall x :: x in r.0 - visited ==> Reachable(g, src, x))
    decreases Nodes(g) - visited, 1, |ss|
  {
    if ss == [] {
    } else if ss[0] in visited {
      DfsListFacts(g, src, parent, ss[1..], visited, order);
    } else {
      var next := Dfs(g, ss[0], visited, order);
      DfsFacts(g, src, ss[0], visited, order);
      assert ss[0] in Nodes(g) - visited && ss[0] !in Nodes(g) - next.0;
      DfsListFacts(g, src, parent, ss[1..], next.0, next.1);
      var r := DfsList(g, parent, ss[1..], next.0, next.1);
      assert r == DfsList(g, parent, ss, visited, order);
      assert r.1[..|order|] == r.1[..|next.1|][..|order|];
      forall s | s in ss ensures s in r.0 {
        if s != ss[0] { assert s in ss[1..]; }
      }
    }
  }

  /** getPostOrder() lists every node reachable from `start` exactly once and
      nothing else, and `start` comes last. */
  lemma PostOrderCorrect(g: Adjacency, start: nat)
    requires Closed(g) && start < |g|
    ensures var order := PostOrder(g, start);
      && |order| > 0
      && NoDup(order)
      && order[|order| - 1] == start
      && (forall x: nat :: x in order <==> x < |g| && Reachable(g, start, x))
  {
    ReachableRefl(g, start);
    DfsFacts(g, start, start, {}, []);
    var r := Dfs(g, start, {}, []);
    forall x: nat | x < |g| && Reachable(g, start, x) ensures x in r.1 {
      ClosedSetHoldsReachable(g, r.0, start, x);
    }
  }
}
