/** Properties of CFGBuilder's lowering (CFGNode.java:92-314), proved about
    the functions of module Lowering. */
module LoweringProps {
  import opened Util
  import opened Ast
  import opened Graph
  import opened Lowering

  // ---------------------------------------------------------------------
  // Regions: every lowering step makes nodes at the end of the arena and
  // links them only to each other.

  /** No edge leaves the nodes numbered `lo` and up. */
  ghost predicate ClosedFrom(g: Adjacency, lo: nat)
  {
    forall i, j :: lo <= i < |g| && 0 <= j < |g[i]| ==> lo <= g[i][j]
  }

  /** Every node has both edge lists. */
  ghost predicate Sized(a: Arena)
  {
    |a.succ| == |a.labels| && |a.pred| == |a.labels|
  }

  /** `b` is `a` with more nodes and more edges: labels stay, edge lists only
      grow at their ends, nodes below `lo` keep both edge lists, and no edge
      leaves the nodes from `lo` up. */
  ghost predicate Extends(a: Arena, b: Arena, lo: nat)
  {
    && Sized(a) && Sized(b)
    && lo <= |a.labels| <= |b.labels|
    && (forall i :: 0 <= i < |a.labels| ==> b.labels[i] == a.labels[i] && a.succ[i] <= b.succ[i])
    && (forall i :: 0 <= i < lo ==> b.succ[i] == a.succ[i] && b.pred[i] == a.pred[i])
    && ClosedFrom(b.succ, lo)
  }

  lemma ExtendsRefl(a: Arena, lo: nat)
    requires WellFormed(a) && lo <= |a.labels| && ClosedFrom(a.succ, lo)
    ensures Extends(a, a, lo)
  {
  }

  lemma ExtendsTrans(a: Arena, b: Arena, c: Arena, lo: nat)
    requires Extends(a, b, lo) && Extends(b, c, lo)
    ensures Extends(a, c, lo)
  {
    forall i | 0 <= i < |a.labels|
      ensures c.labels[i] == a.labels[i] && a.succ[i] <= c.succ[i]
    {
      assert a.succ[i] <= b.succ[i] && b.succ[i] <= c.succ[i];
    }
  }

  /** A step that keeps the nodes below `hi` keeps those below `lo <= hi`, and
      closes the nodes from `lo` up when `a` did. */
  lemma ExtendsWiden(a: Arena, b: Arena, lo: nat, hi: nat)
    requires Extends(a, b, hi) && lo <= hi && ClosedFrom(a.succ, lo)
    ensures Extends(a, b, lo)
  {
    forall i, j | lo <= i < |b.succ| && 0 <= j < |b.succ[i]|
      ensures lo <= b.succ[i][j]
    {
      if i < hi {
        assert b.succ[i] == a.succ[i];
      }
    }
  }

  lemma AddNodeExtends(a: Arena, lo: nat)
    requires WellFormed(a) && lo <= |a.labels| && ClosedFrom(a.succ, lo)
    ensures forall l :: Extends(a, AddNode(a, l), lo)
  {
    forall l ensures Extends(a, AddNode(a, l), lo) {
      var r := AddNode(a, l);
      forall i | 0 <= i < |a.labels|
        ensures r.labels[i] == a.labels[i] && r.succ[i] == a.succ[i] && r.pred[i] == a.pred[i]
      {
        assert r.labels[..|a.labels|][i] == a.labels[i];
        assert r.succ[..|a.labels|][i] == a.succ[i];
        assert r.pred[..|a.labels|][i] == a.pred[i];
      }
    }
  }

  /** An edge keeps the nodes from `lo` up closed when it starts below `lo`
      or ends at `lo` or above. */
  lemma AddEdgeClosed(a: Arena, from: nat, to: nat, lo: nat)
    requires WellFormed(a) && from < |a.labels| && to < |a.labels| && ClosedFrom(a.succ, lo)
    requires from < lo || lo <= to
    ensures ClosedFrom(AddEdge(a, from, to).succ, lo)
    ensures Extends(a, AddEdge(a, from, to), 0)
  {
    var r := AddEdge(a, from, to);
    forall i, j | lo <= i < |r.succ| && 0 <= j < |r.succ[i]|
      ensures lo <= r.succ[i][j]
    {
      if i != from || to in a.succ[from] {
        assert r.succ[i] == a.succ[i];
      } else {
        assert r.succ[i] == a.succ[i] + [to];
      }
    }
  }

  /** An edge between two nodes from `lo` up is a step that keeps the nodes below `lo`. */
  lemma AddEdgeExtends(a: Arena, from: nat, to: nat, lo: nat)
    requires WellFormed(a) && from < |a.labels| && to < |a.labels|
    requires lo <= |a.labels| && ClosedFrom(a.succ, lo) && lo <= from && lo <= to
    ensures Extends(a, AddEdge(a, from, to), lo)
  {
    AddEdgeClosed(a, from, to, lo);
  }

  /** Nothing outside a closed region is reachable from inside it. */
  lemma ReachStaysIn(g: Adjacency, lo: nat, from: nat, to: nat)
    requires Closed(g) && ClosedFrom(g, lo) && lo <= from < |g|
    requires Reachable(g, from, to)
    ensures lo <= to
  {
    var s := Nodes(g) - Below(lo);
    forall x | x in s && x < |g|
      ensures forall y :: y in g[x] ==> y in s
    {
      forall y | y in g[x] ensures y in s {
        var j :| 0 <= j < |g[x]| && g[x][j] == y;
      }
    }
    ClosedSetHoldsReachable(g, s, from, to);
  }

  // ---------------------------------------------------------------------
  // getLastNode (CFGNode.java:212-253)

  lemma {:induction false} ForExitReach(a: Arena, queue: seq<nat>, visited: set<nat>, forInit: nat)
    requires WellFormed(a) && forInit < |a.labels| && AllNodes(a, queue) && visited <= Nodes(a.succ)
    requires forall i :: 0 <= i < |queue| ==> Reachable(a.succ, forInit, queue[i])
    ensures var r := ForExitBfs(a, queue, visited, forInit);
      r == forInit || Reachable(a.succ, forInit, r)
    decreases Nodes(a.succ) - visited, |queue|
  {
    if queue != [] {
      var cur := queue[0];
      if a.labels[cur] != ForExit {
        if cur !in visited {
          var q := queue[1..] + a.succ[cur];
          forall i | 0 <= i < |q| ensures Reachable(a.succ, forInit, q[i]) {
            if i >= |queue| - 1 {
              assert q[i] == a.succ[cur][i - (|queue| - 1)];
              ReachableExtend(a.succ, forInit, cur, q[i]);
            } else {
              assert q[i] == queue[i + 1];
            }
          }
          assert cur in Nodes(a.succ) - visited;
          ForExitReach(a, q, visited + {cur}, forInit);
        } else {
          ForExitReach(a, queue[1..], visited, forInit);
        }
      }
    }
  }

  /** When findForExitNode's search ends without a FOR_EXIT, there is none to
      find: the visited nodes are not FOR_EXIT and each visited node's
      successors are visited or still queued. */
  lemma {:induction false} ForExitComplete(a: Arena, queue: seq<nat>, visited: set<nat>, forInit: nat)
    requires WellFormed(a) && forInit < |a.labels| && AllNodes(a, queue) && visited <= Nodes(a.succ)
    requires forall v :: v in visited ==> a.labels[v] != ForExit
    requires forall v, s :: v in visited && s in a.succ[v] ==> s in visited || s in queue
    requires forInit in visited || forInit in queue
    ensures var r := ForExitBfs(a, queue, visited, forInit);
      a.labels[r] != ForExit ==> forall x: nat :: x < |a.labels| && Reachable(a.succ, forInit, x) ==> a.labels[x] != ForExit
    decreases Nodes(a.succ) - visited, |queue|
  {
    var r := ForExitBfs(a, queue, visited, forInit);
    if queue == [] {
      forall x: nat | x < |a.labels| && Reachable(a.succ, forInit, x) ensures a.labels[x] != ForExit {
        ClosedSetHoldsReachable(a.succ, visited, forInit, x);
      }
    } else {
      var cur := queue[0];
      assert queue == [cur] + queue[1..];
      if a.labels[cur] != ForExit {
        if cur !in visited {
          var q := queue[1..] + a.succ[cur];
          assert cur in Nodes(a.succ) - visited;
          ForExitComplete(a, q, visited + {cur}, forInit);
        } else {
          ForExitComplete(a, queue[1..], visited, forInit);
        }
      }
    }
  }

  /** getLastNode: an IF_CONDITION maps to an IF_JOIN within two successor
      steps when there is one and to itself otherwise; a FOR_INIT maps to a
      reachable FOR_EXIT when there is one and to itself otherwise; any other
      node maps to itself. */
  lemma LastNodeSpec(a: Arena, n: nat)
    requires WellFormed(a) && n < |a.labels|
    ensures var r := LastNode(a, n);
      && (a.labels[n] == IfCondition && (exists s :: s in a.succ[n] && JoinNear(a, s)) ==>
            a.labels[r] == IfJoin && (r in a.succ[n] || exists s :: s in a.succ[n] && r in a.succ[s]))
      && (a.labels[n] == IfCondition && (forall s :: s in a.succ[n] ==> !JoinNear(a, s)) ==> r == n)
      && (a.labels[n] == ForInit ==>
            (a.labels[r] == ForExit && Reachable(a.succ, n, r))
            || (r == n && forall x: nat :: x < |a.labels| && Reachable(a.succ, n, x) ==> a.labels[x] != ForExit))
      && (a.labels[n] != IfCondition && a.labels[n] != ForInit ==> r == n)
  {
    if a.labels[n] == ForInit {
      ReachableRefl(a.succ, n);
      ForExitReach(a, [n], {}, n);
      ForExitComplete(a, [n], {}, n);
    }
  }

  /** getLastNode never leaves the statement: its answer is reachable from its argument. */
  lemma LastNodeReach(a: Arena, n: nat)
    requires WellFormed(a) && n < |a.labels|
    ensures LastNode(a, n) == n || Reachable(a.succ, n, LastNode(a, n))
  {
    var r := LastNode(a, n);
    if a.labels[n] == IfCondition && r != n {
      if r in a.succ[n] {
        ReachableRefl(a.succ, r);
        ReachableStep(a.succ, n, r, r);
      } else {
        var s :| s in a.succ[n] && r in a.succ[s];
        ReachableRefl(a.succ, r);
        ReachableStep(a.succ, s, r, r);
        ReachableStep(a.succ, n, s, r);
      }
    } else if a.labels[n] == ForInit {
      ReachableRefl(a.succ, n);
      ForExitReach(a, [n], {}, n);
    }
  }

  lemma LastNodeIn(a: Arena, n: nat, lo: nat)
    requires WellFormed(a) && ClosedFrom(a.succ, lo) && lo <= n < |a.labels|
    ensures lo <= LastNode(a, n)
  {
    LastNodeReach(a, n);
    if LastNode(a, n) != n {
      ReachStaysIn(a.succ, lo, n, LastNode(a, n));
    }
  }

  // ---------------------------------------------------------------------
  // findLastExecutionNode (CFGNode.java:130-168)

  lemma {:induction false} LastExecutionReach(a: Arena, queue: seq<nat>, visited: set<nat>, last: nat, start: nat)
    requires WellFormed(a) && last < |a.labels| && AllNodes(a, queue) && visited <= Nodes(a.succ)
    requires Reachable(a.succ, start, last)
    requires forall i :: 0 <= i < |queue| ==> Reachable(a.succ, start, queue[i])
    ensures Reachable(a.succ, start, LastExecutionBfs(a, queue, visited, last))
    ensures var r := LastExecutionBfs(a, queue, visited, last); r == last || EndLabel(a.labels[r])
    decreases Nodes(a.succ) - visited, CountVisited(queue, visited)
  {
    if queue != [] {
      var cur := queue[0];
      var visited' := visited + {cur};
      var last' := if TerminalCandidate(a, cur, visited') then cur else last;
      var newOnes := Unvisited(a.succ[cur], visited');
      var queue' := queue[1..] + newOnes;
      forall i | 0 <= i < |queue'| ensures Reachable(a.succ, start, queue'[i]) {
        if i >= |queue| - 1 {
          assert queue'[i] == newOnes[i - (|queue| - 1)];
          ReachableExtend(a.succ, start, cur, queue'[i]);
        } else {
          assert queue'[i] == queue[i + 1];
        }
      }
      if cur in visited {
        CountVisitedAppend(queue[1..], newOnes, visited');
        CountVisitedNone(newOnes, visited');
        assert visited' == visited;
        assert CountVisited(queue, visited) == 1 + CountVisited(queue[1..], visited);
      } else {
        assert cur in Nodes(a.succ) - visited;
      }
      LastExecutionReach(a, queue', visited', last', start);
    }
  }

  /** The labels findLastExecutionNode accepts for its answer: neither a
      loop's condition nor its update. */
  predicate EndLabel(l: string)
  {
    !StartsWith(l, ForCondition) && l != ForUpdate
  }

  /** findLastExecutionNode answers with a node reachable from where it
      starts: the start itself, or a node that is neither a loop's condition
      nor its update. */
  lemma LastExecutionIn(a: Arena, start: nat)
    requires WellFormed(a) && start < |a.labels|
    ensures Reachable(a.succ, start, FindLastExecution(a, start))
    ensures var r := FindLastExecution(a, start); r == start || EndLabel(a.labels[r])
  {
    ReachableRefl(a.succ, start);
    if a.succ[start] != [] {
      LastExecutionReach(a, [start], {}, start, start);
    }
  }

  // ---------------------------------------------------------------------
  // Every lowering step is an extension that keeps the nodes made before it

  /** The labels a statement's first node can carry. */
  predicate StatementLabel(l: string)
  {
    l == IfCondition || l == ForInit || l == PrintStmt || l == ExprStmt || l == VarDeclLabel || l == UnknownStmt
  }

  lemma {:induction false} LowerStmtExtends(a: Arena, s: Stmt)
    requires WellFormed(a)
    ensures var r := LowerStmt(a, s);
      Extends(a, r.0, |a.labels|) && StatementLabel(r.0.labels[r.1])
    decreases s, 1
  {
    match s
    case IfStmt(_, _, _) => LowerIfExtends(a, s);
    case ForStmt(_, _, _, _) => LowerForExtends(a, s);
    case _ => AddNodeExtends(a, |a.labels|);
  }

  lemma {:induction false} LowerIfExtends(a: Arena, s: Stmt)
    requires WellFormed(a) && s.IfStmt?
    ensures var r := LowerIf(a, s).0;
      Extends(a, r, |a.labels|) && r.labels[|a.labels|] == IfCondition && r.labels[|a.labels| + 1] == IfJoin
    decreases s, 0
  {
    var lo := |a.labels|;
    var (a1, cond) := NewNode(a, IfCondition);
    var (a2, join) := NewNode(a1, IfJoin);
    AddNodeExtends(a, lo);
    AddNodeExtends(a1, lo);
    ExtendsTrans(a, a1, a2, lo);
    var a3 := LowerBranch(a2, s.thenBlock, cond, join);
    LowerBranchExtends(a2, s.thenBlock, cond, join, lo);
    ExtendsTrans(a, a2, a3, lo);
    ExtendsTrans(a1, a2, a3, lo);
    match s.elseBlock
    case Some(elseBlock) =>
      LowerBranchExtends(a3, elseBlock, cond, join, lo);
      ExtendsTrans(a, a3, LowerBranch(a3, elseBlock, cond, join), lo);
      ExtendsTrans(a1, a3, LowerBranch(a3, elseBlock, cond, join), lo);
    case None =>
      AddEdgeExtends(a3, cond, join, lo);
      ExtendsTrans(a, a3, AddEdge(a3, cond, join), lo);
      ExtendsTrans(a1, a3, AddEdge(a3, cond, join), lo);
  }

  lemma {:induction false} LowerBranchExtends(a: Arena, b: Block, cond: nat, join: nat, lo: nat)
    requires WellFormed(a) && lo <= cond < |a.labels| && lo <= join < |a.labels| && ClosedFrom(a.succ, lo)
    ensures Extends(a, LowerBranch(a, b, cond, join), lo)
    decreases b, 1
  {
    var (a1, first) := LowerBlock(a, b);
    LowerBlockExtends(a, b);
    ExtendsWiden(a, a1, lo, |a.labels|);
    var a2 := AddEdge(a1, cond, first);
    AddEdgeExtends(a1, cond, first, lo);
    ExtendsTrans(a, a1, a2, lo);
    LastNodeIn(a2, first, lo);
    AddEdgeExtends(a2, LastNode(a2, first), join, lo);
    ExtendsTrans(a, a2, AddEdge(a2, LastNode(a2, first), join), lo);
  }

  lemma {:induction false} LowerForExtends(a: Arena, s: Stmt)
    requires WellFormed(a) && s.ForStmt?
    ensures var r := LowerFor(a, s).0;
      && Extends(a, r, |a.labels|)
      && r.labels[|a.labels|] == ForInit && r.labels[|a.labels| + 1] == ForCondition
      && r.labels[|a.labels| + 2] == ForUpdate && r.labels[|a.labels| + 3] == ForExit
    decreases s, 0
  {
    var lo := |a.labels|;
    var (a1, init) := NewNode(a, ForInit);
    var (a2, cond) := NewNode(a1, ForCondition);
    var (a3, update) := NewNode(a2, ForUpdate);
    var (a4, exit) := NewNode(a3, ForExit);
    AddNodeExtends(a, lo);
    AddNodeExtends(a1, lo);
    AddNodeExtends(a2, lo);
    AddNodeExtends(a3, lo);
    ExtendsTrans(a, a1, a2, lo);
    ExtendsTrans(a, a2, a3, lo);
    ExtendsTrans(a, a3, a4, lo);
    assert a4.labels[init] == ForInit && a4.labels[cond] == ForCondition;
    assert a4.labels[update] == ForUpdate && a4.labels[exit] == ForExit;
    var (a5, body) := LowerBlock(a4, s.body);
    LowerBlockExtends(a4, s.body);
    ExtendsWiden(a4, a5, lo, |a4.labels|);
    LinkForExtends(a5, init, cond, update, exit, body, lo);
    ExtendsTrans(a4, a5, LinkFor(a5, init, cond, update, exit, body), lo);
    ExtendsTrans(a, a4, LinkFor(a5, init, cond, update, exit, body), lo);
  }

  lemma LinkForExtends(a: Arena, init: nat, cond: nat, update: nat, exit: nat, body: nat, lo: nat)
    requires WellFormed(a) && lo <= |a.labels| && ClosedFrom(a.succ, lo)
    requires lo <= init < |a.labels| && lo <= cond < |a.labels| && lo <= update < |a.labels|
    requires lo <= exit < |a.labels| && lo <= body < |a.labels|
    ensures Extends(a, LinkFor(a, init, cond, update, exit, body), lo)
  {
    var a1 := AddEdge(a, init, cond);
    AddEdgeExtends(a, init, cond, lo);
    var a2 := AddEdge(a1, cond, body);
    AddEdgeExtends(a1, cond, body, lo);
    ExtendsTrans(a, a1, a2, lo);
    LastNodeIn(a2, body, lo);
    var a3 := AddEdge(a2, LastNode(a2, body), update);
    AddEdgeExtends(a2, LastNode(a2, body), update, lo);
    ExtendsTrans(a, a2, a3, lo);
    var a4 := AddEdge(a3, update, cond);
    AddEdgeExtends(a3, update, cond, lo);
    ExtendsTrans(a, a3, a4, lo);
    AddEdgeExtends(a4, cond, exit, lo);
    ExtendsTrans(a, a4, AddEdge(a4, cond, exit), lo);
  }

  lemma {:induction false} LowerBlockExtends(a: Arena, b: Block)
    requires WellFormed(a)
    ensures var r := LowerBlock(a, b);
      Extends(a, r.0, |a.labels|) && (StatementLabel(r.0.labels[r.1]) || r.0.labels[r.1] == EmptyBlock)
    decreases b, 0
  {
    if b.statements == [] {
      AddNodeExtends(a, |a.labels|);
    } else {
      LowerStmtsExtends(a, b.statements, None, None, |a.labels|);
    }
  }

  lemma {:induction false} LowerStmtsExtends(a: Arena, stmts: seq<Stmt>, first: Option<nat>, prev: Option<nat>, lo: nat)
    requires WellFormed(a) && lo <= |a.labels| && ClosedFrom(a.succ, lo)
    requires first.Some? ==> first.value < |a.labels|
    requires prev.Some? ==> lo <= prev.value < |a.labels|
    ensures var r := LowerStmts(a, stmts, first, prev);
      Extends(a, r.0, lo) && (first.None? && stmts != [] ==> StatementLabel(r.0.labels[|a.labels|]))
    decreases stmts
  {
    if stmts == [] {
      ExtendsRefl(a, lo);
    } else {
      var (a1, cur) := LowerStmt(a, stmts[0]);
      LowerStmtExtends(a, stmts[0]);
      ExtendsWiden(a, a1, lo, |a.labels|);
      var first' := if first.None? then Some(cur) else first;
      var a2 := if prev.Some? then AddEdge(a1, LastNode(a1, prev.value), cur) else a1;
      if prev.Some? {
        LastNodeIn(a1, prev.value, lo);
        AddEdgeExtends(a1, LastNode(a1, prev.value), cur, lo);
        ExtendsTrans(a, a1, a2, lo);
      }
      LowerStmtsExtends(a2, stmts[1..], first', Some(cur), lo);
      ExtendsTrans(a, a2, LowerStmts(a2, stmts[1..], first', Some(cur)).0, lo);
    }
  }

  // ---------------------------------------------------------------------
  // The shapes the lowering builds

  /** The facts about AddNode the shape lemmas use: the new node has no edges
      and the old nodes keep theirs. */
  lemma AddNodeFacts(a: Arena, nodeLabel: string)
    requires WellFormed(a)
    ensures var r := AddNode(a, nodeLabel);
      && r.labels[|a.labels|] == nodeLabel && r.succ[|a.labels|] == [] && r.pred[|a.labels|] == []
      && forall i :: 0 <= i < |a.labels| ==> r.labels[i] == a.labels[i] && r.succ[i] == a.succ[i] && r.pred[i] == a.pred[i]
  {
    AddNodeExtends(a, |a.labels|);
  }

  /** One branch of buildFromIf (CFGNode.java:276-280 and 283-287): the
      block's first node, the first one made, is appended to the condition's
      successors, and one node reachable from it, made for the block, is
      appended to the join's predecessors; no other edge list of an old node
      changes. */
  lemma BranchShape(a: Arena, b: Block, cond: nat, join: nat)
    requires WellFormed(a) && cond < |a.labels| && join < |a.labels|
    ensures var r := LowerBranch(a, b, cond, join);
      var n, k := |a.labels|, |a.pred[join]|;
      && Extends(a, r, 0)
      && (forall i :: 0 <= i < n && i != cond ==> r.succ[i] == a.succ[i])
      && (forall i :: 0 <= i < n && i != join ==> r.pred[i] == a.pred[i])
      && r.succ[cond] == a.succ[cond] + [n]
      && |r.pred[join]| == k + 1 && r.pred[join][..k] == a.pred[join]
      && n <= r.pred[join][k] && Reachable(r.succ, n, r.pred[join][k])
  {
    var n := |a.labels|;
    var (a1, first) := LowerBlock(a, b);
    LowerBlockExtends(a, b);
    BranchEdges(a, a1, cond, join);
  }

  /** The two edges of one branch of buildFromIf, added once the block, from
      node `|a.labels|` up, is lowered into `a1`. */
  lemma BranchEdges(a: Arena, a1: Arena, cond: nat, join: nat)
    requires WellFormed(a) && WellFormed(a1) && Extends(a, a1, |a.labels|) && |a.labels| < |a1.labels|
    requires cond < |a.labels| && join < |a.labels|
    ensures var a2 := AddEdge(a1, cond, |a.labels|);
      var r := AddEdge(a2, LastNode(a2, |a.labels|), join);
      var n, k := |a.labels|, |a.pred[join]|;
      && Extends(a, r, 0)
      && (forall i :: 0 <= i < n && i != cond ==> r.succ[i] == a.succ[i])
      && (forall i :: 0 <= i < n && i != join ==> r.pred[i] == a.pred[i])
      && r.succ[cond] == a.succ[cond] + [n]
      && |r.pred[join]| == k + 1 && r.pred[join][..k] == a.pred[join]
      && n <= r.pred[join][k] && Reachable(r.succ, n, r.pred[join][k])
  {
    var n := |a.labels|;
    ExtendsWiden(a, a1, 0, n);
    assert n !in a1.succ[cond] by {
      assert a1.succ[cond] == a.succ[cond];
    }
    var a2 := AddEdge(a1, cond, n);
    AddEdgeClosed(a1, cond, n, n);
    ExtendsTrans(a, a1, a2, 0);
    var x := LastNode(a2, n);
    LastNodeIn(a2, n, n);
    LastNodeReach(a2, n);
    assert a2.pred[join] == a.pred[join];
    LastEdge(a, a2, x, join);
  }

  /** The edge from the branch's last node `x`, a new node, to the join. */
  lemma LastEdge(a: Arena, a2: Arena, x: nat, join: nat)
    requires WellFormed(a) && WellFormed(a2) && Extends(a, a2, 0)
    requires |a.labels| <= x < |a2.labels| && join < |a.labels| && a2.pred[join] == a.pred[join]
    requires x == |a.labels| || Reachable(a2.succ, |a.labels|, x)
    ensures var r := AddEdge(a2, x, join);
      var n, k := |a.labels|, |a.pred[join]|;
      && Extends(a, r, 0)
      && (forall i :: 0 <= i < |a2.labels| && i != x ==> r.succ[i] == a2.succ[i])
      && (forall i :: 0 <= i < |a2.labels| && i != join ==> r.pred[i] == a2.pred[i])
      && r.pred[join] == a.pred[join] + [x]
      && |r.pred[join]| == k + 1 && r.pred[join][..k] == a.pred[join]
      && n <= r.pred[join][k] && Reachable(r.succ, n, r.pred[join][k])
  {
    var n := |a.labels|;
    assert x !in a2.pred[join] by {
      assert forall p :: p in a.pred[join] ==> p < |a.labels|;
    }
    assert join !in a2.succ[x];
    var r := AddEdge(a2, x, join);
    AddEdgeClosed(a2, x, join, 0);
    ExtendsTrans(a, a2, r, 0);
    assert r.pred[join] == a.pred[join] + [x];
    if x == n {
      ReachableRefl(r.succ, n);
    } else {
      ReachableGrows(a2.succ, r.succ, n, x);
    }
  }

  /** An extension keeps every path. */
  lemma ExtendsReach(a: Arena, b: Arena, lo: nat, x: nat, y: nat)
    requires Extends(a, b, lo) && Reachable(a.succ, x, y)
    ensures Reachable(b.succ, x, y)
  {
    ReachableGrows(a.succ, b.succ, x, y);
  }

  /** A new edge keeps every path. */
  lemma AddEdgeReach(a: Arena, from: nat, to: nat, x: nat, y: nat)
    requires WellFormed(a) && from < |a.labels| && to < |a.labels|
    requires Reachable(a.succ, x, y)
    ensures Reachable(AddEdge(a, from, to).succ, x, y)
  {
    AddEdgeClosed(a, from, to, 0);
    ExtendsReach(a, AddEdge(a, from, to), 0, x, y);
  }

  /** The arena buildFromIf has after the then-branch. */
  ghost function AfterThen(a: Arena, s: Stmt): Arena
    requires WellFormed(a) && s.IfStmt?
  {
    LowerBranch(AddNode(AddNode(a, IfCondition), IfJoin), s.thenBlock, |a.labels|, |a.labels| + 1)
  }

  lemma AfterThenShape(a: Arena, s: Stmt)
    requires WellFormed(a) && s.IfStmt?
    ensures var r := AfterThen(a, s);
      var cond, join := |a.labels|, |a.labels| + 1;
      && |r.labels| > join + 1
      && r.labels[cond] == IfCondition && r.labels[join] == IfJoin
      && r.succ[cond] == [join + 1] && r.pred[cond] == [] && r.succ[join] == []
      && |r.pred[join]| == 1 && Reachable(r.succ, join + 1, r.pred[join][0])
  {
    var a1 := AddNode(a, IfCondition);
    AddNodeFacts(a, IfCondition);
    var a2 := AddNode(a1, IfJoin);
    AddNodeFacts(a1, IfJoin);
    BranchShape(a2, s.thenBlock, |a.labels|, |a.labels| + 1);
  }

  /** The shape buildFromIf (CFGNode.java:273-294) gives the statement whose
      IF_CONDITION is node `n`. The condition's successors are the then-block's
      first node (`n + 2`) followed by IF_JOIN (`n + 1`, no else-block) or by
      the else-block's first node; nothing enters the condition; IF_JOIN has
      no successors yet and two predecessors: getLastNode of the then-block's
      first node, which is reachable from it, then the condition (no
      else-block) or getLastNode of the else-block's first node. Since
      buildFromBlock returns its first statement's node, these need not be
      where the blocks end (module BlockExits). */
  ghost predicate IfShaped(r: Arena, n: nat, hasElse: bool)
    requires WellFormed(r) && n + 2 < |r.labels|
  {
    var cond, join, thenFirst := n, n + 1, n + 2;
    && r.labels[cond] == IfCondition && r.labels[join] == IfJoin
    && |r.succ[cond]| == 2 && r.succ[cond][0] == thenFirst && r.pred[cond] == []
    && r.succ[join] == [] && |r.pred[join]| == 2
    && Reachable(r.succ, thenFirst, r.pred[join][0])
    && (!hasElse ==> r.succ[cond][1] == join && r.pred[join][1] == cond)
    && (hasElse ==> thenFirst < r.succ[cond][1] && Reachable(r.succ, r.succ[cond][1], r.pred[join][1]))
  }

  lemma IfShape(a: Arena, s: Stmt)
    requires WellFormed(a) && s.IfStmt?
    ensures var r := LowerIf(a, s).0;
      |a.labels| + 2 < |r.labels| && IfShaped(r, |a.labels|, s.elseBlock.Some?)
  {
    if s.elseBlock.None? {
      IfNoElseShape(a, s);
    } else {
      IfElseShape(a, s);
    }
  }

  lemma IfNoElseShape(a: Arena, s: Stmt)
    requires WellFormed(a) && s.IfStmt? && s.elseBlock.None?
    ensures var r := LowerIf(a, s).0;
      |a.labels| + 2 < |r.labels| && IfShaped(r, |a.labels|, false)
  {
    var cond, join := |a.labels|, |a.labels| + 1;
    var a3 := AfterThen(a, s);
    AfterThenShape(a, s);
    assert LowerIf(a, s).0 == AddEdge(a3, cond, join);
    JoinEdge(a3, cond, join);
  }

  /** The edge from the condition straight to the join, on top of the facts
      of AfterThenShape. */
  lemma JoinEdge(a3: Arena, cond: nat, join: nat)
    requires WellFormed(a3) && join == cond + 1 && |a3.labels| > join + 1
    requires a3.labels[cond] == IfCondition && a3.labels[join] == IfJoin
    requires a3.succ[cond] == [join + 1] && a3.pred[cond] == [] && a3.succ[join] == []
    requires |a3.pred[join]| == 1 && Reachable(a3.succ, join + 1, a3.pred[join][0])
    ensures IfShaped(AddEdge(a3, cond, join), cond, false)
  {
    AddEdgeReach(a3, cond, join, join + 1, a3.pred[join][0]);
  }

  lemma IfElseShape(a: Arena, s: Stmt)
    requires WellFormed(a) && s.IfStmt? && s.elseBlock.Some?
    ensures var r := LowerIf(a, s).0;
      |a.labels| + 2 < |r.labels| && IfShaped(r, |a.labels|, true)
  {
    IfElseUnfold(a, s);
    ElseBranchShape(a, s);
  }

  /** buildFromIf with an else-block ends with the else-branch. */
  lemma IfElseUnfold(a: Arena, s: Stmt)
    requires WellFormed(a) && s.IfStmt? && s.elseBlock.Some?
    ensures LowerIf(a, s).0 == LowerBranch(AfterThen(a, s), s.elseBlock.value, |a.labels|, |a.labels| + 1)
  {
  }

  /** The else-branch step of buildFromIf, on the arena after the then-branch. */
  lemma ElseBranchShape(a: Arena, s: Stmt)
    requires WellFormed(a) && s.IfStmt? && s.elseBlock.Some?
    ensures var r := LowerBranch(AfterThen(a, s), s.elseBlock.value, |a.labels|, |a.labels| + 1);
      |a.labels| + 2 < |r.labels| && IfShaped(r, |a.labels|, true)
  {
    var cond, join := |a.labels|, |a.labels| + 1;
    var a3 := AfterThen(a, s);
    AfterThenShape(a, s);
    var r := LowerBranch(a3, s.elseBlock.value, cond, join);
    BranchShape(a3, s.elseBlock.value, cond, join);
    SecondBranch(a3, r, cond, join);
  }

  /** A second branch added after the first: the facts of BranchShape on
      top of those of AfterThenShape. */
  lemma SecondBranch(a3: Arena, r: Arena, cond: nat, join: nat)
    requires WellFormed(r) && join == cond + 1 && |a3.labels| > join + 1 && Extends(a3, r, 0)
    requires a3.labels[cond] == IfCondition && a3.labels[join] == IfJoin
    requires a3.succ[cond] == [join + 1] && a3.pred[cond] == [] && a3.succ[join] == []
    requires |a3.pred[join]| == 1 && Reachable(a3.succ, join + 1, a3.pred[join][0])
    requires forall i :: 0 <= i < |a3.labels| && i != cond ==> r.succ[i] == a3.succ[i]
    requires forall i :: 0 <= i < |a3.labels| && i != join ==> r.pred[i] == a3.pred[i]
    requires r.succ[cond] == a3.succ[cond] + [|a3.labels|]
    requires |r.pred[join]| == 2 && r.pred[join][..1] == a3.pred[join]
    requires Reachable(r.succ, |a3.labels|, r.pred[join][1])
    ensures IfShaped(r, cond, true)
  {
    assert r.pred[join][0] == r.pred[join][..1][0];
    ExtendsReach(a3, r, 0, join + 1, a3.pred[join][0]);
  }

  /** The four nodes buildFromFor makes before its body. */
  ghost function ForHeadArena(a: Arena): (r: Arena)
    requires WellFormed(a)
    ensures WellFormed(r) && |r.labels| == |a.labels| + 4
  {
    AddNode(AddNode(AddNode(AddNode(a, ForInit), ForCondition), ForUpdate), ForExit)
  }

  /** Nodes `n` to `n + 3` are a loop's four nodes, labelled in order and
      without edges. */
  ghost predicate ForHead(a: Arena, n: nat)
  {
    && n + 4 <= |a.labels|
    && a.labels[n] == ForInit && a.labels[n + 1] == ForCondition
    && a.labels[n + 2] == ForUpdate && a.labels[n + 3] == ForExit
    && Bare(a, n) && Bare(a, n + 1) && Bare(a, n + 2) && Bare(a, n + 3)
  }

  /** A new node leaves node `i` as it was. */
  lemma AddNodeKeeps(a: Arena, nodeLabel: string, i: nat)
    requires WellFormed(a) && i < |a.labels|
    ensures var r := AddNode(a, nodeLabel);
      r.labels[i] == a.labels[i] && r.succ[i] == a.succ[i] && r.pred[i] == a.pred[i]
  {
    var r := AddNode(a, nodeLabel);
    assert r.labels[i] == r.labels[..|a.labels|][i];
    assert r.succ[i] == r.succ[..|a.labels|][i];
    assert r.pred[i] == r.pred[..|a.labels|][i];
  }

  lemma ForNodes(a: Arena)
    requires WellFormed(a)
    ensures ForHead(ForHeadArena(a), |a.labels|)
  {
    var n := |a.labels|;
    var a1 := AddNode(a, ForInit);
    var a2 := AddNode(a1, ForCondition);
    var a3 := AddNode(a2, ForUpdate);
    var a4 := AddNode(a3, ForExit);
    AddNodeKeeps(a1, ForCondition, n);
    AddNodeKeeps(a2, ForUpdate, n);
    AddNodeKeeps(a2, ForUpdate, n + 1);
    AddNodeKeeps(a3, ForExit, n);
    AddNodeKeeps(a3, ForExit, n + 1);
    AddNodeKeeps(a3, ForExit, n + 2);
  }

  /** Lowering the body after the four nodes leaves them as they were. */
  lemma ForHeadKept(a4: Arena, a5: Arena, n: nat)
    requires ForHead(a4, n) && |a4.labels| == n + 4 && Extends(a4, a5, n + 4)
    ensures ForHead(a5, n)
  {
    assert forall i :: n <= i < n + 4 ==> a5.succ[i] == a4.succ[i] && a5.pred[i] == a4.pred[i] && a5.labels[i] == a4.labels[i];
  }

  /** The shape buildFromFor (CFGNode.java:296-314) gives the loop whose
      FOR_INIT is node `n`: FOR_INIT leads only to FOR_CONDITION (`n + 1`);
      FOR_CONDITION leads first to the body's first node (`n + 4`) and then to
      FOR_EXIT (`n + 3`), and is entered from FOR_INIT and from FOR_UPDATE
      (`n + 2`, the back-edge); FOR_UPDATE leads back to FOR_CONDITION and is
      entered from one node of the body, getLastNode of its first node and
      reachable from it;
      FOR_EXIT is entered from FOR_CONDITION only and has no successors yet. */
  ghost predicate ForLoopShape(r: Arena, n: nat)
    requires WellFormed(r) && n + 4 < |r.labels|
  {
    var init, cond, update, exit, body := n, n + 1, n + 2, n + 3, n + 4;
    && r.labels[init] == ForInit && r.labels[cond] == ForCondition
    && r.labels[update] == ForUpdate && r.labels[exit] == ForExit
    && r.succ[init] == [cond] && r.pred[init] == []
    && r.succ[cond] == [body, exit] && r.pred[cond] == [init, update]
    && r.succ[update] == [cond] && |r.pred[update]| == 1
    && body <= r.pred[update][0] && Reachable(r.succ, body, r.pred[update][0])
    && r.succ[exit] == [] && r.pred[exit] == [cond]
  }

  lemma ForShape(a: Arena, s: Stmt)
    requires WellFormed(a) && s.ForStmt?
    ensures var r := LowerFor(a, s).0;
      |a.labels| + 4 < |r.labels| && ForLoopShape(r, |a.labels|)
  {
    var n := |a.labels|;
    var a4 := ForHeadArena(a);
    ForNodes(a);
    var a5 := LowerBlock(a4, s.body).0;
    LowerBlockExtends(a4, s.body);
    ForUnfold(a, s);
    ForHeadKept(a4, a5, n);
    LinkForShape(a5, n);
  }

  /** buildFromFor: the four nodes, the body, then the edges. */
  lemma ForUnfold(a: Arena, s: Stmt)
    requires WellFormed(a) && s.ForStmt?
    ensures var n := |a.labels|;
      var a5 := LowerBlock(ForHeadArena(a), s.body).0;
      n + 4 < |a5.labels| && LowerFor(a, s).0 == LinkFor(a5, n, n + 1, n + 2, n + 3, n + 4)
  {
  }

  /** The edges of buildFromFor, added to an arena whose four loop nodes are
      still bare and whose body, from `n + 4` up, is closed. */
  lemma LinkForShape(a: Arena, n: nat)
    requires WellFormed(a) && n + 4 < |a.labels| && ClosedFrom(a.succ, n + 4) && ForHead(a, n)
    ensures ForLoopShape(LinkFor(a, n, n + 1, n + 2, n + 3, n + 4), n)
  {
    var init, cond, update, exit, body := n, n + 1, n + 2, n + 3, n + 4;
    var a1 := AddEdge(a, init, cond);
    AddEdgeClosed(a, init, cond, body);
    var a2 := AddEdge(a1, cond, body);
    AddEdgeClosed(a1, cond, body, body);
    EntryEdges(a, n);
    var x := LastNode(a2, body);
    LastNodeIn(a2, body, body);
    LastNodeReach(a2, body);
    if x == body {
      ReachableRefl(a2.succ, body);
    }
    BackEdges(a2, n, x);
    var a3 := AddEdge(a2, x, update);
    var a4 := AddEdge(a3, update, cond);
    AddEdgeReach(a2, x, update, body, x);
    AddEdgeReach(a3, update, cond, body, x);
    AddEdgeReach(a4, cond, exit, body, x);
  }

  /** A node with no edges yet. */
  ghost predicate Bare(a: Arena, i: nat)
  {
    i < |a.succ| && i < |a.pred| && a.succ[i] == [] && a.pred[i] == []
  }

  /** The first two edges of buildFromFor: init to condition, condition to body. */
  lemma EntryEdges(a: Arena, n: nat)
    requires WellFormed(a) && n + 4 < |a.labels|
    requires Bare(a, n) && Bare(a, n + 1) && Bare(a, n + 2) && Bare(a, n + 3)
    ensures var r := AddEdge(AddEdge(a, n, n + 1), n + 1, n + 4);
      && r.labels == a.labels
      && r.succ[n] == [n + 1] && r.pred[n] == []
      && r.succ[n + 1] == [n + 4] && r.pred[n + 1] == [n]
      && Bare(r, n + 2) && Bare(r, n + 3)
  {
  }

  /** The last three edges of buildFromFor, after the body's last node `x`. */
  lemma BackEdges(a: Arena, n: nat, x: nat)
    requires WellFormed(a) && n + 4 <= x < |a.labels|
    requires a.succ[n] == [n + 1] && a.pred[n] == []
    requires a.succ[n + 1] == [n + 4] && a.pred[n + 1] == [n]
    requires Bare(a, n + 2) && Bare(a, n + 3)
    ensures var r := AddEdge(AddEdge(AddEdge(a, x, n + 2), n + 2, n + 1), n + 1, n + 3);
      && r.succ[n] == [n + 1] && r.pred[n] == []
      && r.succ[n + 1] == [n + 4, n + 3] && r.pred[n + 1] == [n, n + 2]
      && r.succ[n + 2] == [n + 1] && r.pred[n + 2] == [x]
      && r.succ[n + 3] == [] && r.pred[n + 3] == [n + 1]
  {
  }

  // ---------------------------------------------------------------------
  // Blocks (CFGNode.java:182-209)

  /** The first node of every statement of `stmts`, in the order the loop of
      buildFromBlock makes them. */
  ghost function Firsts(a: Arena, stmts: seq<Stmt>, prev: Option<nat>): seq<nat>
    requires WellFormed(a)
    requires prev.Some? ==> prev.value < |a.labels|
    decreases stmts
  {
    if stmts == [] then []
    else [|a.labels|] + Firsts(StmtStep(a, stmts[0], prev), stmts[1..], Some(|a.labels|))
  }

  /** The arena after one statement of the loop of buildFromBlock: the
      statement lowered, then linked after the previous one. */
  ghost function StmtStep(a: Arena, s: Stmt, prev: Option<nat>): (r: Arena)
    requires WellFormed(a)
    requires prev.Some? ==> prev.value < |a.labels|
    ensures WellFormed(r) && |a.labels| < |r.labels|
  {
    var a1 := LowerStmt(a, s).0;
    if prev.Some? then AddEdge(a1, LastNode(a1, prev.value), |a.labels|) else a1
  }

  /** One turn of the loop of buildFromBlock. */
  lemma StmtsUnfold(a: Arena, stmts: seq<Stmt>, first: Option<nat>, prev: Option<nat>)
    requires WellFormed(a) && stmts != []
    requires first.Some? ==> first.value < |a.labels|
    requires prev.Some? ==> prev.value < |a.labels|
    ensures var first' := if first.None? then Some(|a.labels|) else first;
      LowerStmts(a, stmts, first, prev).0
        == LowerStmts(StmtStep(a, stmts[0], prev), stmts[1..], first', Some(|a.labels|)).0
  {
  }

  /** `y` is a successor of `x` or of a node reachable from `x`. */
  ghost predicate Follows(r: Arena, x: nat, y: nat)
  {
    exists z: nat :: z < |r.succ| && (z == x || Reachable(r.succ, x, z)) && y in r.succ[z]
  }

  /** The first nodes `fs` of a chain of statements: new nodes from `lo` up,
      in increasing order, each carrying a statement's label, and each
      followed, through its statement's last node, by the next one. */
  ghost predicate Chain(r: Arena, fs: seq<nat>, lo: nat)
  {
    && (forall i :: 0 <= i < |fs| ==> lo <= fs[i] < |r.labels| && StatementLabel(r.labels[fs[i]]))
    && (forall i :: 0 <= i < |fs| - 1 ==> fs[i] < fs[i + 1])
    && (forall i :: 0 <= i < |fs| - 1 ==> Follows(r, fs[i], fs[i + 1]))
  }

  lemma FollowsGrows(a: Arena, b: Arena, lo: nat, x: nat, y: nat)
    requires Extends(a, b, lo) && Follows(a, x, y)
    ensures Follows(b, x, y)
  {
    var z: nat :| z < |a.succ| && (z == x || Reachable(a.succ, x, z)) && y in a.succ[z];
    if z != x {
      ExtendsReach(a, b, lo, x, z);
    }
    assert a.succ[z] <= b.succ[z];
  }

  lemma ChainGrows(a: Arena, b: Arena, lo: nat, fs: seq<nat>)
    requires Extends(a, b, lo) && Chain(a, fs, 0)
    ensures Chain(b, fs, 0)
  {
    forall i | 0 <= i < |fs| - 1
      ensures Follows(b, fs[i], fs[i + 1])
    {
      FollowsGrows(a, b, lo, fs[i], fs[i + 1]);
    }
  }

  /** A chain whose first node, if any, follows `cur`. */
  ghost predicate ChainFrom(r: Arena, fs: seq<nat>, lo: nat, cur: nat)
  {
    Chain(r, fs, lo) && (fs != [] ==> Follows(r, cur, fs[0]))
  }

  /** The loop of buildFromBlock: one first node per statement, the first of
      them the first node made, chained in order, and the first of them
      following the previous statement when there is one. */
  lemma {:induction false} StmtsChain(a: Arena, stmts: seq<Stmt>, first: Option<nat>, prev: Option<nat>)
    requires WellFormed(a)
    requires first.Some? ==> first.value < |a.labels|
    requires prev.Some? ==> prev.value < |a.labels|
    ensures var r := LowerStmts(a, stmts, first, prev).0;
      && Chain(r, Firsts(a, stmts, prev), |a.labels|)
      && (prev.Some? ==> ChainFrom(r, Firsts(a, stmts, prev), |a.labels|, prev.value))
    decreases stmts
  {
    if stmts != [] {
      var cur := |a.labels|;
      var first' := if first.None? then Some(cur) else first;
      var a2 := StmtStep(a, stmts[0], prev);
      StmtsUnfold(a, stmts, first, prev);
      FirstsUnfold(a, stmts, prev);
      StepFacts(a, stmts[0], prev);
      StmtsChain(a2, stmts[1..], first', Some(cur));
      var r := LowerStmts(a2, stmts[1..], first', Some(cur)).0;
      LowerStmtsExtends(a2, stmts[1..], first', Some(cur), 0);
      ChainLink(a2, r, cur, prev, Firsts(a2, stmts[1..], Some(cur)), |a.labels|);
    }
  }

  /** One turn of the loop of buildFromBlock, for the first nodes. */
  lemma FirstsUnfold(a: Arena, stmts: seq<Stmt>, prev: Option<nat>)
    requires WellFormed(a) && stmts != []
    requires prev.Some? ==> prev.value < |a.labels|
    ensures Firsts(a, stmts, prev) == [|a.labels|] + Firsts(StmtStep(a, stmts[0], prev), stmts[1..], Some(|a.labels|))
  {
  }

  /** One statement of the loop of buildFromBlock: its first node, the first
      one made, carries a statement's label and follows the previous
      statement. */
  lemma StepFacts(a: Arena, s: Stmt, prev: Option<nat>)
    requires WellFormed(a) && (prev.Some? ==> prev.value < |a.labels|)
    ensures var a2 := StmtStep(a, s, prev);
      && StatementLabel(a2.labels[|a.labels|])
      && (prev.Some? ==> Follows(a2, prev.value, |a.labels|))
  {
    var (a1, cur) := LowerStmt(a, s);
    LowerStmtExtends(a, s);
    if prev.Some? {
      PrevEdge(a1, prev.value, cur);
    }
  }

  /** A statement's first node in front of the chain of the statements after
      it, in an extension `r` of the arena after the statement. */
  lemma ChainLink(a2: Arena, r: Arena, cur: nat, prev: Option<nat>, rest: seq<nat>, lo: nat)
    requires Extends(a2, r, 0) && lo <= cur < |a2.labels| && StatementLabel(a2.labels[cur])
    requires prev.Some? ==> Follows(a2, prev.value, cur)
    requires ChainFrom(r, rest, |a2.labels|, cur)
    ensures Chain(r, [cur] + rest, lo)
    ensures prev.Some? ==> ChainFrom(r, [cur] + rest, lo, prev.value)
  {
    if prev.Some? {
      FollowsGrows(a2, r, 0, prev.value, cur);
    }
    ChainCons(r, cur, rest, lo, |a2.labels|);
  }

  /** One first node per statement, the first of them the first node made. */
  lemma {:induction false} FirstsLength(a: Arena, stmts: seq<Stmt>, prev: Option<nat>)
    requires WellFormed(a) && (prev.Some? ==> prev.value < |a.labels|)
    ensures var fs := Firsts(a, stmts, prev);
      |fs| == |stmts| && (stmts != [] ==> fs[0] == |a.labels|)
    decreases stmts
  {
    if stmts != [] {
      FirstsLength(StmtStep(a, stmts[0], prev), stmts[1..], Some(|a.labels|));
    }
  }

  /** The edge buildFromBlock adds from the previous statement's last node to
      the current statement's first node. */
  lemma PrevEdge(a1: Arena, prev: nat, cur: nat)
    requires WellFormed(a1) && prev < |a1.labels| && cur < |a1.labels|
    ensures var a2 := AddEdge(a1, LastNode(a1, prev), cur);
      Extends(a1, a2, 0) && Follows(a2, prev, cur)
  {
    var z := LastNode(a1, prev);
    var a2 := AddEdge(a1, z, cur);
    LastNodeReach(a1, prev);
    AddEdgeClosed(a1, z, cur, 0);
    if z != prev {
      ExtendsReach(a1, a2, 0, prev, z);
    }
    assert cur in a2.succ[z];
  }

  /** A first node in front of a chain that follows it is a chain. */
  lemma ChainCons(r: Arena, cur: nat, rest: seq<nat>, lo: nat, hi: nat)
    requires lo <= cur < hi && cur < |r.labels| && StatementLabel(r.labels[cur])
    requires Chain(r, rest, hi)
    requires rest != [] ==> Follows(r, cur, rest[0])
    ensures Chain(r, [cur] + rest, lo)
  {
    var fs := [cur] + rest;
    assert forall i :: 0 < i < |fs| ==> fs[i] == rest[i - 1];
  }

  /** buildFromBlock: an empty block is exactly one new EMPTY_BLOCK node with
      no edges, and nothing else changes; a non-empty block returns its first
      statement's first node, and the statements' first nodes are chained. */
  lemma BlockShape(a: Arena, b: Block)
    requires WellFormed(a)
    ensures var (r, first) := LowerBlock(a, b);
      && (b.statements == [] ==>
            && first == |a.labels| && |r.labels| == |a.labels| + 1
            && r.labels[first] == EmptyBlock && r.succ[first] == [] && r.pred[first] == []
            && r.labels[..first] == a.labels && r.succ[..first] == a.succ && r.pred[..first] == a.pred)
      && (b.statements != [] ==>
            var fs := Firsts(a, b.statements, None);
            && |fs| == |b.statements| && first == fs[0]
            && Chain(r, fs, |a.labels|))
  {
    if b.statements != [] {
      StmtsChain(a, b.statements, None, None);
      FirstsLength(a, b.statements, None);
    }
  }

  // ---------------------------------------------------------------------
  // Functions and the program (CFGNode.java:92-128, 170-180)

  lemma LowerFunctionExtends(a: Arena, f: Function)
    requires WellFormed(a)
    ensures var r := LowerFunction(a, f).0;
      Extends(a, r, |a.labels|) && r.labels[|a.labels|] == FunctionLabel(f.name)
    ensures var r, n := LowerFunction(a, f).0, |a.labels|;
      && r.succ[n] == (if f.body.Some? then [n + 1] else []) && r.pred[n] == []
      && (f.body.None? ==> |r.labels| == n + 1)
  {
    var lo := |a.labels|;
    var a1 := AddNode(a, FunctionLabel(f.name));
    AddNodeExtends(a, lo);
    if f.body.Some? {
      BodyLinked(a, a1, f.body.value);
    }
  }

  /** The function's body, lowered after its entry node and linked from it. */
  lemma BodyLinked(a: Arena, a1: Arena, b: Block)
    requires WellFormed(a1) && |a1.labels| == |a.labels| + 1 && Extends(a, a1, |a.labels|)
    ensures var (a2, first) := LowerBlock(a1, b);
      Extends(a, AddEdge(a2, |a.labels|, first), |a.labels|)
      && AddEdge(a2, |a.labels|, first).labels[|a.labels|] == a1.labels[|a.labels|]
    ensures var (a2, first) := LowerBlock(a1, b);
      && first == |a.labels| + 1
      && AddEdge(a2, |a.labels|, first).succ[|a.labels|] == a1.succ[|a.labels|] + [first]
      && AddEdge(a2, |a.labels|, first).pred[|a.labels|] == a1.pred[|a.labels|]
  {
    var lo := |a.labels|;
    var (a2, first) := LowerBlock(a1, b);
    LowerBlockExtends(a1, b);
    assert a2.labels[lo] == a1.labels[lo];
    ExtendsWiden(a1, a2, lo, |a1.labels|);
    ExtendsTrans(a, a1, a2, lo);
    AddEdgeExtends(a2, lo, first, lo);
    ExtendsTrans(a, a2, AddEdge(a2, lo, first), lo);
  }

  /** `r` extends `a`; the successors of `entry` grew by `count` new nodes,
      each labelled FUNCTION_main; its predecessors did not change. */
  ghost predicate EntryGrows(a: Arena, r: Arena, entry: nat, count: nat)
  {
    && Extends(a, r, 0) && entry < |a.labels|
    && |r.succ[entry]| == |a.succ[entry]| + count
    && r.succ[entry][..|a.succ[entry]|] == a.succ[entry]
    && r.pred[entry] == a.pred[entry]
    && forall i :: |a.succ[entry]| <= i < |r.succ[entry]| ==>
         |a.labels| <= r.succ[entry][i] < |r.labels| && r.labels[r.succ[entry][i]] == FunctionLabel(EntryFunction)
  }

  lemma EntryGrowsTrans(a: Arena, b: Arena, c: Arena, entry: nat, m: nat, n: nat)
    requires EntryGrows(a, b, entry, m) && EntryGrows(b, c, entry, n)
    ensures EntryGrows(a, c, entry, m + n)
  {
    ExtendsTrans(a, b, c, 0);
    var k, kb := |a.succ[entry]|, |b.succ[entry]|;
    assert c.succ[entry][..k] == c.succ[entry][..kb][..k];
    forall i | k <= i < |c.succ[entry]|
      ensures |a.labels| <= c.succ[entry][i] < |c.labels| && c.labels[c.succ[entry][i]] == FunctionLabel(EntryFunction)
    {
      if i < kb {
        assert c.succ[entry][i] == c.succ[entry][..kb][i] == b.succ[entry][i];
        assert c.labels[b.succ[entry][i]] == b.labels[b.succ[entry][i]];
      }
    }
  }

  /** `r` gained exactly one edge into `exit`, appended to its predecessors;
      it leaves a node made after `a`, reachable from the first such node,
      and that node is not a loop's condition or update. */
  ghost predicate ExitGained(a: Arena, r: Arena, exit: nat)
    requires Sized(a) && Sized(r) && exit < |a.labels| <= |r.labels|
  {
    var k := |a.pred[exit]|;
    && |r.pred[exit]| == k + 1 && r.pred[exit][..k] == a.pred[exit]
    && |a.labels| <= r.pred[exit][k] < |r.labels|
    && Reachable(r.succ, |a.labels|, r.pred[exit][k]) && EndLabel(r.labels[r.pred[exit][k]])
  }

  /** One main function of buildFromProgram (CFGNode.java:116-122): its entry,
      the first node made, is appended to the successors of `entry`, whose
      predecessors stay as they were; one edge, from the node
      findLastExecutionNode picks inside the function, is appended to the
      predecessors of `exit`. */
  lemma MainStep(a: Arena, f: Function, entry: nat, exit: nat)
    requires WellFormed(a) && entry < |a.labels| && exit < |a.labels| && entry != exit
    requires f.name == EntryFunction
    ensures var r := LowerMain(a, f, entry, exit);
      EntryGrows(a, r, entry, 1) && r.succ[entry] == a.succ[entry] + [|a.labels|]
    ensures ExitGained(a, LowerMain(a, f, entry, exit), exit)
  {
    var lo := |a.labels|;
    var a1 := LowerFunction(a, f).0;
    LowerFunctionExtends(a, f);
    MainEdges(a, a1, entry, exit);
  }

  /** The two edges of one main function, once it is lowered into `a1`. */
  lemma MainEdges(a: Arena, a1: Arena, entry: nat, exit: nat)
    requires WellFormed(a) && WellFormed(a1) && Extends(a, a1, |a.labels|) && |a.labels| < |a1.labels|
    requires entry < |a.labels| && exit < |a.labels| && entry != exit
    requires a1.labels[|a.labels|] == FunctionLabel(EntryFunction)
    ensures var a2 := AddEdge(a1, entry, |a.labels|);
      var r := AddEdge(a2, FindLastExecution(a2, |a.labels|), exit);
      EntryGrows(a, r, entry, 1) && r.succ[entry] == a.succ[entry] + [|a.labels|]
      && ExitGained(a, r, exit)
  {
    var lo := |a.labels|;
    EntryEdge(a, a1, entry, exit);
    var a2 := AddEdge(a1, entry, lo);
    EntryKept(a, a2, entry, exit);
    ExitEdge(a, a2, exit);
  }

  /** The edge from `entry` to the function's entry node `|a.labels|`. */
  lemma EntryEdge(a: Arena, a1: Arena, entry: nat, exit: nat)
    requires WellFormed(a) && WellFormed(a1) && Extends(a, a1, |a.labels|) && |a.labels| < |a1.labels|
    requires entry < |a.labels| && exit < |a.labels| && entry != exit
    ensures var lo := |a.labels|;
      var a2 := AddEdge(a1, entry, lo);
      && Extends(a, a2, 0) && ClosedFrom(a2.succ, lo)
      && a2.succ[entry] == a.succ[entry] + [lo] && a2.pred[entry] == a.pred[entry]
      && a2.pred[exit] == a.pred[exit] && a2.labels[lo] == a1.labels[lo]
  {
    var lo := |a.labels|;
    ExtendsWiden(a, a1, 0, lo);
    assert lo !in a1.succ[entry] by {
      assert a1.succ[entry] == a.succ[entry];
    }
    var a2 := AddEdge(a1, entry, lo);
    AddEdgeClosed(a1, entry, lo, lo);
    ExtendsTrans(a, a1, a2, 0);
  }

  /** The edge into `exit` leaves the successors and predecessors of `entry`
      as they were. */
  lemma EntryKept(a: Arena, a2: Arena, entry: nat, exit: nat)
    requires WellFormed(a) && WellFormed(a2) && Extends(a, a2, 0) && ClosedFrom(a2.succ, |a.labels|)
    requires entry < |a.labels| < |a2.labels| && exit < |a.labels| && entry != exit
    requires a2.succ[entry] == a.succ[entry] + [|a.labels|] && a2.pred[entry] == a.pred[entry]
    requires a2.labels[|a.labels|] == FunctionLabel(EntryFunction)
    ensures var r := AddEdge(a2, FindLastExecution(a2, |a.labels|), exit);
      EntryGrows(a, r, entry, 1) && r.succ[entry] == a.succ[entry] + [|a.labels|]
  {
    var lo := |a.labels|;
    var z := FindLastExecution(a2, lo);
    LastExecutionIn(a2, lo);
    ReachStaysIn(a2.succ, lo, lo, z);
    var r := AddEdge(a2, z, exit);
    AddEdgeClosed(a2, z, exit, 0);
    ExtendsTrans(a, a2, r, 0);
    assert r.succ[entry] == a.succ[entry] + [lo];
    assert r.succ[entry][..|a.succ[entry]|] == a.succ[entry];
  }

  /** The edge from findLastExecutionNode's answer, inside the function that
      starts at node `|a.labels|`, to `exit`. */
  lemma ExitEdge(a: Arena, a2: Arena, exit: nat)
    requires WellFormed(a) && WellFormed(a2) && Extends(a, a2, 0) && ClosedFrom(a2.succ, |a.labels|)
    requires exit < |a.labels| < |a2.labels| && a2.pred[exit] == a.pred[exit]
    requires a2.labels[|a.labels|] == FunctionLabel(EntryFunction)
    ensures ExitGained(a, AddEdge(a2, FindLastExecution(a2, |a.labels|), exit), exit)
  {
    var lo := |a.labels|;
    var z := FindLastExecution(a2, lo);
    LastExecutionIn(a2, lo);
    ReachStaysIn(a2.succ, lo, lo, z);
    LastEdge(a, a2, z, exit);
    MainEndLabel();
  }

  /** FUNCTION_main is neither a loop's condition nor its update. */
  lemma MainEndLabel()
    ensures EndLabel(FunctionLabel(EntryFunction))
  {
    var l := FunctionLabel(EntryFunction);
    assert l[..|ForCondition|][1] == l[1] == 'U' != ForCondition[1];
  }

  /** The declarations buildFromProgram lowers. */
  function MainCount(decls: seq<Decl>): (r: nat)
    ensures r <= |decls|
  {
    if decls == [] then 0
    else (if IsMain(decls[0]) then 1 else 0) + MainCount(decls[1..])
  }

  /** The main functions among `decls`, in order. */
  function Mains(decls: seq<Decl>): (r: seq<Decl>)
    ensures |r| <= |decls| && forall i :: 0 <= i < |r| ==> IsMain(r[i])
  {
    if decls == [] then []
    else if IsMain(decls[0]) then [decls[0]] + Mains(decls[1..])
    else Mains(decls[1..])
  }

  /** The loop of buildFromProgram: the successors of `entry` grow by the
      entries of the main functions, one per main function and each labelled
      FUNCTION_main, and nothing new enters `entry`. The other declarations
      are never lowered: the loop builds the same arena as it does over the
      main functions alone. */
  lemma {:induction false} DeclsShape(a: Arena, decls: seq<Decl>, entry: nat, exit: nat)
    requires WellFormed(a) && entry < |a.labels| && exit < |a.labels| && entry != exit
    ensures EntryGrows(a, LowerDecls(a, decls, entry, exit), entry, MainCount(decls))
    ensures LowerDecls(a, decls, entry, exit) == LowerDecls(a, Mains(decls), entry, exit)
    ensures |Mains(decls)| == MainCount(decls)
    ensures MainCount(decls) == 0 ==> LowerDecls(a, decls, entry, exit) == a
    decreases decls
  {
    if decls == [] {
      EntryGrowsRefl(a, entry);
    } else {
      DeclsUnfold(a, decls, entry, exit);
      if IsMain(decls[0]) {
        var a1 := LowerMain(a, decls[0].func, entry, exit);
        MainStep(a, decls[0].func, entry, exit);
        DeclsShape(a1, decls[1..], entry, exit);
        EntryGrowsTrans(a, a1, LowerDecls(a1, decls[1..], entry, exit), entry, 1, MainCount(decls[1..]));
        var ms := Mains(decls);
        assert ms[0] == decls[0] && ms[1..] == Mains(decls[1..]);
        DeclsUnfold(a, ms, entry, exit);
      } else {
        DeclsShape(a, decls[1..], entry, exit);
      }
    }
  }

  /** One turn of the loop of buildFromProgram. */
  lemma DeclsUnfold(a: Arena, decls: seq<Decl>, entry: nat, exit: nat)
    requires WellFormed(a) && entry < |a.labels| && exit < |a.labels| && decls != []
    ensures LowerDecls(a, decls, entry, exit)
      == if IsMain(decls[0]) then LowerDecls(LowerMain(a, decls[0].func, entry, exit), decls[1..], entry, exit)
         else LowerDecls(a, decls[1..], entry, exit)
    ensures MainCount(decls) == (if IsMain(decls[0]) then 1 else 0) + MainCount(decls[1..])
  {
  }

  lemma EntryGrowsRefl(a: Arena, entry: nat)
    requires WellFormed(a) && entry < |a.labels|
    ensures EntryGrows(a, a, entry, 0)
  {
    ExtendsRefl(a, 0);
  }

  /** The graph buildFromProgram (CFGNode.java:112-128) returns, for a
      program with `count` main functions: PROGRAM_START is node 0 and
      PROGRAM_END node 1; nothing enters PROGRAM_START, and its successors
      are the entries of the main functions, one per main function, each
      labelled FUNCTION_main. */
  ghost predicate ProgramShaped(r: Arena, count: nat)
  {
    && WellFormed(r) && 2 <= |r.labels|
    && r.labels[0] == ProgramStart && r.labels[1] == ProgramEnd
    && r.pred[0] == [] && |r.succ[0]| == count
    && (forall i :: 0 <= i < |r.succ[0]| ==> 2 <= r.succ[0][i] && r.labels[r.succ[0][i]] == FunctionLabel(EntryFunction))
  }

  /** build (CFGNode.java:92-100): only a program is lowered, into the shape
      above, with PROGRAM_START returned. */
  lemma BuildShape(ast: AstNode)
    ensures Build(ast).None? <==> !ast.ProgramNode?
    ensures ast.ProgramNode? ==>
      Build(ast).value.1 == 0 && ProgramShaped(Build(ast).value.0, MainCount(ast.program.declarations))
  {
    if ast.ProgramNode? {
      var a1 := AddNode(EmptyArena, ProgramStart);
      var a2 := ProgramFrame();
      AddNodeFacts(a1, ProgramEnd);
      var decls := ast.program.declarations;
      DeclsShape(a2, decls, 0, 1);
      StartShape(a2, LowerDecls(a2, decls, 0, 1), MainCount(decls));
    }
  }

  /** The main functions lowered after PROGRAM_START and PROGRAM_END. */
  lemma StartShape(a2: Arena, r: Arena, count: nat)
    requires WellFormed(a2) && WellFormed(r) && |a2.labels| == 2
    requires a2.labels[0] == ProgramStart && a2.labels[1] == ProgramEnd
    requires a2.succ[0] == [] && a2.pred[0] == []
    requires EntryGrows(a2, r, 0, count)
    ensures ProgramShaped(r, count)
  {
  }
}
