/** Where control leaves a block, as buildFromIf and buildFromFor link it
    (CFGNode.java:279-281, 284-288 and 307-308). Both call getLastNode on the
    node buildFromBlock returns, which is the node of the block's FIRST
    statement. So the edge to IF_JOIN or FOR_UPDATE leaves the first
    statement (or the join or exit of its if or for), and a block's later
    statements are chained after it but never linked onwards. */
module BlockExits {
  import opened Util
  import opened Ast
  import opened Graph
  import opened Lowering
  import opened LoweringProps

  /** A statement that buildFromStatement lowers to a single node. */
  predicate PlainStmt(s: Stmt)
  {
    !s.IfStmt? && !s.ForStmt?
  }

  /** A block whose first statement is plain: its first node is neither an
      IF_CONDITION nor a FOR_INIT, whatever follows it. */
  lemma PlainFirstLabel(a: Arena, b: Block)
    requires WellFormed(a) && b.statements != [] && PlainStmt(b.statements[0])
    ensures var r := LowerBlock(a, b).0;
      |a.labels| < |r.labels| && r.labels[|a.labels|] != IfCondition && r.labels[|a.labels|] != ForInit
  {
    var n := |a.labels|;
    var stmts := b.statements;
    StmtsUnfold(a, stmts, None, None);
    var a1 := StmtStep(a, stmts[0], None);
    assert a1.labels[n] != IfCondition && a1.labels[n] != ForInit;
    LowerStmtsExtends(a1, stmts[1..], Some(n), Some(n), 0);
  }

  /** One branch of buildFromIf whose block starts with a plain statement:
      the one edge into the join leaves that statement's node, however many
      statements follow it. */
  lemma BranchFromPlainFirst(a: Arena, b: Block, cond: nat, join: nat)
    requires WellFormed(a) && cond < |a.labels| && join < |a.labels|
    requires b.statements != [] && PlainStmt(b.statements[0])
    ensures LowerBranch(a, b, cond, join).pred[join] == a.pred[join] + [|a.labels|]
  {
    var n, k := |a.labels|, |a.pred[join]|;
    var a1 := LowerBlock(a, b).0;
    PlainFirstLabel(a, b);
    var a2 := AddEdge(a1, cond, n);
    assert LastNode(a2, n) == n;
    var r := LowerBranch(a, b, cond, join);
    assert r == AddEdge(a2, n, join);
    BranchShape(a, b, cond, join);
    assert n !in a.pred[join] by {
      assert forall p :: p in a.pred[join] ==> p < n;
    }
    assert r.pred[join] == r.pred[join][..k] + [r.pred[join][k]];
  }

  /** buildFromFor over a body that starts with a plain statement: FOR_UPDATE
      is entered from that statement's node only, however many statements
      follow it. */
  lemma ForFromPlainFirst(a: Arena, s: Stmt)
    requires WellFormed(a) && s.ForStmt? && s.body.statements != [] && PlainStmt(s.body.statements[0])
    ensures var n := |a.labels|;
      var r := LowerFor(a, s).0;
      n + 4 < |r.labels| && r.pred[n + 2] == [n + 4]
  {
    var n := |a.labels|;
    var a4 := ForHeadArena(a);
    var a5 := LowerBlock(a4, s.body).0;
    PlainFirstLabel(a4, s.body);
    ForUnfold(a, s);
    ForShape(a, s);
    UpdateLink(a5, n);
    var r := LowerFor(a, s).0;
    assert r == LinkFor(a5, n, n + 1, n + 2, n + 3, n + 4);
    OnlyEntry(r.pred[n + 2], n + 4);
  }

  /** A one-element list holding `x` is `[x]`; stated apart so that the
      loop's unfolded arena is not in scope when it is proved. */
  lemma OnlyEntry(q: seq<nat>, x: nat)
    requires |q| == 1 && x in q
    ensures q == [x]
  {
  }

  /** The edges of buildFromFor when the body's first node is plain: that
      node is a predecessor of FOR_UPDATE. */
  lemma UpdateLink(a5: Arena, n: nat)
    requires WellFormed(a5) && n + 4 < |a5.labels|
    requires a5.labels[n + 4] != IfCondition && a5.labels[n + 4] != ForInit
    ensures n + 4 in LinkFor(a5, n, n + 1, n + 2, n + 3, n + 4).pred[n + 2]
  {
    var a1 := AddEdge(a5, n, n + 1);
    var a2 := AddEdge(a1, n + 1, n + 4);
    assert LastNode(a2, n + 4) == n + 4;
    var a3 := AddEdge(a2, n + 4, n + 2);
    var a4 := AddEdge(a3, n + 2, n + 1);
    assert n + 4 in a4.pred[n + 2];
  }

  // ---------------------------------------------------------------------
  // A two-statement block shows the later statement left without a way out

  /** A block of two statements of a kind buildFromStatement lowers to one
      UNKNOWN_STMT node each. */
  predicate TwoUnknown(b: Block)
  {
    |b.statements| == 2 && b.statements[0].OtherStmt? && b.statements[1].OtherStmt?
  }

  /** The two nodes of such a block. */
  ghost function TwoNodes(a: Arena): (r: Arena)
    requires WellFormed(a)
    ensures WellFormed(r) && |r.labels| == |a.labels| + 2
  {
    AddNode(AddNode(a, UnknownStmt), UnknownStmt)
  }

  /** buildFromBlock over two such statements: two nodes, the first linked
      to the second. */
  lemma TwoUnknownUnfold(a: Arena, b: Block)
    requires WellFormed(a) && TwoUnknown(b)
    ensures var n := |a.labels|;
      n + 1 < |TwoNodes(a).labels| && LowerBlock(a, b).0 == AddEdge(TwoNodes(a), n, n + 1)
  {
    var n := |a.labels|;
    var stmts := b.statements;
    var b1 := AddNode(a, UnknownStmt);
    StmtsUnfold(a, stmts, None, None);
    assert StmtStep(a, stmts[0], None) == b1;
    StmtsUnfold(b1, stmts[1..], Some(n), Some(n));
    assert stmts[1..][0] == stmts[1] && stmts[1..][1..] == [];
    AddNodeKeeps(b1, UnknownStmt, n);
    assert StmtStep(b1, stmts[1], Some(n)) == AddEdge(TwoNodes(a), n, n + 1);
  }

  lemma TwoNodesEdge(a: Arena)
    requires WellFormed(a)
    ensures var n := |a.labels|;
      var r := AddEdge(TwoNodes(a), n, n + 1);
      && r.labels[n] == UnknownStmt && r.labels[n + 1] == UnknownStmt
      && r.succ[n] == [n + 1] && r.succ[n + 1] == [] && r.pred[n + 1] == [n]
      && forall i :: 0 <= i < n ==> r.succ[i] == a.succ[i] && r.pred[i] == a.pred[i]
  {
    var b1 := AddNode(a, UnknownStmt);
    AddNodeFacts(a, UnknownStmt);
    AddNodeFacts(b1, UnknownStmt);
  }

  /** A branch of buildFromIf over a block `{ s1; s2 }` of two such
      statements: s1 (node `n`) leads to s2 and to the join, and s2 has no
      successor, so control that reaches s2 never reaches the join
      (BranchFromPlainFirst: the join is entered from s1). */
  lemma BranchTailDangles(a: Arena, b: Block, cond: nat, join: nat)
    requires WellFormed(a) && cond < |a.labels| && join < |a.labels| && TwoUnknown(b)
    ensures var n := |a.labels|;
      var r := LowerBranch(a, b, cond, join);
      n + 1 < |r.labels| && r.succ[n] == [n + 1, join] && r.succ[n + 1] == []
  {
    var n := |a.labels|;
    TwoUnknownUnfold(a, b);
    TwoNodesEdge(a);
    BranchUnfold(a, b, cond, join, AddEdge(TwoNodes(a), n, n + 1));
    BranchTailEdges(AddEdge(TwoNodes(a), n, n + 1), n, cond, join);
  }

  /** buildFromIf's branch: the block, then its two edges. */
  lemma BranchUnfold(a: Arena, b: Block, cond: nat, join: nat, a1: Arena)
    requires WellFormed(a) && cond < |a.labels| && join < |a.labels| && LowerBlock(a, b).0 == a1
    ensures var n := |a.labels|;
      var a2 := AddEdge(a1, cond, n);
      LowerBranch(a, b, cond, join) == AddEdge(a2, LastNode(a2, n), join)
  {
  }

  /** The edges of a branch of buildFromIf over that block: only s1 gains an edge. */
  lemma BranchTailEdges(a1: Arena, n: nat, cond: nat, join: nat)
    requires WellFormed(a1) && |a1.labels| == n + 2 && cond < n && join < n
    requires a1.labels[n] == UnknownStmt && a1.succ[n] == [n + 1] && a1.succ[n + 1] == []
    ensures var a2 := AddEdge(a1, cond, n);
      var r := AddEdge(a2, LastNode(a2, n), join);
      r.succ[n] == [n + 1, join] && r.succ[n + 1] == []
  {
    var a2 := AddEdge(a1, cond, n);
    assert a2.succ[n] == [n + 1] && a2.succ[n + 1] == [] && a2.labels[n] == UnknownStmt;
    assert LastNode(a2, n) == n;
  }

  /** buildFromFor over a body `{ s1; s2 }` of two such statements:
      FOR_UPDATE is entered from s1 only, and s2 (node `n + 5`) has no
      successor, so the loop's back-edge is never reached from s2. */
  lemma ForTailDangles(a: Arena, s: Stmt)
    requires WellFormed(a) && s.ForStmt? && TwoUnknown(s.body)
    ensures var n := |a.labels|;
      var r := LowerFor(a, s).0;
      && |r.labels| == n + 6
      && r.succ[n + 4] == [n + 5, n + 2] && r.succ[n + 5] == [] && r.pred[n + 2] == [n + 4]
  {
    var n := |a.labels|;
    var a4 := ForHeadArena(a);
    TwoUnknownUnfold(a4, s.body);
    TwoNodesEdge(a4);
    var a5 := AddEdge(TwoNodes(a4), n + 4, n + 5);
    ForUnfold(a, s);
    ForFromPlainFirst(a, s);
    BodyTailEdges(a5, n);
  }

  /** The edges of buildFromFor over that body: only s1 gains an edge. */
  lemma BodyTailEdges(a5: Arena, n: nat)
    requires WellFormed(a5) && |a5.labels| == n + 6 && a5.labels[n + 4] == UnknownStmt
    requires a5.succ[n + 4] == [n + 5] && a5.succ[n + 5] == []
    ensures var r := LinkFor(a5, n, n + 1, n + 2, n + 3, n + 4);
      r.succ[n + 4] == [n + 5, n + 2] && r.succ[n + 5] == []
  {
    var a1 := AddEdge(a5, n, n + 1);
    var a2 := AddEdge(a1, n + 1, n + 4);
    assert a2.succ[n + 4] == [n + 5] && a2.labels[n + 4] == UnknownStmt;
    assert LastNode(a2, n + 4) == n + 4;
  }
}
