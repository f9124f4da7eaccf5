/** What CFGBuilder (CFGNode.java:75-314) does to the arena, as functions on
    arena values. Each function returns the arena after the step and, where
    the Java method returns a node, that node's index. CfgBuilder's methods
    are proved to change the arena exactly as these functions say. */
module Lowering {
  import opened Util
  import opened Ast
  import opened Graph

  // Node labels
  const ProgramStart := "PROGRAM_START"
  const ProgramEnd := "PROGRAM_END"
  const EmptyBlock := "EMPTY_BLOCK"
  const IfCondition := "IF_CONDITION"
  const IfJoin := "IF_JOIN"
  const ForInit := "FOR_INIT"
  const ForCondition := "FOR_CONDITION"
  const ForUpdate := "FOR_UPDATE"
  const ForExit := "FOR_EXIT"
  const PrintStmt := "PRINT"
  const ExprStmt := "EXPR"
  const VarDeclLabel := "VAR_DECL"
  const UnknownStmt := "UNKNOWN_STMT"

  /** The name of the only function that is lowered. */
  const EntryFunction := "main"

  function FunctionLabel(name: string): string
  {
    "FUNCTION_" + name
  }

  /** A new node and its index. */
  function NewNode(a: Arena, nodeLabel: string): (Arena, nat)
    requires WellFormed(a)
  {
    (AddNode(a, nodeLabel), |a.labels|)
  }

  predicate AllNodes(a: Arena, ss: seq<nat>)
  {
    forall i :: 0 <= i < |ss| ==> ss[i] < |a.labels|
  }

  // ---------------------------------------------------------------------
  // getLastNode and its searches (CFGNode.java:212-253)

  /** The first node of `ss` labelled IF_JOIN (the inner loop of findJoinNode). */
  function FirstJoin(a: Arena, ss: seq<nat>): (r: Option<nat>)
    requires WellFormed(a) && AllNodes(a, ss)
    ensures r.Some? ==> r.value in ss && a.labels[r.value] == IfJoin
    ensures r.None? ==> forall i :: 0 <= i < |ss| ==> a.labels[ss[i]] != IfJoin
  {
    if ss == [] then None
    else if a.labels[ss[0]] == IfJoin then Some(ss[0])
    else FirstJoin(a, ss[1..])
  }

  /** `s` is an IF_JOIN or has one among its successors. */
  predicate JoinNear(a: Arena, s: nat)
    requires WellFormed(a) && s < |a.labels|
  {
    a.labels[s] == IfJoin || exists t :: t in a.succ[s] && a.labels[t] == IfJoin
  }

  /** The outer loop of findJoinNode over the successors `ss` of `ifNode`. */
  function JoinAmong(a: Arena, ifNode: nat, ss: seq<nat>): (r: nat)
    requires WellFormed(a) && ifNode < |a.labels| && AllNodes(a, ss)
    ensures r < |a.labels|
    ensures r == ifNode || (a.labels[r] == IfJoin && (r in ss || exists s :: s in ss && r in a.succ[s]))
    ensures (exists s :: s in ss && JoinNear(a, s)) ==> a.labels[r] == IfJoin
    ensures (forall s :: s in ss ==> !JoinNear(a, s)) ==> r == ifNode
  {
    if ss == [] then ifNode
    else if a.labels[ss[0]] == IfJoin then ss[0]
    else match FirstJoin(a, a.succ[ss[0]])
      case Some(j) => j
      case None => JoinAmong(a, ifNode, ss[1..])
  }

  /** findJoinNode: an IF_JOIN among the successors of `ifNode` or among their
      successors, searched in list order; `ifNode` itself when there is none. */
  function FindJoin(a: Arena, ifNode: nat): (r: nat)
    requires WellFormed(a) && ifNode < |a.labels|
  {
    JoinAmong(a, ifNode, a.succ[ifNode])
  }

  /** The loop of findForExitNode: breadth-first, the queue may hold a node
      more than once, a node's successors are queued on its first visit. */
  function ForExitBfs(a: Arena, queue: seq<nat>, visited: set<nat>, forInit: nat): (r: nat)
    requires WellFormed(a) && forInit < |a.labels| && AllNodes(a, queue) && visited <= Nodes(a.succ)
    ensures r < |a.labels|
    ensures r == forInit || a.labels[r] == ForExit
    decreases Nodes(a.succ) - visited, |queue|
  {
    if queue == [] then forInit
    else
      var cur := queue[0];
      if a.labels[cur] == ForExit then cur
      else if cur !in visited then
        assert cur in Nodes(a.succ) - visited;
        ForExitBfs(a, queue[1..] + a.succ[cur], visited + {cur}, forInit)
      else ForExitBfs(a, queue[1..], visited, forInit)
  }

  /** findForExitNode: the first FOR_EXIT met breadth-first from `forInit`,
      or `forInit` itself when there is none. */
  function FindForExit(a: Arena, forInit: nat): (r: nat)
    requires WellFormed(a) && forInit < |a.labels|
  {
    ForExitBfs(a, [forInit], {}, forInit)
  }

  /** getLastNode: where control leaves the statement that starts at `n`. */
  function LastNode(a: Arena, n: nat): (r: nat)
    requires WellFormed(a) && n < |a.labels|
    ensures r < |a.labels|
  {
    if a.labels[n] == IfCondition then FindJoin(a, n)
    else if a.labels[n] == ForInit then FindForExit(a, n)
    else n
  }

  // ---------------------------------------------------------------------
  // findLastExecutionNode (CFGNode.java:130-168)

  /** The entries of `ss` not in `visited`, in order. */
  function Unvisited(ss: seq<nat>, visited: set<nat>): (r: seq<nat>)
    ensures forall i :: 0 <= i < |r| ==> r[i] in ss && r[i] !in visited
  {
    if ss == [] then []
    else if ss[0] in visited then Unvisited(ss[1..], visited)
    else [ss[0]] + Unvisited(ss[1..], visited)
  }

  lemma {:induction false} UnvisitedAppend(p: seq<nat>, q: seq<nat>, visited: set<nat>)
    ensures Unvisited(p + q, visited) == Unvisited(p, visited) + Unvisited(q, visited)
  {
    if p == [] {
      assert p + q == q;
    } else {
      assert (p + q)[1..] == p[1..] + q;
      UnvisitedAppend(p[1..], q, visited);
    }
  }

  /** Unvisited over a list one entry longer. */
  lemma UnvisitedSnoc(ss: seq<nat>, j: nat, visited: set<nat>)
    requires j < |ss|
    ensures Unvisited(ss[..j + 1], visited) == Unvisited(ss[..j], visited) + (if ss[j] in visited then [] else [ss[j]])
  {
    assert ss[..j + 1] == ss[..j] + [ss[j]];
    UnvisitedAppend(ss[..j], [ss[j]], visited);
  }

  /** How many queue entries are nodes already visited. */
  function CountVisited(q: seq<nat>, visited: set<nat>): nat
  {
    if q == [] then 0
    else (if q[0] in visited then 1 else 0) + CountVisited(q[1..], visited)
  }

  lemma {:induction false} CountVisitedAppend(p: seq<nat>, q: seq<nat>, visited: set<nat>)
    ensures CountVisited(p + q, visited) == CountVisited(p, visited) + CountVisited(q, visited)
  {
    if p != [] {
      assert (p + q)[1..] == p[1..] + q;
      CountVisitedAppend(p[1..], q, visited);
    } else {
      assert p + q == q;
    }
  }

  lemma {:induction false} CountVisitedNone(q: seq<nat>, visited: set<nat>)
    requires forall i :: 0 <= i < |q| ==> q[i] !in visited
    ensures CountVisited(q, visited) == 0
  {
    if q != [] {
      CountVisitedNone(q[1..], visited);
    }
  }

  /** A node whose successors have all been visited, and which is not a loop's
      condition or update node, is a candidate for the last node. */
  predicate TerminalCandidate(a: Arena, n: nat, visited: set<nat>)
    requires WellFormed(a) && n < |a.labels|
  {
    && (forall s :: s in a.succ[n] ==> s in visited)
    && !StartsWith(a.labels[n], ForCondition)
    && a.labels[n] != ForUpdate
  }

  /** The loop of findLastExecutionNode. Every poll marks the node visited,
      even when it was visited before, and queues its unvisited successors; the
      last polled candidate wins. */
  function LastExecutionBfs(a: Arena, queue: seq<nat>, visited: set<nat>, last: nat): (r: nat)
    requires WellFormed(a) && last < |a.labels| && AllNodes(a, queue) && visited <= Nodes(a.succ)
    ensures r < |a.labels|
    decreases Nodes(a.succ) - visited, CountVisited(queue, visited)
  {
    if queue == [] then last
    else
      var cur := queue[0];
      var visited' := visited + {cur};
      var last' := if TerminalCandidate(a, cur, visited') then cur else last;
      var queue' := queue[1..] + Unvisited(a.succ[cur], visited');
      LastExecutionProgress(a, queue, visited);
      LastExecutionBfs(a, queue', visited', last')
  }

  /** One poll of findLastExecutionNode makes progress: a first visit shrinks
      the unvisited nodes, a repeated poll removes an entry already visited
      from the queue and adds none. */
  lemma LastExecutionProgress(a: Arena, queue: seq<nat>, visited: set<nat>)
    requires WellFormed(a) && AllNodes(a, queue) && queue != []
    ensures var cur := queue[0];
      var queue' := queue[1..] + Unvisited(a.succ[cur], visited + {cur});
      && (cur !in visited ==> cur in Nodes(a.succ) - visited)
      && (cur in visited ==> visited + {cur} == visited && CountVisited(queue', visited) < CountVisited(queue, visited))
  {
    var cur := queue[0];
    var visited' := visited + {cur};
    if cur in visited {
      // A repeated poll: nothing new is visited and one visited entry leaves the queue.
      CountVisitedAppend(queue[1..], Unvisited(a.succ[cur], visited'), visited');
      CountVisitedNone(Unvisited(a.succ[cur], visited'), visited');
      assert visited' == visited;
    }
  }

  /** findLastExecutionNode: the node of main's graph that is linked to PROGRAM_END. */
  function FindLastExecution(a: Arena, start: nat): (r: nat)
    requires WellFormed(a) && start < |a.labels|
    ensures r < |a.labels|
  {
    if a.succ[start] == [] then start
    else LastExecutionBfs(a, [start], {}, start)
  }

  // ---------------------------------------------------------------------
  // Lowering of statements and blocks (CFGNode.java:182-209, 255-314)

  /** buildFromStatement: returns the statement's first node, always the first new one. */
  function LowerStmt(a: Arena, s: Stmt): (r: (Arena, nat))
    requires WellFormed(a)
    ensures WellFormed(r.0) && r.1 == |a.labels| < |r.0.labels|
    decreases s, 1
  {
    match s
    case IfStmt(_, _, _) => LowerIf(a, s)
    case ForStmt(_, _, _, _) => LowerFor(a, s)
    case ExpressionStmt(e) => NewNode(a, if e.FmtPrint? then PrintStmt else ExprStmt)
    case ShortVarDecl(_, _) => NewNode(a, VarDeclLabel)
    case OtherStmt => NewNode(a, UnknownStmt)
  }

  /** buildFromIf: condition, join, then-block, optional else-block. */
  function LowerIf(a: Arena, s: Stmt): (r: (Arena, nat))
    requires WellFormed(a) && s.IfStmt?
    ensures WellFormed(r.0) && r.1 == |a.labels| < |r.0.labels|
    decreases s, 0
  {
    var (a1, cond) := NewNode(a, IfCondition);
    var (a2, join) := NewNode(a1, IfJoin);
    var a3 := LowerBranch(a2, s.thenBlock, cond, join);
    match s.elseBlock
    case Some(elseBlock) => (LowerBranch(a3, elseBlock, cond, join), cond)
    case None => (AddEdge(a3, cond, join), cond)
  }

  /** One branch of buildFromIf: the block's first node becomes a successor of
      the condition, and getLastNode of it gets the join as a successor. */
  function LowerBranch(a: Arena, b: Block, cond: nat, join: nat): (r: Arena)
    requires WellFormed(a) && cond < |a.labels| && join < |a.labels|
    ensures WellFormed(r) && |a.labels| < |r.labels|
    decreases b, 1
  {
    var (a1, first) := LowerBlock(a, b);
    var a2 := AddEdge(a1, cond, first);
    AddEdge(a2, LastNode(a2, first), join)
  }

  /** buildFromFor: init -> condition -> body ... -> update -> condition, and condition -> exit. */
  function LowerFor(a: Arena, s: Stmt): (r: (Arena, nat))
    requires WellFormed(a) && s.ForStmt?
    ensures WellFormed(r.0) && r.1 == |a.labels| < |r.0.labels|
    decreases s, 0
  {
    var (a1, init) := NewNode(a, ForInit);
    var (a2, cond) := NewNode(a1, ForCondition);
    var (a3, update) := NewNode(a2, ForUpdate);
    var (a4, exit) := NewNode(a3, ForExit);
    var (a5, body) := LowerBlock(a4, s.body);
    (LinkFor(a5, init, cond, update, exit, body), init)
  }

  /** The edges buildFromFor adds once the body is lowered, in its order. */
  function LinkFor(a: Arena, init: nat, cond: nat, update: nat, exit: nat, body: nat): (r: Arena)
    requires WellFormed(a) && init < |a.labels| && cond < |a.labels| && update < |a.labels|
    requires exit < |a.labels| && body < |a.labels|
    ensures WellFormed(r) && r.labels == a.labels
  {
    var a1 := AddEdge(a, init, cond);
    var a2 := AddEdge(a1, cond, body);
    var a3 := AddEdge(a2, LastNode(a2, body), update);
    var a4 := AddEdge(a3, update, cond);
    AddEdge(a4, cond, exit)
  }

  /** buildFromBlock: an empty block is one EMPTY_BLOCK node; otherwise the
      statements are chained and the first statement's node is returned. */
  function LowerBlock(a: Arena, b: Block): (r: (Arena, nat))
    requires WellFormed(a)
    ensures WellFormed(r.0) && r.1 == |a.labels| < |r.0.labels|
    decreases b, 0
  {
    if b.statements == [] then NewNode(a, EmptyBlock)
    else
      var (a1, first) := LowerStmts(a, b.statements, None, None);
      (a1, first.value)
  }

  /** The loop of buildFromBlock over `stmts`, with its `firstNode` and
      `previousNode` variables: each statement's first node becomes a
      successor of getLastNode(previous statement's first node). */
  function LowerStmts(a: Arena, stmts: seq<Stmt>, first: Option<nat>, prev: Option<nat>): (r: (Arena, Option<nat>))
    requires WellFormed(a)
    requires first.Some? ==> first.value < |a.labels|
    requires prev.Some? ==> prev.value < |a.labels|
    ensures WellFormed(r.0) && |a.labels| <= |r.0.labels|
    ensures first.Some? ==> r.1 == first
    ensures first.None? && stmts != [] ==> r.1 == Some(|a.labels|) && |a.labels| < |r.0.labels|
    decreases stmts
  {
    if stmts == [] then (a, first)
    else
      var (a1, cur) := LowerStmt(a, stmts[0]);
      var first' := if first.None? then Some(cur) else first;
      var a2 := if prev.Some? then AddEdge(a1, LastNode(a1, prev.value), cur) else a1;
      LowerStmts(a2, stmts[1..], first', Some(cur))
  }

  /** buildFromFunction: FUNCTION_<name>, followed by its body when it has one. */
  function LowerFunction(a: Arena, f: Function): (r: (Arena, nat))
    requires WellFormed(a)
    ensures WellFormed(r.0) && r.1 == |a.labels| < |r.0.labels|
  {
    var (a1, entry) := NewNode(a, FunctionLabel(f.name));
    match f.body
    case Some(body) =>
      var (a2, bodyFirst) := LowerBlock(a1, body);
      (AddEdge(a2, entry, bodyFirst), entry)
    case None => (a1, entry)
  }

  /** A declaration that buildFromProgram lowers: a function named main. */
  predicate IsMain(d: Decl)
  {
    d.FunctionDecl? && d.func.name == EntryFunction
  }

  /** The loop of buildFromProgram over the declarations. */
  function LowerDecls(a: Arena, decls: seq<Decl>, entry: nat, exit: nat): (r: Arena)
    requires WellFormed(a) && entry < |a.labels| && exit < |a.labels|
    ensures WellFormed(r) && |a.labels| <= |r.labels|
    decreases decls
  {
    if decls == [] then a
    else if IsMain(decls[0]) then LowerDecls(LowerMain(a, decls[0].func, entry, exit), decls[1..], entry, exit)
    else LowerDecls(a, decls[1..], entry, exit)
  }

  /** One main function in buildFromProgram: its entry follows `entry`, and
      findLastExecutionNode of it gets `exit` as a successor. */
  function LowerMain(a: Arena, f: Function, entry: nat, exit: nat): (r: Arena)
    requires WellFormed(a) && entry < |a.labels| && exit < |a.labels|
    ensures WellFormed(r) && |a.labels| < |r.labels|
  {
    var (a1, mainEntry) := LowerFunction(a, f);
    var a2 := AddEdge(a1, entry, mainEntry);
    AddEdge(a2, FindLastExecution(a2, mainEntry), exit)
  }

  /** buildFromProgram: PROGRAM_START (node 0) and PROGRAM_END (node 1) in a
      fresh arena, then every main function between them. */
  function LowerProgram(p: Program): (r: (Arena, nat))
    ensures WellFormed(r.0) && r.1 == 0 && 2 <= |r.0.labels|
  {
    (LowerDecls(ProgramFrame(), p.declarations, 0, 1), 0)
  }

  /** The first two nodes buildFromProgram makes: PROGRAM_START is node 0 and
      PROGRAM_END node 1. */
  function ProgramFrame(): (r: Arena)
    ensures WellFormed(r) && |r.labels| == 2
    ensures r.labels[0] == ProgramStart && r.labels[1] == ProgramEnd
  {
    var a1 := AddNode(EmptyArena, ProgramStart);
    var r := AddNode(a1, ProgramEnd);
    assert r.labels[0] == r.labels[..1][0] == a1.labels[0];
    r
  }

  /** build: only a program is lowered; anything else gives null. */
  function Build(ast: AstNode): Option<(Arena, nat)>
  {
    match ast
    case ProgramNode(p) => Some(LowerProgram(p))
    case _ => None
  }
}
