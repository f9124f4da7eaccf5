/** CFGBuilder (CFGNode.java:75-343) as a class over one node arena. Every
    method is proved to change the arena exactly as the matching function of
    module Lowering says, so the properties proved about those functions
    hold for the graphs this class builds. */
module CfgBuilder {
  import opened Util
  import opened Ast
  import opened Graph
  import opened CfgNode
  import opened Lowering
  import opened Mermaid

  class Builder {
    /** The arena every node of the current graph lives in. */
    var g: Cfg
    var entry: Option<nat>
    var exit: Option<nat>

    /** The arena is well formed and no analysis has run on it yet. */
    ghost predicate Ready()
      reads this, g
    {
      g.Valid() && g.AnalysisFresh()
    }

    /** `new CFGBuilder()`: numbering starts afresh. */
    constructor ()
      ensures Ready() && fresh(g) && g.Snapshot() == EmptyArena
      ensures entry == None && exit == None
    {
      g := new Cfg();
      entry, exit := None, None;
    }

    /** build (CFGNode.java:92-100): a program is lowered into a new arena,
        numbered from the start; any other node gives null. */
    method Build(ast: AstNode) returns (r: Option<nat>)
      modifies this
      ensures r.Some? <==> ast.ProgramNode?
      ensures ast.ProgramNode? ==> Ready() && fresh(g) && (g.Snapshot(), r.value) == LowerProgram(ast.program)
      ensures ast.ProgramNode? ==> entry == Some(0) && exit == Some(1)
      ensures !ast.ProgramNode? ==> g == old(g) && entry == old(entry) && exit == old(exit)
    {
      if ast.ProgramNode? {
        g := new Cfg();
        var n := BuildFromProgram(ast.program);
        r := Some(n);
      } else {
        r := None;
      }
    }

    /** buildFromProgram (CFGNode.java:102-128). */
    method BuildFromProgram(p: Program) returns (entryNode: nat)
      requires Ready() && g.Snapshot() == EmptyArena
      modifies this`entry, this`exit, g
      ensures Ready() && (g.Snapshot(), entryNode) == LowerProgram(p)
      ensures entry == Some(0) && exit == Some(1)
    {
      var exitNode;
      entryNode, exitNode := BuildFrame();
      var currentNode := entryNode;
      BuildDecls(p.declarations, currentNode, exitNode);
      entry, exit := Some(entryNode), Some(exitNode);
    }

    /** The start of buildFromProgram (CFGNode.java:103-108): PROGRAM_START and
        PROGRAM_END as the first two nodes of the arena. */
    method BuildFrame() returns (entryNode: nat, exitNode: nat)
      requires Ready() && g.Snapshot() == EmptyArena
      modifies g
      ensures Ready() && g.Snapshot() == ProgramFrame() && entryNode == 0 && exitNode == 1
    {
      entryNode := g.NewNode(ProgramStart);
      exitNode := g.NewNode(ProgramEnd);
    }

    /** The loop of buildFromProgram (CFGNode.java:112-125) over the
        declarations, with `entryNode` and `exitNode` as the program's start
        and end. */
    method BuildDecls(decls: seq<Decl>, entryNode: nat, exitNode: nat)
      requires Ready() && entryNode < |g.labels| && exitNode < |g.labels|
      modifies g
      ensures Ready() && g.Snapshot() == LowerDecls(old(g.Snapshot()), decls, entryNode, exitNode)
    {
      for k := 0 to |decls|
        invariant Ready() && entryNode < |g.labels| && exitNode < |g.labels|
        invariant LowerDecls(g.Snapshot(), decls[k..], entryNode, exitNode)
          == LowerDecls(old(g.Snapshot()), decls, entryNode, exitNode)
      {
        assert decls[k..][1..] == decls[k + 1..];
        if IsMain(decls[k]) {
          BuildMain(decls[k].func, entryNode, exitNode);
        }
      }
    }

    /** The body of the loop of buildFromProgram for a main function: its
        entry follows `entryNode`, and its last execution node gets `exitNode`
        as a successor. */
    method BuildMain(f: Function, entryNode: nat, exitNode: nat)
      requires Ready() && entryNode < |g.labels| && exitNode < |g.labels|
      modifies g
      ensures Ready() && g.Snapshot() == LowerMain(old(g.Snapshot()), f, entryNode, exitNode)
    {
      var mainFunctionNode := BuildFromFunction(f);
      g.AddSuccessor(entryNode, mainFunctionNode);
      var lastMainNode := FindLastExecutionNode(mainFunctionNode);
      g.AddSuccessor(lastMainNode, exitNode);
    }

    /** findLastExecutionNode (CFGNode.java:130-168). */
    method FindLastExecutionNode(startNode: nat) returns (lastNode: nat)
      requires Ready() && startNode < |g.labels|
      ensures lastNode == FindLastExecution(g.Snapshot(), startNode)
    {
      // The graph does not change during the search.
      var a := g.Snapshot();
      if a.succ[startNode] == [] {
        return startNode;
      }
      var queue := [startNode];
      var visited: set<nat> := {};
      lastNode := startNode;
      while queue != []
        invariant AllNodes(a, queue) && visited <= Nodes(a.succ) && lastNode < |a.labels|
        invariant LastExecutionBfs(a, queue, visited, lastNode) == LastExecutionBfs(a, [startNode], {}, startNode)
        decreases Nodes(a.succ) - visited, CountVisited(queue, visited)
      {
        ghost var queue0, visited0 := queue, visited;
        var current := queue[0];
        queue := queue[1..];
        visited := visited + {current};
        if TerminalCandidate(a, current, visited) {
          lastNode := current;
        }
        var next := a.succ[current];
        for j := 0 to |next|
          invariant queue == queue0[1..] + Unvisited(next[..j], visited)
        {
          UnvisitedSnoc(next, j, visited);
          if next[j] !in visited {
            queue := queue + [next[j]];
          }
        }
        assert next[..|next|] == next;
        LastExecutionProgress(a, queue0, visited0);
      }
    }

    /** buildFromFunction (CFGNode.java:170-180). */
    method BuildFromFunction(f: Function) returns (entryNode: nat)
      requires Ready()
      modifies g
      ensures Ready() && (g.Snapshot(), entryNode) == LowerFunction(old(g.Snapshot()), f)
    {
      entryNode := g.NewNode(FunctionLabel(f.name));
      if f.body.Some? {
        var bodyNode := BuildFromBlock(f.body.value);
        g.AddSuccessor(entryNode, bodyNode);
      }
    }

    /** buildFromBlock (CFGNode.java:182-209). */
    method BuildFromBlock(b: Block) returns (firstNode: nat)
      requires Ready()
      modifies g
      ensures Ready() && (g.Snapshot(), firstNode) == LowerBlock(old(g.Snapshot()), b)
      decreases b, 0
    {
      var stmts := b.statements;
      if stmts == [] {
        firstNode := g.NewNode(EmptyBlock);
        return;
      }
      ghost var a0 := g.Snapshot();
      var first: Option<nat> := None;
      var previous: Option<nat> := None;
      for k := 0 to |stmts|
        invariant Ready()
        invariant first.Some? ==> first.value < |g.labels|
        invariant previous.Some? ==> previous.value < |g.labels|
        invariant LowerStmts(g.Snapshot(), stmts[k..], first, previous) == LowerStmts(a0, stmts, None, None)
      {
        assert stmts[k..][1..] == stmts[k + 1..];
        var current := BuildFromStatement(stmts[k]);
        if first.None? {
          first := Some(current);
        }
        if previous.Some? {
          var previousLast := GetLastNode(previous.value);
          g.AddSuccessor(previousLast, current);
        }
        previous := Some(current);
      }
      firstNode := first.value;
    }

    /** getLastNode (CFGNode.java:212-220). */
    method GetLastNode(node: nat) returns (r: nat)
      requires Ready() && node < |g.labels|
      ensures r == LastNode(g.Snapshot(), node)
    {
      if g.labels[node] == IfCondition {
        r := FindJoinNode(node);
      } else if g.labels[node] == ForInit {
        r := FindForExitNode(node);
      } else {
        r := node;
      }
    }

    /** findJoinNode (CFGNode.java:222-234). */
    method FindJoinNode(ifNode: nat) returns (r: nat)
      requires Ready() && ifNode < |g.labels|
      ensures r == FindJoin(g.Snapshot(), ifNode)
    {
      ghost var a := g.Snapshot();
      var successors := g.succ[ifNode];
      for i := 0 to |successors|
        invariant JoinAmong(a, ifNode, successors[i..]) == FindJoin(a, ifNode)
      {
        assert successors[i..][1..] == successors[i + 1..];
        var successor := successors[i];
        if g.labels[successor] == IfJoin {
          return successor;
        }
        var inner := g.succ[successor];
        for j := 0 to |inner|
          invariant FirstJoin(a, inner[j..]) == FirstJoin(a, inner)
        {
          assert inner[j..][1..] == inner[j + 1..];
          if g.labels[inner[j]] == IfJoin {
            return inner[j];
          }
        }
      }
      r := ifNode;
    }

    /** findForExitNode (CFGNode.java:236-253). */
    method FindForExitNode(forInitNode: nat) returns (r: nat)
      requires Ready() && forInitNode < |g.labels|
      ensures r == FindForExit(g.Snapshot(), forInitNode)
    {
      ghost var a := g.Snapshot();
      var queue := [forInitNode];
      var visited: set<nat> := {};
      while queue != []
        invariant AllNodes(a, queue) && visited <= Nodes(a.succ)
        invariant ForExitBfs(a, queue, visited, forInitNode) == FindForExit(a, forInitNode)
        decreases Nodes(a.succ) - visited, |queue|
      {
        var current := queue[0];
        if g.labels[current] == ForExit {
          return current;
        }
        if current !in visited {
          assert current in Nodes(a.succ) - visited;
          visited := visited + {current};
          queue := queue[1..] + g.succ[current];
        } else {
          queue := queue[1..];
        }
      }
      r := forInitNode;
    }

    /** buildFromStatement (CFGNode.java:255-271). */
    method BuildFromStatement(s: Stmt) returns (n: nat)
      requires Ready()
      modifies g
      ensures Ready() && (g.Snapshot(), n) == LowerStmt(old(g.Snapshot()), s)
      decreases s, 1
    {
      match s
      case IfStmt(_, _, _) =>
        n := BuildFromIf(s);
      case ForStmt(_, _, _, _) =>
        n := BuildFromFor(s);
      case ExpressionStmt(e) =>
        if e.FmtPrint? {
          n := g.NewNode(PrintStmt);
        } else {
          n := g.NewNode(ExprStmt);
        }
      case ShortVarDecl(_, _) =>
        n := g.NewNode(VarDeclLabel);
      case OtherStmt =>
        n := g.NewNode(UnknownStmt);
    }

    /** buildFromIf (CFGNode.java:273-294). */
    method BuildFromIf(s: Stmt) returns (conditionNode: nat)
      requires Ready() && s.IfStmt?
      modifies g
      ensures Ready() && (g.Snapshot(), conditionNode) == LowerIf(old(g.Snapshot()), s)
      decreases s, 0
    {
      ghost var a := g.Snapshot();
      conditionNode := g.NewNode(IfCondition);
      var joinNode := g.NewNode(IfJoin);
      ghost var a2 := g.Snapshot();
      var thenNode := BuildFromBlock(s.thenBlock);
      g.AddSuccessor(conditionNode, thenNode);
      var thenLastNode := GetLastNode(thenNode);
      g.AddSuccessor(thenLastNode, joinNode);
      assert g.Snapshot() == LowerBranch(a2, s.thenBlock, conditionNode, joinNode);
      if s.elseBlock.Some? {
        ghost var a3 := g.Snapshot();
        var elseNode := BuildFromBlock(s.elseBlock.value);
        g.AddSuccessor(conditionNode, elseNode);
        var elseLastNode := GetLastNode(elseNode);
        g.AddSuccessor(elseLastNode, joinNode);
        assert g.Snapshot() == LowerBranch(a3, s.elseBlock.value, conditionNode, joinNode);
      } else {
        g.AddSuccessor(conditionNode, joinNode);
      }
    }

    /** buildFromFor (CFGNode.java:296-314). */
    method BuildFromFor(s: Stmt) returns (initNode: nat)
      requires Ready() && s.ForStmt?
      modifies g
      ensures Ready() && (g.Snapshot(), initNode) == LowerFor(old(g.Snapshot()), s)
      decreases s, 0
    {
      initNode := g.NewNode(ForInit);
      var conditionNode := g.NewNode(ForCondition);
      var updateNode := g.NewNode(ForUpdate);
      var exitNode := g.NewNode(ForExit);
      var bodyNode := BuildFromBlock(s.body);
      g.AddSuccessor(initNode, conditionNode);
      g.AddSuccessor(conditionNode, bodyNode);
      var bodyLastNode := GetLastNode(bodyNode);
      g.AddSuccessor(bodyLastNode, updateNode);
      g.AddSuccessor(updateNode, conditionNode);
      g.AddSuccessor(conditionNode, exitNode);
    }

    /** generateMermaidDiagram (CFGNode.java:316-325). */
    method GenerateMermaidDiagram(start: nat) returns (text: string)
      requires g.Valid() && start < |g.labels|
      ensures text == Diagram(g.Snapshot(), start)
    {
      var sb := Header;
      var visited: seq<nat> := [];
      ghost var lines: seq<Line> := [];
      visited, sb, lines := Mermaid.GenerateMermaidNodes(g, start, visited, sb, lines);
      text := sb;
    }

  }
}
