/** generateMermaidDiagram (CFGNode.java:316-342): a depth-first walk from the
    start node that prints each node once, when first met, followed by one
    edge line per successor, each edge line immediately followed by the walk
    into that successor. The output is modelled as a list of lines and the
    text they render to. */
module Mermaid {
  import opened Util
  import opened Graph
  import opened CfgNode

  /** One printed line: a node definition `id["label"]` or an edge `a --> b`. */
  datatype Line = NodeLine(node: nat) | EdgeLine(from: nat, to: nat)

  const Header := "graph TD\n"

  /** The node a line is printed for: the node itself or the edge's source. */
  function Owner(l: Line): nat
  {
    if l.NodeLine? then l.node else l.from
  }

  /** A node is printed under its Java id, its arena index plus one. */
  function Id(n: nat): string
  {
    NatToString(n + 1)
  }

  predicate LineOk(a: Arena, l: Line)
  {
    match l
    case NodeLine(n) => n < |a.labels|
    case EdgeLine(x, y) => x < |a.labels| && y < |a.labels|
  }

  predicate LinesOk(a: Arena, ls: seq<Line>)
  {
    forall i :: 0 <= i < |ls| ==> LineOk(a, ls[i])
  }

  function LineText(a: Arena, l: Line): string
    requires LineOk(a, l)
  {
    match l
    case NodeLine(n) => "    " + Id(n) + "[\"" + a.labels[n] + "\"]\n"
    case EdgeLine(x, y) => "    " + Id(x) + " --> " + Id(y) + "\n"
  }

  /** The header followed by the text of the lines, in order. */
  function Render(a: Arena, ls: seq<Line>): string
    requires LinesOk(a, ls)
  {
    if ls == [] then Header else Render(a, ls[..|ls| - 1]) + LineText(a, ls[|ls| - 1])
  }

  /** The nodes of a visited list. */
  function Seen(v: seq<nat>): (r: set<nat>)
    ensures forall x :: x in r <==> x in v
  {
    set x | x in v
  }

  /** generateMermaidNodes(node, visited, sb): the new visited list and lines. */
  function Emit(g: Adjacency, node: nat, visited: seq<nat>, lines: seq<Line>): (r: (seq<nat>, seq<Line>))
    requires Closed(g) && node < |g| && Seen(visited) <= Nodes(g)
    ensures Seen(visited) <= Seen(r.0) <= Nodes(g)
    decreases Nodes(g) - Seen(visited), 0, 0
  {
    if node in visited then (visited, lines)
    else
      assert node in Nodes(g) - Seen(visited) && node !in Nodes(g) - Seen(visited + [node]);
      EmitList(g, node, g[node], visited + [node], lines + [NodeLine(node)])
  }

  /** The loop of generateMermaidNodes over the successors `ss` of `parent`. */
  function EmitList(g: Adjacency, parent: nat, ss: seq<nat>, visited: seq<nat>, lines: seq<Line>): (r: (seq<nat>, seq<Line>))
    requires Closed(g) && Seen(visited) <= Nodes(g)
    requires forall i :: 0 <= i < |ss| ==> ss[i] < |g|
    ensures Seen(visited) <= Seen(r.0) <= Nodes(g)
    decreases Nodes(g) - Seen(visited), 1, |ss|
  {
    if ss == [] then (visited, lines)
    else
      var next := Emit(g, ss[0], visited, lines + [EdgeLine(parent, ss[0])]);
      EmitList(g, parent, ss[1..], next.0, next.1)
  }

  /** The lines generateMermaidDiagram prints after the header. */
  function DiagramLines(a: Arena, start: nat): seq<Line>
    requires WellFormed(a) && start < |a.labels|
  {
    Emit(a.succ, start, [], []).1
  }

  /** generateMermaidDiagram(start). */
  function Diagram(a: Arena, start: nat): string
    requires WellFormed(a) && start < |a.labels|
  {
    DiagramLinesOk(a, start);
    Render(a, DiagramLines(a, start))
  }

  lemma DiagramLinesOk(a: Arena, start: nat)
    requires WellFormed(a) && start < |a.labels|
    ensures LinesOk(a, DiagramLines(a, start))
  {
    EmitOk(a, start, [], []);
  }

  /** Every line printed is about nodes of the arena. */
  lemma {:induction false} EmitOk(a: Arena, node: nat, visited: seq<nat>, lines: seq<Line>)
    requires WellFormed(a) && node < |a.labels| && Seen(visited) <= Nodes(a.succ) && LinesOk(a, lines)
    ensures LinesOk(a, Emit(a.succ, node, visited, lines).1)
    decreases Nodes(a.succ) - Seen(visited), 0, 0
  {
    if node !in visited {
      assert node in Nodes(a.succ) - Seen(visited) && node !in Nodes(a.succ) - Seen(visited + [node]);
      EmitListOk(a, node, a.succ[node], visited + [node], lines + [NodeLine(node)]);
    }
  }

  lemma {:induction false} EmitListOk(a: Arena, parent: nat, ss: seq<nat>, visited: seq<nat>, lines: seq<Line>)
    requires WellFormed(a) && parent < |a.labels| && Seen(visited) <= Nodes(a.succ) && LinesOk(a, lines)
    requires forall i :: 0 <= i < |ss| ==> ss[i] < |a.succ|
    ensures LinesOk(a, EmitList(a.succ, parent, ss, visited, lines).1)
    decreases Nodes(a.succ) - Seen(visited), 1, |ss|
  {
    if ss != [] {
      var ls := lines + [EdgeLine(parent, ss[0])];
      EmitOk(a, ss[0], visited, ls);
      var next := Emit(a.succ, ss[0], visited, ls);
      EmitListOk(a, parent, ss[1..], next.0, next.1);
    }
  }

  /** Appending a line appends its text. */
  lemma RenderSnoc(a: Arena, ls: seq<Line>, l: Line)
    requires LinesOk(a, ls) && LineOk(a, l)
    ensures LinesOk(a, ls + [l]) && Render(a, ls + [l]) == Render(a, ls) + LineText(a, l)
  {
    assert (ls + [l])[..|ls|] == ls;
  }

  // ---------------------------------------------------------------------
  // What the diagram says

  /** Every line is printed for a node of `v`. */
  ghost predicate OwnedBy(ls: seq<Line>, v: seq<nat>)
  {
    forall i :: 0 <= i < |ls| ==> Owner(ls[i]) in v
  }

  /** The lines from index `lo` on are for nodes newly visited (in `v'` but
      not in `v`), edges from `parent` to a node of `ss` aside; every edge line
      is an edge of the graph. */
  ghost predicate NewLines(g: Adjacency, ls: seq<Line>, lo: nat, v: seq<nat>, v': seq<nat>, parent: nat, ss: seq<nat>)
    requires lo <= |ls|
  {
    forall i :: lo <= i < |ls| ==>
      && ((Owner(ls[i]) in v' && Owner(ls[i]) !in v) || (ls[i].EdgeLine? && ls[i].from == parent && ls[i].to in ss))
      && (ls[i].EdgeLine? ==> ls[i].from < |g| && ls[i].to in g[ls[i].from])
  }

  /** Each newly visited node has its node line and one edge line per
      successor, and its successors are visited. */
  ghost predicate Described(g: Adjacency, ls: seq<Line>, v: seq<nat>, v': seq<nat>)
  {
    forall x :: x in v' && x !in v ==>
      && x < |g|
      && NodeLine(x) in ls
      && forall y :: y in g[x] ==> EdgeLine(x, y) in ls && y in v'
  }

  /** From (`v`, `ls`) to (`v'`, `ls'`) the walk only appended to the visited
      list and to the lines, keeping both free of repeats; the new lines are
      for newly visited nodes (edges from `parent` to `ss` aside) and describe
      them completely, and every new node is reachable from `src`. */
  ghost predicate Step(g: Adjacency, src: nat, v: seq<nat>, ls: seq<Line>, v': seq<nat>, ls': seq<Line>, parent: nat, ss: seq<nat>)
  {
    && |v'| >= |v| && v'[..|v|] == v && NoDup(v')
    && |ls'| >= |ls| && ls'[..|ls|] == ls && NoDup(ls')
    && OwnedBy(ls', v')
    && NewLines(g, ls', |ls|, v, v', parent, ss)
    && Described(g, ls', v, v')
    && (forall x :: x in v' && x !in v ==> Reachable(g, src, x))
  }

  lemma StepRefl(g: Adjacency, src: nat, v: seq<nat>, ls: seq<Line>, parent: nat, ss: seq<nat>)
    requires NoDup(v) && NoDup(ls) && OwnedBy(ls, v)
    ensures Step(g, src, v, ls, v, ls, parent, ss)
  {
  }

  /** The edge line printed before the walk into a successor. */
  lemma EdgeStep(g: Adjacency, src: nat, v: seq<nat>, ls: seq<Line>, parent: nat, s: nat, ss: seq<nat>)
    requires NoDup(v) && NoDup(ls) && OwnedBy(ls, v)
    requires parent in v && parent < |g| && s in g[parent] && s in ss && EdgeLine(parent, s) !in ls
    ensures Step(g, src, v, ls, v, ls + [EdgeLine(parent, s)], parent, ss)
  {
    var ls' := ls + [EdgeLine(parent, s)];
    assert ls'[..|ls|] == ls;
  }

  /** Two steps in a row make one. */
  lemma StepTrans(g: Adjacency, src: nat, v: seq<nat>, ls: seq<Line>, v1: seq<nat>, l1: seq<Line>, v2: seq<nat>, l2: seq<Line>, parent: nat, ss: seq<nat>)
    requires Step(g, src, v, ls, v1, l1, parent, ss) && Step(g, src, v1, l1, v2, l2, parent, ss)
    ensures Step(g, src, v, ls, v2, l2, parent, ss)
  {
    assert v2[..|v|] == v2[..|v1|][..|v|];
    assert l2[..|ls|] == l2[..|l1|][..|ls|];
    forall x | x in v1 ensures x in v2 {
      var k :| 0 <= k < |v1| && v1[k] == x;
      assert v2[..|v1|][k] == x;
    }
    forall l | l in l1 ensures l in l2 {
      var k :| 0 <= k < |l1| && l1[k] == l;
      assert l2[..|l1|][k] == l;
    }
    forall x | x in v ensures x in v1 {
      var k :| 0 <= k < |v| && v[k] == x;
      assert v1[..|v|][k] == x;
    }
    forall i | |ls| <= i < |l1|
      ensures l2[i] == l1[i]
    {
      assert l2[..|l1|][i] == l1[i];
    }
  }

  /** New lines for no edge exception allow any. */
  lemma StepWiden(g: Adjacency, src: nat, v: seq<nat>, ls: seq<Line>, v': seq<nat>, ls': seq<Line>, p1: nat, ss1: seq<nat>, p2: nat, ss2: seq<nat>)
    requires Step(g, src, v, ls, v', ls', p1, ss1)
    requires forall t :: t in ss1 ==> p1 == p2 && t in ss2
    ensures Step(g, src, v, ls, v', ls', p2, ss2)
  {
  }

  /** A call of generateMermaidNodes on an unvisited node appends the node,
      then everything it newly visits, to the visited list; its lines follow
      the old ones, start with the node's line, and describe exactly the newly
      visited nodes, each line once; all new nodes are reachable from `src`. */
  lemma {:induction false} EmitFacts(g: Adjacency, src: nat, node: nat, visited: seq<nat>, lines: seq<Line>)
    requires Closed(g) && node < |g| && node !in visited && Seen(visited) <= Nodes(g)
    requires NoDup(visited) && NoDup(lines) && OwnedBy(lines, visited)
    requires Reachable(g, src, node)
    requires forall i :: 0 <= i < |g| ==> NoDup(g[i])
    ensures var r := Emit(g, node, visited, lines);
      && |r.0| > |visited| && r.0[|visited|] == node
      && |r.1| > |lines| && r.1[|lines|] == NodeLine(node)
      && Step(g, src, visited, lines, r.0, r.1, node, [])
    decreases Nodes(g) - Seen(visited), 0, 0
  {
    var v1 := visited + [node];
    var l1 := lines + [NodeLine(node)];
    assert node in Nodes(g) - Seen(visited) && node !in Nodes(g) - Seen(v1);
    forall s | s in g[node] ensures Reachable(g, src, s) {
      ReachableExtend(g, src, node, s);
    }
    forall i | 0 <= i < |lines| ensures lines[i] != NodeLine(node) {
      assert Owner(lines[i]) in visited;
    }
    EmitListFacts(g, src, node, g[node], v1, l1);
    var r := EmitList(g, node, g[node], v1, l1);
    assert r == Emit(g, node, visited, lines);
    NodeStep(g, src, node, visited, lines, r.0, r.1);
  }

  /** The node line followed by the successor loop make one step. */
  lemma NodeStep(g: Adjacency, src: nat, node: nat, visited: seq<nat>, lines: seq<Line>, v2: seq<nat>, l2: seq<Line>)
    requires node < |g| && node !in visited && Reachable(g, src, node)
    requires Step(g, src, visited + [node], lines + [NodeLine(node)], v2, l2, node, g[node])
    requires forall s :: s in g[node] ==> EdgeLine(node, s) in l2 && s in v2
    ensures && |v2| > |visited| && v2[|visited|] == node
      && |l2| > |lines| && l2[|lines|] == NodeLine(node)
      && Step(g, src, visited, lines, v2, l2, node, [])
  {
    var v1 := visited + [node];
    var l1 := lines + [NodeLine(node)];
    assert v2[..|visited|] == v2[..|v1|][..|visited|];
    assert l2[..|lines|] == l2[..|l1|][..|lines|];
    assert l2[|lines|] == l2[..|l1|][|lines|];
    assert v2[|visited|] == v2[..|v1|][|visited|];
    assert NewLines(g, l2, |lines|, visited, v2, node, []);
    assert Described(g, l2, visited, v2) by {
      forall x | x in v2 && x !in visited
        ensures x < |g| && NodeLine(x) in l2 && forall y :: y in g[x] ==> EdgeLine(x, y) in l2 && y in v2
      {
        if x != node {
          assert x !in v1;
        }
      }
    }
  }

  /** The successor loop of one generateMermaidNodes call: besides the above,
      every successor in `ss` gets its edge line and is visited. */
  lemma {:induction false} EmitListFacts(g: Adjacency, src: nat, parent: nat, ss: seq<nat>, visited: seq<nat>, lines: seq<Line>)
    requires Closed(g) && parent < |g| && parent in visited && Seen(visited) <= Nodes(g)
    requires forall i :: 0 <= i < |ss| ==> ss[i] in g[parent] && Reachable(g, src, ss[i])
    requires NoDup(ss)
    requires NoDup(visited) && NoDup(lines) && OwnedBy(lines, visited)
    requires forall s :: s in ss ==> EdgeLine(parent, s) !in lines
    requires forall i :: 0 <= i < |g| ==> NoDup(g[i])
    ensures var r := EmitList(g, parent, ss, visited, lines);
      && Step(g, src, visited, lines, r.0, r.1, parent, ss)
      && (forall s :: s in ss ==> EdgeLine(parent, s) in r.1 && s in r.0)
    decreases Nodes(g) - Seen(visited), 1, |ss|
  {
    if ss == [] {
      StepRefl(g, src, visited, lines, parent, ss);
    } else {
      var s := ss[0];
      var next := Emit(g, s, visited, lines + [EdgeLine(parent, s)]);
      FirstSuccessor(g, src, parent, ss, visited, lines);
      assert s in Nodes(g) - Seen(visited) ==> s !in Nodes(g) - Seen(next.0);
      EmitListFacts(g, src, parent, ss[1..], next.0, next.1);
      var r := EmitList(g, parent, ss[1..], next.0, next.1);
      assert r == EmitList(g, parent, ss, visited, lines);
      ListStep(g, src, parent, ss, visited, lines, next.0, next.1, r.0, r.1);
    }
  }

  /** The edge line to the first successor and the walk into it. */
  lemma FirstSuccessor(g: Adjacency, src: nat, parent: nat, ss: seq<nat>, visited: seq<nat>, lines: seq<Line>)
    requires Closed(g) && parent < |g| && parent in visited && Seen(visited) <= Nodes(g)
    requires forall i :: 0 <= i < |ss| ==> ss[i] in g[parent] && Reachable(g, src, ss[i])
    requires NoDup(ss) && ss != []
    requires NoDup(visited) && NoDup(lines) && OwnedBy(lines, visited)
    requires forall s :: s in ss ==> EdgeLine(parent, s) !in lines
    requires forall i :: 0 <= i < |g| ==> NoDup(g[i])
    ensures var next := Emit(g, ss[0], visited, lines + [EdgeLine(parent, ss[0])]);
      && Step(g, src, visited, lines, next.0, next.1, parent, ss)
      && EdgeLine(parent, ss[0]) in next.1 && ss[0] in next.0
      && Seen(visited) <= Seen(next.0)
      && (forall t :: t in ss[1..] ==> EdgeLine(parent, t) !in next.1)
      && (ss[0] !in visited ==> ss[0] in Nodes(g) - Seen(visited) && ss[0] !in Nodes(g) - Seen(next.0))
    decreases Nodes(g) - Seen(visited), 0, 1
  {
    var s := ss[0];
    var l1 := lines + [EdgeLine(parent, s)];
    EdgeStep(g, src, visited, lines, parent, s, ss);
    var next := Emit(g, s, visited, l1);
    if s in visited {
      StepRefl(g, src, visited, l1, parent, ss);
    } else {
      EmitFacts(g, src, s, visited, l1);
      forall t, k | t in ss[1..] && |l1| <= k < |next.1| ensures next.1[k] != EdgeLine(parent, t) {
        assert Owner(next.1[k]) !in visited;
      }
      StepWiden(g, src, visited, l1, next.0, next.1, s, [], parent, ss);
    }
    StepTrans(g, src, visited, lines, visited, l1, next.0, next.1, parent, ss);
    forall t, k | t in ss[1..] && 0 <= k < |l1| ensures next.1[k] != EdgeLine(parent, t) {
      assert next.1[k] == next.1[..|l1|][k] == l1[k];
      if k < |lines| {
        assert lines[k] in lines;
      } else {
        assert t != s;
      }
    }
    assert next.1[..|l1|][|lines|] == EdgeLine(parent, s);
  }

  /** The first successor's part followed by the rest of the loop make one step. */
  lemma ListStep(g: Adjacency, src: nat, parent: nat, ss: seq<nat>, visited: seq<nat>, lines: seq<Line>,
                 v1: seq<nat>, l1: seq<Line>, v2: seq<nat>, l2: seq<Line>)
    requires ss != []
    requires Step(g, src, visited, lines, v1, l1, parent, ss) && EdgeLine(parent, ss[0]) in l1 && ss[0] in v1
    requires Step(g, src, v1, l1, v2, l2, parent, ss[1..])
    requires forall s :: s in ss[1..] ==> EdgeLine(parent, s) in l2 && s in v2
    ensures Step(g, src, visited, lines, v2, l2, parent, ss)
    ensures forall s :: s in ss ==> EdgeLine(parent, s) in l2 && s in v2
  {
    StepWiden(g, src, v1, l1, v2, l2, parent, ss[1..], parent, ss);
    StepTrans(g, src, visited, lines, v1, l1, v2, l2, parent, ss);
    var k :| 0 <= k < |l1| && l1[k] == EdgeLine(parent, ss[0]);
    assert l2[..|l1|][k] == EdgeLine(parent, ss[0]);
    var k2 :| 0 <= k2 < |v1| && v1[k2] == ss[0];
    assert v2[..|v1|][k2] == ss[0];
    forall t | t in ss ensures EdgeLine(parent, t) in l2 && t in v2 {
      if t != ss[0] {
        assert t in ss[1..];
      }
    }
  }

  /** generateMermaidDiagram(start) prints, after its header, one node line
      for each node reachable from `start` and nothing else, the start node's
      first; one edge line for each successor edge of each reachable node and
      nothing else; and no line twice. */
  lemma DiagramCorrect(a: Arena, start: nat)
    requires WellFormed(a) && start < |a.labels|
    ensures var ls := DiagramLines(a, start);
      && |ls| > 0 && ls[0] == NodeLine(start)
      && NoDup(ls)
      && (forall x: nat :: NodeLine(x) in ls <==> x < |a.labels| && Reachable(a.succ, start, x))
      && (forall x: nat, y: nat :: EdgeLine(x, y) in ls <==> x < |a.labels| && Reachable(a.succ, start, x) && y in a.succ[x])
  {
    var g := a.succ;
    var r := Emit(g, start, [], []);
    var v, ls := r.0, r.1;
    DiagramVisits(a, start);
    forall x: nat | NodeLine(x) in ls ensures x < |a.labels| && Reachable(g, start, x) {
      var k :| 0 <= k < |ls| && ls[k] == NodeLine(x);
      assert Owner(ls[k]) == x;
    }
    forall x: nat, y: nat | EdgeLine(x, y) in ls ensures x < |a.labels| && Reachable(g, start, x) && y in g[x] {
      var k :| 0 <= k < |ls| && ls[k] == EdgeLine(x, y);
      assert Owner(ls[k]) == x;
    }
  }

  /** The walk from `start` visits exactly the nodes reachable from it. */
  lemma DiagramVisits(a: Arena, start: nat)
    requires WellFormed(a) && start < |a.labels|
    ensures var r := Emit(a.succ, start, [], []);
      && |r.1| > 0 && r.1[0] == NodeLine(start)
      && Step(a.succ, start, [], [], r.0, r.1, start, [])
      && (forall x: nat :: x in r.0 <==> x < |a.labels| && Reachable(a.succ, start, x))
  {
    var g := a.succ;
    ReachableRefl(g, start);
    EmitFacts(g, start, start, [], []);
    var v := Emit(g, start, [], []).0;
    forall x: nat | x < |g| && Reachable(g, start, x) ensures x in v {
      ClosedSetHoldsReachable(g, Seen(v), start, x);
    }
  }

  /** The diagram text begins with the header line. */
  lemma {:induction false} RenderStartsWithHeader(a: Arena, ls: seq<Line>)
    requires LinesOk(a, ls)
    ensures StartsWith(Render(a, ls), Header)
  {
    if ls != [] {
      RenderStartsWithHeader(a, ls[..|ls| - 1]);
      var prefix := Render(a, ls[..|ls| - 1]);
      assert Render(a, ls)[..|Header|] == prefix[..|Header|];
    }
  }

  lemma DiagramStartsWithHeader(a: Arena, start: nat)
    requires WellFormed(a) && start < |a.labels|
    ensures StartsWith(Diagram(a, start), Header)
  {
    DiagramLinesOk(a, start);
    RenderStartsWithHeader(a, DiagramLines(a, start));
  }

  /** generateMermaidNodes (CFGNode.java:327-342): the visited list and the
      text so far are passed in and handed back; `lines` is the text as
      printed lines. */
  method GenerateMermaidNodes(g: Cfg, node: nat, visited: seq<nat>, sb: string, ghost lines: seq<Line>)
    returns (visited': seq<nat>, sb': string, ghost lines': seq<Line>)
    requires g.Valid() && node < |g.labels| && Seen(visited) <= Nodes(g.succ)
    requires LinesOk(g.Snapshot(), lines) && sb == Render(g.Snapshot(), lines)
    ensures (visited', lines') == Emit(g.succ, node, visited, lines)
    ensures LinesOk(g.Snapshot(), lines') && sb' == Render(g.Snapshot(), lines')
    decreases Nodes(g.succ) - Seen(visited)
  {
    if node in visited {
      return visited, sb, lines;
    }
    var a := g.Snapshot();
    visited' := visited + [node];
    RenderSnoc(a, lines, NodeLine(node));
    sb' := sb + LineText(a, NodeLine(node));
    lines' := lines + [NodeLine(node)];
    var next := a.succ[node];
    for k := 0 to |next|
      invariant a == g.Snapshot()
      invariant Seen(visited) + {node} <= Seen(visited') <= Nodes(a.succ)
      invariant LinesOk(a, lines') && sb' == Render(a, lines')
      invariant EmitList(a.succ, node, next[k..], visited', lines') == Emit(a.succ, node, visited, lines)
    {
      assert next[k..][1..] == next[k + 1..];
      var successor := next[k];
      RenderSnoc(a, lines', EdgeLine(node, successor));
      sb' := sb' + LineText(a, EdgeLine(node, successor));
      lines' := lines' + [EdgeLine(node, successor)];
      EmitOk(a, successor, visited', lines');
      assert node in Nodes(a.succ) - Seen(visited) && node !in Nodes(a.succ) - Seen(visited');
      visited', sb', lines' := GenerateMermaidNodes(g, successor, visited', sb', lines');
    }
  }
}
