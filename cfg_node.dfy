/** CFGNode (CFGNode.java:4-73), gathered into one arena object: field `x` of
    node i is `x[i]` here. The edge lists are updated in place by
    AddSuccessor; the dominance fields are filled in by the analyzer. */
module CfgNode {
  import opened Util
  import opened Graph

  class Cfg {
    var labels: seq<string>
    var succ: seq<seq<nat>>
    var pred: seq<seq<nat>>
    // Dominance fields (CFGNode.java:11-15)
    var dom: seq<set<nat>>
    var sdom: seq<set<nat>>
    var df: seq<set<nat>>
    var idom: seq<Option<nat>>

    /** The label and edge lists, as a value. */
    function Snapshot(): Arena
      reads this
    {
      Arena(labels, succ, pred)
    }

    ghost predicate Valid()
      reads this
    {
      && WellFormed(Snapshot())
      && |dom| == |labels| && |sdom| == |labels| && |df| == |labels| && |idom| == |labels|
    }

    /** The dominance fields as the CFGNode constructor leaves them (CFGNode.java:22-25). */
    ghost predicate AnalysisFresh()
      reads this
      requires Valid()
    {
      forall i :: 0 <= i < |labels| ==> dom[i] == {} && sdom[i] == {} && df[i] == {} && idom[i] == None
    }

    constructor ()
      ensures Valid() && AnalysisFresh()
      ensures Snapshot() == EmptyArena
    {
      labels, succ, pred := [], [], [];
      dom, sdom, df, idom := [], [], [], [];
    }

    /** `new CFGNode(label)`: the new node's id is the number of nodes made
        before it in this arena, so ids restart for every graph. */
    method NewNode(nodeLabel: string) returns (id: nat)
      requires Valid()
      modifies this
      ensures Valid()
      ensures id == old(|labels|)
      ensures Snapshot() == AddNode(old(Snapshot()), nodeLabel)
      ensures dom == old(dom) + [{}] && sdom == old(sdom) + [{}] && df == old(df) + [{}]
      ensures idom == old(idom) + [None]
      ensures old(AnalysisFresh()) ==> AnalysisFresh()
    {
      id := |labels|;
      labels, succ, pred := labels + [nodeLabel], succ + [[]], pred + [[]];
      dom, sdom, df, idom := dom + [{}], sdom + [{}], df + [{}], idom + [None];
    }

    /** addSuccessor (CFGNode.java:35-40): links `from` to `to` in both
        directions unless `to` is already a successor of `from`. */
    method AddSuccessor(from: nat, to: nat)
      requires Valid() && from < |labels| && to < |labels|
      modifies this`succ, this`pred
      ensures Valid()
      ensures Snapshot() == AddEdge(old(Snapshot()), from, to)
      ensures to in succ[from] && from in pred[to]
      ensures to in old(succ[from]) ==> succ == old(succ) && pred == old(pred)
      ensures old(AnalysisFresh()) ==> AnalysisFresh()
    {
      if to !in succ[from] {
        succ := succ[from := succ[from] + [to]];
        pred := pred[to := pred[to] + [from]];
      }
    }

    /** getPostOrder (CFGNode.java:55-60). */
    method PostOrder(start: nat) returns (order: seq<nat>)
      requires Valid() && start < |labels|
      ensures order == Graph.PostOrder(succ, start)
      ensures |order| > 0 && NoDup(order) && order[|order| - 1] == start
      ensures forall x: nat :: x in order <==> x < |labels| && Reachable(succ, start, x)
    {
      var visited;
      order, visited := DfsPostOrder(start, [], {});
      PostOrderCorrect(succ, start);
    }

    /** dfsPostOrder (CFGNode.java:62-72): the shared list and set are passed in
        and handed back. Successors are taken in list order. */
    method DfsPostOrder(node: nat, order: seq<nat>, visited: set<nat>) returns (order': seq<nat>, visited': set<nat>)
      requires Valid() && node < |labels| && node !in visited && visited <= Nodes(succ)
      ensures (visited', order') == Dfs(succ, node, visited, order)
      decreases Nodes(succ) - visited
    {
      visited' := visited + {node};
      order' := order;
      var next := succ[node];
      for k := 0 to |next|
        invariant visited + {node} <= visited' <= Nodes(succ)
        invariant DfsList(succ, node, next[k..], visited', order') == DfsList(succ, node, next, visited + {node}, order)
      {
        var s := next[k];
        if s !in visited' {
          assert node in Nodes(succ) - visited && node !in Nodes(succ) - visited';
          order', visited' := DfsPostOrder(s, order', visited');
        }
      }
      order' := order' + [node];
    }
  }
}
