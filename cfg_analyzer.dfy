/** CFGAnalyzer (CFGAnalyzer.java:5-113): the static methods that fill in
    the dominance fields of every node reachable from the root, in place.
    Each pass walks getPostOrder() of the root; the graph itself is never
    changed. The fields are expected as node construction leaves them
    (empty sets, no iDom). */
module CfgAnalyzer {
  import opened Util
  import opened Graph
  import opened CfgNode
  import opened Dominance
  import opened Frontier
  import opened ImmediateDominator

  /** calculateDominators (CFGAnalyzer.java:7-11) on a graph whose dominance
      fields are as node construction leaves them. Afterwards, for the nodes
      reachable from the root:
      - domSet is the fixpoint of the dataflow equation, the root's is {root},
        each node is in its own, and it holds only (with reachable
        predecessors: exactly) the node's dominators;
      - sDomSet is domSet without the node;
      - DFSet misses domSet, holds only nodes reachable from the node, holds
        every successor outside domSet, holds the final DFSet of every
        successor inside domSet that comes earlier in the post-order (minus
        domSet), and nothing else: a successor inside domSet that comes
        later in the post-order is read while its frontier is still empty
        (Sourced; these clauses determine DFSet, see FrontierExact);
      - iDom is what the predecessor loop chooses, none for the root, and
        (with reachable predecessors) a member of domSet.
      Unreachable nodes keep empty sets and no iDom. */
  method CalculateDominators(g: Cfg, root: nat)
    requires g.Valid() && g.AnalysisFresh() && root < |g.labels|
    modifies g`dom, g`sdom, g`df, g`idom
    ensures g.Valid() && g.Snapshot() == old(g.Snapshot())
    ensures var a, order := g.Snapshot(), PostOrder(g.succ, root);
      && AllNodes(a, order) && Covers(a, order, root) && HasPreds(a, order, root)
      && AnalysisOutcome(a, order, root, g.dom, g.sdom, old(g.df), g.df, g.idom)
  {
    ghost var a := g.Snapshot();
    ghost var order := PostOrder(g.succ, root);
    ghost var sdom0, df0, idom0 := g.sdom, g.df, g.idom;
    CalculateDominatorSets(g, root);
    CalculateStrictDominanceAndDominanceFrontier(g, root);
    CalculateImmediateDominators(g, root);
    AnalysisDone(a, order, root, g.dom, sdom0, df0, idom0, g.sdom, g.df, g.idom);
  }

  /** The dominance fields after calculateDominators, from frontier sets
      `df0` at the start: see CalculateDominators. */
  ghost predicate AnalysisOutcome(a: Arena, order: seq<nat>, root: nat, dom: NodeSets, sdom: NodeSets, df0: NodeSets, df: NodeSets, idom: seq<Option<nat>>)
    requires WellFormed(a) && root < |a.labels| && AllNodes(a, order) && HasPreds(a, order, root)
    requires |dom| == |a.labels| && |sdom| == |a.labels| && |df0| == |a.labels| && |df| == |a.labels| && |idom| == |a.labels|
  {
    && dom[root] == {root}
    && DominatorOutcome(a, dom, order, root)
    && (forall x :: 0 <= x < |a.labels| ==> sdom[x] == (if x in order then dom[x] - {x} else {}))
    && Disjoint(dom, df)
    && FrontierReachable(a, df)
    && (forall x :: x in order ==> LocalRule(a, dom, df, x))
    && Inherited(a, dom, df, order)
    && (forall x :: 0 <= x < |a.labels| ==> Justified(a, dom, df0, df, x))
    && Sourced(a, dom, df0, df, order)
    && (forall x :: 0 <= x < |a.labels| && x !in order ==> df[x] == {} && idom[x] == None)
    && (forall x :: x in order ==> idom[x] == IDom(a, dom, root, x))
    && idom[root] == None
    && (PredsIn(a, order) ==> forall x :: x in order && idom[x].Some? ==> idom[x].value in dom[x])
  }

  /** The three passes together, on values. */
  lemma AnalysisDone(a: Arena, order: seq<nat>, root: nat, dom: NodeSets, sdom0: NodeSets, df0: NodeSets, idom0: seq<Option<nat>>,
                     sdom: NodeSets, df: NodeSets, idom: seq<Option<nat>>)
    requires WellFormed(a) && root < |a.labels| && order == PostOrder(a.succ, root)
    requires |dom| == |a.labels| && |sdom0| == |a.labels| && |df0| == |a.labels| && |idom0| == |a.labels|
    requires forall i :: 0 <= i < |a.labels| ==> sdom0[i] == {} && df0[i] == {} && idom0[i] == None
    requires AllNodes(a, order) && Covers(a, order, root) && HasPreds(a, order, root)
    requires dom[root] == {root} && DominatorOutcome(a, dom, order, root)
    requires (sdom, df) == Pass(a, dom, sdom0, df0, order)
    requires |idom| == |a.labels| && forall x :: 0 <= x < |a.labels| ==> idom[x] == (if x in order then IDom(a, dom, root, x) else idom0[x])
    ensures AnalysisOutcome(a, order, root, dom, sdom, df0, df, idom)
  {
    ReachableRefl(a.succ, root);
    PostOrderCorrect(a.succ, root);
    FrontierOutcome(a, dom, sdom0, df0, order);
    IDomOutcome(a, dom, order, root);
  }

  /** The frontier pass over fresh sets. */
  lemma FrontierOutcome(a: Arena, dom: NodeSets, sdom: NodeSets, df: NodeSets, order: seq<nat>)
    requires WellFormed(a) && |dom| == |a.labels| && |sdom| == |a.labels| && |df| == |a.labels| && AllNodes(a, order)
    requires forall x :: 0 <= x < |a.labels| ==> sdom[x] == {} && df[x] == {}
    ensures var r := Pass(a, dom, sdom, df, order);
      && (forall x :: 0 <= x < |a.labels| ==> r.0[x] == (if x in order then dom[x] - {x} else {}))
      && Disjoint(dom, r.1)
      && FrontierReachable(a, r.1)
      && (forall x :: x in order ==> LocalRule(a, dom, r.1, x))
      && Inherited(a, dom, r.1, order)
      && (forall x :: 0 <= x < |a.labels| ==> Justified(a, dom, df, r.1, x))
      && (forall x :: 0 <= x < |a.labels| && x !in order ==> r.1[x] == {})
      && (NoDup(order) ==> Sourced(a, dom, df, r.1, order))
  {
    PassFacts(a, dom, sdom, df, order);
    if NoDup(order) {
      PassSourced(a, dom, sdom, df, order);
    }
    var r := Pass(a, dom, sdom, df, order);
    forall x | x in order ensures LocalRule(a, dom, r.1, x) {
      var i :| 0 <= i < |order| && order[i] == x;
    }
    forall x | 0 <= x < |a.labels| ensures r.0[x] == (if x in order then dom[x] - {x} else {}) {
      if x in order {
        assert r.0[x] == ({} + dom[x]) - {x};
      }
    }
  }

  /** The immediate dominators at the end of the analysis. */
  lemma IDomOutcome(a: Arena, dom: NodeSets, order: seq<nat>, root: nat)
    requires WellFormed(a) && |dom| == |a.labels| && AllNodes(a, order) && Covers(a, order, root) && HasPreds(a, order, root)
    requires DominatorOutcome(a, dom, order, root)
    ensures IDom(a, dom, root, root) == None
    ensures PredsIn(a, order) ==> forall x :: x in order && IDom(a, dom, root, x).Some? ==> IDom(a, dom, root, x).value in dom[x]
  {
    IDomFacts(a, dom, root, root);
    if PredsIn(a, order) {
      forall x | x in order && IDom(a, dom, root, x).Some? ensures IDom(a, dom, root, x).value in dom[x] {
        IDomDominates(a, dom, order, root, x);
      }
    }
  }

  /** initializeDominatorSets (CFGAnalyzer.java:42-51): the root's domSet
      gains the root, every other node of the post-order gains all of them. */
  method InitializeDominatorSets(g: Cfg, root: nat)
    requires g.Valid() && root < |g.labels|
    modifies g`dom
    ensures g.Valid()
    ensures g.dom == InitialDom(old(g.dom), PostOrder(g.succ, root), root)
  {
    var postOrder := g.PostOrder(root);
    ghost var dom0 := g.dom;
    for k := 0 to |postOrder|
      invariant g.Valid() && |g.dom| == |dom0|
      invariant forall x :: 0 <= x < |dom0| ==> g.dom[x] == (if x in postOrder[..k] then (if x == root then dom0[x] + {root} else dom0[x] + Members(postOrder)) else dom0[x])
    {
      var node := postOrder[k];
      assert node in postOrder && node < |g.dom|;
      assert postOrder[..k + 1] == postOrder[..k] + [node];
      if node == root {
        g.dom := g.dom[node := g.dom[node] + {root}];
      } else {
        g.dom := g.dom[node := g.dom[node] + Members(postOrder)];
      }
    }
    assert postOrder[..|postOrder|] == postOrder;
    ghost var dom' := InitialDom(dom0, postOrder, root);
    assert forall x :: 0 <= x < |dom0| ==> g.dom[x] == dom'[x];
  }

  /** The body of the sweep for one node (CFGAnalyzer.java:25-31): start
      from the domSet of the first predecessor, keep what every predecessor's
      domSet holds, add the node. */
  method NewDomSet(g: Cfg, node: nat) returns (newDomSet: set<nat>)
    requires g.Valid() && node < |g.labels| && g.pred[node] != []
    ensures newDomSet == NewDom(g.Snapshot(), g.dom, node)
  {
    var parents := g.pred[node];
    newDomSet := g.dom[parents[0]];
    for j := 0 to |parents|
      invariant forall x :: x in newDomSet <==> x in g.dom[parents[0]] && forall i :: 0 <= i < j ==> x in g.dom[parents[i]]
    {
      newDomSet := newDomSet * g.dom[parents[j]];
    }
    newDomSet := newDomSet + {node};
  }

  /** One pass of the do/while body (CFGAnalyzer.java:21-38) over
      getPostOrder(): every node but the root gets its new domSet, replaced
      in place; `changed` reports whether any set changed. */
  method SweepOnce(g: Cfg, root: nat) returns (changed: bool)
    requires g.Valid() && root < |g.labels|
    requires var order := PostOrder(g.succ, root); AllNodes(g.Snapshot(), order) && HasPreds(g.Snapshot(), order, root)
    modifies g`dom
    ensures g.Valid()
    ensures (g.dom, changed) == Sweep(g.Snapshot(), old(g.dom), PostOrder(g.succ, root), root)
  {
    ghost var a := g.Snapshot();
    ghost var dom0 := g.dom;
    changed := false;
    var postOrder := g.PostOrder(root);
    for k := 0 to |postOrder|
      invariant g.Valid() && g.Snapshot() == a
      invariant AllNodes(a, postOrder[k..]) && HasPreds(a, postOrder[k..], root)
      invariant var r := Sweep(a, g.dom, postOrder[k..], root);
        (r.0, changed || r.1) == Sweep(a, dom0, postOrder, root)
    {
      var node := postOrder[k];
      assert postOrder[k..][1..] == postOrder[k + 1..];
      if node != root {
        var newDomSet := NewDomSet(g, node);
        if newDomSet != g.dom[node] {
          g.dom := g.dom[node := newDomSet];
          changed := true;
        }
      }
    }
  }

  /** calculateDominatorSets (CFGAnalyzer.java:14-40): initialise, then sweep
      until a whole sweep changes nothing. Every sweep only shrinks sets and
      a changing one shrinks their total size, so the loop ends; it ends at
      the fixpoint of the dataflow equation, with the root dominated by
      itself only, every reachable node in its own domSet, and each domSet
      holding only nodes that dominate its node. When every predecessor of
      a reachable node is reachable, each domSet holds all its dominators
      too. Unreachable nodes keep empty sets. */
  method CalculateDominatorSets(g: Cfg, root: nat)
    requires g.Valid() && root < |g.labels|
    requires forall x :: 0 <= x < |g.dom| ==> g.dom[x] == {}
    modifies g`dom
    ensures g.Valid()
    ensures var a, order := g.Snapshot(), PostOrder(g.succ, root);
      && AllNodes(a, order) && Covers(a, order, root) && HasPreds(a, order, root)
      && g.dom[root] == {root}
      && DominatorOutcome(a, g.dom, order, root)
  {
    ghost var a := g.Snapshot();
    ghost var order := PostOrder(g.succ, root);
    PostOrderFits(a, root);
    InitialInv(a, g.dom, order, root);
    InitializeDominatorSets(g, root);
    var changed := true;
    while changed
      invariant g.Valid() && g.Snapshot() == a
      invariant DescentInv(a, g.dom, order, root, changed)
      decreases DomSize(g.dom, order) + (if changed then 1 else 0)
    {
      ghost var r := Sweep(a, g.dom, order, root);
      RoundInv(a, g.dom, order, root);
      changed := SweepOnce(g, root);
      assert g.dom == r.0 && changed == r.1;
    }
    FinalOutcome(a, g.dom, order, root);
  }

  /** The inner loop over successor.DFSet (CFGAnalyzer.java:70-74): every
      member outside domSet(node) joins DFSet(node). The set is walked one
      chosen element at a time; the walk reads a copy, and when the
      successor is the node itself every member met is already there. */
  method InheritFrontier(g: Cfg, node: nat, successor: nat)
    requires g.Valid() && node < |g.labels| && successor < |g.labels|
    modifies g`df
    ensures g.Valid()
    ensures g.df == old(g.df)[node := old(g.df)[node] + (old(g.df)[successor] - g.dom[node])]
  {
    ghost var df0 := g.df;
    var frontier := g.df[successor];
    assert df0[node] + ((df0[successor] - frontier) - g.dom[node]) == df0[node];
    assert df0[node := df0[node]] == df0;
    while frontier != {}
      invariant g.Valid() && frontier <= df0[successor]
      invariant g.df == df0[node := df0[node] + ((df0[successor] - frontier) - g.dom[node])]
      decreases frontier
    {
      ghost var before := df0[successor] - frontier;
      var frontierNode :| frontierNode in frontier;
      ghost var after := before + {frontierNode};
      if frontierNode !in g.dom[node] {
        g.df := g.df[node := g.df[node] + {frontierNode}];
        assert df0[node] + (after - g.dom[node]) == df0[node] + (before - g.dom[node]) + {frontierNode};
      } else {
        assert after - g.dom[node] == before - g.dom[node];
      }
      frontier := frontier - {frontierNode};
      assert df0[successor] - frontier == after;
    }
    assert df0[successor] - frontier == df0[successor];
  }

  /** The loop body of calculateStrictDominanceAndDominanceFrontier for one
      node (CFGAnalyzer.java:58-76). */
  method StrictDominanceAndFrontierAt(g: Cfg, node: nat)
    requires g.Valid() && node < |g.labels|
    modifies g`sdom, g`df
    ensures g.Valid()
    ensures (g.sdom, g.df) == Step(g.Snapshot(), g.dom, old(g.sdom), old(g.df), node)
  {
    ghost var sdom0 := g.sdom;
    g.sdom := g.sdom[node := g.sdom[node] + g.dom[node]];
    g.sdom := g.sdom[node := g.sdom[node] - {node}];
    ghost var sdom1 := sdom0[node := (sdom0[node] + g.dom[node]) - {node}];
    assert g.sdom == sdom1;
    ghost var df1 := g.df;
    var next := g.succ[node];
    assert df1[node] + Gains(g.dom, df1, node, next[..0]) == df1[node];
    assert df1[node := df1[node]] == df1;
    for j := 0 to |next|
      invariant g.Valid() && |g.df| == |df1| && g.sdom == sdom1
      invariant g.df == df1[node := df1[node] + Gains(g.dom, df1, node, next[..j])]
    {
      var successor := next[j];
      ghost var gained := Gains(g.dom, df1, node, next[..j]);
      ghost var contribution := Contribution(g.dom, df1, node, successor);
      assert next[..j + 1][..j] == next[..j];
      assert Gains(g.dom, df1, node, next[..j + 1]) == gained + contribution;
      if successor !in g.dom[node] {
        g.df := g.df[node := g.df[node] + {successor}];
        assert contribution == {successor};
        assert df1[node] + gained + {successor} == df1[node] + (gained + contribution);
      } else {
        InheritFrontier(g, node, successor);
        if successor == node {
          assert gained * g.dom[node] == {};
          assert (df1[node] + gained) - g.dom[node] <= df1[node] + gained;
          assert contribution <= df1[node];
          assert df1[node] + gained + ((df1[node] + gained) - g.dom[node]) == df1[node] + (gained + contribution);
        } else {
          assert df1[node] + gained + (df1[successor] - g.dom[node]) == df1[node] + (gained + contribution);
        }
      }
    }
    assert next[..|next|] == next;
  }

  /** calculateStrictDominanceAndDominanceFrontier (CFGAnalyzer.java:55-78):
      the loop body for every node of getPostOrder(), in that order. */
  method CalculateStrictDominanceAndDominanceFrontier(g: Cfg, root: nat)
    requires g.Valid() && root < |g.labels|
    modifies g`sdom, g`df
    ensures g.Valid()
    ensures AllNodes(g.Snapshot(), PostOrder(g.succ, root))
    ensures (g.sdom, g.df) == Pass(g.Snapshot(), g.dom, old(g.sdom), old(g.df), PostOrder(g.succ, root))
  {
    ghost var a := g.Snapshot();
    ghost var sdom0, df0 := g.sdom, g.df;
    PostOrderFits(a, root);
    var postOrder := g.PostOrder(root);
    for k := 0 to |postOrder|
      invariant g.Valid() && g.Snapshot() == a
      invariant AllNodes(a, postOrder[k..])
      invariant Pass(a, g.dom, g.sdom, g.df, postOrder[k..]) == Pass(a, g.dom, sdom0, df0, postOrder)
    {
      assert postOrder[k..][1..] == postOrder[k + 1..];
      StrictDominanceAndFrontierAt(g, postOrder[k]);
    }
  }

  /** findClosestNode (CFGAnalyzer.java:105-112): the first node of the
      post-order from `node` that is a candidate, if any. */
  method FindClosestNode(g: Cfg, candidates: set<nat>, node: nat) returns (closest: Option<nat>)
    requires g.Valid() && node < |g.labels|
    ensures closest == FindClosest(g.succ, candidates, node)
  {
    var postOrder := g.PostOrder(node);
    for k := 0 to |postOrder|
      invariant forall i :: 0 <= i < k ==> postOrder[i] !in candidates
    {
      var candidate := postOrder[k];
      if candidate in candidates {
        return Some(candidate);
      }
    }
    return None;
  }

  /** The else-branch of calculateImmediateDominators for one node
      (CFGAnalyzer.java:86-99): the running immediateDominator over the
      predecessors in domSet(node). */
  method ImmediateDominatorOf(g: Cfg, node: nat) returns (immediateDominator: Option<nat>)
    requires g.Valid() && node < |g.labels|
    ensures immediateDominator == Fold(g.Snapshot(), g.dom, node, None, g.pred[node])
  {
    ghost var a := g.Snapshot();
    var parents := g.pred[node];
    immediateDominator := None;
    for j := 0 to |parents|
      invariant AllNodes(a, parents[j..])
      invariant immediateDominator.Some? ==> immediateDominator.value < |a.labels|
      invariant Fold(a, g.dom, node, immediateDominator, parents[j..]) == Fold(a, g.dom, node, None, parents)
    {
      var predecessor := parents[j];
      assert parents[j..][1..] == parents[j + 1..];
      if predecessor in g.dom[node] {
        if immediateDominator == None {
          immediateDominator := Some(predecessor);
        } else {
          var intersection := g.dom[immediateDominator.value] * g.dom[predecessor];
          immediateDominator := FindClosestNode(g, intersection, node);
        }
      }
    }
  }

  /** calculateImmediateDominators (CFGAnalyzer.java:80-102): iDom of every
      node of getPostOrder(); other nodes keep theirs. */
  method CalculateImmediateDominators(g: Cfg, root: nat)
    requires g.Valid() && root < |g.labels|
    modifies g`idom
    ensures g.Valid()
    ensures forall x :: 0 <= x < |g.labels| ==>
      g.idom[x] == (if x in PostOrder(g.succ, root) then IDom(g.Snapshot(), g.dom, root, x) else old(g.idom[x]))
  {
    ghost var a := g.Snapshot();
    ghost var idom0 := g.idom;
    var postOrder := g.PostOrder(root);
    for k := 0 to |postOrder|
      invariant g.Valid() && g.Snapshot() == a
      invariant forall x :: 0 <= x < |a.labels| ==>
        g.idom[x] == (if x in postOrder[..k] then IDom(a, g.dom, root, x) else idom0[x])
    {
      var node := postOrder[k];
      assert node in postOrder;
      assert postOrder[..k + 1] == postOrder[..k] + [node];
      if node == root {
        g.idom := g.idom[node := None];
      } else {
        var immediateDominator := ImmediateDominatorOf(g, node);
        g.idom := g.idom[node := immediateDominator];
      }
    }
    assert postOrder[..|postOrder|] == postOrder;
  }
}
