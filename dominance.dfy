/** What CFGAnalyzer (CFGAnalyzer.java:5-113) computes, as functions on the
    arena and the dominance fields, and what the results mean: the dominator
    sets are exactly the nodes on every path from the root, the frontier sets
    avoid the node's dominators and hold its undominated successors, and the
    immediate dominator is chosen among dominating predecessors. */
module Dominance {
  import opened Util
  import opened Graph

  /** One set of nodes per node: domSet, sDomSet or DFSet of every node. */
  type NodeSets = seq<set<nat>>

  /** Every entry of `ns` is a node of the arena. */
  predicate AllNodes(a: Arena, ns: seq<nat>)
  {
    forall i :: 0 <= i < |ns| ==> ns[i] < |a.labels|
  }

  // ---------------------------------------------------------------------
  // Dominator sets (CFGAnalyzer.java:14-51)

  /** The intersection of the domSets of `ps`: newDomSet after the
      retainAll loop. It does not depend on the order of `ps`. */
  function Meet(dom: NodeSets, ps: seq<nat>): (r: set<nat>)
    requires ps != [] && forall i :: 0 <= i < |ps| ==> ps[i] < |dom|
    ensures forall x :: x in r <==> (forall i :: 0 <= i < |ps| ==> x in dom[ps[i]])
    decreases |ps|
  {
    if |ps| == 1 then dom[ps[0]] else dom[ps[0]] * Meet(dom, ps[1..])
  }

  /** Every node of `order` other than the root has a predecessor, so
      `getParent().iterator().next()` has something to return. */
  predicate HasPreds(a: Arena, order: seq<nat>, root: nat)
    requires |a.pred| == |a.labels| && AllNodes(a, order)
  {
    forall i :: 0 <= i < |order| && order[i] != root ==> a.pred[order[i]] != []
  }

  /** The new domSet of `n`: itself and whatever dominates all its predecessors. */
  function NewDom(a: Arena, dom: NodeSets, n: nat): (r: set<nat>)
    requires WellFormed(a) && |dom| == |a.labels| && n < |a.labels| && a.pred[n] != []
    ensures n in r
  {
    Meet(dom, a.pred[n]) + {n}
  }

  /** One sweep of the do/while body (CFGAnalyzer.java:21-38) over `order`:
      the domSets are replaced in place, so later nodes see earlier updates;
      the flag says whether any set changed. */
  function Sweep(a: Arena, dom: NodeSets, order: seq<nat>, root: nat): (r: (NodeSets, bool))
    requires WellFormed(a) && |dom| == |a.labels| && AllNodes(a, order) && HasPreds(a, order, root)
    ensures |r.0| == |dom|
    decreases |order|
  {
    if order == [] then (dom, false)
    else
      var n := order[0];
      if n == root then Sweep(a, dom, order[1..], root)
      else
        var newDom := NewDom(a, dom, n);
        if newDom != dom[n] then (Sweep(a, dom[n := newDom], order[1..], root).0, true)
        else Sweep(a, dom, order[1..], root)
  }

  /** The nodes listed in `order`, as a set. */
  function Members(order: seq<nat>): (r: set<nat>)
    ensures forall y :: y in r <==> y in order
  {
    set y | y in order
  }

  /** initializeDominatorSets (CFGAnalyzer.java:42-51) on sets as the node
      constructor leaves them: the root dominated by itself, every other node
      of the post-order by all of them. */
  function InitialDom(dom: NodeSets, order: seq<nat>, root: nat): (r: NodeSets)
    ensures |r| == |dom|
    ensures forall x :: 0 <= x < |dom| ==> r[x] == (if x in order then (if x == root then dom[x] + {root} else dom[x] + Members(order)) else dom[x])
  {
    seq(|dom|, x requires 0 <= x < |dom| => if x in order then (if x == root then dom[x] + {root} else dom[x] + Members(order)) else dom[x])
  }

  /** The sum of the domSet sizes of the nodes of `order`: each sweep that
      changes something makes it smaller. */
  function DomSize(dom: NodeSets, order: seq<nat>): nat
    requires forall i :: 0 <= i < |order| ==> order[i] < |dom|
  {
    if order == [] then 0 else |dom[order[0]]| + DomSize(dom, order[1..])
  }

  // ---------------------------------------------------------------------
  // Dominance

  /** `d` lies on every path from `root` to `n`. */
  ghost predicate Dominates(g: Adjacency, root: nat, d: nat, n: nat)
  {
    forall p :: IsPath(g, p) && p[0] == root && p[|p| - 1] == n ==> d in p
  }

  /** The state the do/while loop ends in: the root dominated by itself only,
      and every other node of `order` satisfying the dataflow equation. */
  ghost predicate IsFixpoint(a: Arena, dom: NodeSets, order: seq<nat>, root: nat)
    requires WellFormed(a) && |dom| == |a.labels| && AllNodes(a, order) && HasPreds(a, order, root)
  {
    && root < |dom| && dom[root] == {root}
    && forall i :: 0 <= i < |order| && order[i] != root ==> dom[order[i]] == NewDom(a, dom, order[i])
  }

  /** `order` lists exactly the nodes reachable from `root`, as getPostOrder does. */
  ghost predicate Covers(a: Arena, order: seq<nat>, root: nat)
  {
    forall x: nat :: x in order <==> x < |a.labels| && Reachable(a.succ, root, x)
  }

  /** Each set of `dom'` lies inside the matching set of `dom`. */
  ghost predicate Shrunk(dom': NodeSets, dom: NodeSets)
  {
    |dom'| == |dom| && forall x :: 0 <= x < |dom| ==> dom'[x] <= dom[x]
  }

  /** No sweep can enlarge a set: every node of `order` but the root already
      holds its new domSet. */
  ghost predicate PostFix(a: Arena, dom: NodeSets, order: seq<nat>, root: nat)
    requires WellFormed(a) && |dom| == |a.labels| && AllNodes(a, order) && HasPreds(a, order, root)
  {
    forall i :: 0 <= i < |order| && order[i] != root ==> NewDom(a, dom, order[i]) <= dom[order[i]]
  }

  /** Every node that dominates a node of `order` is in its domSet. */
  ghost predicate Complete(a: Arena, dom: NodeSets, order: seq<nat>, root: nat)
    requires |dom| == |a.labels| && AllNodes(a, order)
  {
    forall i, d :: 0 <= i < |order| && Dominates(a.succ, root, d, order[i]) ==> d in dom[order[i]]
  }

  /** Every predecessor of a node of `order` is in `order`. */
  ghost predicate PredsIn(a: Arena, order: seq<nat>)
    requires |a.pred| == |a.labels| && AllNodes(a, order)
  {
    forall i, p :: 0 <= i < |order| && p in a.pred[order[i]] ==> p in order
  }

  /** A node reachable from the root, other than the root, has a predecessor. */
  lemma CoversHasPreds(a: Arena, order: seq<nat>, root: nat)
    requires WellFormed(a) && AllNodes(a, order) && Covers(a, order, root)
    ensures HasPreds(a, order, root)
  {
    forall i | 0 <= i < |order| && order[i] != root
      ensures a.pred[order[i]] != []
    {
      var x := order[i];
      assert Reachable(a.succ, root, x);
      ReachableHasParent(a.succ, root, x);
      var p :| 0 <= p < |a.succ| && x in a.succ[p] && Reachable(a.succ, root, p);
      assert p in a.pred[x];
    }
  }

  /** Smaller domSets give a smaller intersection. */
  lemma MeetShrinks(dom': NodeSets, dom: NodeSets, ps: seq<nat>)
    requires Shrunk(dom', dom) && ps != [] && forall i :: 0 <= i < |ps| ==> ps[i] < |dom|
    ensures Meet(dom', ps) <= Meet(dom, ps)
  {
    forall x | x in Meet(dom', ps) ensures x in Meet(dom, ps) {
      forall i | 0 <= i < |ps| ensures x in dom[ps[i]] {
        assert x in dom'[ps[i]];
      }
    }
  }

  /** What a sweep over `order` does, as SweepFacts states it. */
  ghost predicate SweepOutcome(a: Arena, dom: NodeSets, order: seq<nat>, root: nat, full: seq<nat>, r: (NodeSets, bool))
    requires WellFormed(a) && |dom| == |a.labels| && AllNodes(a, full) && HasPreds(a, full, root)
    requires AllNodes(a, order) && HasPreds(a, order, root)
  {
    && Shrunk(r.0, dom)
    && PostFix(a, r.0, full, root)
    && (forall x :: 0 <= x < |dom| && (x == root || x !in order) ==> r.0[x] == dom[x])
    && (r.1 <==> r.0 != dom)
    && (!r.1 ==> forall i :: 0 <= i < |order| && order[i] != root ==> dom[order[i]] == NewDom(a, dom, order[i]))
  }

  /** The nodes of a sweep's order are nodes with predecessors when those of `full` are. */
  lemma OrderIn(a: Arena, order: seq<nat>, root: nat, full: seq<nat>)
    requires WellFormed(a) && AllNodes(a, full) && HasPreds(a, full, root)
    requires forall i :: 0 <= i < |order| ==> order[i] in full
    ensures AllNodes(a, order) && HasPreds(a, order, root)
    ensures order != [] ==> forall i :: 0 <= i < |order[1..]| ==> order[1..][i] in full
  {
    if order != [] {
      forall i | 0 <= i < |order[1..]| ensures order[1..][i] in full {
        assert order[1..][i] == order[i + 1];
      }
    }
  }

  /** One sweep only shrinks domSets, keeps the post-fixpoint property, never
      touches the root or a node outside `order`, and reports a change exactly
      when some set changed; a sweep without change finds every node of
      `order` at its equation. */
  lemma {:induction false} SweepFacts(a: Arena, dom: NodeSets, order: seq<nat>, root: nat, full: seq<nat>)
    requires WellFormed(a) && |dom| == |a.labels| && AllNodes(a, full) && HasPreds(a, full, root)
    requires forall i :: 0 <= i < |order| ==> order[i] in full
    requires PostFix(a, dom, full, root)
    ensures AllNodes(a, order) && HasPreds(a, order, root)
    ensures SweepOutcome(a, dom, order, root, full, Sweep(a, dom, order, root))
    decreases |order|, 1
  {
    OrderIn(a, order, root, full);
    if order == [] {
    } else if order[0] == root {
      SweepFacts(a, dom, order[1..], root, full);
      var r := Sweep(a, dom, order[1..], root);
      forall i | 0 <= i < |order| && order[i] != root
        ensures !r.1 ==> dom[order[i]] == NewDom(a, dom, order[i])
      {
        assert order[i] == order[1..][i - 1];
      }
    } else if NewDom(a, dom, order[0]) != dom[order[0]] {
      SweepUpdate(a, dom, order, root, full);
    } else {
      SweepKeep(a, dom, order, root, full);
    }
  }

  /** A sweep whose first node's set changes. */
  lemma {:induction false} SweepUpdate(a: Arena, dom: NodeSets, order: seq<nat>, root: nat, full: seq<nat>)
    requires WellFormed(a) && |dom| == |a.labels| && AllNodes(a, full) && HasPreds(a, full, root)
    requires forall i :: 0 <= i < |order| ==> order[i] in full
    requires PostFix(a, dom, full, root)
    requires order != [] && order[0] != root
    requires AllNodes(a, order) && HasPreds(a, order, root)
    requires NewDom(a, dom, order[0]) != dom[order[0]]
    ensures SweepOutcome(a, dom, order, root, full, Sweep(a, dom, order, root))
    decreases |order|, 0
  {
    OrderIn(a, order, root, full);
    var n := order[0];
    assert n in full;
    var newDom := NewDom(a, dom, n);
    var dom1 := dom[n := newDom];
    assert Shrunk(dom1, dom);
    forall i | 0 <= i < |full| && full[i] != root
      ensures NewDom(a, dom1, full[i]) <= dom1[full[i]]
    {
      MeetShrinks(dom1, dom, a.pred[full[i]]);
    }
    SweepFacts(a, dom1, order[1..], root, full);
    var r := Sweep(a, dom1, order[1..], root);
    assert r.0[n] <= newDom;
  }

  /** A sweep whose first node's set stays. */
  lemma {:induction false} SweepKeep(a: Arena, dom: NodeSets, order: seq<nat>, root: nat, full: seq<nat>)
    requires WellFormed(a) && |dom| == |a.labels| && AllNodes(a, full) && HasPreds(a, full, root)
    requires forall i :: 0 <= i < |order| ==> order[i] in full
    requires PostFix(a, dom, full, root)
    requires order != [] && order[0] != root
    requires AllNodes(a, order) && HasPreds(a, order, root)
    requires NewDom(a, dom, order[0]) == dom[order[0]]
    ensures SweepOutcome(a, dom, order, root, full, Sweep(a, dom, order, root))
    decreases |order|, 0
  {
    OrderIn(a, order, root, full);
    SweepFacts(a, dom, order[1..], root, full);
    var r := Sweep(a, dom, order[1..], root);
    forall i | 0 <= i < |order| && order[i] != root
      ensures !r.1 ==> dom[order[i]] == NewDom(a, dom, order[i])
    {
      if i > 0 {
        assert order[i] == order[1..][i - 1];
      }
    }
  }

  /** A subset is no larger, and a proper subset is smaller. */
  lemma SubsetSize(s: set<nat>, t: set<nat>)
    requires s <= t
    ensures |s| <= |t|
    ensures s != t ==> |s| < |t|
  {
    assert t == s + (t - s);
    assert s * (t - s) == {};
    if s != t {
      var x :| x in t - s;
    }
  }

  /** Shrinking the domSets never increases DomSize, and changing one set
      of a node of `order` makes it strictly smaller: the measure of the
      do/while loop. */
  lemma {:induction false} DomSizeShrinks(dom': NodeSets, dom: NodeSets, order: seq<nat>)
    requires Shrunk(dom', dom) && forall i :: 0 <= i < |order| ==> order[i] < |dom|
    ensures DomSize(dom', order) <= DomSize(dom, order)
    ensures (exists i :: 0 <= i < |order| && dom'[order[i]] != dom[order[i]]) ==> DomSize(dom', order) < DomSize(dom, order)
    decreases |order|
  {
    if order != [] {
      DomSizeShrinks(dom', dom, order[1..]);
      SubsetSize(dom'[order[0]], dom[order[0]]);
      if exists i :: 0 <= i < |order| && dom'[order[i]] != dom[order[i]] {
        var i :| 0 <= i < |order| && dom'[order[i]] != dom[order[i]];
        if i > 0 {
          assert order[1..][i - 1] == order[i];
        }
      }
    }
  }

  // ---------------------------------------------------------------------
  // What the fixpoint means

  /** A node dominating `n`, other than `n` itself, dominates each predecessor of `n`. */
  lemma DominatesPred(g: Adjacency, root: nat, d: nat, n: nat, p: nat)
    requires Dominates(g, root, d, n) && d != n
    requires p < |g| && n in g[p] && n < |g|
    ensures Dominates(g, root, d, p)
  {
    forall q | IsPath(g, q) && q[0] == root && q[|q| - 1] == p
      ensures d in q
    {
      var q' := q + [n];
      assert IsPath(g, q');
      assert d in q';
    }
  }

  /** Only the root dominates the root. */
  lemma DominatesRoot(g: Adjacency, root: nat, d: nat)
    requires root < |g| && Dominates(g, root, d, root)
    ensures d == root
  {
    assert IsPath(g, [root]);
  }

  /** Every node on a path from `root` is reachable from it. */
  lemma OnPathReachable(g: Adjacency, p: seq<nat>, i: nat)
    requires IsPath(g, p) && i < |p|
    ensures Reachable(g, p[0], p[i])
  {
    assert IsPath(g, p[..i + 1]);
  }

  /** Initialisation puts every dominator of a reachable node in its domSet. */
  lemma CompleteAfterInit(a: Arena, dom: NodeSets, order: seq<nat>, root: nat)
    requires WellFormed(a) && |dom| == |a.labels| && root < |dom|
    requires AllNodes(a, order) && Covers(a, order, root)
    requires Initialised(dom, order, root)
    ensures Complete(a, dom, order, root)
  {
    forall i, d | 0 <= i < |order| && Dominates(a.succ, root, d, order[i])
      ensures d in dom[order[i]]
    {
      var n := order[i];
      if n == root {
        DominatesRoot(a.succ, root, d);
      } else {
        assert n in order && Reachable(a.succ, root, n);
        var p :| IsPath(a.succ, p) && p[0] == root && p[|p| - 1] == n;
        assert d in p;
        var j :| 0 <= j < |p| && p[j] == d;
        OnPathReachable(a.succ, p, j);
      }
    }
  }

  /** Replacing the domSet of a node of `order` by its new value keeps every
      dominator in it, provided the predecessors of `order` lie in `order`. */
  lemma UpdateComplete(a: Arena, dom: NodeSets, order: seq<nat>, root: nat, n: nat)
    requires WellFormed(a) && |dom| == |a.labels| && AllNodes(a, order)
    requires n in order && n != root && a.pred[n] != []
    requires PredsIn(a, order) && Complete(a, dom, order, root)
    ensures Complete(a, dom[n := NewDom(a, dom, n)], order, root)
  {
    var dom' := dom[n := NewDom(a, dom, n)];
    forall i, d | 0 <= i < |order| && Dominates(a.succ, root, d, order[i])
      ensures d in dom'[order[i]]
    {
      if order[i] == n && d != n {
        var k :| 0 <= k < |order| && order[k] == n;
        forall j | 0 <= j < |a.pred[n]| ensures d in dom[a.pred[n][j]] {
          var p := a.pred[n][j];
          assert p in order;
          var m :| 0 <= m < |order| && order[m] == p;
          DominatesPred(a.succ, root, d, n, p);
        }
      }
    }
  }

  /** A sweep keeps every dominator in the domSets. */
  lemma {:induction false} SweepComplete(a: Arena, dom: NodeSets, order: seq<nat>, root: nat, full: seq<nat>)
    requires WellFormed(a) && |dom| == |a.labels| && AllNodes(a, full) && HasPreds(a, full, root)
    requires forall i :: 0 <= i < |order| ==> order[i] in full
    requires PredsIn(a, full) && Complete(a, dom, full, root)
    ensures AllNodes(a, order) && HasPreds(a, order, root)
    ensures Complete(a, Sweep(a, dom, order, root).0, full, root)
    decreases |order|
  {
    OrderIn(a, order, root, full);
    if order != [] {
      var n := order[0];
      if n == root || NewDom(a, dom, n) == dom[n] {
        SweepComplete(a, dom, order[1..], root, full);
      } else {
        UpdateComplete(a, dom, full, root, n);
        SweepComplete(a, dom[n := NewDom(a, dom, n)], order[1..], root, full);
      }
    }
  }

  /** At a fixpoint, whatever is in the domSet of the end of a path from the
      root lies on that path. */
  lemma {:induction false} SoundPath(a: Arena, dom: NodeSets, order: seq<nat>, root: nat, p: seq<nat>, d: nat)
    requires WellFormed(a) && |dom| == |a.labels| && AllNodes(a, order) && Covers(a, order, root)
    requires HasPreds(a, order, root) && IsFixpoint(a, dom, order, root)
    requires IsPath(a.succ, p) && p[0] == root && d in dom[p[|p| - 1]]
    ensures d in p
    decreases |p|
  {
    var x := p[|p| - 1];
    if x != root && d != x {
      OnPathReachable(a.succ, p, |p| - 1);
      var i :| 0 <= i < |order| && order[i] == x;
      var k := |p| - 1;
      var q := p[..k];
      assert IsPath(a.succ, q);
      assert x in a.succ[q[k - 1]];
      assert q[k - 1] in a.pred[x];
      SoundPath(a, dom, order, root, q, d);
    }
  }

  /** At a fixpoint, a node's domSet holds only nodes that dominate it, and
      when every predecessor of a reachable node is reachable it holds them
      all: domSet(n) is then exactly the set of dominators of n. */
  lemma DominatorSetsExact(a: Arena, dom: NodeSets, order: seq<nat>, root: nat, x: nat, d: nat)
    requires WellFormed(a) && |dom| == |a.labels| && AllNodes(a, order) && Covers(a, order, root)
    requires HasPreds(a, order, root) && IsFixpoint(a, dom, order, root)
    requires x in order
    ensures d in dom[x] ==> Dominates(a.succ, root, d, x)
    ensures PredsIn(a, order) && Complete(a, dom, order, root) ==> (d in dom[x] <==> Dominates(a.succ, root, d, x))
  {
    if d in dom[x] {
      forall p | IsPath(a.succ, p) && p[0] == root && p[|p| - 1] == x ensures d in p {
        SoundPath(a, dom, order, root, p, d);
      }
    }
  }

  /** The sets initializeDominatorSets leaves behind, when every set started empty. */
  ghost predicate Initialised(dom: NodeSets, order: seq<nat>, root: nat)
  {
    forall x :: 0 <= x < |dom| ==> dom[x] == (if x in order then (if x == root then {root} else Members(order)) else {})
  }

  /** After initialisation no sweep can enlarge a set: the starting point of
      the descent. */
  lemma InitialPostFix(a: Arena, dom: NodeSets, order: seq<nat>, root: nat)
    requires WellFormed(a) && |dom| == |a.labels| && AllNodes(a, order) && HasPreds(a, order, root)
    requires root in order && Initialised(dom, order, root)
    ensures PostFix(a, dom, order, root)
  {
    forall i | 0 <= i < |order| && order[i] != root
      ensures NewDom(a, dom, order[i]) <= dom[order[i]]
    {
      var n := order[i];
      var p := a.pred[n][0];
      forall x | x in Meet(dom, a.pred[n]) ensures x in order {
        assert x in dom[p];
      }
    }
  }

  /** initializeDominatorSets applied to the empty sets of fresh nodes. */
  lemma InitialDomFresh(dom: NodeSets, order: seq<nat>, root: nat)
    requires forall x :: 0 <= x < |dom| ==> dom[x] == {}
    ensures Initialised(InitialDom(dom, order, root), order, root)
  {
  }

  /** The domSet of every node of `order` is exactly the set of its dominators. */
  ghost predicate Exact(a: Arena, dom: NodeSets, order: seq<nat>, root: nat)
    requires |dom| == |a.labels| && AllNodes(a, order)
  {
    forall i, d :: 0 <= i < |order| ==> (d in dom[order[i]] <==> Dominates(a.succ, root, d, order[i]))
  }

  /** A fixpoint that kept every dominator is exact. */
  lemma FixpointExact(a: Arena, dom: NodeSets, order: seq<nat>, root: nat)
    requires WellFormed(a) && |dom| == |a.labels| && AllNodes(a, order) && Covers(a, order, root)
    requires HasPreds(a, order, root) && IsFixpoint(a, dom, order, root)
    requires PredsIn(a, order) && Complete(a, dom, order, root)
    ensures Exact(a, dom, order, root)
  {
    forall i, d | 0 <= i < |order|
      ensures d in dom[order[i]] <==> Dominates(a.succ, root, d, order[i])
    {
      DominatorSetsExact(a, dom, order, root, order[i], d);
    }
  }

  /** Dominance is transitive. */
  lemma DominatesTrans(g: Adjacency, root: nat, x: nat, q: nat, n: nat)
    requires Dominates(g, root, x, q) && Dominates(g, root, q, n)
    ensures Dominates(g, root, x, n)
  {
    forall p | IsPath(g, p) && p[0] == root && p[|p| - 1] == n
      ensures x in p
    {
      assert q in p;
      var j :| 0 <= j < |p| && p[j] == q;
      var p' := p[..j + 1];
      assert IsPath(g, p') && p'[|p'| - 1] == q;
      assert x in p';
    }
  }

  /** A sweep that changed a set made DomSize smaller. */
  lemma SweepMeasure(a: Arena, dom: NodeSets, dom': NodeSets, order: seq<nat>, root: nat)
    requires |dom| == |a.labels| && AllNodes(a, order)
    requires Shrunk(dom', dom)
    requires forall x :: 0 <= x < |dom| && x !in order ==> dom'[x] == dom[x]
    ensures DomSize(dom', order) <= DomSize(dom, order)
    ensures dom' != dom ==> DomSize(dom', order) < DomSize(dom, order)
  {
    DomSizeShrinks(dom', dom, order);
    if dom' != dom {
      var x :| 0 <= x < |dom| && dom'[x] != dom[x];
      var i :| 0 <= i < |order| && order[i] == x;
    }
  }

  // ---------------------------------------------------------------------
  // The do/while loop as a whole

  /** What holds at the top of every round of the do/while loop. */
  ghost predicate DescentInv(a: Arena, dom: NodeSets, order: seq<nat>, root: nat, changed: bool)
    requires WellFormed(a) && |dom| == |a.labels| && AllNodes(a, order) && HasPreds(a, order, root)
  {
    && root < |dom| && dom[root] == {root}
    && (forall x :: 0 <= x < |dom| && x !in order ==> dom[x] == {})
    && PostFix(a, dom, order, root)
    && (!changed ==> IsFixpoint(a, dom, order, root))
    && (PredsIn(a, order) ==> Complete(a, dom, order, root))
  }

  /** What calculateDominatorSets leaves behind: the fixpoint, with empty
      sets off the post-order, each node in its own set, only dominators in
      each set, and all of them when the predecessors of reachable nodes are
      reachable. */
  ghost predicate DominatorOutcome(a: Arena, dom: NodeSets, order: seq<nat>, root: nat)
    requires WellFormed(a) && |dom| == |a.labels| && AllNodes(a, order) && HasPreds(a, order, root)
  {
    && IsFixpoint(a, dom, order, root)
    && (forall x :: 0 <= x < |dom| && x !in order ==> dom[x] == {})
    && (forall x :: x in order ==> x in dom[x])
    && (forall x, d :: x in order && d in dom[x] ==> Dominates(a.succ, root, d, x))
    && (PredsIn(a, order) ==> Exact(a, dom, order, root))
  }

  /** The loop starts out right after initialisation of fresh sets. */
  lemma InitialInv(a: Arena, dom: NodeSets, order: seq<nat>, root: nat)
    requires WellFormed(a) && |dom| == |a.labels| && root < |dom| && AllNodes(a, order) && Covers(a, order, root)
    requires forall x :: 0 <= x < |dom| ==> dom[x] == {}
    ensures HasPreds(a, order, root)
    ensures DescentInv(a, InitialDom(dom, order, root), order, root, true)
  {
    CoversHasPreds(a, order, root);
    ReachableRefl(a.succ, root);
    assert root in order;
    var dom' := InitialDom(dom, order, root);
    InitialDomFresh(dom, order, root);
    InitialPostFix(a, dom', order, root);
    if PredsIn(a, order) {
      CompleteAfterInit(a, dom', order, root);
    }
  }

  /** A round entered with `changed` set keeps the invariant and lowers
      DomSize + changed: a round that changes a set shrinks DomSize, one that
      changes none clears the flag. */
  lemma RoundInv(a: Arena, dom: NodeSets, order: seq<nat>, root: nat)
    requires WellFormed(a) && |dom| == |a.labels| && AllNodes(a, order) && HasPreds(a, order, root)
    requires DescentInv(a, dom, order, root, true)
    ensures var r := Sweep(a, dom, order, root);
      && DescentInv(a, r.0, order, root, r.1)
      && DomSize(r.0, order) + (if r.1 then 1 else 0) < DomSize(dom, order) + 1
  {
    var r := Sweep(a, dom, order, root);
    SweepFacts(a, dom, order, root, order);
    if PredsIn(a, order) {
      SweepComplete(a, dom, order, root, order);
    }
    SweepMeasure(a, dom, r.0, order, root);
  }

  /** A round that changed nothing ends the loop with the outcome. */
  lemma FinalOutcome(a: Arena, dom: NodeSets, order: seq<nat>, root: nat)
    requires WellFormed(a) && |dom| == |a.labels| && AllNodes(a, order) && Covers(a, order, root) && HasPreds(a, order, root)
    requires DescentInv(a, dom, order, root, false)
    ensures DominatorOutcome(a, dom, order, root)
  {
    forall x, d | x in order && d in dom[x] ensures Dominates(a.succ, root, d, x) {
      DominatorSetsExact(a, dom, order, root, x, d);
    }
    if PredsIn(a, order) {
      FixpointExact(a, dom, order, root);
    }
  }

  /** getPostOrder() of the root is an order the analysis can run on. */
  lemma PostOrderFits(a: Arena, root: nat)
    requires WellFormed(a) && root < |a.labels|
    ensures var order := PostOrder(a.succ, root);
      AllNodes(a, order) && Covers(a, order, root) && HasPreds(a, order, root)
  {
    var order := PostOrder(a.succ, root);
    PostOrderCorrect(a.succ, root);
    assert forall i :: 0 <= i < |order| ==> order[i] in order;
    CoversHasPreds(a, order, root);
  }
}
