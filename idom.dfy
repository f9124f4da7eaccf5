/** The last pass of CFGAnalyzer (CFGAnalyzer.java:80-112): the immediate
    dominator of each node, chosen among its predecessors that lie in its
    domSet. Predecessors are taken in list order (the source iterates a
    HashSet copy of the list). */
module ImmediateDominator {
  import opened Util
  import opened Graph
  import opened Dominance

  /** The first node of `order` that is in `cands`. */
  function FirstIn(order: seq<nat>, cands: set<nat>): (r: Option<nat>)
    ensures r.None? <==> forall i :: 0 <= i < |order| ==> order[i] !in cands
    ensures r.Some? ==> exists i :: 0 <= i < |order| && order[i] == r.value && r.value in cands
                          && forall j :: 0 <= j < i ==> order[j] !in cands
    decreases |order|
  {
    if order == [] then None
    else if order[0] in cands then Some(order[0])
    else
      var r := FirstIn(order[1..], cands);
      assert forall i :: 1 <= i < |order| ==> order[i] == order[1..][i - 1];
      r
  }

  /** findClosestNode (CFGAnalyzer.java:105-112): the first candidate met in
      the post-order from `n`, that is among the nodes reachable from `n`. */
  function FindClosest(succ: Adjacency, cands: set<nat>, n: nat): (r: Option<nat>)
    requires Closed(succ) && n < |succ|
    ensures r.Some? ==> r.value in cands && r.value < |succ| && Reachable(succ, n, r.value)
    ensures r.None? <==> forall x: nat :: x < |succ| && Reachable(succ, n, x) ==> x !in cands
  {
    PostOrderCorrect(succ, n);
    var r := FirstIn(PostOrder(succ, n), cands);
    assert r.Some? ==> r.value in PostOrder(succ, n);
    r
  }

  /** The running immediateDominator after the predecessor `p` (CFGAnalyzer.java:88-97). */
  function Visit(a: Arena, dom: NodeSets, n: nat, cur: Option<nat>, p: nat): (r: Option<nat>)
    requires WellFormed(a) && |dom| == |a.labels| && n < |a.labels| && p < |a.labels|
    requires cur.Some? ==> cur.value < |a.labels|
    ensures r.Some? ==> r.value < |a.labels|
  {
    if p !in dom[n] then cur
    else if cur.None? then Some(p)
    else FindClosest(a.succ, dom[cur.value] * dom[p], n)
  }

  /** The loop over the predecessors `ps`, from the running value `cur`. */
  function Fold(a: Arena, dom: NodeSets, n: nat, cur: Option<nat>, ps: seq<nat>): (r: Option<nat>)
    requires WellFormed(a) && |dom| == |a.labels| && n < |a.labels| && AllNodes(a, ps)
    requires cur.Some? ==> cur.value < |a.labels|
    ensures r.Some? ==> r.value < |a.labels|
    decreases |ps|
  {
    if ps == [] then cur
    else
      assert AllNodes(a, ps[1..]) by {
        forall i | 0 <= i < |ps[1..]| ensures ps[1..][i] < |a.labels| {
          assert ps[1..][i] == ps[i + 1];
        }
      }
      Fold(a, dom, n, Visit(a, dom, n, cur, ps[0]), ps[1..])
  }

  /** iDom of `n` as calculateImmediateDominators leaves it. */
  function IDom(a: Arena, dom: NodeSets, root: nat, n: nat): (r: Option<nat>)
    requires WellFormed(a) && |dom| == |a.labels| && n < |a.labels|
    ensures r.Some? ==> r.value < |a.labels|
  {
    if n == root then None else Fold(a, dom, n, None, a.pred[n])
  }

  /** A predecessor of `n` that lies in domSet(n): the nodes the loop looks at. */
  predicate Qualifies(a: Arena, dom: NodeSets, n: nat, p: nat)
    requires WellFormed(a) && |dom| == |a.labels| && n < |a.labels|
  {
    p in a.pred[n] && p in dom[n]
  }

  /** The running value only changes at predecessors in domSet(n); with none
      it stays, after exactly one it is that one, and whatever it becomes is
      such a predecessor or a member of the domSet of one that is reachable
      from `n`. */
  lemma {:induction false} FoldFacts(a: Arena, dom: NodeSets, n: nat, cur: Option<nat>, ps: seq<nat>)
    requires WellFormed(a) && |dom| == |a.labels| && n < |a.labels| && AllNodes(a, ps)
    requires cur.Some? ==> cur.value < |a.labels|
    ensures (forall i :: 0 <= i < |ps| ==> ps[i] !in dom[n]) ==> Fold(a, dom, n, cur, ps) == cur
    ensures forall j :: 0 <= j < |ps| && cur.None? && ps[j] in dom[n] && (forall i :: 0 <= i < |ps| && i != j ==> ps[i] !in dom[n])
              ==> Fold(a, dom, n, cur, ps) == Some(ps[j])
    ensures Fold(a, dom, n, cur, ps).Some? ==> var x := Fold(a, dom, n, cur, ps).value;
              || cur == Some(x)
              || exists i :: 0 <= i < |ps| && ps[i] in dom[n] && (x == ps[i] || (x in dom[ps[i]] && Reachable(a.succ, n, x)))
    decreases |ps|
  {
    if ps != [] {
      var rest := ps[1..];
      assert forall i :: 0 <= i < |rest| ==> rest[i] == ps[i + 1];
      var cur' := Visit(a, dom, n, cur, ps[0]);
      FoldFacts(a, dom, n, cur', rest);
      forall j | 0 <= j < |ps| && cur.None? && ps[j] in dom[n] && (forall i :: 0 <= i < |ps| && i != j ==> ps[i] !in dom[n])
        ensures Fold(a, dom, n, cur, ps) == Some(ps[j])
      {
        if j == 0 {
          assert forall i :: 0 <= i < |rest| ==> rest[i] !in dom[n];
        } else {
          assert ps[0] !in dom[n];
          assert forall i :: 0 <= i < |rest| && i != j - 1 ==> rest[i] !in dom[n];
        }
      }
    }
  }

  /** calculateImmediateDominators at one node: the root gets none; a node
      with no predecessor in its domSet gets none; a node with exactly one
      gets that one; otherwise the answer is such a predecessor or lies in
      the domSet of one and is reachable from the node. */
  lemma IDomFacts(a: Arena, dom: NodeSets, root: nat, n: nat)
    requires WellFormed(a) && |dom| == |a.labels| && n < |a.labels|
    ensures n == root ==> IDom(a, dom, root, n) == None
    ensures n != root && (forall p: nat :: !Qualifies(a, dom, n, p)) ==> IDom(a, dom, root, n) == None
    ensures forall p: nat :: n != root && Qualifies(a, dom, n, p) && (forall q: nat :: Qualifies(a, dom, n, q) ==> q == p)
              ==> IDom(a, dom, root, n) == Some(p)
    ensures IDom(a, dom, root, n).Some? ==> var x := IDom(a, dom, root, n).value;
              exists q: nat :: Qualifies(a, dom, n, q) && (x == q || (x in dom[q] && Reachable(a.succ, n, x)))
  {
    if n != root {
      var ps := a.pred[n];
      FoldFacts(a, dom, n, None, ps);
      forall p: nat | Qualifies(a, dom, n, p) && (forall q: nat :: Qualifies(a, dom, n, q) ==> q == p)
        ensures IDom(a, dom, root, n) == Some(p)
      {
        var j :| 0 <= j < |ps| && ps[j] == p;
        forall i | 0 <= i < |ps| && i != j ensures ps[i] !in dom[n] {
          assert ps[i] != p;
          assert !Qualifies(a, dom, n, ps[i]);
        }
      }
      if IDom(a, dom, root, n).Some? {
        var x := IDom(a, dom, root, n).value;
        var i :| 0 <= i < |ps| && ps[i] in dom[n] && (x == ps[i] || (x in dom[ps[i]] && Reachable(a.succ, n, x)));
        assert Qualifies(a, dom, n, ps[i]);
      }
    }
  }

  /** With exact dominator sets and every predecessor of a reachable node
      reachable, the chosen immediate dominator dominates the node. */
  lemma IDomDominates(a: Arena, dom: NodeSets, order: seq<nat>, root: nat, n: nat)
    requires WellFormed(a) && |dom| == |a.labels| && AllNodes(a, order)
    requires n in order && PredsIn(a, order) && Exact(a, dom, order, root)
    ensures IDom(a, dom, root, n).Some? ==> IDom(a, dom, root, n).value in dom[n]
  {
    IDomFacts(a, dom, root, n);
    if IDom(a, dom, root, n).Some? {
      var x := IDom(a, dom, root, n).value;
      var q: nat :| Qualifies(a, dom, n, q) && (x == q || (x in dom[q] && Reachable(a.succ, n, x)));
      if x != q {
        var k :| 0 <= k < |order| && order[k] == n;
        assert q in order;
        var m :| 0 <= m < |order| && order[m] == q;
        TransStep(a, dom, order, root, k, m, x);
      }
    }
  }

  /** Gluing two dominance facts read off exact domSets. */
  lemma TransStep(a: Arena, dom: NodeSets, order: seq<nat>, root: nat, k: nat, m: nat, x: nat)
    requires |dom| == |a.labels| && AllNodes(a, order) && Exact(a, dom, order, root)
    requires k < |order| && m < |order|
    requires order[m] in dom[order[k]] && x in dom[order[m]]
    ensures x in dom[order[k]]
  {
    assert Dominates(a.succ, root, x, order[m]);
    assert Dominates(a.succ, root, order[m], order[k]);
    DominatesTrans(a.succ, root, x, order[m], order[k]);
  }
}
