/** The second pass of CFGAnalyzer (CFGAnalyzer.java:55-78): strict
    dominator sets and dominance frontiers, filled in over the post-order.
    The frontier rule is the code's: a successor that does not lie in the
    node's domSet joins the node's frontier; one that does passes on the
    members of its own frontier that are not in the node's domSet. */
module Frontier {
  import opened Util
  import opened Graph
  import opened Dominance

  /** What successor `s` adds to DFSet(n) (CFGAnalyzer.java:64-75), given
      the frontier sets as they stand. */
  function Contribution(dom: NodeSets, df: NodeSets, n: nat, s: nat): (r: set<nat>)
    requires n < |dom| && s < |df|
    ensures r * dom[n] == {}
  {
    if s !in dom[n] then {s} else df[s] - dom[n]
  }

  /** What the successors `ss`, taken in order, add to DFSet(n). */
  function Gains(dom: NodeSets, df: NodeSets, n: nat, ss: seq<nat>): (r: set<nat>)
    requires n < |dom| && forall i :: 0 <= i < |ss| ==> ss[i] < |df|
    ensures r * dom[n] == {}
  {
    if ss == [] then {} else Gains(dom, df, n, ss[..|ss| - 1]) + Contribution(dom, df, n, ss[|ss| - 1])
  }

  /** The sets after the loop body for node `n`: sDomSet gets domSet minus
      `n`; DFSet gets what its successors contribute. */
  function Step(a: Arena, dom: NodeSets, sdom: NodeSets, df: NodeSets, n: nat): (r: (NodeSets, NodeSets))
    requires WellFormed(a) && |dom| == |a.labels| && |sdom| == |a.labels| && |df| == |a.labels| && n < |a.labels|
    ensures |r.0| == |sdom| && |r.1| == |df|
  {
    (sdom[n := (sdom[n] + dom[n]) - {n}], df[n := df[n] + Gains(dom, df, n, a.succ[n])])
  }

  /** The whole pass over `order`. */
  function Pass(a: Arena, dom: NodeSets, sdom: NodeSets, df: NodeSets, order: seq<nat>): (r: (NodeSets, NodeSets))
    requires WellFormed(a) && |dom| == |a.labels| && |sdom| == |a.labels| && |df| == |a.labels| && AllNodes(a, order)
    ensures |r.0| == |sdom| && |r.1| == |df|
    decreases |order|
  {
    if order == [] then (sdom, df)
    else
      var r := Step(a, dom, sdom, df, order[0]);
      Pass(a, dom, r.0, r.1, order[1..])
  }

  /** No node's frontier meets its domSet. */
  predicate Disjoint(dom: NodeSets, df: NodeSets)
    requires |dom| == |df|
  {
    forall x :: 0 <= x < |df| ==> df[x] * dom[x] == {}
  }

  /** Every frontier node of `x` can be reached from `x`. */
  ghost predicate FrontierReachable(a: Arena, df: NodeSets)
    requires |df| == |a.labels|
  {
    forall x, f :: 0 <= x < |df| && f in df[x] ==> Reachable(a.succ, x, f)
  }

  /** Each frontier set of `df'` contains the matching set of `df`. */
  predicate Grown(df': NodeSets, df: NodeSets)
  {
    |df'| == |df| && forall x :: 0 <= x < |df| ==> df[x] <= df'[x]
  }

  /** Every successor of `n` outside domSet(n) is in DFSet(n). */
  predicate LocalRule(a: Arena, dom: NodeSets, df: NodeSets, n: nat)
    requires WellFormed(a) && |dom| == |a.labels| && |df| == |a.labels| && n < |a.labels|
  {
    forall s :: s in a.succ[n] && s !in dom[n] ==> s in df[n]
  }

  /** A successor of `n` inside domSet(n) has passed on to DFSet(n) every
      member its frontier had in `df0` that is outside domSet(n). */
  predicate PassedOn(a: Arena, dom: NodeSets, df0: NodeSets, df: NodeSets, n: nat)
    requires WellFormed(a) && |dom| == |a.labels| && |df0| == |a.labels| && |df| == |a.labels| && n < |a.labels|
  {
    forall s, f :: s in a.succ[n] && s in dom[n] && f in df0[s] && f !in dom[n] ==> f in df[n]
  }

  /** Whatever DFSet(x) gained since `df0` is outside domSet(x) and is either
      a successor of `x` or in the frontier of a successor inside domSet(x). */
  ghost predicate Justified(a: Arena, dom: NodeSets, df0: NodeSets, df: NodeSets, x: nat)
    requires WellFormed(a) && |dom| == |a.labels| && |df0| == |a.labels| && |df| == |a.labels| && x < |a.labels|
  {
    forall f :: f in df[x] - df0[x] ==> f !in dom[x] && exists s :: s in a.succ[x] && (f == s || (s in dom[x] && f in df[s]))
  }

  /** `s` is not processed at position `i` of `order` or after it. */
  predicate NotLater(order: seq<nat>, i: nat, s: nat)
  {
    forall j :: i <= j < |order| ==> order[j] != s
  }

  /** The second branch of the rule against the final sets: for the node at
      position `i` of `order` and a successor `s` inside its domSet that is
      not processed at or after `i`, DFSet(s) as it ends up, minus the
      node's domSet, lies in the node's DFSet. */
  ghost predicate Inherited(a: Arena, dom: NodeSets, df: NodeSets, order: seq<nat>)
    requires WellFormed(a) && |dom| == |a.labels| && |df| == |a.labels| && AllNodes(a, order)
  {
    forall i, s :: 0 <= i < |order| && s in a.succ[order[i]] && s in dom[order[i]] && NotLater(order, i, s) ==>
      df[s] - dom[order[i]] <= df[order[i]]
  }

  /** The frontier of successor `s` as the node at position `i` of `order`
      read it, for an order that holds each node once: the final DFSet(s)
      when `s` is processed before `i` or not at all, and DFSet(s) as the
      pass found it when `s` is processed at `i` or later. */
  function ReadAt(df0: NodeSets, df: NodeSets, order: seq<nat>, i: nat, s: nat): set<nat>
    requires s < |df0| && s < |df|
  {
    if NotLater(order, i, s) then df[s] else df0[s]
  }

  /** Whatever the frontier of the node at position `i` of `order` gained
      since `df0` is a successor of that node, or came from the frontier a
      successor inside its domSet had when the node read it. */
  ghost predicate Sourced(a: Arena, dom: NodeSets, df0: NodeSets, df: NodeSets, order: seq<nat>)
    requires WellFormed(a) && |dom| == |a.labels| && |df0| == |a.labels| && |df| == |a.labels| && AllNodes(a, order)
  {
    forall i, f :: 0 <= i < |order| && f in df[order[i]] - df0[order[i]] ==>
      exists s :: s in a.succ[order[i]] && (f == s || (s in dom[order[i]] && f in ReadAt(df0, df, order, i, s)))
  }

  /** The facts about the frontiers a pass over `order` leaves when it
      starts from `df0`: DFSet misses domSet, obeys both branches of the
      rule at each processed node, holds nothing else, and is `df0` off
      the order. */
  ghost predicate FrontierFacts(a: Arena, dom: NodeSets, df0: NodeSets, df: NodeSets, order: seq<nat>)
    requires WellFormed(a) && |dom| == |a.labels| && |df0| == |a.labels| && |df| == |a.labels| && AllNodes(a, order)
  {
    && Disjoint(dom, df)
    && (forall i :: 0 <= i < |order| ==> LocalRule(a, dom, df, order[i]))
    && Inherited(a, dom, df, order)
    && Sourced(a, dom, df0, df, order)
    && (forall x :: 0 <= x < |df| && x !in order ==> df[x] == df0[x])
  }

  /** What the successors `ss` contribute, member by member. */
  lemma {:induction false} GainsFacts(dom: NodeSets, df: NodeSets, n: nat, ss: seq<nat>)
    requires n < |dom| && forall i :: 0 <= i < |ss| ==> ss[i] < |df|
    ensures forall s :: s in ss && s !in dom[n] ==> s in Gains(dom, df, n, ss)
    ensures forall s, f :: s in ss && s in dom[n] && f in df[s] && f !in dom[n] ==> f in Gains(dom, df, n, ss)
    ensures forall f :: f in Gains(dom, df, n, ss) ==> exists s :: s in ss && (f == s || (s in dom[n] && f in df[s]))
    decreases |ss|
  {
    if ss != [] {
      var k := |ss| - 1;
      GainsFacts(dom, df, n, ss[..k]);
      assert ss == ss[..k] + [ss[k]];
      forall f | f in Gains(dom, df, n, ss)
        ensures exists s :: s in ss && (f == s || (s in dom[n] && f in df[s]))
      {
        if f !in Gains(dom, df, n, ss[..k]) {
          assert ss[k] in ss;
        } else {
          var s :| s in ss[..k] && (f == s || (s in dom[n] && f in df[s]));
          assert s in ss;
        }
      }
    }
  }

  /** One loop body: the new frontier keeps off the domSet, reaches only
      nodes reachable from `n`, grows, and obeys both branches of the rule
      at `n`; sDomSet(n) becomes domSet(n) without `n`. */
  lemma StepFacts(a: Arena, dom: NodeSets, sdom: NodeSets, df: NodeSets, n: nat)
    requires WellFormed(a) && |dom| == |a.labels| && |sdom| == |a.labels| && |df| == |a.labels| && n < |a.labels|
    requires Disjoint(dom, df) && FrontierReachable(a, df)
    ensures var r := Step(a, dom, sdom, df, n);
      && Disjoint(dom, r.1)
      && FrontierReachable(a, r.1)
      && Grown(r.1, df)
      && (forall x :: 0 <= x < |df| && x != n ==> r.0[x] == sdom[x] && r.1[x] == df[x])
      && r.0[n] == (sdom[n] + dom[n]) - {n}
      && LocalRule(a, dom, r.1, n)
      && PassedOn(a, dom, df, r.1, n)
      && Justified(a, dom, df, r.1, n)
  {
    var r := Step(a, dom, sdom, df, n);
    GainsFacts(dom, df, n, a.succ[n]);
    forall f | f in r.1[n] ensures Reachable(a.succ, n, f) {
      if f !in df[n] {
        var s :| s in a.succ[n] && (f == s || (s in dom[n] && f in df[s]));
        if f == s {
          ReachableRefl(a.succ, s);
        }
        ReachableStep(a.succ, n, s, f);
      }
    }
    forall f | f in r.1[n] - df[n]
      ensures exists s :: s in a.succ[n] && (f == s || (s in dom[n] && f in r.1[s]))
    {
      var s :| s in a.succ[n] && (f == s || (s in dom[n] && f in df[s]));
      assert df[s] <= r.1[s];
    }
  }

  /** What the pass leaves behind, in terms of where it started. */
  ghost predicate PassOutcome(a: Arena, dom: NodeSets, sdom: NodeSets, df: NodeSets, order: seq<nat>, r: (NodeSets, NodeSets))
    requires WellFormed(a) && |dom| == |a.labels| && |sdom| == |a.labels| && |df| == |a.labels| && AllNodes(a, order)
    requires |r.0| == |a.labels| && |r.1| == |a.labels|
  {
    && Disjoint(dom, r.1)
    && FrontierReachable(a, r.1)
    && Grown(r.1, df)
    && (forall x :: 0 <= x < |df| && x !in order ==> r.0[x] == sdom[x] && r.1[x] == df[x])
    && (forall x :: 0 <= x < |df| && x in order ==> r.0[x] == (sdom[x] + dom[x]) - {x})
    && (forall i :: 0 <= i < |order| ==> LocalRule(a, dom, r.1, order[i]) && PassedOn(a, dom, df, r.1, order[i]))
    && Inherited(a, dom, r.1, order)
    && (forall x :: 0 <= x < |df| ==> Justified(a, dom, df, r.1, x))
  }

  /** calculateStrictDominanceAndDominanceFrontier over any order: DFSet(x)
      and domSet(x) stay disjoint, frontier nodes stay reachable, every
      processed node obeys both branches of the rule (the second against
      the frontier a successor had when the pass started, and against the
      one it ends with when the successor is not processed later), nothing
      else gets into a frontier, sDomSet(x) = domSet(x) minus x for the
      processed nodes, and the other nodes keep their sets. */
  lemma {:induction false} PassFacts(a: Arena, dom: NodeSets, sdom: NodeSets, df: NodeSets, order: seq<nat>)
    requires WellFormed(a) && |dom| == |a.labels| && |sdom| == |a.labels| && |df| == |a.labels| && AllNodes(a, order)
    requires Disjoint(dom, df) && FrontierReachable(a, df)
    ensures PassOutcome(a, dom, sdom, df, order, Pass(a, dom, sdom, df, order))
    decreases |order|
  {
    if order != [] {
      var n := order[0];
      var rest := order[1..];
      assert AllNodes(a, rest) by {
        forall i | 0 <= i < |rest| ensures rest[i] < |a.labels| {
          assert rest[i] == order[i + 1];
        }
      }
      StepFacts(a, dom, sdom, df, n);
      var r1 := Step(a, dom, sdom, df, n);
      PassFacts(a, dom, r1.0, r1.1, rest);
      var r := Pass(a, dom, r1.0, r1.1, rest);
      assert r == Pass(a, dom, sdom, df, order);
      PassStep(a, dom, sdom, df, n, rest, r1, r);
      assert order == [n] + rest;
    }
  }

  /** Gluing the step for the first node to the pass over the rest. */
  lemma PassStep(a: Arena, dom: NodeSets, sdom: NodeSets, df: NodeSets, n: nat, rest: seq<nat>, r1: (NodeSets, NodeSets), r: (NodeSets, NodeSets))
    requires WellFormed(a) && |dom| == |a.labels| && |sdom| == |a.labels| && |df| == |a.labels| && n < |a.labels| && AllNodes(a, rest)
    requires |r1.0| == |a.labels| && |r1.1| == |a.labels| && |r.0| == |a.labels| && |r.1| == |a.labels|
    requires Grown(r1.1, df)
    requires forall x :: 0 <= x < |df| && x != n ==> r1.0[x] == sdom[x] && r1.1[x] == df[x]
    requires r1.0[n] == (sdom[n] + dom[n]) - {n}
    requires LocalRule(a, dom, r1.1, n) && PassedOn(a, dom, df, r1.1, n) && Justified(a, dom, df, r1.1, n)
    requires PassOutcome(a, dom, r1.0, r1.1, rest, r)
    ensures PassOutcome(a, dom, sdom, df, [n] + rest, r)
  {
    var order := [n] + rest;
    forall x | 0 <= x < |df| && x in order ensures r.0[x] == (sdom[x] + dom[x]) - {x} {
      if x == n && x in rest {
        assert r.0[x] == (r1.0[x] + dom[x]) - {x};
      }
    }
    forall i | 0 <= i < |order| ensures LocalRule(a, dom, r.1, order[i]) && PassedOn(a, dom, df, r.1, order[i]) {
      if i == 0 {
      } else {
        assert order[i] == rest[i - 1];
        assert PassedOn(a, dom, r1.1, r.1, order[i]);
      }
    }
    InheritedStep(a, dom, df, n, rest, r1, r);
    forall x | 0 <= x < |df| ensures Justified(a, dom, df, r.1, x) {
      forall f | f in r.1[x] - df[x]
        ensures f !in dom[x] && exists s :: s in a.succ[x] && (f == s || (s in dom[x] && f in r.1[s]))
      {
        if f !in r1.1[x] {
          assert Justified(a, dom, r1.1, r.1, x);
        } else {
          assert x == n && f in r1.1[n] - df[n];
          var s :| s in a.succ[x] && (f == s || (s in dom[x] && f in r1.1[s]));
          assert r1.1[s] <= r.1[s];
        }
      }
    }
  }

  /** The second branch against the final sets survives putting `n` in
      front of `rest`: a successor of `n` that is processed neither at `n`
      nor later keeps the frontier `n` read from it. */
  lemma InheritedStep(a: Arena, dom: NodeSets, df: NodeSets, n: nat, rest: seq<nat>, r1: (NodeSets, NodeSets), r: (NodeSets, NodeSets))
    requires WellFormed(a) && |dom| == |a.labels| && |df| == |a.labels| && n < |a.labels| && AllNodes(a, rest)
    requires |r1.1| == |a.labels| && |r.1| == |a.labels|
    requires Grown(r.1, r1.1)
    requires forall x :: 0 <= x < |df| && x != n ==> r1.1[x] == df[x]
    requires forall x :: 0 <= x < |df| && x !in rest ==> r.1[x] == r1.1[x]
    requires PassedOn(a, dom, df, r1.1, n)
    requires Inherited(a, dom, r.1, rest)
    ensures AllNodes(a, [n] + rest) && Inherited(a, dom, r.1, [n] + rest)
  {
    var order := [n] + rest;
    forall i, s | 0 <= i < |order| && s in a.succ[order[i]] && s in dom[order[i]] && NotLater(order, i, s)
      ensures r.1[s] - dom[order[i]] <= r.1[order[i]]
    {
      if i == 0 {
        assert s != n && s !in rest by {
          forall j | 0 <= j < |rest| ensures rest[j] != s {
            assert rest[j] == order[j + 1];
          }
        }
        assert r.1[s] == df[s];
      } else {
        assert order[i] == rest[i - 1];
        assert NotLater(rest, i - 1, s) by {
          forall j | i - 1 <= j < |rest| ensures rest[j] != s {
            assert rest[j] == order[j + 1];
          }
        }
      }
    }
  }

  /** The nodes a pass does not process keep their frontiers. */
  lemma {:induction false} PassFrame(a: Arena, dom: NodeSets, sdom: NodeSets, df: NodeSets, order: seq<nat>)
    requires WellFormed(a) && |dom| == |a.labels| && |sdom| == |a.labels| && |df| == |a.labels| && AllNodes(a, order)
    ensures forall x :: 0 <= x < |df| && x !in order ==> Pass(a, dom, sdom, df, order).1[x] == df[x]
    decreases |order|
  {
    if order != [] {
      var rest := order[1..];
      assert AllNodes(a, rest) by {
        forall i | 0 <= i < |rest| ensures rest[i] < |a.labels| {
          assert rest[i] == order[i + 1];
        }
      }
      var r1 := Step(a, dom, sdom, df, order[0]);
      PassFrame(a, dom, r1.0, r1.1, rest);
      forall x | 0 <= x < |df| && x !in order ensures x !in rest && x != order[0] {
        assert order == [order[0]] + rest;
      }
    }
  }

  /** Over an order that holds each node once, every gain of a frontier
      is traced to what its node read when it was processed. */
  lemma {:induction false} PassSourced(a: Arena, dom: NodeSets, sdom: NodeSets, df: NodeSets, order: seq<nat>)
    requires WellFormed(a) && |dom| == |a.labels| && |sdom| == |a.labels| && |df| == |a.labels| && AllNodes(a, order)
    requires NoDup(order)
    ensures Sourced(a, dom, df, Pass(a, dom, sdom, df, order).1, order)
    decreases |order|
  {
    if order != [] {
      var n := order[0];
      var rest := order[1..];
      assert AllNodes(a, rest) by {
        forall i | 0 <= i < |rest| ensures rest[i] < |a.labels| {
          assert rest[i] == order[i + 1];
        }
      }
      assert NoDup(rest) by {
        forall i, j | 0 <= i < j < |rest| ensures rest[i] != rest[j] {
          assert rest[i] == order[i + 1] && rest[j] == order[j + 1];
        }
      }
      var r1 := Step(a, dom, sdom, df, n);
      PassSourced(a, dom, r1.0, r1.1, rest);
      PassFrame(a, dom, r1.0, r1.1, rest);
      var r := Pass(a, dom, r1.0, r1.1, rest);
      assert r == Pass(a, dom, sdom, df, order);
      GainsFacts(dom, df, n, a.succ[n]);
      SourcedStep(a, dom, df, order, r1.1, r.1);
    }
  }

  /** Gluing the step for the first node to the pass over the rest. */
  lemma SourcedStep(a: Arena, dom: NodeSets, df: NodeSets, order: seq<nat>, df1: NodeSets, r: NodeSets)
    requires WellFormed(a) && |dom| == |a.labels| && |df| == |a.labels| && AllNodes(a, order) && order != [] && NoDup(order)
    requires AllNodes(a, order[1..]) && |df1| == |a.labels| && |r| == |a.labels|
    requires df1 == df[order[0] := df[order[0]] + Gains(dom, df, order[0], a.succ[order[0]])]
    requires forall f :: f in Gains(dom, df, order[0], a.succ[order[0]]) ==>
      exists s :: s in a.succ[order[0]] && (f == s || (s in dom[order[0]] && f in df[s]))
    requires forall x :: 0 <= x < |df| && x !in order[1..] ==> r[x] == df1[x]
    requires Sourced(a, dom, df1, r, order[1..])
    ensures Sourced(a, dom, df, r, order)
  {
    forall i, f | 0 <= i < |order| && f in r[order[i]] - df[order[i]]
      ensures exists s :: s in a.succ[order[i]] && (f == s || (s in dom[order[i]] && f in ReadAt(df, r, order, i, s)))
    {
      if i == 0 {
        SourcedHead(a, dom, df, order, df1, r, f);
      } else {
        SourcedTail(a, dom, df, order, df1, r, i, f);
      }
    }
  }

  /** A gain of the first node came from what its step read. */
  lemma SourcedHead(a: Arena, dom: NodeSets, df: NodeSets, order: seq<nat>, df1: NodeSets, r: NodeSets, f: nat)
    requires WellFormed(a) && |dom| == |a.labels| && |df| == |a.labels| && AllNodes(a, order) && order != [] && NoDup(order)
    requires |df1| == |a.labels| && |r| == |a.labels|
    requires df1 == df[order[0] := df[order[0]] + Gains(dom, df, order[0], a.succ[order[0]])]
    requires forall f :: f in Gains(dom, df, order[0], a.succ[order[0]]) ==>
      exists s :: s in a.succ[order[0]] && (f == s || (s in dom[order[0]] && f in df[s]))
    requires forall x :: 0 <= x < |df| && x !in order[1..] ==> r[x] == df1[x]
    requires f in r[order[0]] - df[order[0]]
    ensures exists s :: s in a.succ[order[0]] && (f == s || (s in dom[order[0]] && f in ReadAt(df, r, order, 0, s)))
  {
    var n, rest := order[0], order[1..];
    assert n !in rest by {
      forall j | 0 <= j < |rest| ensures rest[j] != n {
        assert rest[j] == order[j + 1];
      }
    }
    assert f in Gains(dom, df, n, a.succ[n]);
    var s :| s in a.succ[n] && (f == s || (s in dom[n] && f in df[s]));
    if s != f && NotLater(order, 0, s) {
      assert s != n && s !in rest by {
        forall j | 0 <= j < |rest| ensures rest[j] != s {
          assert rest[j] == order[j + 1];
        }
      }
      assert r[s] == df[s];
    }
  }

  /** A gain of a later node came from what it read in the pass over the
      rest, which is what it reads in the whole pass. */
  lemma SourcedTail(a: Arena, dom: NodeSets, df: NodeSets, order: seq<nat>, df1: NodeSets, r: NodeSets, i: nat, f: nat)
    requires WellFormed(a) && |dom| == |a.labels| && |df| == |a.labels| && AllNodes(a, order) && NoDup(order)
    requires 0 < i < |order| && AllNodes(a, order[1..]) && |df1| == |a.labels| && |r| == |a.labels|
    requires forall x :: 0 <= x < |df| && x != order[0] ==> df1[x] == df[x]
    requires Sourced(a, dom, df1, r, order[1..])
    requires f in r[order[i]] - df[order[i]]
    ensures exists s :: s in a.succ[order[i]] && (f == s || (s in dom[order[i]] && f in ReadAt(df, r, order, i, s)))
  {
    var rest := order[1..];
    var x := order[i];
    assert x == rest[i - 1] && x != order[0];
    assert f in r[rest[i - 1]] - df1[rest[i - 1]];
    var s :| s in a.succ[x] && (f == s || (s in dom[x] && f in ReadAt(df1, r, rest, i - 1, s)));
    if s != f {
      if NotLater(order, i, s) {
        assert NotLater(rest, i - 1, s) by {
          forall j | i - 1 <= j < |rest| ensures rest[j] != s {
            assert rest[j] == order[j + 1];
          }
        }
      } else {
        var j :| i <= j < |order| && order[j] == s;
        assert order[0] != order[j];
        assert !NotLater(rest, i - 1, s) by {
          assert rest[j - 1] == s;
        }
      }
    }
  }

  /** Over an order that holds each node once and from empty frontiers,
      the pass leaves frontiers that satisfy FrontierFacts, and no other
      frontiers do. */
  lemma FrontierExact(a: Arena, dom: NodeSets, sdom: NodeSets, df0: NodeSets, df: NodeSets, order: seq<nat>)
    requires WellFormed(a) && |dom| == |a.labels| && |sdom| == |a.labels| && |df0| == |a.labels| && |df| == |a.labels| && AllNodes(a, order)
    requires NoDup(order) && forall x :: 0 <= x < |a.labels| ==> df0[x] == {}
    ensures FrontierFacts(a, dom, df0, Pass(a, dom, sdom, df0, order).1, order)
    ensures FrontierFacts(a, dom, df0, df, order) <==> df == Pass(a, dom, sdom, df0, order).1
  {
    PassFacts(a, dom, sdom, df0, order);
    PassSourced(a, dom, sdom, df0, order);
    var r := Pass(a, dom, sdom, df0, order);
    if FrontierFacts(a, dom, df0, df, order) {
      FrontierDetermined(a, dom, df0, df, r.1, order);
    }
  }

  /** The frontier facts pin the frontiers down: two frontier assignments
      over the same order from empty sets that both satisfy them are equal.
      So the clauses of FrontierFacts are the whole of what the pass does. */
  lemma FrontierDetermined(a: Arena, dom: NodeSets, df0: NodeSets, df1: NodeSets, df2: NodeSets, order: seq<nat>)
    requires WellFormed(a) && |dom| == |a.labels| && |df0| == |a.labels| && |df1| == |a.labels| && |df2| == |a.labels| && AllNodes(a, order)
    requires forall x :: 0 <= x < |a.labels| ==> df0[x] == {}
    requires FrontierFacts(a, dom, df0, df1, order) && FrontierFacts(a, dom, df0, df2, order)
    ensures df1 == df2
  {
    AgreeUpTo(a, dom, df0, df1, df2, order, |order|);
    forall x | 0 <= x < |a.labels| ensures df1[x] == df2[x] {
      if x in order {
        var j :| 0 <= j < |order| && order[j] == x;
      }
    }
  }

  /** The two assignments agree on the first `k` positions of the order. */
  lemma {:induction false} AgreeUpTo(a: Arena, dom: NodeSets, df0: NodeSets, df1: NodeSets, df2: NodeSets, order: seq<nat>, k: nat)
    requires WellFormed(a) && |dom| == |a.labels| && |df0| == |a.labels| && |df1| == |a.labels| && |df2| == |a.labels| && AllNodes(a, order)
    requires forall x :: 0 <= x < |a.labels| ==> df0[x] == {}
    requires FrontierFacts(a, dom, df0, df1, order) && FrontierFacts(a, dom, df0, df2, order)
    requires k <= |order|
    ensures forall j :: 0 <= j < k ==> df1[order[j]] == df2[order[j]]
    decreases k
  {
    if k > 0 {
      AgreeUpTo(a, dom, df0, df1, df2, order, k - 1);
      FrontierIncluded(a, dom, df0, df1, df2, order, k - 1);
      FrontierIncluded(a, dom, df0, df2, df1, order, k - 1);
    }
  }

  /** At position `i`, DFSet by `df1` lies in DFSet by `df2` when the two
      agree on the earlier positions. */
  lemma FrontierIncluded(a: Arena, dom: NodeSets, df0: NodeSets, df1: NodeSets, df2: NodeSets, order: seq<nat>, i: nat)
    requires WellFormed(a) && |dom| == |a.labels| && |df0| == |a.labels| && |df1| == |a.labels| && |df2| == |a.labels| && AllNodes(a, order)
    requires forall x :: 0 <= x < |a.labels| ==> df0[x] == {}
    requires FrontierFacts(a, dom, df0, df1, order) && FrontierFacts(a, dom, df0, df2, order)
    requires i < |order| && forall j :: 0 <= j < i ==> df1[order[j]] == df2[order[j]]
    ensures df1[order[i]] <= df2[order[i]]
  {
    var x := order[i];
    forall f | f in df1[x] ensures f in df2[x] {
      assert f in df1[order[i]] - df0[order[i]];
      var s :| s in a.succ[x] && (f == s || (s in dom[x] && f in ReadAt(df0, df1, order, i, s)));
      assert f !in dom[x];
      if f != s {
        assert NotLater(order, i, s);
        if s in order {
          var j :| 0 <= j < |order| && order[j] == s;
          assert j < i;
        }
        assert df1[s] == df2[s];
      }
    }
  }
}
