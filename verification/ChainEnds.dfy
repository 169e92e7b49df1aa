/**
 Chains of read-modify-writes when one of them may run in a circle: where the
 walk of cyclegraph.cc:214-215 stops, when it does not, and why the walks of a
 merge stop on every graph that additions built.
 */
module ChainEnds {
  import opened Digraph
  import opened Optional
  import opened OrderConstraints
  import opened NodeMerge

  // ------------------------------------------------------------------
  // The walk
  // ------------------------------------------------------------------

  /** Pointers stay within the table. */
  ghost predicate Pointing(ns: Nodes) {
    forall a :: 0 <= a < |ns| && ns[a].rmw.Some? ==> ns[a].rmw.value < |ns|
  }

  /** Where the walk from `a` stops, if `n` steps are enough: at `to`, or at the end of the chain. */
  ghost function WalkStop(ns: Nodes, a: nat, to: nat, n: nat): (e: Option<nat>)
    requires Pointing(ns) && a < |ns|
    ensures e.Some? ==> e.value < |ns|
    decreases n
  {
    if a == to || ns[a].rmw.None? then Some(a)
    else if n == 0 then None
    else WalkStop(ns, ns[a].rmw.value, to, n - 1)
  }

  /** The walk from `a` ends. */
  ghost predicate WalkEnds(ns: Nodes, a: nat, to: nat)
    requires Pointing(ns) && a < |ns|
  {
    exists n: nat :: WalkStop(ns, a, to, n).Some?
  }

  /** `e` is where the chain through `a` ends. */
  ghost predicate EndOf(R: Edges, a: nat, e: nat) {
    Reach(R, a, e) && forall x: nat :: (e, x) !in R
  }

  /** The walk ends exactly when it comes to `to`, or the chain has an end. */
  lemma WalkEndsWhen(ns: Nodes, a: nat, to: nat)
    requires Pointing(ns) && a < |ns|
    ensures WalkEnds(ns, a, to) <==> Reach(RmwSet(ns), a, to) || exists e: nat :: EndOf(RmwSet(ns), a, e)
  {
    hide Reach;
    var R := RmwSet(ns);
    if WalkEnds(ns, a, to) {
      var n: nat :| WalkStop(ns, a, to, n).Some?;
      WalkReaches(ns, a, to, n);
    }
    if Reach(R, a, to) {
      ReachWithin(ns, a, to);
      PathWalk(ns, a, to, to);
    }
    if e: nat :| EndOf(R, a, e) {
      ReachWithin(ns, a, e);
      NoPointerFrom(ns, e);
      PathWalk(ns, a, to, e);
    }
  }

  lemma NoPointerFrom(ns: Nodes, e: nat)
    requires e < |ns| && forall x: nat :: (e, x) !in RmwSet(ns)
    ensures ns[e].rmw.None?
  {
    var x := if ns[e].rmw.Some? then ns[e].rmw.value else 0;
    assert (e, x) !in RmwSet(ns);
  }

  lemma {:induction false} WalkReaches(ns: Nodes, a: nat, to: nat, n: nat)
    requires Pointing(ns) && a < |ns| && WalkStop(ns, a, to, n).Some?
    ensures var e := WalkStop(ns, a, to, n).value; Reach(RmwSet(ns), a, e) && (e == to || EndOf(RmwSet(ns), a, e))
    decreases n
  {
    hide Reach;
    var R := RmwSet(ns);
    ReachRefl(R, a);
    if a != to && ns[a].rmw.Some? {
      var r := ns[a].rmw.value;
      WalkReaches(ns, r, to, n - 1);
      ReachEdge(R, a, r);
      ReachTrans(R, a, r, WalkStop(ns, a, to, n).value);
    }
  }

  lemma {:induction false} ReachWithin(ns: Nodes, a: nat, e: nat)
    requires Pointing(ns) && a < |ns| && Reach(RmwSet(ns), a, e)
    ensures e < |ns|
  {
    ClosedReach(RmwSet(ns), Below(|ns|), a, e);
  }

  /** Where a path of pointers leads, the walk gets, unless it stops before. */
  lemma PathWalk(ns: Nodes, a: nat, to: nat, e: nat)
    requires Pointing(ns) && a < |ns| && Reach(RmwSet(ns), a, e) && e < |ns| && (e == to || ns[e].rmw.None?)
    ensures WalkEnds(ns, a, to)
  {
    var q :| PathFromTo(RmwSet(ns), q, a, e);
    PathWalkIn(ns, q, to);
  }

  lemma {:induction false} PathWalkIn(ns: Nodes, q: seq<nat>, to: nat)
    requires Pointing(ns) && IsPath(RmwSet(ns), q) && q[0] < |ns| && q[|q| - 1] < |ns|
    requires q[|q| - 1] == to || ns[q[|q| - 1]].rmw.None?
    ensures WalkStop(ns, q[0], to, |q| - 1).Some?
    decreases |q|
  {
    if |q| > 1 {
      assert (q[0], q[0 + 1]) in RmwSet(ns);
      assert IsPath(RmwSet(ns), q[1..]) by {
        forall i | 0 <= i < |q[1..]| - 1 ensures (q[1..][i], q[1..][i + 1]) in RmwSet(ns) {
          assert (q[i + 1], q[i + 1 + 1]) in RmwSet(ns);
        }
      }
      PathWalkIn(ns, q[1..], to);
    }
  }

  /** The steps that a walk takes. */
  ghost function Steps(ns: Nodes, a: nat, to: nat, n: nat): (k: nat)
    requires Pointing(ns) && a < |ns| && WalkStop(ns, a, to, n).Some?
    ensures k <= n
    decreases n
  {
    if a == to || ns[a].rmw.None? then 0 else 1 + Steps(ns, ns[a].rmw.value, to, n - 1)
  }

  /** The nodes that a walk leaves. */
  ghost function Walked(ns: Nodes, a: nat, to: nat, n: nat): set<nat>
    requires Pointing(ns) && a < |ns| && WalkStop(ns, a, to, n).Some?
    decreases n
  {
    if a == to || ns[a].rmw.None? then {} else {a} + Walked(ns, ns[a].rmw.value, to, n - 1)
  }

  lemma {:induction false} StepsSame(ns: Nodes, a: nat, to: nat, m: nat, n: nat)
    requires Pointing(ns) && a < |ns| && WalkStop(ns, a, to, m).Some? && n >= Steps(ns, a, to, m)
    ensures WalkStop(ns, a, to, n) == WalkStop(ns, a, to, m) && Steps(ns, a, to, n) == Steps(ns, a, to, m)
    decreases m
  {
    if a != to && ns[a].rmw.Some? {
      StepsSame(ns, ns[a].rmw.value, to, m - 1, n - 1);
    }
  }

  /** From a node that a walk leaves, no more steps are left than from its start. */
  lemma {:induction false} WalkedFewer(ns: Nodes, a: nat, to: nat, n: nat, v: nat)
    requires Pointing(ns) && a < |ns| && WalkStop(ns, a, to, n).Some? && v in Walked(ns, a, to, n)
    ensures v < |ns| && exists m: nat :: IsStep(ns, a, to, n, v, m)
    decreases n
  {
    if v == a {
      assert IsStep(ns, a, to, n, a, n);
    } else {
      var r := ns[a].rmw.value;
      WalkedFewer(ns, r, to, n - 1, v);
      var m: nat :| IsStep(ns, r, to, n - 1, v, m);
      assert IsStep(ns, a, to, n, v, m);
    }
  }

  /** A walk that ends leaves no node twice. */
  lemma {:induction false} WalkedOnce(ns: Nodes, a: nat, to: nat, n: nat)
    requires Pointing(ns) && a < |ns| && WalkStop(ns, a, to, n).Some?
    ensures |Walked(ns, a, to, n)| == Steps(ns, a, to, n) && Walked(ns, a, to, n) <= Below(|ns|)
    decreases n
  {
    if a != to && ns[a].rmw.Some? {
      var r := ns[a].rmw.value;
      WalkedOnce(ns, r, to, n - 1);
      var W := Walked(ns, r, to, n - 1);
      if a in W {
        WalkedFewer(ns, r, to, n - 1, a);
        var m: nat :| IsStep(ns, r, to, n - 1, a, m);
        StepsSame(ns, a, to, m, n);
      }
      assert |{a} + W| == 1 + |W|;
    }
  }

  /** From `v` the walk takes no more steps than from `a`. */
  ghost predicate IsStep(ns: Nodes, a: nat, to: nat, n: nat, v: nat, m: nat)
    requires Pointing(ns) && a < |ns| && WalkStop(ns, a, to, n).Some?
  {
    v < |ns| && WalkStop(ns, v, to, m).Some? && Steps(ns, v, to, m) <= Steps(ns, a, to, n)
  }

  /** A walk that ends at all ends within as many steps as there are nodes. */
  lemma WalkBounded(ns: Nodes, a: nat, to: nat)
    requires Pointing(ns) && a < |ns|
    ensures WalkEnds(ns, a, to) <==> WalkStop(ns, a, to, |ns|).Some?
  {
    if WalkEnds(ns, a, to) {
      var n: nat :| WalkStop(ns, a, to, n).Some?;
      WalkedOnce(ns, a, to, n);
      BelowSize(|ns|);
      Fewer(Walked(ns, a, to, n), Below(|ns|));
      StepsSame(ns, a, to, n, |ns|);
    }
  }

  lemma {:induction false} BelowSize(n: nat)
    ensures |Below(n)| == n
  {
    if n > 0 {
      BelowSize(n - 1);
    }
  }

  lemma AboveSmaller(rank: seq<nat>, a: nat, b: nat)
    requires a < |rank| && b < |rank| && rank[a] < rank[b]
    ensures |Above(rank, b)| < |Above(rank, a)| <= |rank|
  {
    assert b in Above(rank, a) && b !in Above(rank, b);
    Fewer(Above(rank, b), Above(rank, a));
    BelowSize(|rank|);
    Fewer(Above(rank, a), Below(|rank|));
  }

  lemma Fewer(A: set<nat>, B: set<nat>)
    requires A <= B
    ensures |A| <= |B| && (A != B ==> |A| < |B|)
  {
    assert B == A + (B - A);
    if A != B {
      var x :| x in B - A;
      assert |B - A| > 0;
    }
  }

  /** With ranks, as many steps as there are nodes are enough. */
  lemma {:induction false} RankedWalk(ns: Nodes, rank: seq<nat>, a: nat, to: nat, n: nat)
    requires Ranked(ns, rank) && a < |ns| && n >= |Above(rank, a)|
    ensures Pointing(ns) && WalkStop(ns, a, to, n) == Some(ChainStop(ns, rank, a, to))
    decreases n
  {
    if a != to && ns[a].rmw.Some? {
      AboveSmaller(rank, a, ns[a].rmw.value);
      RankedWalk(ns, rank, ns[a].rmw.value, to, n - 1);
    }
  }

  /** The chain from `a` ends in one place. */
  lemma EndUnique(ns: Nodes, rank: seq<nat>, a: nat, d: nat, e: nat)
    requires Ranked(ns, rank) && a < |ns| && EndOf(RmwSet(ns), a, d) && EndOf(RmwSet(ns), a, e)
    ensures d == e
  {
    IsLast(ns, rank, a, d);
    IsLast(ns, rank, a, e);
  }

  lemma {:induction false} IsLast(ns: Nodes, rank: seq<nat>, a: nat, e: nat)
    requires Ranked(ns, rank) && a < |ns| && EndOf(RmwSet(ns), a, e)
    ensures e == Last(ns, rank, a)
    decreases Above(rank, a)
  {
    hide Reach;
    var R := RmwSet(ns);
    ReachCases(R, a, e);
    if ns[a].rmw.Some? {
      var r := ns[a].rmw.value;
      assert r in Above(rank, a) && r !in Above(rank, r);
      assert (a, r) in R;
      assert a != e;
      var c :| (a, c) in R && Reach(R, c, e);
      IsLast(ns, rank, r, e);
    } else {
      assert forall c :: (a, c) !in R;
    }
  }

  // ------------------------------------------------------------------
  // What additions keep
  // ------------------------------------------------------------------

  /** Every edge out of a chain goes out of its end too. */
  ghost predicate EndsCovered(R: Edges, E: Edges) {
    forall a: nat, t: nat, e: nat :: (a, t) in E && EndOf(R, a, e) ==> Reach(R, a, t) || (e, t) in E
  }

  lemma EndsCoveredAdd(ns: Nodes, rank: seq<nat>, a: nat, b: nat)
    requires WellFormed(ns, rank) && a < |ns| && b < |ns| && EndsCovered(RmwSet(ns), EdgeSet(ns))
    ensures EndsCovered(RmwSet(ns), EdgeSet(ns) + NewEdges(ns, rank, a, b))
  {
    hide Reach, Mirrored, Ranked, EdgeSet, RmwSet;
    var R, E, N := RmwSet(ns), EdgeSet(ns), NewEdges(ns, rank, a, b);
    forall x: nat, t: nat, e: nat | (x, t) in E + N && EndOf(R, x, e) && !Reach(R, x, t) ensures (e, t) in E + N {
      if (x, t) !in E {
        NewEndCovered(ns, rank, a, b, x, e);
      }
    }
  }

  lemma NewEndCovered(ns: Nodes, rank: seq<nat>, a: nat, b: nat, x: nat, e: nat)
    requires WellFormed(ns, rank) && a < |ns| && b < |ns| && EndOf(RmwSet(ns), x, e) && !Reach(RmwSet(ns), x, b)
    requires (x, b) in NewEdges(ns, rank, a, b) && (x, b) !in EdgeSet(ns)
    ensures (e, b) in NewEdges(ns, rank, a, b)
  {
    hide Reach, Mirrored;
    var R := RmwSet(ns);
    if ns[x].rmw.None? {
      ReachCases(R, x, e);
      assert x == e;
    } else {
      var r := ns[x].rmw.value;
      RankedTarget(ns, rank, a);
      if x != a {
        ChainStopProperties(ns, rank, ns[a].rmw.value, b);
      }
      assert x == a && (a, r) in R;
      ChainStopProperties(ns, rank, r, b);
      ReachEdge(R, a, r);
      ReachTrans(R, a, r, ChainStop(ns, rank, r, b));
      EndUnique(ns, rank, a, e, ChainStop(ns, rank, r, b));
    }
  }

  lemma EndsCoveredRmw(ns: Nodes, rank: seq<nat>, f: nat, r: nat)
    requires WellFormed(ns, rank) && Anchored(ns) && FreshFor(ns, f, r) && EndsCovered(RmwSet(ns), EdgeSet(ns))
    ensures EndsCovered(RmwSet(ns) + (if ns[f].rmw.None? then {(f, r)} else {}),
                        EdgeSet(ns) + RmwNewEdges(ns, rank, f, r))
  {
    hide Reach, Mirrored, Ranked, EdgeSet, RmwSet, EndsCovered, Anchored;
    var R, E, N := RmwSet(ns), EdgeSet(ns), RmwNewEdges(ns, rank, f, r);
    if ns[f].rmw.None? {
      PointedEnds(ns, rank, f, r);
    } else {
      assert R + {} == R;
      forall x: nat, t: nat, e: nat | (x, t) in E + N && EndOf(R, x, e) && !Reach(R, x, t) ensures (e, t) in E + N {
        ContestedEnd(ns, rank, f, r, x, t, e);
      }
      assert EndsCovered(R, E + N) by {
        CoveredWhen(R, E + N);
      }
    }
  }

  lemma CoveredWhen(R: Edges, E: Edges)
    requires forall a: nat, t: nat, e: nat :: (a, t) in E && EndOf(R, a, e) && !Reach(R, a, t) ==> (e, t) in E
    ensures EndsCovered(R, E)
  {
    hide Reach, EndOf;
  }

  /** The write already had a read-modify-write: no pointer changes. */
  lemma ContestedEnd(ns: Nodes, rank: seq<nat>, f: nat, r: nat, x: nat, t: nat, e: nat)
    requires WellFormed(ns, rank) && Anchored(ns) && FreshFor(ns, f, r) && EndsCovered(RmwSet(ns), EdgeSet(ns))
    requires ns[f].rmw.Some? && EndOf(RmwSet(ns), x, e) && !Reach(RmwSet(ns), x, t)
    requires (x, t) in EdgeSet(ns) + RmwNewEdges(ns, rank, f, r)
    ensures (e, t) in EdgeSet(ns) + RmwNewEdges(ns, rank, f, r)
  {
    hide Reach, Mirrored, Anchored;
    var R := RmwSet(ns);
    if (x, t) !in EdgeSet(ns) {
      if ns[x].rmw.None? {
        ReachCases(R, x, e);
        assert forall c :: (x, c) !in R;
      } else {
        var g := ns[f].rmw.value;
        RankedTarget(ns, rank, f);
        ChainStopProperties(ns, rank, g, r);
        NoPointerTo(ns, r);
        assert x == f && (f, g) in R;
        assert g != r;
        ChainMissesFresh(ns, rank, g, r);
        ReachEdge(R, f, g);
        ReachTrans(R, f, g, ChainStop(ns, rank, g, r));
        EndUnique(ns, rank, f, e, ChainStop(ns, rank, g, r));
      }
    }
  }

  lemma NoPointerTo(ns: Nodes, r: nat)
    requires Mirrored(ns) && Anchored(ns) && r < |ns| && ns[r].back == []
    ensures forall f :: (f, r) !in RmwSet(ns)
  {
    forall f: nat ensures (f, r) !in RmwSet(ns) {
      NobodysRmw(ns, f, r);
    }
  }

  /** The write's chain is longer by its first read-modify-write. */
  lemma PointedEnds(ns: Nodes, rank: seq<nat>, f: nat, r: nat)
    requires WellFormed(ns, rank) && Anchored(ns) && FreshFor(ns, f, r) && EndsCovered(RmwSet(ns), EdgeSet(ns))
    requires ns[f].rmw.None?
    ensures EndsCovered(RmwSet(ns) + {(f, r)}, EdgeSet(ns) + RmwNewEdges(ns, rank, f, r))
  {
    hide Reach, Mirrored, Anchored, Ranked, EndsCovered;
    var R, E, N := RmwSet(ns), EdgeSet(ns), RmwNewEdges(ns, rank, f, r);
    forall x: nat, t: nat, e: nat | (x, t) in E + N && EndOf(R + {(f, r)}, x, e) && !Reach(R + {(f, r)}, x, t)
      ensures (e, t) in E + N
    {
      PointedEnd(ns, rank, f, r, x, t, e);
    }
    CoveredWhen(R + {(f, r)}, E + N);
  }

  lemma PointedEnd(ns: Nodes, rank: seq<nat>, f: nat, r: nat, x: nat, t: nat, e: nat)
    requires WellFormed(ns, rank) && Anchored(ns) && FreshFor(ns, f, r) && EndsCovered(RmwSet(ns), EdgeSet(ns))
    requires ns[f].rmw.None? && (x, t) in EdgeSet(ns) + RmwNewEdges(ns, rank, f, r)
    requires EndOf(RmwSet(ns) + {(f, r)}, x, e) && !Reach(RmwSet(ns) + {(f, r)}, x, t)
    ensures (e, t) in EdgeSet(ns) + RmwNewEdges(ns, rank, f, r)
  {
    hide Reach, Mirrored, Anchored, Ranked;
    var R, E := RmwSet(ns), EdgeSet(ns);
    var R' := R + {(f, r)};
    ReachAddEdge(R, f, r, x, e);
    ReachAddEdge(R, f, r, x, t);
    ReachEdge(R', f, r);
    if Reach(R, r, e) {
      ReachCases(R, r, e);
    }
    assert forall c :: (r, c) !in R;
    assert (f, r) in R';
    assert e != f;
    if (x, t) in E {
      if Reach(R, x, f) {
        assert EndOf(R, x, f);
        ReachRefl(R, r);
        EndUnlessPointed(ns, rank, f, r, x, e);
        assert (f, t) in E;
      } else {
        assert EndOf(R, x, e);
      }
    } else if x == r {
      ReachCases(R', x, e);
      assert forall c :: (r, c) !in R';
    }
  }

  lemma EndUnlessPointed(ns: Nodes, rank: seq<nat>, f: nat, r: nat, x: nat, e: nat)
    requires Ranked(ns, rank) && f < |ns| && r < |ns| && ns[f].rmw.None? && ns[r].rmw.None? && x < |ns|
    requires EndOf(RmwSet(ns), x, f) && EndOf(RmwSet(ns) + {(f, r)}, x, e)
    ensures e == r
  {
    hide Reach;
    var R := RmwSet(ns);
    ReachAddEdge(R, f, r, x, e);
    if Reach(R, r, e) {
      ReachCases(R, r, e);
    }
    assert forall c :: (r, c) !in R;
    assert (f, r) in R + {(f, r)};
    if Reach(R, x, e) {
      assert EndOf(R, x, e);
      EndUnique(ns, rank, x, f, e);
    }
  }

  // ------------------------------------------------------------------
  // addNodeEdge on any table
  // ------------------------------------------------------------------

  /** addNodeEdge ends: the edge is there already, or the walk behind it ends. */
  ghost predicate AddEnds(ns: Nodes, a: nat, b: nat)
    requires Pointing(ns) && a < |ns|
  {
    b in ns[a].edges || ns[a].rmw.None? || WalkEnds(ns, ns[a].rmw.value, b)
  }

  /** Walks depend on pointers only. */
  lemma {:induction false} SameStop(ns: Nodes, ns': Nodes, a: nat, to: nat, n: nat)
    requires Pointing(ns) && |ns'| == |ns| && a < |ns| && forall i :: 0 <= i < |ns| ==> ns'[i].rmw == ns[i].rmw
    ensures Pointing(ns') && WalkStop(ns', a, to, n) == WalkStop(ns, a, to, n)
    decreases n
  {
    if a != to && ns[a].rmw.Some? && n > 0 {
      SameStop(ns, ns', ns[a].rmw.value, to, n - 1);
    }
  }

  lemma SamePointersWalk(ns: Nodes, ns': Nodes, a: nat, to: nat)
    requires Pointing(ns) && |ns'| == |ns| && a < |ns| && forall i :: 0 <= i < |ns| ==> ns'[i].rmw == ns[i].rmw
    ensures Pointing(ns') && WalkStop(ns', a, to, |ns|) == WalkStop(ns, a, to, |ns|)
    ensures WalkEnds(ns', a, to) <==> WalkEnds(ns, a, to)
  {
    forall n: nat ensures Pointing(ns') && WalkStop(ns', a, to, n) == WalkStop(ns, a, to, n) {
      SameStop(ns, ns', a, to, n);
    }
  }

  /** What addNodeEdge leaves, or has done before a walk that does not end. */
  ghost function EdgeAdded(ns: Nodes, a: nat, b: nat): (r: Nodes)
    requires Pointing(ns) && a < |ns| && b < |ns|
    ensures SameKinds(ns, r) && forall i :: 0 <= i < |ns| ==> r[i].rmw == ns[i].rmw
  {
    if b in ns[a].edges || ns[a].rmw.None? then AddEdge(ns, a, b)
    else
      match WalkStop(ns, ns[a].rmw.value, b, |ns|)
      case None => AddEdge(ns, a, b)
      case Some(e) => if e == b then AddEdge(ns, a, b) else AddEdge(AddEdge(ns, a, b), e, b)
  }

  ghost function EdgesAdded(ns: Nodes, a: nat, b: nat): Edges
    requires Pointing(ns) && a < |ns|
  {
    if b in ns[a].edges || ns[a].rmw.None? then {(a, b)}
    else
      match WalkStop(ns, ns[a].rmw.value, b, |ns|)
      case None => {(a, b)}
      case Some(e) => if e == b then {(a, b)} else {(a, b)} + {(e, b)}
  }

  lemma AddEdgeMirrored(ns: Nodes, a: nat, b: nat)
    requires Mirrored(ns) && a < |ns| && b < |ns|
    ensures Mirrored(AddEdge(ns, a, b))
    ensures EdgeSet(AddEdge(ns, a, b)) == EdgeSet(ns) + {(a, b)}
    ensures RmwSet(AddEdge(ns, a, b)) == RmwSet(ns)
  {
    if b !in ns[a].edges {
      PushEdgeMirrored(ns, a, b);
      PushEdgeSets(ns, a, b);
    } else {
      assert (a, b) in EdgeSet(ns);
    }
  }

  lemma EdgeAddedShape(ns: Nodes, a: nat, b: nat)
    requires Mirrored(ns) && Pointing(ns) && a < |ns| && b < |ns|
    ensures Mirrored(EdgeAdded(ns, a, b)) && Pointing(EdgeAdded(ns, a, b))
    ensures EdgeSet(EdgeAdded(ns, a, b)) == EdgeSet(ns) + EdgesAdded(ns, a, b)
    ensures RmwSet(EdgeAdded(ns, a, b)) == RmwSet(ns)
  {
    hide Mirrored, AddEdge, EdgeSet, RmwSet, WalkStop;
    AddEdgeMirrored(ns, a, b);
    if b !in ns[a].edges && ns[a].rmw.Some? {
      var stop := WalkStop(ns, ns[a].rmw.value, b, |ns|);
      if stop.Some? {
        AddEdgeMirrored(AddEdge(ns, a, b), stop.value, b);
      }
    }
  }

  /** With ranks it always ends, and does what AddNodeEdge says. */
  lemma EdgeAddedRanked(ns: Nodes, rank: seq<nat>, a: nat, b: nat)
    requires Ranked(ns, rank) && a < |ns| && b < |ns|
    ensures Pointing(ns) && AddEnds(ns, a, b)
    ensures EdgeAdded(ns, a, b) == AddNodeEdge(ns, rank, a, b) && EdgesAdded(ns, a, b) == NewEdges(ns, rank, a, b)
  {
    hide AddEdge;
    if ns[a].rmw.Some? {
      var r := ns[a].rmw.value;
      BelowSize(|ns|);
      Fewer(Above(rank, r), Below(|rank|));
      RankedWalk(ns, rank, r, b, |ns|);
      WalkBounded(ns, r, b);
    }
  }

  // ------------------------------------------------------------------
  // Bounds that can be computed before a merge
  // ------------------------------------------------------------------

  /** The tables once the promise's pointer is the write's as well. */
  function Taken(ns: Nodes, p: nat, w: nat): (r: Nodes)
    requires p < |ns| && w < |ns|
  {
    if ns[p].rmw.Some? then SetRmw(ns, w, ns[p].rmw.value) else ns
  }

  /** What chains derive from edges, found by walking them. */
  ghost function DerivedOn(ns: Nodes, F: Edges): Edges
    requires Pointing(ns)
  {
    set e | e in F && e.0 < |ns| && ns[e.0].rmw.Some? &&
            WalkStop(ns, ns[e.0].rmw.value, e.1, |ns|).Some? &&
                WalkStop(ns, ns[e.0].rmw.value, e.1, |ns|).value != e.1 ::
      (WalkStop(ns, ns[e.0].rmw.value, e.1, |ns|).value, e.1)
  }

  lemma DerivedWalk(ns: Nodes, rank: seq<nat>, F: Edges)
    requires Ranked(ns, rank)
    ensures Pointing(ns) && DerivedOn(ns, F) == Derived(ns, rank, F)
  {
    forall e | e in F && e.0 < |ns| && ns[e.0].rmw.Some?
      ensures Pointing(ns) && WalkStop(ns, ns[e.0].rmw.value, e.1, |ns|) ==
              Some(ChainStop(ns, rank, ns[e.0].rmw.value, e.1))
    {
      var r := ns[e.0].rmw.value;
      BelowSize(|ns|);
      Fewer(Above(rank, r), Below(|rank|));
      RankedWalk(ns, rank, r, e.1, |ns|);
    }
  }

  /** The edges that a merge may show, from the tables before it. */
  ghost function BoundsBefore(ns0: Nodes, p: nat, w: nat): Edges
    requires p < |ns0| && w < |ns0| && Pointing(Taken(ns0, p, w))
  {
    Rename(EdgeSet(ns0), p, w) + DerivedOn(Taken(ns0, p, w), Rename(EdgeSet(ns0), p, w) - EdgeSet(ns0))
  }

  lemma BoundsBeforeAre(ns0: Nodes, base: Nodes, rank: seq<nat>, p: nat, w: nat)
    requires p < |ns0| && w < |ns0| && base == Taken(ns0, p, w) && Ranked(base, rank)
    ensures Pointing(base) && BoundsBefore(ns0, p, w) == Bounds(base, rank, EdgeSet(ns0), p, w)
  {
    hide Rename, EdgeSet;
    DerivedWalk(base, rank, Rename(EdgeSet(ns0), p, w) - EdgeSet(ns0));
  }

  /** The quotient with everything that its chains will derive, from the tables before a merge. */
  ghost function ClosureBefore(ns0: Nodes, p: nat, w: nat): Edges
    requires p < |ns0| && w < |ns0| && Pointing(Taken(ns0, p, w))
  {
    Rename(EdgeSet(ns0), p, w) + DerivedOn(Taken(ns0, p, w), Rename(EdgeSet(ns0), p, w))
  }

  lemma ClosureBeforeIs(ns0: Nodes, ns: Nodes, rank: seq<nat>, p: nat, w: nat)
    requires p < |ns0| && w < |ns0| && Ranked(ns, rank) && |ns| == |ns0| && RmwSet(ns) == RmwSet(Taken(ns0, p, w))
    ensures Pointing(Taken(ns0, p, w))
    ensures ClosureBefore(ns0, p, w) == Closure(ns, rank, Rename(EdgeSet(ns0), p, w))
  {
    hide Rename, EdgeSet;
    var taken, F := Taken(ns0, p, w), Rename(EdgeSet(ns0), p, w);
    RmwUnchanged(ns, taken);
    DerivedWalk(ns, rank, F);
    forall e | e in F && e.0 < |ns| && ns[e.0].rmw.Some?
      ensures Pointing(taken) && WalkStop(taken, ns[e.0].rmw.value, e.1, |ns|) ==
              WalkStop(ns, ns[e.0].rmw.value, e.1, |ns|)
    {
      SameStop(ns, taken, ns[e.0].rmw.value, e.1, |ns|);
    }
  }
}
