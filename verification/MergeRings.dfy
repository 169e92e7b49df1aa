/**
 Merging a promise into a write that itself reads, through read-modify-writes, from
 that promise. Moving the promise's pointer closes a circle, on which the walk of
 cyclegraph.cc:214-215 ends exactly when it comes to its target.
 */
module MergeRings {
  import opened Digraph
  import opened Optional
  import opened OrderConstraints
  import opened GraphHistory
  import opened NodeMerge
  import opened ChainEnds

  /** The write reads, through read-modify-writes, from the promise. */
  ghost predicate ReadsOwn(ns: Nodes, p: nat, w: nat) {
    Reach(RmwSet(ns), p, w)
  }

  /** The pointers behind the promise are edges. */
  ghost predicate ChainEdges(ns: Nodes, p: nat) {
    forall x: nat, y: nat :: (x, y) in RmwSet(ns) && Reach(RmwSet(ns), p, x) ==> (x, y) in EdgeSet(ns)
  }

  /** `w`, the end of its chain, is reached by pointers from `r`, which reads from the promise `p`. */
  ghost predicate Circle(ns: Nodes, rank: seq<nat>, p: nat, w: nat, r: nat) {
    && WellFormed(ns, rank) && p < |ns| && w < |ns| && r < |ns| && p != w && ns[p].isPromise && !ns[w].isPromise
    && ns[p].rmw == Some(r) && ns[w].rmw.None? && Reach(RmwSet(ns), r, w)
  }

  /** The write reads from the promise, and nobody else's read-modify-write stands in the way. */
  lemma CircleStarts(ns: Nodes, rank: seq<nat>, p: nat, w: nat)
    requires WellFormed(ns, rank) && p < |ns| && w < |ns| && ns[p].isPromise && !ns[w].isPromise
    requires Reach(RmwSet(ns), p, w)
    ensures ns[p].rmw.Some? && ns[w].rmw != ns[p].rmw
    ensures ns[w].rmw.None? ==> Circle(ns, rank, p, w, ns[p].rmw.value)
  {
    hide Mirrored, Reach;
    var R := RmwSet(ns);
    ReachCases(R, p, w);
    var r :| (p, r) in R && Reach(R, r, w);
    RanksRise(ns, rank, r, w);
  }

  lemma {:induction false} RanksRise(ns: Nodes, rank: seq<nat>, a: nat, b: nat)
    requires Ranked(ns, rank) && a < |ns| && Reach(RmwSet(ns), a, b)
    ensures b < |ns| && rank[a] <= rank[b]
  {
    var q :| PathFromTo(RmwSet(ns), q, a, b);
    var i := 0;
    while i < |q| - 1
      invariant 0 <= i <= |q| - 1 && q[i] < |ns| && rank[a] <= rank[q[i]]
    {
      assert (q[i], q[i + 1]) in RmwSet(ns);
      i := i + 1;
    }
  }

  /** A merge that goes round: pointers form a circle, and edges that do not touch `p` are still there. */
  ghost predicate GoesRound(ns: Nodes, flag: bool, ns0: Nodes, rank0: seq<nat>, p: nat, w: nat, r: nat) {
    && Circle(ns0, rank0, p, w, r) && Mirrored(ns) && SameKinds(ns0, ns) && RmwSet(ns) == RmwSet(ns0) + {(w, r)}
    && (!flag ==> Acyclic(EdgeSet(ns)))
    && (forall x: nat, t: nat :: (x, t) in EdgeSet(ns0) && x != p && t != p ==> (x, t) in EdgeSet(ns))
    && (forall t: nat :: (p, t) in EdgeSet(ns) && t != p && t != w ==> (p, t) in EdgeSet(ns0))
  }

  // ------------------------------------------------------------------
  // Walks on the circle
  // ------------------------------------------------------------------

  lemma RoundPointers(ns: Nodes, ns0: Nodes, w: nat, r: nat)
    requires |ns| == |ns0| && w < |ns| && ns0[w].rmw.None? && RmwSet(ns) == RmwSet(ns0) + {(w, r)}
    ensures ns[w].rmw == Some(r) && forall a :: 0 <= a < |ns| && a != w ==> ns[a].rmw == ns0[a].rmw
  {
    assert (w, r) in RmwSet(ns);
    forall a | 0 <= a < |ns| && a != w ensures ns[a].rmw == ns0[a].rmw {
      if ns[a].rmw.Some? {
        assert (a, ns[a].rmw.value) in RmwSet(ns);
        assert (a, ns[a].rmw.value) in RmwSet(ns0);
      }
      if ns0[a].rmw.Some? {
        assert (a, ns0[a].rmw.value) in RmwSet(ns0);
        assert (a, ns0[a].rmw.value) in RmwSet(ns);
      }
    }
  }

  lemma RoundPointing(ns: Nodes, ns0: Nodes, rank0: seq<nat>, p: nat, w: nat, r: nat)
    requires Circle(ns0, rank0, p, w, r) && |ns| == |ns0| && RmwSet(ns) == RmwSet(ns0) + {(w, r)}
    ensures Pointing(ns) && ns[w].rmw == Some(r)
  {
    hide Mirrored, Reach;
    RoundPointers(ns, ns0, w, r);
  }

  /** Towards `w` every walk ends. */
  lemma {:induction false} WalkToWrite(ns: Nodes, ns0: Nodes, rank0: seq<nat>, p: nat, w: nat, r: nat, a: nat, n: nat)
    requires Circle(ns0, rank0, p, w, r) && |ns| == |ns0| && RmwSet(ns) == RmwSet(ns0) + {(w, r)}
    requires a < |ns| && n >= |Above(rank0, a)|
    ensures Pointing(ns) && WalkStop(ns, a, w, n).Some?
    decreases n
  {
    hide Mirrored, Reach;
    RoundPointing(ns, ns0, rank0, p, w, r);
    RoundPointers(ns, ns0, w, r);
    if a != w && ns[a].rmw.Some? {
      AboveSmaller(rank0, a, ns[a].rmw.value);
      WalkToWrite(ns, ns0, rank0, p, w, r, ns[a].rmw.value, n - 1);
    }
  }

  /** A target on the circle is reached. */
  lemma OnCircleEnds(ns: Nodes, ns0: Nodes, rank0: seq<nat>, p: nat, w: nat, r: nat, t: nat)
    requires Circle(ns0, rank0, p, w, r) && |ns| == |ns0| && RmwSet(ns) == RmwSet(ns0) + {(w, r)}
    requires Reach(RmwSet(ns0), r, t)
    ensures Pointing(ns) && WalkEnds(ns, r, t)
  {
    hide Mirrored;
    RoundPointing(ns, ns0, rank0, p, w, r);
    ReachMono(RmwSet(ns0), RmwSet(ns), r, t);
    WalkEndsWhen(ns, r, t);
  }

  /** A target off the circle never is. */
  lemma OffCircleNever(ns: Nodes, ns0: Nodes, rank0: seq<nat>, p: nat, w: nat, r: nat, t: nat)
    requires Circle(ns0, rank0, p, w, r) && |ns| == |ns0| && RmwSet(ns) == RmwSet(ns0) + {(w, r)}
    requires !Reach(RmwSet(ns0), r, t)
    ensures Pointing(ns) && !WalkEnds(ns, r, t)
  {
    hide Mirrored, Reach;
    RoundPointing(ns, ns0, rank0, p, w, r);
    WalkEndsWhen(ns, r, t);
    var R0, R := RmwSet(ns0), RmwSet(ns);
    ReachAddEdge(R0, w, r, r, t);
    ReachRefl(R0, r);
    forall e: nat ensures !EndOf(R, r, e) {
      if EndOf(R, r, e) {
        ReachAddEdge(R0, w, r, r, e);
        assert (w, r) in R;
        CircleOnward(ns0, rank0, p, w, r, e);
      }
    }
  }

  /** From every node of the circle a pointer leads on. */
  lemma CircleOnward(ns0: Nodes, rank0: seq<nat>, p: nat, w: nat, r: nat, e: nat)
    requires Circle(ns0, rank0, p, w, r) && Reach(RmwSet(ns0), r, e)
    ensures exists x: nat :: (e, x) in RmwSet(ns0) + {(w, r)}
  {
    hide Mirrored, Reach;
    var R0 := RmwSet(ns0);
    if e == w {
      assert (w, r) in R0 + {(w, r)};
    } else if forall x: nat :: (e, x) !in R0 {
      assert EndOf(R0, r, e) && EndOf(R0, r, w) by {
        assert forall x: nat :: (w, x) !in R0;
      }
      EndUnique(ns0, rank0, r, e, w);
    }
  }

  // ------------------------------------------------------------------
  // One turn of each loop
  // ------------------------------------------------------------------

  /** Edges go into the target; those of a promise do not change, unless it is their source. */
  lemma RoundAdded(ns: Nodes, ns0: Nodes, rank0: seq<nat>, p: nat, w: nat, r: nat, a: nat, b: nat)
    requires Circle(ns0, rank0, p, w, r) && SameKinds(ns0, ns) && RmwSet(ns) == RmwSet(ns0) + {(w, r)}
    requires Pointing(ns) && a < |ns| && b < |ns|
    ensures forall x, y :: (x, y) in EdgesAdded(ns, a, b) ==> y == b && (x == a || x != p)
    ensures (a, b) in EdgesAdded(ns, a, b)
    ensures p != b ==> EdgeAdded(ns, a, b)[p].back == ns[p].back
    ensures p != a ==> EdgeAdded(ns, a, b)[p].edges == ns[p].edges
  {
    hide Mirrored, Reach, WalkStop;
    RoundPointers(ns, ns0, w, r);
    if b !in ns[a].edges && ns[a].rmw.Some? {
      assert !ns0[r].isPromise;
      StopIsStore(ns, ns0, rank0, p, w, r, ns[a].rmw.value, b, |ns|);
    }
  }

  lemma {:induction false} StopIsStore(ns: Nodes, ns0: Nodes, rank0: seq<nat>, p: nat, w: nat, r: nat, a: nat, to: nat,
                                       n: nat)
    requires Circle(ns0, rank0, p, w, r) && SameKinds(ns0, ns) && RmwSet(ns) == RmwSet(ns0) + {(w, r)}
    requires Pointing(ns) && a < |ns| && !ns[a].isPromise
    ensures var e := WalkStop(ns, a, to, n); e.Some? ==> !ns[e.value].isPromise
    decreases n
  {
    hide Mirrored, Reach;
    RoundPointers(ns, ns0, w, r);
    if a != to && ns[a].rmw.Some? && n > 0 {
      assert !ns0[r].isPromise;
      StopIsStore(ns, ns0, rank0, p, w, r, ns[a].rmw.value, to, n - 1);
    }
  }

  ghost function BackTurn(ns: Nodes, p: nat, w: nat): (r: Nodes)
    requires Mirrored(ns) && Pointing(ns) && p < |ns| && w < |ns| && ns[p].back != []
    ensures |r| == |ns|
  {
    PopBackEdgeKeeps(ns, p);
    var b, ns1 := ns[p].back[|ns[p].back| - 1], PopBackEdge(ns, p);
    if b == w then ns1 else EdgeAdded(ns1, b, w)
  }

  /** An edge that touches the promise is gone, and others are there, from the promise to the write only. */
  lemma RoundMoved(ns: Nodes, ns': Nodes, flag: bool, flag': bool, ns0: Nodes, rank0: seq<nat>, p: nat, w: nat, r: nat,
                   x: nat, y: nat, N: Edges)
    requires GoesRound(ns, flag, ns0, rank0, p, w, r) && Mirrored(ns') && SameKinds(ns, ns') &&
             RmwSet(ns') == RmwSet(ns)
    requires EdgeSet(ns') == EdgeSet(ns) - {(x, y)} + N && (x == p || y == p)
    requires forall a, b :: (a, b) in N && a == p ==> b == w
    requires !flag' ==> Acyclic(EdgeSet(ns'))
    ensures GoesRound(ns', flag', ns0, rank0, p, w, r)
    ensures forall t :: (p, t) != (x, y) && (p, t) in EdgeSet(ns) ==> (p, t) in EdgeSet(ns')
  {
    hide Circle, Mirrored, EdgeSet, RmwSet, Acyclic;
  }

  lemma RoundKnown(ns: Nodes, flag: bool, ns0: Nodes, rank0: seq<nat>, p: nat, w: nat, r: nat)
    requires GoesRound(ns, flag, ns0, rank0, p, w, r)
    ensures Circle(ns0, rank0, p, w, r) && Mirrored(ns) && SameKinds(ns0, ns) && RmwSet(ns) == RmwSet(ns0) + {(w, r)}
    ensures p < |ns| && w < |ns| && p != w
  {
    hide Mirrored, Acyclic, Reach;
  }

  lemma InEdges(ns: Nodes, p: nat)
    requires p < |ns|
    ensures forall t :: t in ns[p].edges <==> (p, t) in EdgeSet(ns)
  {
  }

  lemma PopBackLists(ns: Nodes, p: nat)
    requires Mirrored(ns) && p < |ns| && ns[p].back != []
    ensures ns[p].back[|ns[p].back| - 1] < |ns|
    ensures var ns' := PopBackEdge(ns, p);
            SameKinds(ns, ns') && |ns'[p].back| < |ns[p].back|
  {
    assert ns[p].back[|ns[p].back| - 1] in ns[p].back;
  }

  lemma RoundBack(ns: Nodes, flag: bool, flag': bool, ns0: Nodes, rank0: seq<nat>, p: nat, w: nat, r: nat)
    requires GoesRound(ns, flag, ns0, rank0, p, w, r) && Pointing(ns) && ns[p].back != []
    requires !flag' ==> Acyclic(EdgeSet(BackTurn(ns, p, w)))
    ensures var b := ns[p].back[|ns[p].back| - 1];
            b < |ns| && Pointing(PopBackEdge(ns, p)) && (b != w ==> AddEnds(PopBackEdge(ns, p), b, w))
    ensures var ns' := BackTurn(ns, p, w);
            && GoesRound(ns', flag', ns0, rank0, p, w, r) && |ns'[p].back| < |ns[p].back|
            && forall t :: t != p && t in ns[p].edges ==> t in ns'[p].edges
  {
    hide Mirrored, Reach, Acyclic, PopBackEdge, WalkStop, EdgeAdded, EdgesAdded, GoesRound, Circle, EdgeSet, RmwSet;
    RoundKnown(ns, flag, ns0, rank0, p, w, r);
    PopBackEdgeKeeps(ns, p);
    PopBackLists(ns, p);
    var b, ns1 := ns[p].back[|ns[p].back| - 1], PopBackEdge(ns, p);
    RoundPointing(ns1, ns0, rank0, p, w, r);
    var ns' := BackTurn(ns, p, w);
    InEdges(ns, p);
    InEdges(ns', p);
    if b != w {
      RoundBackEnds(ns1, ns0, rank0, p, w, r, b);
      EdgeAddedShape(ns1, b, w);
      RoundAdded(ns1, ns0, rank0, p, w, r, b, w);
      RoundMoved(ns, ns', flag, flag', ns0, rank0, p, w, r, b, p, EdgesAdded(ns1, b, w));
    } else {
      RoundMoved(ns, ns', flag, flag', ns0, rank0, p, w, r, b, p, {});
    }
  }

  lemma RoundBackEnds(ns1: Nodes, ns0: Nodes, rank0: seq<nat>, p: nat, w: nat, r: nat, b: nat)
    requires Circle(ns0, rank0, p, w, r) && |ns1| == |ns0| && RmwSet(ns1) == RmwSet(ns0) + {(w, r)} && b < |ns1| &&
             Pointing(ns1)
    ensures AddEnds(ns1, b, w)
  {
    hide Mirrored, Reach;
    if ns1[b].rmw.Some? {
      var a := ns1[b].rmw.value;
      WalkToWrite(ns1, ns0, rank0, p, w, r, a, |Above(rank0, a)|);
    }
  }

  ghost function ForwardTurn(ns: Nodes, p: nat, w: nat): (r: Nodes)
    requires Mirrored(ns) && Pointing(ns) && p < |ns| && w < |ns| && ns[p].edges != []
    ensures |r| == |ns|
  {
    PopEdgeMirrored(ns, p);
    assert ns[p].edges[|ns[p].edges| - 1] in ns[p].edges;
    var t, ns1 := ns[p].edges[|ns[p].edges| - 1], PopEdge(ns, p);
    if t == w then ns1 else EdgeAdded(ns1, w, t)
  }

  /** A successor of the promise from which the walk goes round for ever. */
  ghost predicate Strays(ns: Nodes, p: nat, w: nat, t: nat) {
    (p, t) in EdgeSet(ns) && t != w && (w, t) !in EdgeSet(ns) && !Reach(RmwSet(ns), p, t)
  }

  lemma RoundForward(ns: Nodes, flag: bool, flag': bool, ns0: Nodes, rank0: seq<nat>, p: nat, w: nat, r: nat)
    requires GoesRound(ns, flag, ns0, rank0, p, w, r) && Pointing(ns) && ns[p].edges != [] && ns[p].back == []
    requires !flag' ==> Acyclic(EdgeSet(ForwardTurn(ns, p, w)))
    ensures var t := ns[p].edges[|ns[p].edges| - 1];
            && t < |ns| && t != p && Pointing(PopEdge(ns, p))
            && (t != w && !AddEnds(PopEdge(ns, p), w, t) ==> Strays(ns0, p, w, t))
    ensures var ns' := ForwardTurn(ns, p, w);
            && GoesRound(ns', flag', ns0, rank0, p, w, r) && ns'[p].back == []
            && ns'[p].edges == ns[p].edges[..|ns[p].edges| - 1]
  {
    hide Mirrored, Reach, Acyclic, PopEdge, WalkStop, EdgeAdded, EdgesAdded, GoesRound, Circle, EdgeSet, RmwSet;
    RoundKnown(ns, flag, ns0, rank0, p, w, r);
    LastSuccessor(ns, p);
    PopEdgeSets(ns, p);
    PopEdgeMirrored(ns, p);
    PopEdgeLists(ns, p);
    var t, ns1 := ns[p].edges[|ns[p].edges| - 1], PopEdge(ns, p);
    RoundPointing(ns1, ns0, rank0, p, w, r);
    var ns' := ForwardTurn(ns, p, w);
    if t != w {
      RoundForwardEnds(ns, ns1, flag, ns0, rank0, p, w, r, t);
      EdgeAddedShape(ns1, w, t);
      RoundAdded(ns1, ns0, rank0, p, w, r, w, t);
      RoundMoved(ns, ns', flag, flag', ns0, rank0, p, w, r, p, t, EdgesAdded(ns1, w, t));
    } else {
      RoundMoved(ns, ns', flag, flag', ns0, rank0, p, w, r, p, t, {});
    }
  }

  lemma LastSuccessor(ns: Nodes, p: nat)
    requires Mirrored(ns) && p < |ns| && ns[p].edges != [] && ns[p].back == []
    ensures var t := ns[p].edges[|ns[p].edges| - 1]; t < |ns| && t != p && (p, t) in EdgeSet(ns)
  {
    var t := ns[p].edges[|ns[p].edges| - 1];
    assert t in ns[p].edges;
  }

  lemma PopEdgeLists(ns: Nodes, p: nat)
    requires Mirrored(ns) && p < |ns| && ns[p].edges != [] && ns[p].back == []
    ensures ns[p].edges[|ns[p].edges| - 1] < |ns|
    ensures var ns' := PopEdge(ns, p);
            SameKinds(ns, ns') && ns'[p].edges == ns[p].edges[..|ns[p].edges| - 1] && ns'[p].back == []
  {
    var t := ns[p].edges[|ns[p].edges| - 1];
    assert t in ns[p].edges;
    assert p in ns[t].back;
  }

  lemma RoundForwardEnds(ns: Nodes, ns1: Nodes, flag: bool, ns0: Nodes, rank0: seq<nat>, p: nat, w: nat, r: nat, t: nat)
    requires GoesRound(ns, flag, ns0, rank0, p, w, r) && |ns1| == |ns0| && RmwSet(ns1) == RmwSet(ns0) + {(w, r)}
    requires EdgeSet(ns1) == EdgeSet(ns) - {(p, t)} && Pointing(ns1) && t != p && t != w && (p, t) in EdgeSet(ns)
    ensures !AddEnds(ns1, w, t) ==> Strays(ns0, p, w, t)
    ensures !AddEnds(ns1, w, t) <==> (w, t) !in EdgeSet(ns) && !Reach(RmwSet(ns0), r, t)
  {
    hide Mirrored, Reach;
    RoundPointing(ns1, ns0, rank0, p, w, r);
    assert t in ns1[w].edges <==> (w, t) in EdgeSet(ns1);
    if Reach(RmwSet(ns0), r, t) {
      OnCircleEnds(ns1, ns0, rank0, p, w, r, t);
    } else {
      OffCircleNever(ns1, ns0, rank0, p, w, r, t);
      PastPromise(ns0, p, r, t);
    }
  }

  lemma PastPromise(ns0: Nodes, p: nat, r: nat, t: nat)
    requires p < |ns0| && ns0[p].rmw == Some(r) && t != p
    ensures Reach(RmwSet(ns0), p, t) <==> Reach(RmwSet(ns0), r, t)
  {
    hide Reach;
    var R := RmwSet(ns0);
    assert (p, r) in R;
    ReachEdge(R, p, r);
    if Reach(R, r, t) {
      ReachTrans(R, p, r, t);
    }
    if Reach(R, p, t) {
      ReachCases(R, p, t);
    }
  }

  // ------------------------------------------------------------------
  // Graphs that additions built
  // ------------------------------------------------------------------

  /** Every successor of the promise is on the circle, or a successor of the write already. */
  lemma NothingStrays(ns0: Nodes, rank0: seq<nat>, p: nat, w: nat, r: nat, t: nat)
    requires Circle(ns0, rank0, p, w, r) && EndsCovered(RmwSet(ns0), EdgeSet(ns0))
    ensures !Strays(ns0, p, w, t)
  {
    hide Mirrored, Reach;
    var R := RmwSet(ns0);
    assert (p, r) in R;
    ReachEdge(R, p, r);
    ReachTrans(R, p, r, w);
    assert EndOf(R, p, w) by {
      assert forall x: nat :: (w, x) !in R;
    }
  }

  /** So taking over the pointer's edge closes a cycle. */
  lemma CircleCloses(ns: Nodes, flag: bool, ns0: Nodes, rank0: seq<nat>, p: nat, w: nat, r: nat)
    requires GoesRound(ns, flag, ns0, rank0, p, w, r) && ChainEdges(ns0, p) && (w, r) in EdgeSet(ns)
    ensures flag
  {
    hide Mirrored, Reach;
    ReachRefl(RmwSet(ns0), r);
    OnCircleBefore(ns, flag, ns0, rank0, p, w, r, r);
    assert Plus(EdgeSet(ns), w, w);
  }

  // ------------------------------------------------------------------
  // Exactly when a merge does not end
  // ------------------------------------------------------------------

  /** A successor of the promise that the write has already, or is. */
  ghost predicate Skips(ns: Nodes, w: nat, t: nat) {
    t == w || (w, t) in EdgeSet(ns)
  }

  /** The second loop, which starts at the end of the list, comes to a straying successor first. */
  ghost predicate StraysFirst(ns: Nodes, p: nat, w: nat) {
    p < |ns| && exists i: nat :: StraysAt(ns, p, w, ns[p].edges, i)
  }

  ghost predicate StraysAt(ns: Nodes, p: nat, w: nat, es: seq<nat>, i: nat) {
    i < |es| && Strays(ns, p, w, es[i]) && forall j: nat :: i < j < |es| ==> Skips(ns, w, es[j])
  }

  /** The write has the successors it had. */
  ghost predicate SameSuccessors(ns: Nodes, ns0: Nodes, p: nat, w: nat) {
    forall t: nat :: t != p && t != w ==> ((w, t) in EdgeSet(ns) <==> (w, t) in EdgeSet(ns0))
  }

  lemma RoundBackKeeps(ns: Nodes, flag: bool, ns0: Nodes, rank0: seq<nat>, p: nat, w: nat, r: nat)
    requires GoesRound(ns, flag, ns0, rank0, p, w, r) && Pointing(ns) && ns[p].back != [] && !flag
    ensures var ns' := BackTurn(ns, p, w);
            ns'[p].edges == ns[p].edges && (SameSuccessors(ns, ns0, p, w) ==> SameSuccessors(ns', ns0, p, w))
  {
    hide Mirrored, Reach, Acyclic, WalkStop, EdgeAdded, EdgesAdded, GoesRound, Circle, EdgeSet, RmwSet;
    RoundKnown(ns, flag, ns0, rank0, p, w, r);
    PopBackEdgeKeeps(ns, p);
    PopBackLists(ns, p);
    var b, ns1 := ns[p].back[|ns[p].back| - 1], PopBackEdge(ns, p);
    NoLoop(ns, flag, ns0, rank0, p, w, r, b);
    RoundPointing(ns1, ns0, rank0, p, w, r);
    if b != w {
      EdgeAddedShape(ns1, b, w);
      RoundAdded(ns1, ns0, rank0, p, w, r, b, w);
    }
  }

  lemma NoLoop(ns: Nodes, flag: bool, ns0: Nodes, rank0: seq<nat>, p: nat, w: nat, r: nat, b: nat)
    requires GoesRound(ns, flag, ns0, rank0, p, w, r) && !flag && (b, p) in EdgeSet(ns)
    ensures b != p
  {
    hide Mirrored, Circle, Reach;
    ReachRefl(EdgeSet(ns), p);
    assert !Plus(EdgeSet(ns), p, p);
  }

  /** On the circle, everything still comes before the write. */
  lemma OnCircleBefore(ns: Nodes, flag: bool, ns0: Nodes, rank0: seq<nat>, p: nat, w: nat, r: nat, t: nat)
    requires GoesRound(ns, flag, ns0, rank0, p, w, r) && ChainEdges(ns0, p) && Reach(RmwSet(ns0), r, t)
    ensures Reach(EdgeSet(ns), t, w)
  {
    hide Mirrored, Acyclic, Reach;
    var R0 := RmwSet(ns0);
    OnCircleToWrite(ns0, rank0, p, w, r, t);
    CircleStaysFrom(ns, flag, ns0, rank0, p, w, r, t);
  }

  lemma {:induction false} OnCircleToWrite(ns0: Nodes, rank0: seq<nat>, p: nat, w: nat, r: nat, t: nat)
    requires Circle(ns0, rank0, p, w, r) && Reach(RmwSet(ns0), r, t)
    ensures t < |ns0| && Reach(RmwSet(ns0), t, w) && !ns0[t].isPromise
  {
    hide Mirrored, Reach;
    var R0 := RmwSet(ns0);
    RanksRise(ns0, rank0, r, t);
    LastProperties(ns0, rank0, R0, t);
    var e := Last(ns0, rank0, t);
    ReachTrans(R0, r, t, e);
    assert EndOf(R0, r, e) && EndOf(R0, r, w) by {
      assert forall x: nat :: (w, x) !in R0;
      assert forall x: nat :: (e, x) !in R0;
    }
    EndUnique(ns0, rank0, r, e, w);
    ReachCases(R0, r, t);
    if r != t {
      var c := PlusLast(R0, r, t);
      assert (c, t) in R0;
    } else {
      assert (p, r) in R0;
    }
  }

  lemma CircleStaysFrom(ns: Nodes, flag: bool, ns0: Nodes, rank0: seq<nat>, p: nat, w: nat, r: nat, t: nat)
    requires GoesRound(ns, flag, ns0, rank0, p, w, r) && ChainEdges(ns0, p)
    requires t < |ns0| && !ns0[t].isPromise && Reach(RmwSet(ns0), r, t) && Reach(RmwSet(ns0), t, w)
    ensures Reach(EdgeSet(ns), t, w)
  {
    hide GoesRound, ChainEdges;
    var q :| PathFromTo(RmwSet(ns0), q, t, w);
    RoundKnown(ns, flag, ns0, rank0, p, w, r);
    PastPromise(ns0, p, r, t);
    PathStays(ns, flag, ns0, rank0, p, w, r, q);
    assert PathFromTo(EdgeSet(ns), q, t, w);
  }

  lemma {:induction false} PathStays(ns: Nodes, flag: bool, ns0: Nodes, rank0: seq<nat>, p: nat, w: nat, r: nat,
                                     q: seq<nat>)
    requires GoesRound(ns, flag, ns0, rank0, p, w, r) && ChainEdges(ns0, p)
    requires IsPath(RmwSet(ns0), q) && Reach(RmwSet(ns0), p, q[0]) && q[0] < |ns0| && !ns0[q[0]].isPromise
    ensures IsPath(EdgeSet(ns), q)
  {
    hide Reach, ChainEdges, GoesRound, EdgeSet, RmwSet;
    var R0 := RmwSet(ns0);
    var i := 0;
    while i < |q| - 1
      invariant 0 <= i <= |q| - 1 && Reach(R0, p, q[i]) && q[i] < |ns0| && !ns0[q[i]].isPromise
      invariant forall k :: 0 <= k < i ==> (q[k], q[k + 1]) in EdgeSet(ns)
    {
      assert (q[i], q[i + 1]) in R0;
      OnwardEdge(ns, flag, ns0, rank0, p, w, r, q[i], q[i + 1]);
      ReachEdge(R0, q[i], q[i + 1]);
      ReachTrans(R0, p, q[i], q[i + 1]);
      i := i + 1;
    }
  }

  lemma OnwardEdge(ns: Nodes, flag: bool, ns0: Nodes, rank0: seq<nat>, p: nat, w: nat, r: nat, x: nat, y: nat)
    requires GoesRound(ns, flag, ns0, rank0, p, w, r) && ChainEdges(ns0, p) && (x, y) in RmwSet(ns0)
    requires x < |ns0| && !ns0[x].isPromise && Reach(RmwSet(ns0), p, x)
    ensures y < |ns0| && !ns0[y].isPromise && (x, y) in EdgeSet(ns)
  {
    hide Mirrored, Acyclic, Reach;
  }

  /** A turn of the second loop, in which no cycle was found before. */
  ghost predicate RoundTurn(ns: Nodes, f1: bool, ns0: Nodes, rank0: seq<nat>, p: nat, w: nat, r: nat) {
    && GoesRound(ns, false, ns0, rank0, p, w, r) && Pointing(ns) && p < |ns| && w < |ns| && Mirrored(ns)
    && ns[p].edges != [] && ns[p].back == []
    && (f1 <==> !Acyclic(EdgeSet(ForwardTurn(ns, p, w))))
    && ChainEdges(ns0, p) && SameSuccessors(ns, ns0, p, w)
  }

  ghost predicate TurnEnds(ns: Nodes, p: nat, w: nat)
    requires Mirrored(ns) && p < |ns| && w < |ns| && ns[p].edges != [] && ns[p].back == []
  {
    LastSuccessor(ns, p);
    var t := ns[p].edges[|ns[p].edges| - 1];
    t == w || (Pointing(PopEdge(ns, p)) && AddEnds(PopEdge(ns, p), w, t))
  }

  lemma TurnSkips(ns: Nodes, f1: bool, ns0: Nodes, rank0: seq<nat>, p: nat, w: nat, r: nat)
    requires RoundTurn(ns, f1, ns0, rank0, p, w, r)
    requires Skips(ns0, w, ns[p].edges[|ns[p].edges| - 1])
    ensures TurnEnds(ns, p, w) && !f1 && SameSuccessors(ForwardTurn(ns, p, w), ns0, p, w)
  {
    hide Mirrored, Reach, Acyclic, PopEdge, WalkStop, EdgeAdded, EdgesAdded, GoesRound, Circle, EdgeSet, RmwSet;
    TurnFacts(ns, f1, ns0, rank0, p, w, r);
    var t, ns1 := ns[p].edges[|ns[p].edges| - 1], PopEdge(ns, p);
    var ns' := ForwardTurn(ns, p, w);
    if t != w {
      SuccessorListed(ns1, w, t);
      EdgeAddedShape(ns1, w, t);
      AlreadyThere(ns1, w, t);
    }
    Unchanged(EdgeSet(ns), EdgeSet(ns'), p, t, w);
    FlagOff(ns, ns0, rank0, p, w, r, EdgeSet(ns'), f1);
  }

  lemma TurnCloses(ns: Nodes, f1: bool, ns0: Nodes, rank0: seq<nat>, p: nat, w: nat, r: nat)
    requires RoundTurn(ns, f1, ns0, rank0, p, w, r)
    requires var t := ns[p].edges[|ns[p].edges| - 1]; !Skips(ns0, w, t) && Reach(RmwSet(ns0), r, t)
    ensures TurnEnds(ns, p, w) && f1
  {
    hide Mirrored, Reach, Acyclic, PopEdge, WalkStop, EdgeAdded, EdgesAdded, GoesRound, Circle, EdgeSet, RmwSet;
    TurnFacts(ns, f1, ns0, rank0, p, w, r);
    var t, ns1 := ns[p].edges[|ns[p].edges| - 1], PopEdge(ns, p);
    OnCircleEnds(ns1, ns0, rank0, p, w, r, t);
    RoundTaken(ns, p, w);
    if !f1 {
      RoundForward(ns, false, f1, ns0, rank0, p, w, r);
      OnCircleBefore(ForwardTurn(ns, p, w), f1, ns0, rank0, p, w, r, t);
      CycleThrough(EdgeSet(ForwardTurn(ns, p, w)), w, t);
    }
  }

  lemma TurnStrays(ns: Nodes, f1: bool, ns0: Nodes, rank0: seq<nat>, p: nat, w: nat, r: nat)
    requires RoundTurn(ns, f1, ns0, rank0, p, w, r)
    requires Strays(ns0, p, w, ns[p].edges[|ns[p].edges| - 1])
    ensures !TurnEnds(ns, p, w)
  {
    hide Mirrored, Reach, Acyclic, PopEdge, WalkStop, EdgeAdded, EdgesAdded, GoesRound, Circle, EdgeSet, RmwSet;
    TurnFacts(ns, f1, ns0, rank0, p, w, r);
    var t, ns1 := ns[p].edges[|ns[p].edges| - 1], PopEdge(ns, p);
    PastPromise(ns0, p, r, t);
    OffCircleNever(ns1, ns0, rank0, p, w, r, t);
    SuccessorListed(ns1, w, t);
  }

  /** One turn of the second loop: it does not end, finds a cycle, or changes nothing but the promise's list. */
  lemma RoundForwardExact(ns: Nodes, f1: bool, ns0: Nodes, rank0: seq<nat>, p: nat, w: nat, r: nat)
    requires RoundTurn(ns, f1, ns0, rank0, p, w, r)
    ensures var t := ns[p].edges[|ns[p].edges| - 1];
            && (TurnEnds(ns, p, w) <==> !Strays(ns0, p, w, t))
            && (!Strays(ns0, p, w, t) ==> (f1 <==> !Skips(ns0, w, t)))
            && (Skips(ns0, w, t) ==> SameSuccessors(ForwardTurn(ns, p, w), ns0, p, w) && !Strays(ns0, p, w, t))
  {
    hide Mirrored, Reach, Acyclic, PopEdge, EdgeSet, RmwSet, GoesRound, ForwardTurn, TurnEnds, SameSuccessors;
    var t := ns[p].edges[|ns[p].edges| - 1];
    TurnFacts(ns, f1, ns0, rank0, p, w, r);
    if Skips(ns0, w, t) {
      TurnSkips(ns, f1, ns0, rank0, p, w, r);
    } else {
      PastPromise(ns0, p, r, t);
      if Reach(RmwSet(ns0), r, t) {
        TurnCloses(ns, f1, ns0, rank0, p, w, r);
      } else {
        TurnStrays(ns, f1, ns0, rank0, p, w, r);
      }
    }
  }

  lemma TurnFacts(ns: Nodes, f1: bool, ns0: Nodes, rank0: seq<nat>, p: nat, w: nat, r: nat)
    requires RoundTurn(ns, f1, ns0, rank0, p, w, r)
    ensures Circle(ns0, rank0, p, w, r) && SameKinds(ns0, ns) && p != w && p < |ns0| && ns0[p].rmw == Some(r)
    ensures var t := ns[p].edges[|ns[p].edges| - 1];
            && t < |ns| && t != p
            && (t != w ==> (p, t) in EdgeSet(ns0) && ((w, t) in EdgeSet(ns) <==> (w, t) in EdgeSet(ns0)))
            && var ns1 := PopEdge(ns, p);
            && Mirrored(ns1) && Pointing(ns1) && SameKinds(ns, ns1) && ns1[w].rmw == Some(r)
            && RmwSet(ns1) == RmwSet(ns0) + {(w, r)} && EdgeSet(ns1) == EdgeSet(ns) - {(p, t)}
  {
    hide Mirrored, Reach, Acyclic, PopEdge, WalkStop, GoesRound, EdgeSet, RmwSet;
    RoundKnown(ns, false, ns0, rank0, p, w, r);
    LastSuccessor(ns, p);
    PopEdgeSets(ns, p);
    PopEdgeMirrored(ns, p);
    PopEdgeLists(ns, p);
    RoundPointing(PopEdge(ns, p), ns0, rank0, p, w, r);
    StillSuccessor(ns, false, ns0, rank0, p, w, r, ns[p].edges[|ns[p].edges| - 1]);
  }

  lemma SuccessorListed(ns: Nodes, w: nat, t: nat)
    requires w < |ns|
    ensures t in ns[w].edges <==> (w, t) in EdgeSet(ns)
  {
  }

  /** A new successor of the write is an edge now. */
  lemma RoundTaken(ns: Nodes, p: nat, w: nat)
    requires Mirrored(ns) && Pointing(ns) && p < |ns| && w < |ns| && ns[p].edges != []
    requires ns[p].edges[|ns[p].edges| - 1] != w
    ensures (w, ns[p].edges[|ns[p].edges| - 1]) in EdgeSet(ForwardTurn(ns, p, w))
  {
    hide Mirrored, PopEdge, EdgeAdded, WalkStop, EdgeSet, RmwSet;
    PopEdgeSets(ns, p);
    PopEdgeMirrored(ns, p);
    StillPointing(ns, p);
    EdgeAddedShape(PopEdge(ns, p), w, ns[p].edges[|ns[p].edges| - 1]);
  }

  lemma StillPointing(ns: Nodes, p: nat)
    requires Mirrored(ns) && Pointing(ns) && p < |ns| && ns[p].edges != []
    ensures ns[p].edges[|ns[p].edges| - 1] < |ns| && Pointing(PopEdge(ns, p))
  {
    assert ns[p].edges[|ns[p].edges| - 1] in ns[p].edges;
  }

  lemma CycleThrough(E: Edges, w: nat, t: nat)
    requires (w, t) in E && Reach(E, t, w)
    ensures !Acyclic(E)
  {
    assert Plus(E, w, w);
  }

  lemma AlreadyThere(ns: Nodes, a: nat, b: nat)
    requires Pointing(ns) && a < |ns| && (a, b) in EdgeSet(ns)
    ensures EdgesAdded(ns, a, b) == {(a, b)} && EdgeSet(ns) + EdgesAdded(ns, a, b) == EdgeSet(ns)
  {
  }

  lemma Unchanged(E: Edges, E': Edges, p: nat, t: nat, w: nat)
    requires E' == E - {(p, t)} && p != w
    ensures forall x: nat :: (w, x) in E' <==> (w, x) in E
    ensures E' <= E
  {
  }

  lemma FlagOff(ns: Nodes, ns0: Nodes, rank0: seq<nat>, p: nat, w: nat, r: nat, E': Edges, f1: bool)
    requires GoesRound(ns, false, ns0, rank0, p, w, r) && E' <= EdgeSet(ns) && (f1 ==> !Acyclic(E'))
    ensures !f1
  {
    hide Mirrored, Circle, Acyclic;
    AcyclicMono(E', EdgeSet(ns));
  }

  lemma StillSuccessor(ns: Nodes, flag: bool, ns0: Nodes, rank0: seq<nat>, p: nat, w: nat, r: nat, t: nat)
    requires GoesRound(ns, flag, ns0, rank0, p, w, r) && (p, t) in EdgeSet(ns) && t != p
    requires SameSuccessors(ns, ns0, p, w)
    ensures t != w ==> (p, t) in EdgeSet(ns0) && ((w, t) in EdgeSet(ns) <==> (w, t) in EdgeSet(ns0))
  {
    hide Mirrored, Circle, Acyclic;
  }

  lemma SkipsDoNotStray(ns: Nodes, p: nat, w: nat, t: nat)
    ensures Skips(ns, w, t) ==> !Strays(ns, p, w, t)
  {
  }

  /** The successors from `k` on were skipped: what the one before decides. */
  lemma StraysFirstAt(ns: Nodes, p: nat, w: nat, k: nat)
    requires p < |ns| && k <= |ns[p].edges| && forall j: nat :: k <= j < |ns[p].edges| ==> Skips(ns, w, ns[p].edges[j])
    ensures k == 0 ==> !StraysFirst(ns, p, w)
    ensures k > 0 && !Skips(ns, w, ns[p].edges[k - 1]) ==>
              (StraysFirst(ns, p, w) <==> Strays(ns, p, w, ns[p].edges[k - 1]))
  {
    hide Strays, Skips, EdgeSet;
    var es := ns[p].edges;
    forall i: nat | StraysAt(ns, p, w, es, i) ensures i < k {
      if i >= k {
        SkipsDoNotStray(ns, p, w, es[i]);
      }
    }
    if k > 0 && Strays(ns, p, w, es[k - 1]) {
      assert StraysAt(ns, p, w, es, k - 1);
    }
  }
}
