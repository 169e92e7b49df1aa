/**
 The first transfer loop of a merge into a write that reads from the promise: which
 edge into the promise closes a cycle when it is moved to the write.
 */
module BackEdges {
  import opened Digraph
  import opened Optional
  import opened OrderConstraints
  import opened GraphHistory
  import opened NodeMerge
  import opened ChainEnds
  import opened MergeRings

  /** The end of the chain behind `b`, from which an edge into the write is added, too. */
  ghost function EndBehind(ns: Nodes, w: nat, b: nat): (e: Option<nat>)
    requires Pointing(ns)
  {
    if b < |ns| && ns[b].rmw.Some? && (b, w) !in EdgeSet(ns) then
      var e := WalkStop(ns, ns[b].rmw.value, w, |ns|); if e == Some(w) then None else e
    else
      None
  }

  /** The predecessor `b` has a chain, and its end comes after the write. */
  ghost predicate ClosesAt(ns: Nodes, w: nat, b: nat) {
    Pointing(ns) && EndBehind(ns, w, b).Some? && Reach(EdgeSet(ns), w, EndBehind(ns, w, b).value)
  }

  /** Moving some edge into the promise closes a cycle. */
  ghost predicate BackCloses(ns: Nodes, p: nat, w: nat) {
    p < |ns| && exists b :: b in ns[p].back && ClosesAt(ns, w, b)
  }

  /** Edges that were added lead into the write, and not from a predecessor of the promise with a chain. */
  ghost predicate IntoWrite(ns: Nodes, ns0: Nodes, p: nat, w: nat) {
    && (forall x: nat, y: nat :: (x, y) in EdgeSet(ns) && y != w ==> (x, y) in EdgeSet(ns0))
    && forall x: nat :: (x, p) in EdgeSet(ns) && (x, w) in EdgeSet(ns) && x < |ns0| && ns0[x].rmw.Some? ==>
                          (x, w) in EdgeSet(ns0)
  }

  lemma {:induction false} StopProperty(ns: Nodes, a: nat, to: nat, n: nat)
    requires Pointing(ns) && a < |ns|
    ensures var e := WalkStop(ns, a, to, n); e.Some? ==> e.value < |ns| && (e.value == to || ns[e.value].rmw.None?)
    decreases n
  {
    if a != to && ns[a].rmw.Some? && n > 0 {
      StopProperty(ns, ns[a].rmw.value, to, n - 1);
    }
  }

  /** Walks to the write do not see its new pointer. */
  lemma {:induction false} SameWalk(ns: Nodes, ns0: Nodes, a: nat, w: nat, n: nat)
    requires Pointing(ns) && Pointing(ns0) && |ns| == |ns0| && a < |ns|
    requires forall x :: 0 <= x < |ns| && x != w ==> ns[x].rmw == ns0[x].rmw
    ensures WalkStop(ns, a, w, n) == WalkStop(ns0, a, w, n)
    decreases n
  {
    if a != w && ns[a].rmw.Some? && n > 0 {
      SameWalk(ns, ns0, ns[a].rmw.value, w, n - 1);
    }
  }

  lemma CirclePointing(ns0: Nodes, rank0: seq<nat>, p: nat, w: nat, r: nat)
    requires Circle(ns0, rank0, p, w, r)
    ensures Pointing(ns0) && Mirrored(ns0) && Reach(RmwSet(ns0), p, w) && p != w && p < |ns0| && w < |ns0|
  {
    hide Mirrored, Reach;
    assert (p, r) in RmwSet(ns0);
    ReachEdge(RmwSet(ns0), p, r);
    ReachTrans(RmwSet(ns0), p, r, w);
  }

  lemma EdgesWithin(ns: Nodes)
    requires Mirrored(ns)
    ensures forall x, y :: (x, y) in EdgeSet(ns) ==> x < |ns| && y < |ns|
  {
  }

  /** The promise comes before the write. */
  lemma PromiseBefore(ns0: Nodes, rank0: seq<nat>, p: nat, w: nat, r: nat)
    requires Circle(ns0, rank0, p, w, r) && ChainEdges(ns0, p)
    ensures Plus(EdgeSet(ns0), p, w)
  {
    hide Mirrored, Reach, RmwSet, EdgeSet;
    CirclePointing(ns0, rank0, p, w, r);
    EdgesWithin(ns0);
    var R, E := RmwSet(ns0), EdgeSet(ns0);
    var S := set x: nat | x < |ns0| && Reach(R, p, x) && Reach(E, p, x);
    ReachRefl(R, p);
    ReachRefl(E, p);
    forall x, y | x in S && (x, y) in R ensures y in S {
      ReachEdge(R, x, y);
      ReachTrans(R, p, x, y);
      ReachEdge(E, x, y);
      ReachTrans(E, p, x, y);
    }
    ClosedReach(R, S, p, w);
    ReachCases(E, p, w);
  }

  /** So the write comes before none of the promise's predecessors. */
  lemma NotAfterWrite(ns0: Nodes, rank0: seq<nat>, p: nat, w: nat, r: nat, b: nat)
    requires Circle(ns0, rank0, p, w, r) && ChainEdges(ns0, p) && Acyclic(EdgeSet(ns0))
    requires b == p || (b, p) in EdgeSet(ns0)
    ensures !Reach(EdgeSet(ns0), w, b)
  {
    hide Mirrored, Reach, Circle, EdgeSet, RmwSet, ChainEdges;
    var E := EdgeSet(ns0);
    if Reach(E, w, b) {
      PromiseBefore(ns0, rank0, p, w, r);
      if b != p {
        ReachEdge(E, b, p);
        ReachTrans(E, w, b, p);
      }
      ReachThenPlus(E, w, p, w);
    }
  }

  /** What comes after the write does not change. */
  lemma SameAfterWrite(ns: Nodes, ns0: Nodes, rank0: seq<nat>, p: nat, w: nat, r: nat, e: nat)
    requires GoesRound(ns, false, ns0, rank0, p, w, r) && IntoWrite(ns, ns0, p, w)
    requires ChainEdges(ns0, p) && Acyclic(EdgeSet(ns0))
    ensures Reach(EdgeSet(ns), w, e) <==> Reach(EdgeSet(ns0), w, e)
  {
    hide Mirrored, Reach, Circle, Acyclic, EdgeSet, RmwSet, ChainEdges;
    RoundKnown(ns, false, ns0, rank0, p, w, r);
    CirclePointing(ns0, rank0, p, w, r);
    EdgesWithin(ns);
    EdgesWithin(ns0);
    var E, E0 := EdgeSet(ns), EdgeSet(ns0);
    ReachRefl(E, w);
    ReachRefl(E0, w);
    if Reach(E, w, e) {
      AfterClosed(E, E0, |ns|, w, e);
    }
    if Reach(E0, w, e) {
      var S := set x: nat | x < |ns| && Reach(E, w, x);
      forall x, y | x in S && (x, y) in E0 ensures y in S {
        AfterClosed(E, E0, |ns|, w, x);
        if x == p || y == p {
          NotAfterWrite(ns0, rank0, p, w, r, x);
          assert false;
        }
        ReachEdge(E, x, y);
        ReachTrans(E, w, x, y);
      }
      ClosedReach(E0, S, w, e);
    }
  }

  lemma AfterClosed(E: Edges, E0: Edges, n: nat, w: nat, e: nat)
    requires w < n && Reach(E, w, e) && (forall x, y :: (x, y) in E0 ==> x < n && y < n)
    requires forall x, y :: (x, y) in E && y != w ==> (x, y) in E0
    ensures Reach(E0, w, e)
  {
    hide Reach;
    var S := set x: nat | x < n && Reach(E0, w, x);
    ReachRefl(E0, w);
    forall x, y | x in S && (x, y) in E ensures y in S {
      if y != w {
        ReachEdge(E0, x, y);
        ReachTrans(E0, w, x, y);
      }
    }
    ClosedReach(E, S, w, e);
  }

  /** Adding an edge into `w` for `b`, and one for the end of its chain. */
  lemma CycleOfEnd(E: Edges, b: nat, p: nat, w: nat, e: nat)
    requires Acyclic(E) && (b, p) in E && !Reach(E, w, b)
    ensures Acyclic(E - {(b, p)} + {(b, w)})
    ensures Acyclic(E - {(b, p)} + ({(b, w)} + {(e, w)})) <==> !Reach(E, w, e)
  {
    hide Reach, Acyclic;
    var E1 := E - {(b, p)};
    var E2 := E1 + {(b, w)};
    AcyclicMono(E1, E);
    if Reach(E1, w, b) {
      ReachMono(E1, E, w, b);
    }
    AcyclicAddEdge(E1, b, w);
    AcyclicAddEdge(E2, e, w);
    assert E1 + ({(b, w)} + {(e, w)}) == E2 + {(e, w)};
    ReachAddEdge(E1, b, w, w, e);
    assert E1 + {(b, p)} == E;
    ReachAddEdge(E1, b, p, w, e);
  }

  /** What a turn of the loop adds. */
  lemma TurnAdds(ns: Nodes, ns0: Nodes, rank0: seq<nat>, p: nat, w: nat, r: nat)
    requires GoesRound(ns, false, ns0, rank0, p, w, r) && Pointing(ns) && Mirrored(ns) && p < |ns| && ns[p].back != []
    requires IntoWrite(ns, ns0, p, w)
    ensures var b := ns[p].back[|ns[p].back| - 1];
            && b < |ns| == |ns0| && w < |ns| && (b, p) in EdgeSet(ns) && p != w && Pointing(ns0)
            && (b != w && b != p ==>
                  EdgeSet(BackTurn(ns, p, w)) == EdgeSet(ns) - {(b, p)} + TurnEdges(EndBehind(ns0, w, b), w, b))
  {
    hide Reach, Acyclic, PopBackEdge, WalkStop, EdgeAdded, EdgesAdded, EndBehind, Mirrored, RmwSet, EdgeSet, IntoWrite,
         GoesRound;
    RoundKnown(ns, false, ns0, rank0, p, w, r);
    CirclePointing(ns0, rank0, p, w, r);
    PopBackEdgeKeeps(ns, p);
    PopBackLists(ns, p);
    var b, ns1 := ns[p].back[|ns[p].back| - 1], PopBackEdge(ns, p);
    RoundPointing(ns1, ns0, rank0, p, w, r);
    if b != w && b != p {
      if ns0[b].rmw.Some? {
        KnownEdge(ns, ns0, rank0, p, w, r, b);
      }
      EdgeAddedShape(ns1, b, w);
      AddsBehind(ns1, ns0, rank0, p, w, r, b);
    }
  }

  lemma AddsBehind(ns1: Nodes, ns0: Nodes, rank0: seq<nat>, p: nat, w: nat, r: nat, b: nat)
    requires Circle(ns0, rank0, p, w, r) && |ns1| == |ns0| && RmwSet(ns1) == RmwSet(ns0) + {(w, r)}
    requires Pointing(ns1) && Pointing(ns0) && b < |ns1| && b != w
    requires ns0[b].rmw.Some? ==> ((b, w) in EdgeSet(ns1) <==> (b, w) in EdgeSet(ns0))
    ensures EdgesAdded(ns1, b, w) == TurnEdges(EndBehind(ns0, w, b), w, b)
  {
    hide Reach, WalkStop, Mirrored, RmwSet, EdgeSet;
    RoundPointers(ns1, ns0, w, r);
    SuccessorListed(ns1, b, w);
    if ns0[b].rmw.Some? {
      SameWalk(ns1, ns0, ns0[b].rmw.value, w, |ns1|);
    }
  }

  ghost function TurnEdges(e: Option<nat>, w: nat, b: nat): Edges {
    {(b, w)} + (if e.Some? then {(e.value, w)} else {})
  }

  lemma KnownEdge(ns: Nodes, ns0: Nodes, rank0: seq<nat>, p: nat, w: nat, r: nat, b: nat)
    requires GoesRound(ns, false, ns0, rank0, p, w, r) && IntoWrite(ns, ns0, p, w) && p != w
    requires (b, p) in EdgeSet(ns) && b != p && b < |ns0| && ns0[b].rmw.Some?
    ensures (b, w) in EdgeSet(ns) <==> (b, w) in EdgeSet(ns0)
  {
    hide Circle, Mirrored, Acyclic;
  }

  /**
   One turn of the loop, while no cycle was found: it finds one exactly when the end of the chain
   behind the promise's predecessor comes after the write, and otherwise changes nothing that matters.
   */
  lemma RoundBackExact(ns: Nodes, f1: bool, ns0: Nodes, rank0: seq<nat>, p: nat, w: nat, r: nat)
    requires GoesRound(ns, false, ns0, rank0, p, w, r) && Pointing(ns) && Mirrored(ns) && p < |ns| && ns[p].back != []
    requires IntoWrite(ns, ns0, p, w) && ChainEdges(ns0, p) && Acyclic(EdgeSet(ns0))
    requires w < |ns| && (f1 <==> !Acyclic(EdgeSet(BackTurn(ns, p, w))))
    ensures f1 <==> ClosesAt(ns0, w, ns[p].back[|ns[p].back| - 1])
  {
    hide Reach, Acyclic, BackTurn, Mirrored, RmwSet, EndBehind, GoesRound, IntoWrite, ChainEdges, EdgeSet;
    var b := ns[p].back[|ns[p].back| - 1];
    TurnAdds(ns, ns0, rank0, p, w, r);
    RoundKnown(ns, false, ns0, rank0, p, w, r);
    Flagless(ns, ns0, rank0, p, w, r);
    BeforePromise(ns, ns0, rank0, p, w, r, b);
    var e := EndBehind(ns0, w, b);
    CycleOfEnd(EdgeSet(ns), b, p, w, if e.Some? then e.value else b);
    if e.Some? {
      SameAfterWrite(ns, ns0, rank0, p, w, r, e.value);
    } else {
      assert {(b, w)} + {} == {(b, w)};
    }
  }

  lemma Flagless(ns: Nodes, ns0: Nodes, rank0: seq<nat>, p: nat, w: nat, r: nat)
    requires GoesRound(ns, false, ns0, rank0, p, w, r)
    ensures Acyclic(EdgeSet(ns))
  {
    hide Acyclic, Circle, Mirrored;
  }

  /** A predecessor of the promise is not the write, nor the promise, nor does it come after the write. */
  lemma BeforePromise(ns: Nodes, ns0: Nodes, rank0: seq<nat>, p: nat, w: nat, r: nat, b: nat)
    requires GoesRound(ns, false, ns0, rank0, p, w, r) && IntoWrite(ns, ns0, p, w) && (b, p) in EdgeSet(ns)
    requires ChainEdges(ns0, p) && Acyclic(EdgeSet(ns0))
    ensures b != w && b != p && !Reach(EdgeSet(ns), w, b)
  {
    hide Reach, Acyclic, Mirrored, RmwSet, GoesRound, ChainEdges, EdgeSet;
    RoundKnown(ns, false, ns0, rank0, p, w, r);
    NoLoop(ns, false, ns0, rank0, p, w, r, b);
    NotAfterWrite(ns0, rank0, p, w, r, b);
    SameAfterWrite(ns, ns0, rank0, p, w, r, b);
    ReachRefl(EdgeSet(ns), w);
  }

  /** A turn keeps the rest of the promise's list, and adds edges into the write only. */
  lemma RoundBackSame(ns: Nodes, ns0: Nodes, rank0: seq<nat>, p: nat, w: nat, r: nat)
    requires GoesRound(ns, false, ns0, rank0, p, w, r) && Pointing(ns) && Mirrored(ns) && p < |ns| && ns[p].back != []
    requires IntoWrite(ns, ns0, p, w) && w < |ns|
    ensures var ns' := BackTurn(ns, p, w);
            IntoWrite(ns', ns0, p, w) && p < |ns'| && ns'[p].back == ns[p].back[..|ns[p].back| - 1]
  {
    hide Reach, Acyclic, Mirrored, RmwSet, GoesRound, WalkStop, EdgeAdded, EdgesAdded, EdgeSet, EndBehind, IntoWrite,
         BackTurn;
    var b := ns[p].back[|ns[p].back| - 1];
    TurnAdds(ns, ns0, rank0, p, w, r);
    RoundKnown(ns, false, ns0, rank0, p, w, r);
    NoLoop(ns, false, ns0, rank0, p, w, r, b);
    LastPops(ns, ns0, rank0, p, w, r);
    if b == w {
      StillInto(ns, BackTurn(ns, p, w), ns0, p, w, b, {});
    } else {
      var e := EndBehind(ns0, w, b);
      EndHasNone(ns0, w, b);
      StillInto(ns, BackTurn(ns, p, w), ns0, p, w, b, TurnEdges(e, w, b));
    }
  }

  lemma LastPops(ns: Nodes, ns0: Nodes, rank0: seq<nat>, p: nat, w: nat, r: nat)
    requires GoesRound(ns, false, ns0, rank0, p, w, r) && Pointing(ns) && Mirrored(ns) && p < |ns| && ns[p].back != []
    requires w < |ns|
    ensures var ns' := BackTurn(ns, p, w);
            && p < |ns'| && ns'[p].back == ns[p].back[..|ns[p].back| - 1]
            && (ns[p].back[|ns[p].back| - 1] == w ==> EdgeSet(ns') == EdgeSet(ns) - {(w, p)})
  {
    hide Reach, Acyclic, Mirrored, RmwSet, GoesRound, WalkStop, EdgeAdded, EdgeSet, PopBackEdge;
    RoundKnown(ns, false, ns0, rank0, p, w, r);
    PopBackEdgeKeeps(ns, p);
    PopBackLists(ns, p);
    RoundPointing(PopBackEdge(ns, p), ns0, rank0, p, w, r);
    if ns[p].back[|ns[p].back| - 1] != w {
      RoundAdded(PopBackEdge(ns, p), ns0, rank0, p, w, r, ns[p].back[|ns[p].back| - 1], w);
    }
  }

  lemma EndHasNone(ns0: Nodes, w: nat, b: nat)
    requires Pointing(ns0)
    ensures var e := EndBehind(ns0, w, b); e.Some? && e.value < |ns0| ==> ns0[e.value].rmw.None?
  {
    hide EdgeSet;
    if EndBehind(ns0, w, b).Some? {
      StopProperty(ns0, ns0[b].rmw.value, w, |ns0|);
    }
  }

  lemma StillInto(ns: Nodes, ns': Nodes, ns0: Nodes, p: nat, w: nat, b: nat, N: Edges)
    requires IntoWrite(ns, ns0, p, w) && p != w && EdgeSet(ns') == EdgeSet(ns) - {(b, p)} + N
    requires forall x, y :: (x, y) in N ==> y == w && (x == b || (x < |ns0| ==> ns0[x].rmw.None?))
    ensures IntoWrite(ns', ns0, p, w)
  {
    hide EdgeSet;
  }
}
