/**
 When a merged graph still has a modification order. cyclegraph.cc:161-184 moves
 the promise's read-modify-write onto the write without ordering it before the
 write's existing successors, so a successful merge need not leave constraints
 that can be met. They can be met exactly when the fully closed quotient has no
 cycle; an example shows that success alone is not enough.
 */
module MergedOrder {
  import opened Digraph
  import opened Optional
  import opened OrderConstraints
  import opened NodeMerge
  import opened ChainEnds
  import opened CycleGraphs

  /** Some order respects every edge and keeps every store's read-modify-write next to it. */
  ghost predicate Orderable(ns: Nodes, p: nat) {
    exists pos :: |pos| == |ns| && IsOrder(pos) && Respects(pos, EdgeSet(ns)) && Contiguous(ns, pos, p)
  }

  /** The quotient with everything its chains derive. */
  ghost function FullClosure(ns0: Nodes, ns: Nodes, rank: seq<nat>, p: nat, w: nat): Edges
    requires Ranked(ns, rank)
  {
    Closure(ns, rank, Rename(EdgeSet(ns0), p, w))
  }

  lemma OrderableClosed(ns0: Nodes, ns: Nodes, rank: seq<nat>, p: nat, w: nat)
    requires Merged(ns0, ns, rank, p, w) && Orderable(ns, p)
    ensures Acyclic(FullClosure(ns0, ns, rank, p, w))
  {
    hide Mirrored, Contiguous, Acyclic, Rename, Closure, Bounds;
    var pos :| |pos| == |ns| && IsOrder(pos) && Respects(pos, EdgeSet(ns)) && Contiguous(ns, pos, p);
    var F := Rename(EdgeSet(ns0), p, w);
    forall a: nat, b: nat | (a, b) in F ensures a < |pos| && b < |pos| && pos[a] < pos[b] {
      assert (a, b) in EdgeSet(ns);
    }
    ClosureSound(ns, rank, F, pos, p);
    RespectsAcyclic(pos, Closure(ns, rank, F));
  }

  // ------------------------------------------------------------------
  // The other direction: contract the chains of the merged graph
  // ------------------------------------------------------------------

  /** The merged table without the pointer that the dead promise node still holds. */
  function Live(ns: Nodes, p: nat): (r: Nodes)
    requires p < |ns|
    ensures |r| == |ns|
  {
    ns[p := ns[p].(rmw := None)]
  }

  lemma LiveRmw(ns: Nodes, p: nat)
    requires p < |ns|
    ensures forall f, s :: (f, s) in RmwSet(Live(ns, p)) <==> (f, s) in RmwSet(ns) && f != p
  {
  }

  /** Pointer paths of the merged table that start at a store avoid the promise. */
  lemma LiveReach(ns: Nodes, rank: seq<nat>, p: nat, a: nat, b: nat)
    requires Ranked(ns, rank) && p < |ns| && ns[p].isPromise && a != p && Reach(RmwSet(ns), a, b)
    ensures Reach(RmwSet(Live(ns, p)), a, b)
  {
    LiveRmw(ns, p);
    var q :| PathFromTo(RmwSet(ns), q, a, b);
    forall i | 0 <= i < |q| - 1 ensures (q[i], q[i + 1]) in RmwSet(Live(ns, p)) {
      assert (q[i], q[i + 1]) in RmwSet(ns);
      if i > 0 {
        assert (q[i - 1], q[i - 1 + 1]) in RmwSet(ns);
      }
    }
    assert PathFromTo(RmwSet(Live(ns, p)), q, a, b);
  }

  /** In the full closure, what follows a write follows its read-modify-write. */
  lemma ClosureCovered(ns: Nodes, rank: seq<nat>, F: Edges, p: nat)
    requires Ranked(ns, rank) && p < |ns| && ns[p].isPromise && Within(F, |ns|)
    requires RmwSet(Live(ns, p)) <= F
    ensures Covered(RmwSet(Live(ns, p)), Closure(ns, rank, F))
  {
    var R, C := RmwSet(Live(ns, p)), Closure(ns, rank, F);
    LiveRmw(ns, p);
    forall f: nat, s: nat, t: nat | (f, s) in R && (f, t) in C && t != s ensures Reach(C, s, t) {
      if (f, t) in F {
        RankedTarget(ns, rank, f);
        var e := ChainStop(ns, rank, s, t);
        ChainStopProperties(ns, rank, s, t);
        LiveReach(ns, rank, p, s, e);
        ReachMono(R, C, s, e);
        if e != t {
          assert (f, t).0 == f && (f, t).1 == t;
          assert (e, t) in Derived(ns, rank, F);
          ReachEdge(C, e, t);
          ReachTrans(C, s, e, t);
        }
      } else {
        DerivedFromEnds(ns, rank, F, f, t);
      }
    }
  }

  /** Derived edges leave from chain ends. */
  lemma DerivedFromEnds(ns: Nodes, rank: seq<nat>, F: Edges, a: nat, b: nat)
    requires Ranked(ns, rank) && (a, b) in Derived(ns, rank, F)
    ensures a < |ns| && ns[a].rmw.None?
  {
    var e :| e in F && e.0 < |ns| && ns[e.0].rmw.Some? && ChainStop(ns, rank, ns[e.0].rmw.value, e.1) != e.1 &&
             (a, b) == (ChainStop(ns, rank, ns[e.0].rmw.value, e.1), e.1);
    RankedTarget(ns, rank, e.0);
    ChainStopProperties(ns, rank, ns[e.0].rmw.value, e.1);
  }

  /** Ranks that rise by one along the moved chain too. */
  ghost function Rerank(ns0: Nodes, rank: seq<nat>, p: nat, w: nat): (rank': seq<nat>)
    requires |rank| == |ns0| && p < |ns0| && w < |ns0|
    requires ns0[p].rmw.Some? ==> ns0[p].rmw.value < |ns0|
    ensures |rank'| == |ns0|
  {
    if ns0[p].rmw.None? then rank
    else
      var r := ns0[p].rmw.value;
      seq(|ns0|, i requires 0 <= i < |ns0| =>
        if Reach(RmwSet(ns0), r, i) && rank[i] >= rank[r] then rank[i] - rank[r] + rank[w] + 1 else rank[i])
  }

  lemma {:induction false} ChainRises(R: Edges, rank: seq<nat>, a: nat, b: nat)
    requires Reach(R, a, b) && a < |rank|
    requires forall f, r :: (f, r) in R ==> f < |rank| && r < |rank| && rank[r] == rank[f] + 1
    ensures b < |rank| && rank[a] <= rank[b]
  {
    var q :| PathFromTo(R, q, a, b);
    var i := 0;
    while i < |q| - 1
      invariant 0 <= i <= |q| - 1 && q[i] < |rank| && rank[a] <= rank[q[i]]
    {
      assert (q[i], q[i + 1]) in R;
      i := i + 1;
    }
  }

  /** Along a pointer other than the promise's, either both ends are on the moved chain or neither is. */
  lemma ChainBoth(R: Edges, E: Edges, rank: seq<nat>, p: nat, r: nat, f: nat, s: nat)
    requires Chained(R, E, rank) && (p, r) in R && (f, s) in R && f != p
    ensures Reach(R, r, f) <==> Reach(R, r, s)
  {
    if Reach(R, r, f) {
      ReachEdge(R, f, s);
      ReachTrans(R, r, f, s);
    }
    if Reach(R, r, s) {
      ReachCases(R, r, s);
      if r != s {
        var c := PlusLast(R, r, s);
      }
    }
  }

  lemma RerankRises(ns0: Nodes, rank: seq<nat>, log: set<Constraint>, p: nat, w: nat, R: Edges)
    requires Tracks(ns0, rank, log) && p < |ns0| && w < |ns0| && p != w && !Reach(RmwSet(ns0), p, w)
    requires forall f, s :: (f, s) in R <==>
               f != p && ((f, s) in RmwSet(ns0) || (f == w && ns0[p].rmw == Some(s)))
    ensures ns0[p].rmw.Some? ==> ns0[p].rmw.value < |ns0|
    ensures forall f, s :: (f, s) in R ==>
              f < |ns0| && s < |ns0| && Rerank(ns0, rank, p, w)[s] == Rerank(ns0, rank, p, w)[f] + 1
  {
    hide Mirrored, EdgeSet, Covered, Represents, Sound;
    var R0 := RmwSet(ns0);
    if ns0[p].rmw.Some? {
      var r := ns0[p].rmw.value;
      assert (p, r) in R0;
      ReachEdge(R0, p, r);
      if Reach(R0, r, w) {
        ReachTrans(R0, p, r, w);
      }
      ReachRefl(R0, r);
      forall f: nat, s: nat | (f, s) in R
        ensures f < |ns0| && s < |ns0| && Rerank(ns0, rank, p, w)[s] == Rerank(ns0, rank, p, w)[f] + 1
      {
        if (f, s) in R0 {
          ChainBoth(R0, EdgeSet(ns0), rank, p, r, f, s);
          if Reach(R0, r, f) {
            ChainRises(R0, rank, r, f);
          }
        }
      }
    }
  }

  lemma MergedChained(ns0: Nodes, rank0: seq<nat>, log: set<Constraint>, ns: Nodes, rank: seq<nat>, p: nat, w: nat)
    requires Tracks(ns0, rank0, log) && Merged(ns0, ns, rank, p, w)
    requires ns0[p].isPromise && !ns0[w].isPromise && !Reach(RmwSet(ns0), p, w)
    ensures ns0[p].rmw.Some? ==> ns0[p].rmw.value < |ns0|
    ensures RmwSet(Live(ns, p)) <= Rename(EdgeSet(ns0), p, w)
    ensures Chained(RmwSet(Live(ns, p)), Rename(EdgeSet(ns0), p, w), Rerank(ns0, rank0, p, w))
  {
    hide Mirrored, EdgeSet, Covered, Represents, Sound, Bounds, Acyclic, Rerank, Reach;
    var R0, R, F := RmwSet(ns0), RmwSet(Live(ns, p)), Rename(EdgeSet(ns0), p, w);
    LiveRmw(ns, p);
    RerankRises(ns0, rank0, log, p, w, R);
    forall f: nat, s: nat | (f, s) in R ensures (f, s) in F && s != p {
      if (f, s) in R0 {
        assert ns0[f].rmw == Some(s);
        assert (f, s) in EdgeSet(ns0);
        assert Ren(f, p, w) == f && Ren(s, p, w) == s;
        assert f != s by { assert rank0[s] == rank0[f] + 1; }
      } else {
        assert (p, s) in R0;
        assert (p, s) in EdgeSet(ns0);
        if s == w {
          ReachEdge(R0, p, w);
        }
        assert Ren(p, p, w) == w && Ren(s, p, w) == s;
      }
    }
    forall e | e in R ensures e in F {
      assert e == (e.0, e.1);
    }
  }

  /**
   A merged graph has an order that keeps read-modify-writes next to their writes
   exactly when the full closure, computed from the tables before the merge, has no cycle.
   */
  lemma MergedOrderable(ns0: Nodes, rank0: seq<nat>, log: set<Constraint>, ns: Nodes, rank: seq<nat>, p: nat, w: nat)
    requires Tracks(ns0, rank0, log) && Merged(ns0, ns, rank, p, w)
    requires ns0[p].isPromise && !ns0[w].isPromise && ns[p].isPromise && !Reach(RmwSet(ns0), p, w) &&
             !TwoReaders(ns0, p, w)
    ensures Pointing(Taken(ns0, p, w))
    ensures Orderable(ns, p) <==> Acyclic(ClosureBefore(ns0, p, w))
  {
    hide Mirrored, Represents, Sound, Acyclic, Rerank, Rename, Covered, Closure, ClosureBefore, Taken;
    TakenRmw(ns0, p, w);
    ClosureBeforeIs(ns0, ns, rank, p, w);
    var F := Rename(EdgeSet(ns0), p, w);
    var C := Closure(ns, rank, F);
    if Orderable(ns, p) {
      OrderableClosed(ns0, ns, rank, p, w);
    }
    if Acyclic(C) {
      MergedChained(ns0, rank0, log, ns, rank, p, w);
      MergedWithin(ns0, rank0, log, ns, rank, p, w);
      ClosureCovered(ns, rank, F, p);
      var rank2 := Rerank(ns0, rank0, p, w);
      LiveRmw(ns, p);
      LiveRanked(ns, rank, rank2, F, p);
      assert Contractible(Live(ns, p), rank2, C);
      var pos := OrderExists(Live(ns, p), rank2, C);
      BoundsInClosure(ns, rank, EdgeSet(ns0), p, w);
      LiveOrder(ns, rank, p, C, pos);
    }
  }

  lemma MergedWithin(ns0: Nodes, rank0: seq<nat>, log: set<Constraint>, ns: Nodes, rank: seq<nat>, p: nat, w: nat)
    requires Tracks(ns0, rank0, log) && Merged(ns0, ns, rank, p, w)
    ensures Within(Rename(EdgeSet(ns0), p, w), |ns|)
    ensures Within(Closure(ns, rank, Rename(EdgeSet(ns0), p, w)), |ns|)
  {
    hide Covered, Represents, Sound, Bounds, Acyclic, Rename, Closure;
    BoundsInClosure(ns, rank, EdgeSet(ns0), p, w);
    assert Within(EdgeSet(ns0), |ns|);
    BoundsWithin(ns, rank, EdgeSet(ns0), p, w);
  }

  lemma LiveRanked(ns: Nodes, rank: seq<nat>, rank2: seq<nat>, F: Edges, p: nat)
    requires Ranked(ns, rank) && p < |ns| && |rank2| == |ns| && Chained(RmwSet(Live(ns, p)), F, rank2)
    ensures Ranked(Live(ns, p), rank2)
  {
    var ns' := Live(ns, p);
    forall a | 0 <= a < |ns'| && ns'[a].rmw.Some?
      ensures ns'[a].rmw.value < |ns'| && rank2[a] < rank2[ns'[a].rmw.value] && !ns'[ns'[a].rmw.value].isPromise
    {
      assert (a, ns'[a].rmw.value) in RmwSet(ns');
    }
  }

  lemma LiveOrder(ns: Nodes, rank: seq<nat>, p: nat, C: Edges, pos: seq<nat>)
    requires Ranked(ns, rank) && p < |ns| && ns[p].isPromise && |pos| == |ns| && IsOrder(pos)
    requires Respects(pos, C) && EdgeSet(ns) <= C
    requires forall f, r :: (f, r) in RmwSet(Live(ns, p)) ==> Adjacent(pos, f, r)
    ensures Orderable(ns, p)
  {
    LiveRmw(ns, p);
    assert Contiguous(ns, pos, p);
    forall a: nat, b: nat | (a, b) in EdgeSet(ns) ensures a < |pos| && b < |pos| && pos[a] < pos[b] {
      assert (a, b) in C;
    }
  }

  // ------------------------------------------------------------------
  // Success is not enough
  // ------------------------------------------------------------------

  /** Write 0, promise 1 read by the read-modify-write 2, write 3; edges 0 -> 3, 1 -> 2, 3 -> 2. */
  function GapNodes(): Nodes {
    [Node([3], [], None, false), Node([2], [], Some(2), true), Node([], [1, 3], None, false),
        Node([2], [0], None, false)]
  }

  const GAP_LOG: set<Constraint> := {Before(0, 3), Rmw(1, 2), Before(3, 2)}

  lemma GapSets()
    ensures EdgeSet(GapNodes()) == {(0, 3), (1, 2), (3, 2)} && RmwSet(GapNodes()) == {(1, 2)}
  {
    var ns := GapNodes();
    assert ns[0].edges == [3] && ns[1].edges == [2] && ns[2].edges == [] && ns[3].edges == [2];
    forall x: nat, y: nat ensures (x, y) in EdgeSet(ns) <==> (x, y) in {(0, 3), (1, 2), (3, 2)} {
    }
    forall x: nat, y: nat ensures (x, y) in RmwSet(ns) <==> (x, y) in {(1, 2)} {
    }
  }

  lemma GapWellFormed()
    ensures WellFormed(GapNodes(), [0, 0, 1, 0])
  {
    var ns := GapNodes();
    assert Ranked(ns, [0, 0, 1, 0]);
    forall a: nat, b: nat | a < 4
      ensures b in ns[a].edges <==> (a == 0 && b == 3) || ((a == 1 || a == 3) && b == 2)
      ensures b in ns[a].back <==> (a == 3 && b == 0) || (a == 2 && (b == 1 || b == 3))
    {
      hide Ranked;
    }
    GapMirrored(ns);
  }

  lemma GapMirrored(ns: Nodes)
    requires |ns| == 4 && forall a :: 0 <= a < 4 ==> NoDup(ns[a].edges) && NoDup(ns[a].back)
    requires forall a: nat, b: nat :: a < 4 ==>
               (b in ns[a].edges <==> (a == 0 && b == 3) || ((a == 1 || a == 3) && b == 2))
    requires forall a: nat, b: nat :: a < 4 ==>
               (b in ns[a].back <==> (a == 3 && b == 0) || (a == 2 && (b == 1 || b == 3)))
    ensures Mirrored(ns)
  {
  }

  lemma GapSound()
    ensures Sound(GapNodes(), GAP_LOG)
  {
    GapSets();
    forall pos | Solves(pos, 4, GAP_LOG) ensures Respects(pos, EdgeSet(GapNodes())) {
      assert Meets(pos, Before(0, 3)) && Meets(pos, Rmw(1, 2)) && Meets(pos, Before(3, 2));
    }
  }

  /** The graph is one that additions build, and its constraints can be met. */
  lemma GapTracks()
    ensures Tracks(GapNodes(), [0, 0, 1, 0], GAP_LOG) && Satisfiable(4, GAP_LOG)
  {
    hide Sound, WellFormed, Chained, Covered, Represents, GapNodes;
    GapWellFormed();
    GapSound();
    GapChained();
    GapRepresents();
    GapSolved();
  }

  lemma GapChained()
    ensures Chained(RmwSet(GapNodes()), EdgeSet(GapNodes()), [0, 0, 1, 0])
    ensures Covered(RmwSet(GapNodes()), EdgeSet(GapNodes()))
  {
    hide Reach, GapNodes;
    GapSets();
  }

  lemma GapRepresents()
    ensures Represents(GapNodes(), GAP_LOG)
  {
    hide Reach;
    GapSets();
  }

  lemma GapSolved()
    ensures Satisfiable(4, GAP_LOG)
  {
    var pos := [0, 2, 3, 1];
    assert Adjacent(pos, 1, 2);
    assert Solves(pos, 4, GAP_LOG);
  }

  lemma GapRename()
    ensures Rename(EdgeSet(GapNodes()), 1, 0) == {(0, 3), (0, 2), (3, 2)}
  {
    GapSets();
    var E0: Edges := {(0, 3), (1, 2), (3, 2)};
    assert (0, 3) in E0 && (1, 2) in E0 && (3, 2) in E0;
    assert Ren(0, 1, 0) == 0 && Ren(1, 1, 0) == 0 && Ren(2, 1, 0) == 2 && Ren(3, 1, 0) == 3;
  }

  /**
   Merging promise 1 into write 0 must succeed, for its bounds have no cycle, but
   whatever graph it leaves has no order: 3 would have to come between 0 and its
   read-modify-write 2.
   */
  lemma MergeGap(ns: Nodes, rank: seq<nat>)
    requires Ranked(ns, rank) && |ns| == 4 && RmwSet(ns) == {(0, 2), (1, 2)}
    ensures Acyclic(Bounds(ns, rank, EdgeSet(GapNodes()), 1, 0))
    ensures Merged(GapNodes(), ns, rank, 1, 0) ==> !Orderable(ns, 1)
  {
    hide Rename, Mirrored, GapNodes;
    GapSets();
    GapRename();
    GapBounds(ns, rank);
    RespectsAcyclic([0, 3, 2, 1], Bounds(ns, rank, EdgeSet(GapNodes()), 1, 0));
    if Merged(GapNodes(), ns, rank, 1, 0) {
      assert (0, 3) in EdgeSet(ns) && (3, 2) in EdgeSet(ns);
      forall pos | |pos| == 4 && Respects(pos, EdgeSet(ns)) ensures !Contiguous(ns, pos, 1) {
        GapBetween(ns, pos);
      }
    }
  }

  lemma GapBetween(ns: Nodes, pos: seq<nat>)
    requires |pos| == 4 && Respects(pos, EdgeSet(ns)) && (0, 2) in RmwSet(ns)
    requires (0, 3) in EdgeSet(ns) && (3, 2) in EdgeSet(ns)
    ensures !Contiguous(ns, pos, 1)
  {
    assert pos[0] < pos[3] < pos[2];
    assert !Adjacent(pos, 0, 2);
  }

  lemma GapBounds(ns: Nodes, rank: seq<nat>)
    requires Ranked(ns, rank) && |ns| == 4 && RmwSet(ns) == {(0, 2), (1, 2)}
    ensures Respects([0, 3, 2, 1], Bounds(ns, rank, EdgeSet(GapNodes()), 1, 0))
  {
    hide Rename, Mirrored, GapNodes;
    GapSets();
    GapRename();
    var F, E0 := Rename(EdgeSet(GapNodes()), 1, 0), EdgeSet(GapNodes());
    forall e | e in F - E0 && e.0 < |ns| && ns[e.0].rmw.Some?
      ensures ChainStop(ns, rank, ns[e.0].rmw.value, e.1) == e.1
    {
      assert e == (0, 2);
      assert (0, 2) in RmwSet(ns);
    }
    assert Derived(ns, rank, F - E0) == {};
  }
}
