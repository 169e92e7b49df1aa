/**
 Two merges that go wrong when a write fulfils a promise that it reads from itself:
 one goes round for ever, after an earlier merge; the other succeeds and leaves a
 table on which the next addition goes round.
 */
module MergeExamples {
  import opened Digraph
  import opened Optional
  import opened OrderConstraints
  import opened GraphHistory
  import opened NodeMerge
  import opened ChainEnds
  import opened MergeRings
  import opened BackEdges
  import opened CycleGraphs

  // ------------------------------------------------------------------
  // A merge that does not end
  // ------------------------------------------------------------------

  /**
   Promise 0 with its read-modify-write 1 and the store 2 after it; promise 3 with its
   read-modify-write 4.
   */
  predicate TwoPromises(ns: Nodes) {
    && |ns| == 5
    && ns[0] == Node([1, 2], [], Some(1), true) && ns[1] == Node([2], [0], None, false)
    && ns[2] == Node([], [0, 1], None, false)
    && ns[3] == Node([4], [], Some(4), true) && ns[4] == Node([], [3], None, false)
  }

  const TWO_PROMISES: set<Constraint> := {Rmw(0, 1), Before(0, 2), Rmw(3, 4)}

  /** The same once promise 3 is merged into 1: its read-modify-write 4 now reads from 1. */
  predicate OneMerged(ns: Nodes) {
    && |ns| == 5
    && ns[0] == Node([1, 2], [], Some(1), true) && ns[1] == Node([2, 4], [0], Some(4), false)
    && ns[2] == Node([], [0, 1], None, false)
    && ns[3] == Node([], [], Some(4), true) && ns[4] == Node([], [1], None, false)
  }

  lemma TwoPromisesSets(ns: Nodes)
    requires TwoPromises(ns)
    ensures EdgeSet(ns) == {(0, 1), (0, 2), (1, 2), (3, 4)} && RmwSet(ns) == {(0, 1), (3, 4)}
  {
    forall x: nat, y: nat ensures (x, y) in EdgeSet(ns) <==> (x, y) in {(0, 1), (0, 2), (1, 2), (3, 4)} {
    }
    forall x: nat, y: nat ensures (x, y) in RmwSet(ns) <==> (x, y) in {(0, 1), (3, 4)} {
    }
  }

  lemma TwoPromisesMirrored(ns: Nodes)
    requires TwoPromises(ns)
    ensures Mirrored(ns)
  {
  }

  lemma TwoPromisesSound(ns: Nodes)
    requires TwoPromises(ns)
    ensures Sound(ns, TWO_PROMISES)
  {
    TwoPromisesSets(ns);
    forall pos | Solves(pos, 5, TWO_PROMISES) ensures Respects(pos, EdgeSet(ns)) {
      assert Meets(pos, Rmw(0, 1)) && Meets(pos, Before(0, 2)) && Meets(pos, Rmw(3, 4));
      assert pos[1] != pos[2];
      assert !(pos[0] < pos[2] < pos[1]);
    }
  }

  lemma TwoPromisesRanked(ns: Nodes)
    requires TwoPromises(ns)
    ensures Ranked(ns, [0, 1, 0, 0, 1]) && Chained(RmwSet(ns), EdgeSet(ns), [0, 1, 0, 0, 1])
    ensures Covered(RmwSet(ns), EdgeSet(ns)) && Represents(ns, TWO_PROMISES)
  {
    hide Reach;
    TwoPromisesSets(ns);
    hide EdgeSet, RmwSet;
    ReachEdge(EdgeSet(ns), 1, 2);
  }

  /** The graph is one that additions build. */
  lemma TwoPromisesTracks(ns: Nodes)
    requires TwoPromises(ns)
    ensures Tracks(ns, [0, 1, 0, 0, 1], TWO_PROMISES) && Acyclic(EdgeSet(ns))
  {
    hide Sound, Mirrored, Ranked, Chained, Covered, Represents, Acyclic;
    TwoPromisesSets(ns);
    TwoPromisesMirrored(ns);
    TwoPromisesRanked(ns);
    TwoPromisesSound(ns);
    RespectsAcyclic([0, 1, 2, 3, 4], EdgeSet(ns));
  }

  lemma OneMergedSets(ns: Nodes)
    requires OneMerged(ns)
    ensures EdgeSet(ns) == {(0, 1), (0, 2), (1, 2), (1, 4)} && RmwSet(ns) == {(0, 1), (1, 4), (3, 4)}
  {
    forall x: nat, y: nat ensures (x, y) in EdgeSet(ns) <==> (x, y) in {(0, 1), (0, 2), (1, 2), (1, 4)} {
    }
    forall x: nat, y: nat ensures (x, y) in RmwSet(ns) <==> (x, y) in {(0, 1), (1, 4), (3, 4)} {
    }
  }

  /** The one turn of the merge of promise 3 into 1. */
  lemma FirstMerge(before: Nodes, after: Nodes)
    requires TwoPromises(before) && OneMerged(after)
    ensures before[3].back == [] && !ReadsOwn(before, 3, 1) && !TwoReaders(before, 3, 1)
    ensures Mirrored(Taken(before, 3, 1)) && Pointing(Taken(before, 3, 1))
    ensures ForwardTurn(Taken(before, 3, 1), 3, 1) == after
  {
    hide Mirrored, Reach, EdgeSet, RmwSet;
    TwoPromisesMirrored(before);
    TwoPromisesSets(before);
    var taken := Taken(before, 3, 1);
    MirroredSame(before, taken);
    if ReadsOwn(before, 3, 1) {
      ClosedReach(RmwSet(before), {3, 4}, 3, 1);
    }
    FirstTurn(taken, after);
  }

  lemma FirstTurn(taken: Nodes, after: Nodes)
    requires Mirrored(taken) && Pointing(taken) && |taken| == 5 && OneMerged(after)
    requires taken[0] == after[0] && taken[1] == Node([2], [0], Some(4), false) && taken[2] == after[2]
    requires taken[3] == Node([4], [], Some(4), true) && taken[4] == Node([], [3], None, false)
    ensures ForwardTurn(taken, 3, 1) == after
  {
    hide Mirrored;
    PopEdgeMirrored(taken, 3);
    var ns1 := PopEdge(taken, 3);
    assert ns1[1] == taken[1] && ns1[4].rmw.None?;
    assert ns1[3] == after[3] by {
      assert [4][..0] == [];
    }
    assert ns1[4] == Node([], [], None, false);
    assert WalkStop(ns1, 4, 4, 5) == Some(4);
    var ns2 := PushEdge(ns1, 1, 4);
    assert EdgeAdded(ns1, 1, 4) == AddEdge(ns1, 1, 4) == ns2;
    assert ns2[0] == after[0] && ns2[1] == after[1] && ns2[2] == after[2] && ns2[3] == after[3] && ns2[4] == after[4];
  }

  /**
   Merging promise 0 into 4, which reads from it through 1: it comes to the store 2 first,
   which is no successor of 4 and not on the circle, and goes round for ever.
   */
  lemma SecondMergeEndless(ns: Nodes, ended: bool, ok: bool)
    requires OneMerged(ns)
    ensures ns[0].isPromise && !ns[4].isPromise && ns[0].back == [] && Acyclic(EdgeSet(ns))
    ensures ReadsOwn(ns, 0, 4) && !TwoReaders(ns, 0, 4) && ChainEdges(ns, 0) && StraysFirst(ns, 0, 4)
    ensures !BackCloses(ns, 0, 4) && (RoundExact(ns, false, 0, 4, ended, ok) ==> !ended)
  {
    hide Reach, Acyclic;
    OneMergedSets(ns);
    ReachEdge(RmwSet(ns), 0, 1);
    ReachEdge(RmwSet(ns), 1, 4);
    ReachTrans(RmwSet(ns), 0, 1, 4);
    if Reach(RmwSet(ns), 0, 2) {
      ClosedReach(RmwSet(ns), {0, 1, 4}, 0, 2);
    }
    forall x: nat | Reach(RmwSet(ns), 0, x) ensures x in {0, 1, 4} {
      ClosedReach(RmwSet(ns), {0, 1, 4}, 0, x);
    }
    assert ns[0].edges[1] == 2;
    assert Strays(ns, 0, 4, 2);
    assert StraysAt(ns, 0, 4, ns[0].edges, 1);
    RespectsAcyclic([0, 1, 2, 3, 4], EdgeSet(ns));
  }

  // ------------------------------------------------------------------
  // A merge that succeeds and leaves a circle
  // ------------------------------------------------------------------

  /** Promise 0 with its read-modify-write 1, and a store 2 to come after it. */
  predicate OnePromise(ns: Nodes) {
    && |ns| == 3
    && ns[0] == Node([1], [], Some(1), true) && ns[1] == Node([], [0], None, false) && ns[2] == Isolated(false)
  }

  lemma OnePromiseTracks(ns: Nodes)
    requires OnePromise(ns)
    ensures Tracks(ns, [0, 1, 0], {Rmw(0, 1)}) && Acyclic(EdgeSet(ns))
    ensures EdgeSet(ns) == {(0, 1)} && RmwSet(ns) == {(0, 1)}
  {
    hide Reach, Acyclic, Mirrored;
    OnePromiseSets(ns);
    OnePromiseMirrored(ns);
    hide EdgeSet, RmwSet;
    forall pos | Solves(pos, 3, {Rmw(0, 1)}) ensures Respects(pos, EdgeSet(ns)) {
      assert Meets(pos, Rmw(0, 1));
    }
    assert Sound(ns, {Rmw(0, 1)});
    hide Sound;
    RespectsAcyclic([0, 1, 2], EdgeSet(ns));
  }

  lemma OnePromiseSets(ns: Nodes)
    requires OnePromise(ns)
    ensures EdgeSet(ns) == {(0, 1)} && RmwSet(ns) == {(0, 1)}
  {
    forall x: nat, y: nat ensures (x, y) in EdgeSet(ns) <==> (x, y) in {(0, 1)} {
    }
    forall x: nat, y: nat ensures (x, y) in RmwSet(ns) <==> (x, y) in {(0, 1)} {
    }
  }

  lemma OnePromiseMirrored(ns: Nodes)
    requires OnePromise(ns)
    ensures Mirrored(ns)
  {
  }

  /**
   Merging promise 0 into 1 takes one turn, which adds nothing: it succeeds, with 1 its own
   read-modify-write, and ordering 1 before 2 goes round for ever.
   */
  lemma SelfReader(ns: Nodes)
    requires OnePromise(ns)
    ensures ReadsOwn(ns, 0, 1) && !TwoReaders(ns, 0, 1) && ns[0].back == []
    ensures var taken := Taken(ns, 0, 1);
            && Mirrored(taken) && Pointing(taken)
            && var after := ForwardTurn(taken, 0, 1);
            && after[0].edges == [] && EdgeSet(after) == {} && after[1].rmw == Some(1)
            && Pointing(after) && !AddEnds(after, 1, 2)
  {
    hide Mirrored, Reach;
    OnePromiseTracks(ns);
    ReachEdge(RmwSet(ns), 0, 1);
    var taken := Taken(ns, 0, 1);
    MirroredSame(ns, taken);
    PopEdgeMirrored(taken, 0);
    var after := ForwardTurn(taken, 0, 1);
    assert Remove([0], 0) == [];
    forall n: nat ensures WalkStop(after, 1, 2, n).None? {
      RoundAndRound(after, n);
    }
    assert after[0].edges == [] && after[1].edges == [] && after[2].edges == [];
    forall x: nat, y: nat ensures (x, y) !in EdgeSet(after) {
    }
  }

  lemma {:induction false} RoundAndRound(ns: Nodes, n: nat)
    requires Pointing(ns) && |ns| == 3 && ns[1].rmw == Some(1)
    ensures WalkStop(ns, 1, 2, n).None?
    decreases n
  {
    if n > 0 {
      RoundAndRound(ns, n - 1);
    }
  }
}
