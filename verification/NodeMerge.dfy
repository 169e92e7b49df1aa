/**
 Merging a promise node into the write that fulfils it: the edges of the result
 are those of the quotient graph, plus what its read-modify-write chains imply.
 */
module NodeMerge {
  import opened Digraph
  import opened Optional
  import opened OrderConstraints
  import opened GraphHistory

  ghost predicate SameKinds(ns: Nodes, ns': Nodes) {
    |ns| == |ns'| && forall i :: 0 <= i < |ns| ==> ns[i].isPromise == ns'[i].isPromise
  }

  lemma SameKindsRefl(ns: Nodes)
    ensures SameKinds(ns, ns)
  {
  }

  lemma SameKindsTrans(a: Nodes, b: Nodes, c: Nodes)
    requires SameKinds(a, b) && SameKinds(b, c)
    ensures SameKinds(a, c)
  {
  }

  function Ren(x: nat, p: nat, w: nat): nat {
    if x == p then w else x
  }

  /** The quotient: `p` renamed to `w`, self-edges dropped. */
  ghost function Rename(E: Edges, p: nat, w: nat): (F: Edges)
    ensures p != w ==> forall a, b :: (a, b) in F ==> a != b && a != p && b != p
    ensures forall a, b :: (a, b) in E && Ren(a, p, w) != Ren(b, p, w) ==> (Ren(a, p, w), Ren(b, p, w)) in F
  {
    var F := set e | e in E && Ren(e.0, p, w) != Ren(e.1, p, w) :: (Ren(e.0, p, w), Ren(e.1, p, w));
    forall a: nat, b: nat | (a, b) in E && Ren(a, p, w) != Ren(b, p, w)
      ensures (Ren(a, p, w), Ren(b, p, w)) in F
    {
      assert (a, b).0 == a && (a, b).1 == b;
    }
    F
  }

  ghost function Derived(ns: Nodes, rank: seq<nat>, F: Edges): Edges
    requires Ranked(ns, rank)
  {
    set e | e in F && e.0 < |ns| && ns[e.0].rmw.Some? && ChainStop(ns, rank, ns[e.0].rmw.value, e.1) != e.1 ::
      (ChainStop(ns, rank, ns[e.0].rmw.value, e.1), e.1)
  }

  /** The edges of F and those that the chains of `ns` derive from them. */
  ghost function Closure(ns: Nodes, rank: seq<nat>, F: Edges): (C: Edges)
    requires Ranked(ns, rank)
    ensures F <= C
  {
    F + Derived(ns, rank, F)
  }

  /** What the merge loops keep, `E0` being the edges before the merge. */
  ghost predicate Merging(E: Edges, E0: Edges, C: Edges, p: nat, w: nat) {
    && (forall a, b :: (a, b) in E0 && (a, b) !in E ==>
                         Ren(a, p, w) == Ren(b, p, w) || (Ren(a, p, w), Ren(b, p, w)) in E)
    && (forall a, b :: (a, b) in E && (a == p || b == p) ==> (a, b) in E0)
    && (forall a, b :: (a, b) in E && a != p && b != p ==> (a, b) in C || (a == b && (a, b) in E0))
  }

  /** Every order of the quotient that keeps the chains contiguous respects the derived edges. */
  lemma ClosureSound(ns: Nodes, rank: seq<nat>, F: Edges, pos: seq<nat>, skip: nat)
    requires Mirrored(ns) && Ranked(ns, rank) && |pos| == |ns| && IsOrder(pos) && Respects(pos, F)
    requires Contiguous(ns, pos, skip) && forall a, b :: (a, b) in F ==> a != skip
    ensures Respects(pos, Closure(ns, rank, F))
  {
    forall a: nat, b: nat | (a, b) in Derived(ns, rank, F) ensures a < |pos| && b < |pos| && pos[a] < pos[b] {
      var e :| e in F && e.0 < |ns| && ns[e.0].rmw.Some? && ChainStop(ns, rank, ns[e.0].rmw.value, e.1) != e.1 &&
               (a, b) == (ChainStop(ns, rank, ns[e.0].rmw.value, e.1), e.1);
      assert (e.0, b) == e;
      DerivedSound(ns, rank, pos, skip, e.0, b);
    }
  }

  lemma DerivedSound(ns: Nodes, rank: seq<nat>, pos: seq<nat>, skip: nat, x: nat, b: nat)
    requires Ranked(ns, rank) && |pos| == |ns| && IsOrder(pos)
    requires Contiguous(ns, pos, skip) && x != skip
    requires x < |ns| && b < |ns| && ns[x].rmw.Some? && pos[x] < pos[b]
    ensures var e := ChainStop(ns, rank, ns[x].rmw.value, b); e != b ==> pos[e] < pos[b]
  {
    var r := ns[x].rmw.value;
    assert (x, r) in RmwSet(ns);
    assert Adjacent(pos, x, r);
    if r != b {
      assert !(pos[x] < pos[b] < pos[r]);
      assert pos[r] != pos[b];
    }
    ChainBefore(ns, rank, pos, skip, r, b);
  }

  // ------------------------------------------------------------------
  // The loops
  // ------------------------------------------------------------------

  lemma MergingInit(E0: Edges, C: Edges, p: nat, w: nat)
    requires p != w && Rename(E0, p, w) <= C
    ensures Merging(E0, E0, C, p, w)
  {
  }

  /** One iteration moves the edge (x, y), which touches `p`, to its renamed place. */
  lemma MergingStep(E: Edges, E0: Edges, C: Edges, p: nat, w: nat, x: nat, y: nat, N: Edges)
    requires Merging(E, E0, C, p, w) && p != w
    requires x == p || y == p
    requires N <= C && (forall a, b :: (a, b) in N ==> a != p && b != p)
    requires Ren(x, p, w) == Ren(y, p, w) || (Ren(x, p, w), Ren(y, p, w)) in E + N
    ensures Merging(E - {(x, y)} + N, E0, C, p, w)
  {
    var E' := E - {(x, y)} + N;
    forall a: nat, b: nat | (a, b) in E0 && (a, b) !in E' && Ren(a, p, w) != Ren(b, p, w)
      ensures (Ren(a, p, w), Ren(b, p, w)) in E'
    {
      assert Ren(a, p, w) != p && Ren(b, p, w) != p;
      if (a, b) in E {
        assert (a, b) == (x, y);
      }
    }
  }

  /** When no edge touches `p` any more, the quotient is there. */
  lemma MergingDone(E: Edges, E0: Edges, C: Edges, p: nat, w: nat)
    requires Merging(E, E0, C, p, w) && p != w && Acyclic(E0)
    requires forall a, b :: (a, b) in E ==> a != p && b != p
    ensures Rename(E0, p, w) <= E <= C
  {
    forall e | e in Rename(E0, p, w) ensures e in E {
      var d :| d in E0 && Ren(d.0, p, w) != Ren(d.1, p, w) && e == (Ren(d.0, p, w), Ren(d.1, p, w));
      assert d == (d.0, d.1);
    }
    forall a: nat, b: nat | (a, b) in E ensures (a, b) in C {
      if a == b && (a, b) in E0 {
        EdgePlus(E0, a, a);
      }
    }
    forall e | e in E ensures e in C {
      assert e == (e.0, e.1);
    }
  }

  /** If the closed quotient has no cycle, no intermediate graph has one. */
  lemma MergingAcyclic(E: Edges, E0: Edges, C: Edges, p: nat, w: nat, n: nat)
    requires Merging(E, E0, C, p, w) && p != w && p < n && w < n
    requires Acyclic(E0) && Within(E0, n) && Acyclic(C) && Within(C, n) && Rename(E0, p, w) <= C
    ensures Acyclic(E)
  {
    var L := LinearExtension(C, n);
    var pAt := if (w, p) in E0 then 2 * L[w] + 2 else 2 * L[w];
    var pos := seq(n, i requires 0 <= i < n => if i == p then pAt else 2 * L[i] + 1);
    if (w, p) in E0 && (p, w) in E0 {
      EdgePlus(E0, p, w);
      ReachEdge(E0, w, p);
      PlusThenReach(E0, p, w, p);
    }
    forall a: nat, b: nat | (a, b) in E ensures a < n && b < n && pos[a] < pos[b] {
      if a == b && (a, b) in E0 {
        EdgePlus(E0, a, a);
      }
      if a == p || b == p {
        assert (a, b) in E0;
        if Ren(a, p, w) != Ren(b, p, w) {
          assert (Ren(a, p, w), Ren(b, p, w)) in Rename(E0, p, w);
          assert (Ren(a, p, w), Ren(b, p, w)) in C;
        }
      }
    }
    RespectsAcyclic(pos, E);
  }

  /** Paths survive the merge with `p` renamed. */
  lemma {:induction false} PathsSurvive(E0: Edges, E: Edges, p: nat, w: nat, x: nat, y: nat)
    requires Rename(E0, p, w) <= E && Reach(E0, x, y)
    ensures Reach(E, Ren(x, p, w), Ren(y, p, w))
  {
    var q :| PathFromTo(E0, q, x, y);
    var i := 0;
    ReachRefl(E, Ren(x, p, w));
    while i < |q| - 1
      invariant 0 <= i <= |q| - 1
      invariant Reach(E, Ren(x, p, w), Ren(q[i], p, w))
    {
      assert (q[i], q[i + 1]) in E0;
      if Ren(q[i], p, w) != Ren(q[i + 1], p, w) {
        ReachEdge(E, Ren(q[i], p, w), Ren(q[i + 1], p, w));
        ReachTrans(E, Ren(x, p, w), Ren(q[i], p, w), Ren(q[i + 1], p, w));
      }
      i := i + 1;
    }
  }

  // ------------------------------------------------------------------
  // Ranks when the promise's read-modify-write moves to the write
  // ------------------------------------------------------------------

  /** Ranks with everything on the chain of `r` lifted above `w`. */
  ghost function Lift(ns: Nodes, rank: seq<nat>, r: nat, d: nat): (rank': seq<nat>)
    requires |rank| == |ns|
    ensures |rank'| == |ns|
  {
    seq(|ns|, i requires 0 <= i < |ns| => if Reach(RmwSet(ns), r, i) then rank[i] + d else rank[i])
  }

  lemma MovePointer(ns: Nodes, rank: seq<nat>, w: nat, r: nat)
    requires WellFormed(ns, rank) && w < |ns| && r < |ns| && !ns[r].isPromise
    requires ns[w].rmw.None? && !Reach(RmwSet(ns), r, w)
    ensures WellFormed(SetRmw(ns, w, r), Lift(ns, rank, r, rank[w] + 1))
    ensures EdgeSet(SetRmw(ns, w, r)) == EdgeSet(ns)
    ensures RmwSet(SetRmw(ns, w, r)) == RmwSet(ns) + {(w, r)}
  {
    var ns' := SetRmw(ns, w, r);
    MirroredSame(ns, ns');
    hide Mirrored, Reach;
    forall x: nat, y: nat ensures (x, y) in EdgeSet(ns') <==> (x, y) in EdgeSet(ns) {
    }
    forall x: nat, y: nat ensures (x, y) in RmwSet(ns') <==> (x, y) in RmwSet(ns) + {(w, r)} {
    }
    hide EdgeSet, RmwSet;
    LiftedRanks(ns, rank, w, r);
  }

  /** Lifted above `w`, the chain of `r` may hang off `w`. */
  lemma LiftedRanks(ns: Nodes, rank: seq<nat>, w: nat, r: nat)
    requires Ranked(ns, rank) && w < |ns| && r < |ns| && !ns[r].isPromise
    requires ns[w].rmw.None? && !Reach(RmwSet(ns), r, w)
    ensures Ranked(SetRmw(ns, w, r), Lift(ns, rank, r, rank[w] + 1))
  {
    hide Reach;
    var rank' := Lift(ns, rank, r, rank[w] + 1);
    ReachRefl(RmwSet(ns), r);
    forall a | 0 <= a < |ns| && ns[a].rmw.Some? ensures rank'[a] < rank'[ns[a].rmw.value] {
      var b := ns[a].rmw.value;
      assert (a, b) in RmwSet(ns);
      if Reach(RmwSet(ns), r, a) {
        ReachEdge(RmwSet(ns), a, b);
        ReachTrans(RmwSet(ns), r, a, b);
      }
    }
  }

  // ------------------------------------------------------------------
  // Removing an edge
  // ------------------------------------------------------------------

  lemma PopEdgeSets(ns: Nodes, a: nat)
    requires Mirrored(ns) && a < |ns| && ns[a].edges != []
    ensures var t := ns[a].edges[|ns[a].edges| - 1];
            && t < |ns| && (a, t) in EdgeSet(ns)
            && EdgeSet(PopEdge(ns, a)) == EdgeSet(ns) - {(a, t)}
            && RmwSet(PopEdge(ns, a)) == RmwSet(ns)
  {
    PopEdgeMirrored(ns, a);
    var es := ns[a].edges;
    var t := es[|es| - 1];
    LastMembers(es);
    hide Mirrored, PopEdge;
    var r := PopEdge(ns, a);
    forall x: nat, y: nat ensures (x, y) in EdgeSet(r) <==> (x, y) in EdgeSet(ns) - {(a, t)} {
    }
    forall x: nat, y: nat ensures (x, y) in RmwSet(r) <==> (x, y) in RmwSet(ns) {
    }
  }

  /** CycleNode::removeBackEdge on a node that has back edges. */
  function PopBackEdge(ns: Nodes, p: nat): (r: Nodes)
    requires p < |ns| && ns[p].back != [] && ns[p].back[|ns[p].back| - 1] < |ns|
    ensures var b := ns[p].back[|ns[p].back| - 1];
            && |r| == |ns|
            && (forall i :: 0 <= i < |ns| ==> r[i].rmw == ns[i].rmw && r[i].isPromise == ns[i].isPromise)
            && (forall i :: 0 <= i < |ns| ==>
                  r[i].back == if i == p then ns[p].back[..|ns[p].back| - 1] else ns[i].back)
            && (forall i :: 0 <= i < |ns| ==> r[i].edges == if i == b then Remove(ns[b].edges, p) else ns[i].edges)
  {
    var b := ns[p].back[|ns[p].back| - 1];
    var ns1 := ns[p := ns[p].(back := ns[p].back[..|ns[p].back| - 1])];
    ns1[b := ns1[b].(edges := Remove(ns1[b].edges, p))]
  }

  lemma PopBackEdgeKeeps(ns: Nodes, p: nat)
    requires Mirrored(ns) && p < |ns| && ns[p].back != []
    ensures var b := ns[p].back[|ns[p].back| - 1];
            && b < |ns| && (b, p) in EdgeSet(ns)
            && Mirrored(PopBackEdge(ns, p))
            && EdgeSet(PopBackEdge(ns, p)) == EdgeSet(ns) - {(b, p)}
            && RmwSet(PopBackEdge(ns, p)) == RmwSet(ns)
  {
    assert ns[p].back[|ns[p].back| - 1] in ns[p].back;
    PopBackEdgeMirrored(ns, p);
    PopBackEdgeSets(ns, p);
  }

  lemma PopBackEdgeMirrored(ns: Nodes, p: nat)
    requires Mirrored(ns) && p < |ns| && ns[p].back != []
    requires ns[p].back[|ns[p].back| - 1] in ns[p].back
    ensures Mirrored(PopBackEdge(ns, p))
  {
    var bs := ns[p].back;
    var b := bs[|bs| - 1];
    var r := PopBackEdge(ns, p);
    RemoveMembers(ns[b].edges, p);
    LastMembers(bs);
    hide PopBackEdge, NoDup, Mirrored;
    MirroredMinus(ns, r, b, p);
  }

  lemma PopBackEdgeSets(ns: Nodes, p: nat)
    requires Mirrored(ns) && p < |ns| && ns[p].back != []
    requires ns[p].back[|ns[p].back| - 1] in ns[p].back
    ensures EdgeSet(PopBackEdge(ns, p)) == EdgeSet(ns) - {(ns[p].back[|ns[p].back| - 1], p)}
    ensures RmwSet(PopBackEdge(ns, p)) == RmwSet(ns)
  {
    var b := ns[p].back[|ns[p].back| - 1];
    var r := PopBackEdge(ns, p);
    RemoveMembers(ns[b].edges, p);
    forall x: nat, y: nat ensures (x, y) in EdgeSet(r) <==> (x, y) in EdgeSet(ns) - {(b, p)} {
    }
    forall x: nat, y: nat ensures (x, y) in RmwSet(r) <==> (x, y) in RmwSet(ns) {
    }
  }

  // ------------------------------------------------------------------
  // One iteration of each loop
  // ------------------------------------------------------------------

  /** The tables during one merge: well formed, with the pointers of `base`, the promise's now also the write's. */
  ghost predicate MergeTables(ns: Nodes, rank: seq<nat>, base: Nodes, p: nat, w: nat) {
    && WellFormed(ns, rank) && Anchored(ns)
    && Ranked(base, rank) && |base| == |ns| && RmwSet(ns) == RmwSet(base)
    && p < |ns| && w < |ns| && p != w && ns[p].isPromise && !ns[w].isPromise
    && (ns[p].rmw.Some? ==> ns[w].rmw == ns[p].rmw && ns[p].rmw.value != w)
  }

  /** The edges that one merge may show: the quotient, and what chains derive from its edges that are new. */
  ghost function Bounds(base: Nodes, rank: seq<nat>, E0: Edges, p: nat, w: nat): Edges
    requires Ranked(base, rank)
  {
    Rename(E0, p, w) + Derived(base, rank, Rename(E0, p, w) - E0)
  }

  lemma BoundsInClosure(base: Nodes, rank: seq<nat>, E0: Edges, p: nat, w: nat)
    requires Ranked(base, rank)
    ensures Rename(E0, p, w) <= Bounds(base, rank, E0, p, w) <= Closure(base, rank, Rename(E0, p, w))
  {
    var F := Rename(E0, p, w);
    assert Derived(base, rank, F - E0) <= Derived(base, rank, F);
  }

  /** The edges of an addNodeEdge at the renamed place lie within the bounds and do not touch `p`. */
  lemma NewEdgesBounded(ns: Nodes, rank: seq<nat>, base: Nodes, E0: Edges, p: nat, w: nat, a: nat, b: nat)
    requires Ranked(ns, rank) && Ranked(base, rank) && |base| == |ns| && RmwSet(ns) == RmwSet(base)
    requires a < |ns| && b < |ns| && p < |ns| && ns[p].isPromise && a != p && b != p && (a, b) in Rename(E0, p, w)
    requires (a, b) in E0 ==> (a, b) in EdgeSet(ns)
    ensures NewEdges(ns, rank, a, b) <= Bounds(base, rank, E0, p, w)
    ensures forall x, y :: (x, y) in NewEdges(ns, rank, a, b) ==> x != p && y != p
  {
    RmwUnchanged(ns, base);
    if b !in ns[a].edges && ns[a].rmw.Some? {
      var r := ns[a].rmw.value;
      RankedTarget(ns, rank, a);
      ChainStopSameRmw(ns, base, rank, r, b);
      ChainAvoidsPromise(ns, rank, r, b);
      if ChainStop(ns, rank, r, b) != b {
        assert (a, b).0 == a && (a, b).1 == b;
        assert (ChainStop(base, rank, r, b), b) in Derived(base, rank, Rename(E0, p, w) - E0);
      }
    }
  }

  /** No promise is anyone's read-modify-write, so walks stay on stores. */
  lemma {:induction false} ChainAvoidsPromise(ns: Nodes, rank: seq<nat>, a: nat, to: nat)
    requires Ranked(ns, rank) && a < |ns| && !ns[a].isPromise
    ensures !ns[ChainStop(ns, rank, a, to)].isPromise
    decreases Above(rank, a)
  {
    if a != to && ns[a].rmw.Some? {
      var r := ns[a].rmw.value;
      assert r in Above(rank, a) && r !in Above(rank, r);
      ChainAvoidsPromise(ns, rank, r, to);
    }
  }

  /** Anchors survive when each lost one is replaced. */
  lemma AnchoredStep(ns: Nodes, ns': Nodes)
    requires Anchored(ns) && RmwSet(ns') == RmwSet(ns)
    requires forall g, r :: (g, r) in RmwSet(ns) && (g, r) in EdgeSet(ns) ==>
                              exists h :: (h, r) in RmwSet(ns) && (h, r) in EdgeSet(ns')
    ensures Anchored(ns')
  {
    forall f: nat, r: nat | (f, r) in RmwSet(ns')
      ensures exists g :: (g, r) in RmwSet(ns') && (g, r) in EdgeSet(ns')
    {
      var g :| (g, r) in RmwSet(ns) && (g, r) in EdgeSet(ns);
      var h :| (h, r) in RmwSet(ns) && (h, r) in EdgeSet(ns');
      assert (h, r) in RmwSet(ns');
    }
  }

  /** What moving one edge (x, y) that touches `p` does to the tables. */
  lemma MergeMove(ns: Nodes, ns': Nodes, rank: seq<nat>, base: Nodes, p: nat, w: nat, x: nat, y: nat)
    requires MergeTables(ns, rank, base, p, w) && (x == p || y == p)
    requires WellFormed(ns', rank) && |ns'| == |ns| && RmwSet(ns') == RmwSet(ns)
    requires ns'[p].isPromise == ns[p].isPromise && ns'[w].isPromise == ns[w].isPromise
    requires EdgeSet(ns) - {(x, y)} <= EdgeSet(ns')
    requires x == p && y != p && y != w ==> (w, y) in EdgeSet(ns')
    ensures MergeTables(ns', rank, base, p, w)
  {
    hide Mirrored, EdgeSet, RmwSet, Reach;
    RmwUnchanged(ns, ns');
    forall g: nat, r: nat | (g, r) in RmwSet(ns) && (g, r) in EdgeSet(ns)
      ensures exists h :: (h, r) in RmwSet(ns) && (h, r) in EdgeSet(ns')
    {
      if (g, r) == (x, y) {
        MergeAnchor(ns, rank, p, w, x, y);
        assert (w, y) in EdgeSet(ns');
      } else {
        assert (g, r) in EdgeSet(ns) - {(x, y)};
        assert (g, r) in EdgeSet(ns');
      }
    }
    AnchoredStep(ns, ns');
  }

  /** A moved pointer edge starts at `p`, and `w` points to the same node. */
  lemma MergeAnchor(ns: Nodes, rank: seq<nat>, p: nat, w: nat, x: nat, y: nat)
    requires Ranked(ns, rank) && p < |ns| && w < |ns| && p != w && ns[p].isPromise
    requires ns[p].rmw.Some? ==> ns[w].rmw == ns[p].rmw && ns[p].rmw.value != w
    requires (x, y) in RmwSet(ns) && (x == p || y == p)
    ensures x == p && y != w && y != p && (w, y) in RmwSet(ns)
  {
  }

  /** addNodeEdge touches only the back edges of its target and the edges of stores and of its source. */
  lemma AddNodeEdgeFrame(ns: Nodes, rank: seq<nat>, a: nat, b: nat, p: nat)
    requires Ranked(ns, rank) && a < |ns| && b < |ns| && p < |ns| && ns[p].isPromise
    ensures p != b ==> AddNodeEdge(ns, rank, a, b)[p].back == ns[p].back
    ensures p != a ==> AddNodeEdge(ns, rank, a, b)[p].edges == ns[p].edges
    ensures forall i :: 0 <= i < |ns| ==> AddNodeEdge(ns, rank, a, b)[i].isPromise == ns[i].isPromise
  {
    if b !in ns[a].edges && ns[a].rmw.Some? {
      RankedTarget(ns, rank, a);
      ChainAvoidsPromise(ns, rank, ns[a].rmw.value, b);
    }
  }

  /** The tables right after the promise's pointer moved to the write. */
  lemma MergeStarts(ns: Nodes, rank: seq<nat>, p: nat, w: nat, r: nat)
    requires WellFormed(ns, rank) && Anchored(ns) && p < |ns| && w < |ns| && p != w
    requires ns[p].isPromise && !ns[w].isPromise && ns[p].rmw == Some(r) && ns[w].rmw.None?
    requires !Reach(RmwSet(ns), p, w) && r < |ns|
    ensures var ns', rank' := SetRmw(ns, w, r), Lift(ns, rank, r, rank[w] + 1);
            && EdgeSet(ns') == EdgeSet(ns) && RmwSet(ns') == RmwSet(ns) + {(w, r)}
            && MergeTables(ns', rank', ns', p, w)
  {
    hide Mirrored, EdgeSet, Lift;
    assert (p, r) in RmwSet(ns);
    ReachEdge(RmwSet(ns), p, r);
    if Reach(RmwSet(ns), r, w) {
      ReachTrans(RmwSet(ns), p, r, w);
    }
    assert !ns[r].isPromise;
    MovePointer(ns, rank, w, r);
    var ns' := SetRmw(ns, w, r);
    forall f: nat, s: nat | (f, s) in RmwSet(ns')
      ensures exists g :: (g, s) in RmwSet(ns') && (g, s) in EdgeSet(ns')
    {
      var f' := if (f, s) in RmwSet(ns) then f else p;
      assert (f', s) in RmwSet(ns);
      var g :| (g, s) in RmwSet(ns) && (g, s) in EdgeSet(ns);
      assert (g, s) in RmwSet(ns');
    }
  }

  /** No edge touches a node whose lists are empty. */
  lemma Detached(ns: Nodes, p: nat)
    requires Mirrored(ns) && p < |ns| && ns[p].edges == [] && ns[p].back == []
    ensures forall a, b :: (a, b) in EdgeSet(ns) ==> a != p && b != p
  {
    forall a: nat ensures (a, p) !in EdgeSet(ns) {
      NoIncoming(ns, p, a);
    }
  }

  /** Derived edges depend on the pointers only. */
  lemma DerivedSameRmw(ns: Nodes, ns': Nodes, rank: seq<nat>, F: Edges)
    requires Ranked(ns, rank) && Ranked(ns', rank) && |ns| == |ns'| && RmwSet(ns) == RmwSet(ns')
    ensures Derived(ns, rank, F) == Derived(ns', rank, F)
  {
    RmwUnchanged(ns, ns');
    forall e | e in F && e.0 < |ns| && ns[e.0].rmw.Some?
      ensures ChainStop(ns, rank, ns[e.0].rmw.value, e.1) == ChainStop(ns', rank, ns'[e.0].rmw.value, e.1)
    {
      RankedTarget(ns, rank, e.0);
      ChainStopSameRmw(ns, ns', rank, ns[e.0].rmw.value, e.1);
    }
  }
}
