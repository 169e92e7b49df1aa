/**
 What one clock of the analysis may take in from another, and the least clocks that have
 nothing left to take in.
 */
module ScFixpoints {
  import opened Digraph
  import opened Optional
  import opened Clocks
  import opened Actions
  import opened HappensBefore
  import opened ScOrders

  // ------------------------------------------------------------------
  // The edges that the rules add
  // ------------------------------------------------------------------

  /** A forced order, or one that a rule for reads puts between two actions, judging by the clocks. */
  ghost predicate Edge(p: Program, cvs: seq<Clock>, x: nat, y: nat)
    requires |cvs| == |p.s|
  {
    && Numbered(p.s, x) && Numbered(p.s, y)
    && (|| Forced(p, x, y)
        || (Rival(p, y, x) && Knows(p, cvs, y, p.s[x].rf.value))
        || (exists r: nat :: Rival(p, x, r) && p.s[r].rf.value == y && Knows(p, cvs, r, x)))
  }

  ghost function EdgeSet(p: Program, cvs: seq<Clock>): (E: Edges)
    requires |cvs| == |p.s|
    ensures forall x: nat, y: nat :: (x, y) in E <==> Edge(p, cvs, x, y)
  {
    set x, y | x in Below(|p.s|) && y in Below(|p.s|) && Edge(p, cvs, x, y) :: (x, y)
  }

  /** The clock of `act` may take in that of `act2`: a placeholder's, which is empty, or along an edge. */
  ghost predicate Ordered(p: Program, cvs: seq<Clock>, act2: nat, act: nat)
    requires |cvs| == |p.s|
  {
    act2 < |p.s| && (p.s[act2].kind.Uninit? || Edge(p, cvs, act2, act))
  }

  /** Placeholders know nothing. */
  ghost predicate Blank(p: Program, cvs: seq<Clock>)
    requires |cvs| == |p.s|
  {
    forall u: nat, t: nat :: u < |p.s| && p.s[u].kind.Uninit? ==> At(cvs[u], t) == 0
  }

  /** The clocks have only grown. */
  ghost predicate Dominates(c: seq<Clock>, d: seq<Clock>) {
    |c| == |d| && forall a: nat, t: nat :: a < |c| ==> At(c[a], t) <= At(d[a], t)
  }

  lemma DominatesTrans(c: seq<Clock>, d: seq<Clock>, e: seq<Clock>)
    requires Dominates(c, d) && Dominates(d, e)
    ensures Dominates(c, e)
  {
    forall a: nat, t: nat | a < |c| ensures At(c[a], t) <= At(e[a], t) {
      assert At(c[a], t) <= At(d[a], t);
    }
  }

  lemma DominatesKnows(p: Program, c: seq<Clock>, d: seq<Clock>, a: nat, b: nat)
    requires Dominates(c, d) && a < |c| && Knows(p, c, a, b)
    ensures Knows(p, d, a, b)
  {
  }

  lemma DominatesBoth(c: seq<Clock>, d: seq<Clock>)
    requires Dominates(c, d) && Dominates(d, c)
    ensures SameClocks(c, d)
  {
    forall a: nat, t: nat | a < |c| ensures At(d[a], t) == At(c[a], t) {
      assert At(c[a], t) <= At(d[a], t) <= At(c[a], t);
    }
  }

  lemma EdgeMore(p: Program, c: seq<Clock>, d: seq<Clock>, x: nat, y: nat)
    requires |c| == |p.s| && Dominates(c, d) && Edge(p, c, x, y)
    ensures Edge(p, d, x, y)
  {
    if r: nat :| Rival(p, x, r) && p.s[r].rf.value == y && Knows(p, c, r, x) {
      assert Knows(p, d, r, x);
    }
  }

  /** Clocks with nothing left to take in have taken in every edge, and none of them closes a cycle. */
  lemma EdgeTakes(p: Program, d: seq<Clock>, x: nat, y: nat)
    requires |d| == |p.s| && Saturated(p, d) && Edge(p, d, x, y)
    ensures Takes(p, d, y, x)
  {
    hide Takes;
    if Rival(p, y, x) && Knows(p, d, y, p.s[x].rf.value) {
      assert Rules(p, d, y, x);
    } else if r: nat :| Rival(p, x, r) && p.s[r].rf.value == y && Knows(p, d, r, x) {
      assert Rules(p, d, x, r);
    }
  }

  // ------------------------------------------------------------------
  // The least clocks with nothing left to take in
  // ------------------------------------------------------------------

  /** The clocks above `c` that have nothing left to take in. */
  ghost function Bounds(p: Program, c: seq<Clock>): iset<seq<Clock>> {
    iset d: seq<Clock> | |d| == |p.s| && Saturated(p, d) && Dominates(c, d)
  }

  ghost predicate Least(p: Program, c: seq<Clock>, d: seq<Clock>) {
    d in Bounds(p, c) && forall e :: e in Bounds(p, c) ==> Dominates(d, e)
  }

  lemma JoinDominates(c: seq<Clock>, act2: nat, act: nat)
    requires act < |c| && act2 < |c|
    ensures Dominates(c, c[act := Join(c[act], c[act2])])
  {
  }

  lemma BoundsSmaller(p: Program, c: seq<Clock>, c': seq<Clock>)
    requires Dominates(c, c')
    ensures Bounds(p, c') <= Bounds(p, c)
  {
    hide Saturated;
    forall d | d in Bounds(p, c') ensures d in Bounds(p, c) {
      DominatesTrans(c, c', d);
    }
  }

  /** Taking in an edge loses none of the clocks above that have nothing left to take in. */
  lemma MergeBounds(p: Program, c: seq<Clock>, act2: nat, act: nat)
    requires |c| == |p.s| && act < |p.s| && Blank(p, c) && Ordered(p, c, act2, act)
    ensures Bounds(p, c[act := Join(c[act], c[act2])]) == Bounds(p, c)
  {
    hide Saturated, Edge;
    var c' := c[act := Join(c[act], c[act2])];
    JoinDominates(c, act2, act);
    BoundsSmaller(p, c, c');
    forall d | d in Bounds(p, c) ensures d in Bounds(p, c') {
      if !p.s[act2].kind.Uninit? {
        EdgeMore(p, c, d, act2, act);
        EdgeTakes(p, d, act2, act);
      }
      forall a: nat, t: nat | a < |c'| ensures At(c'[a], t) <= At(d[a], t) {
        assert At(c[a], t) <= At(d[a], t) && At(c[act2], t) <= At(d[act2], t);
      }
    }
  }

  /** An edge that closes a cycle leaves none. */
  lemma CloseBounds(p: Program, c: seq<Clock>, act2: nat, act: nat)
    requires |c| == |p.s| && act < |p.s| && Blank(p, c) && Ordered(p, c, act2, act)
    requires p.s[act].now != 0 && At(c[act2], p.s[act].tid) >= p.s[act].now
    ensures Bounds(p, c) == iset{}
  {
    hide Saturated, Edge;
    forall d ensures d !in Bounds(p, c) {
      if d in Bounds(p, c) {
        EdgeMore(p, c, d, act2, act);
        EdgeTakes(p, d, act2, act);
        EdgeNumbered(p, c, act2, act);
        DominatesKnows(p, c, d, act2, act);
      }
    }
  }

  lemma EdgeNumbered(p: Program, c: seq<Clock>, x: nat, y: nat)
    requires |c| == |p.s| && Edge(p, c, x, y)
    ensures Numbered(p.s, x) && Numbered(p.s, y)
  {
  }

  /** Clocks that have lost no bound and have nothing left to take in are the least. */
  lemma SaturatedLeast(p: Program, c: seq<Clock>, d: seq<Clock>)
    requires |d| == |p.s| && Saturated(p, d) && Bounds(p, d) == Bounds(p, c)
    ensures Least(p, c, d) && Bounds(p, c) != iset{}
  {
    assert d in Bounds(p, d);
  }

  /** Only one vector of clocks is the least, up to entries that are zero. */
  lemma LeastUnique(p: Program, c: seq<Clock>, c': seq<Clock>, d: seq<Clock>, d': seq<Clock>)
    requires SameClocks(c, c') && Least(p, c, d) && Least(p, c', d')
    ensures SameClocks(d, d')
  {
    hide Saturated;
    BoundsSmaller(p, c, c');
    BoundsSmaller(p, c', c);
    DominatesBoth(d, d');
  }

  /** Before anything is taken in, an action knows of itself. */
  function InitialClocks(p: Program): (c: seq<Clock>)
    ensures |c| == |p.s| && forall a :: 0 <= a < |p.s| ==> c[a] == Tick([], p.s[a].tid, p.s[a].now)
  {
    seq(|p.s|, a requires 0 <= a < |p.s| => Tick([], p.s[a].tid, p.s[a].now))
  }

  lemma FirstDominates(p: Program, first: seq<Clock>, c: seq<Clock>)
    requires Least(p, InitialClocks(p), first) && Least(p, InitialClocks(p), c)
    ensures |first| == |p.s| && Dominates(first, c)
  {
    hide Saturated, InitialClocks;
  }

  // ------------------------------------------------------------------
  // Where knowledge comes from
  // ------------------------------------------------------------------

  /** Whatever an action knows of those that have not been taken it has along edges. */
  ghost predicate Grounded(p: Program, cvs: seq<Clock>, emitted: seq<nat>)
    requires |cvs| == |p.s|
  {
    forall a: nat, b: nat :: a < |p.s| && Knows(p, cvs, a, b) && b !in emitted ==> Reach(EdgeSet(p, cvs), b, a)
  }

  /** `a` knows only of actions that have been taken. */
  ghost predicate OnlyTaken(p: Program, cvs: seq<Clock>, emitted: seq<nat>, a: nat)
    requires a < |cvs|
  {
    forall b: nat :: Knows(p, cvs, a, b) ==> b in emitted
  }

  lemma MergeGrounded(p: Program, c: seq<Clock>, emitted: seq<nat>, act2: nat, act: nat)
    requires |c| == |p.s| && act < |p.s| && act2 < |p.s| && Blank(p, c) && Grounded(p, c, emitted)
    requires Ordered(p, c, act2, act) || OnlyTaken(p, c, emitted, act2)
    ensures Grounded(p, c[act := Join(c[act], c[act2])], emitted)
  {
    hide Edge, Reach;
    var c' := c[act := Join(c[act], c[act2])];
    JoinDominates(c, act2, act);
    forall x: nat, y: nat | Edge(p, c, x, y) ensures Edge(p, c', x, y) {
      EdgeMore(p, c, c', x, y);
    }
    var E, E' := EdgeSet(p, c), EdgeSet(p, c');
    assert E <= E';
    forall a: nat, b: nat | a < |p.s| && Knows(p, c', a, b) && b !in emitted ensures Reach(E', b, a) {
      if Knows(p, c, a, b) {
        ReachMono(E, E', b, a);
      } else {
        assert a == act && Knows(p, c, act2, b);
        ReachMono(E, E', b, act2);
        assert (act2, act) in E';
        ReachEdge(E', act2, act);
        ReachTrans(E', b, act2, act);
      }
    }
  }

  lemma {:induction false} PathCovers(p: Program, d: seq<Clock>, path: seq<nat>)
    requires |d| == |p.s| && Saturated(p, d) && IsPath(EdgeSet(p, d), path) && path[|path| - 1] < |p.s|
    ensures path[0] < |p.s| && Covers(d, path[|path| - 1], path[0])
    decreases |path|
  {
    hide Saturated, Edge;
    if |path| > 1 {
      var k := |path| - 2;
      assert (path[k], path[k + 1]) in EdgeSet(p, d);
      EdgeTakes(p, d, path[k], path[k + 1]);
      EdgeNumbered(p, d, path[k], path[k + 1]);
      var front := path[..k + 1];
      assert front[|front| - 1] == path[k];
      assert IsPath(EdgeSet(p, d), front) by {
        forall i | 0 <= i < |front| - 1 ensures (front[i], front[i + 1]) in EdgeSet(p, d) {
          assert (path[i], path[i + 1]) in EdgeSet(p, d);
        }
      }
      PathCovers(p, d, front);
      CoversTrans(d, path[0], path[k], path[k + 1]);
    }
  }

  lemma CoversTrans(d: seq<Clock>, a: nat, b: nat, c: nat)
    requires a < |d| && b < |d| && c < |d| && Covers(d, b, a) && Covers(d, c, b)
    ensures Covers(d, c, a)
  {
    forall t: nat ensures At(d[a], t) <= At(d[c], t) {
      assert At(d[a], t) <= At(d[b], t) <= At(d[c], t);
    }
  }

  /** With nothing left to take in, who knows of an action that is left knows all that it knows, and not mutually. */
  lemma KnownTakes(p: Program, cvs: seq<Clock>, emitted: seq<nat>, a: nat, b: nat)
    requires |cvs| == |p.s| && Saturated(p, cvs) && Grounded(p, cvs, emitted) && a < |p.s| && a != b
    requires Knows(p, cvs, a, b) && b !in emitted
    ensures Takes(p, cvs, a, b)
  {
    hide Saturated, Edge, Reach;
    var E := EdgeSet(p, cvs);
    ReachCases(E, b, a);
    var x := PlusLast(E, b, a);
    EdgeTakes(p, cvs, x, a);
    EdgeNumbered(p, cvs, x, a);
    ReachCovers(p, cvs, b, x);
    CoversTrans(cvs, b, x, a);
    if Knows(p, cvs, b, a) {
      KnowsUp(p, cvs, b, x, a);
    }
  }

  lemma ReachCovers(p: Program, d: seq<Clock>, a: nat, b: nat)
    requires |d| == |p.s| && Saturated(p, d) && Reach(EdgeSet(p, d), a, b) && b < |p.s|
    ensures a < |p.s| && Covers(d, b, a)
  {
    hide Saturated;
    var path :| PathFromTo(EdgeSet(p, d), path, a, b);
    PathCovers(p, d, path);
  }
}
