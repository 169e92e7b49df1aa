/**
 Clock vectors compute happens-before exactly: the test on clocks agrees with
 paths of program-order, creation and synchronization edges, whenever an edge
 is found, even long after later actions inherited stale clocks.
 */
module HappensBefore {
  import opened Digraph
  import opened Optional
  import opened Clocks
  import opened Actions

  /** Actions other than the placeholder for an uninitialized value have sequence numbers from 1 on. */
  predicate Numbered(s: Trace, a: nat) {
    a < |s| && !s[a].kind.Uninit?
  }

  ghost predicate WellClocked(s: Trace) {
    && (forall a: nat :: a < |s| && s[a].kind.Uninit? ==> s[a].tid == 0 && s[a].now == 0 && s[a].cv == [0])
    && (forall a: nat :: Numbered(s, a) ==> OwnClock(s[a]))
    && (forall a: nat, b: nat :: Numbered(s, a) && Numbered(s, b) && a < b ==> s[a].now < s[b].now)
  }

  /** A clock's own entry is the action's number, and no entry is later. */
  ghost predicate OwnClock(a: Action) {
    && 1 <= a.tid < |a.cv| && a.cv[a.tid] == a.now >= 1
    && forall t: nat :: At(a.cv, t) <= a.now
  }

  /** Edges go from numbered actions to later ones. */
  ghost predicate Forward(s: Trace, G: Edges) {
    forall a: nat, b: nat :: (a, b) in G ==> Numbered(s, a) && Numbered(s, b) && a < b
  }

  /** The test on clocks is reachability. */
  ghost predicate Exact(s: Trace, G: Edges) {
    forall a: nat, b: nat :: Numbered(s, a) && Numbered(s, b) ==> (HB(s, a, b) <==> Reach(G, a, b))
  }

  /** Whatever happens before an action is known to it in full. */
  ghost predicate Monotone(s: Trace) {
    forall a: nat, b: nat :: Numbered(s, a) && Numbered(s, b) && HB(s, a, b) ==> Le(s[a].cv, s[b].cv)
  }

  ghost predicate Clocked(s: Trace, G: Edges) {
    WellClocked(s) && Forward(s, G) && Exact(s, G) && Monotone(s)
  }

  lemma {:induction false} ForwardReach(s: Trace, G: Edges, a: nat, b: nat)
    requires Forward(s, G) && Reach(G, a, b)
    ensures a <= b && (a < b ==> Numbered(s, a) && Numbered(s, b))
  {
    var p :| PathFromTo(G, p, a, b);
    var i := 0;
    while i < |p| - 1
      invariant 0 <= i <= |p| - 1 && a <= p[i] && (i > 0 ==> a < p[i] && Numbered(s, a) && Numbered(s, p[i]))
    {
      assert (p[i], p[i + 1]) in G;
      i := i + 1;
    }
  }

  /** On numbered actions the test is a comparison with a clock entry. */
  lemma HBIsEntry(s: Trace, a: nat, b: nat)
    requires WellClocked(s) && Numbered(s, a) && b < |s|
    ensures HB(s, a, b) <==> s[a].now <= At(s[b].cv, s[a].tid)
  {
    assert OwnClock(s[a]);
  }

  /** Happens-before respects the order of the trace. */
  lemma HBForward(s: Trace, a: nat, b: nat)
    requires WellClocked(s) && Numbered(s, a) && Numbered(s, b) && HB(s, a, b)
    ensures a <= b
  {
    assert OwnClock(s[b]);
    assert At(s[b].cv, s[a].tid) <= s[b].now;
  }

  lemma HBRefl(s: Trace, a: nat)
    requires WellClocked(s) && Numbered(s, a)
    ensures HB(s, a, a)
  {
    assert OwnClock(s[a]);
  }

  lemma HBTrans(s: Trace, G: Edges, a: nat, b: nat, c: nat)
    requires Clocked(s, G) && a < |s| && Numbered(s, b) && Numbered(s, c) && HB(s, a, b) && HB(s, b, c)
    ensures HB(s, a, c)
  {
    if Numbered(s, a) {
      ReachTrans(G, a, b, c);
    } else {
      assert OwnClock(s[c]);
    }
  }

  /** Within one thread, happens-before is the order of the trace. */
  lemma HBSameThread(s: Trace, a: nat, b: nat)
    requires WellClocked(s) && Numbered(s, a) && Numbered(s, b) && s[a].tid == s[b].tid
    ensures HB(s, a, b) <==> a <= b
  {
    assert OwnClock(s[b]);
  }

  // ------------------------------------------------------------------
  // New actions
  // ------------------------------------------------------------------

  /** ModelAction::create_cv on the parent that get_parent_action names. */
  function WithClock(s: Trace, act: Action, parent: Option<nat>): (r: Action)
    requires parent.Some? ==> parent.value < |s|
    ensures r == act.(cv := r.cv)
    ensures r.cv == Tick(if parent.Some? then s[parent.value].cv else [], act.tid, act.now)
  {
    act.(cv := Tick(if parent.Some? then s[parent.value].cv else [], act.tid, act.now))
  }

  /** The parent is the thread's last action; a thread without actions has its creator's action, or none. */
  ghost predicate ParentOf(s: Trace, parent: Option<nat>, tid: nat) {
    match parent
    case Some(p) =>
      && Numbered(s, p)
      && (forall a: nat :: Numbered(s, a) && s[a].tid == tid ==> s[p].tid == tid && a <= p)
    case None => forall a: nat :: Numbered(s, a) ==> s[a].tid != tid
  }

  function ParentEdge(parent: Option<nat>, n: nat): (E: Edges)
  {
    if parent.Some? then {(parent.value, n)} else {}
  }

  lemma NewActionClocked(s: Trace, G: Edges, act: Action, parent: Option<nat>)
    requires Clocked(s, G) && ParentOf(s, parent, act.tid)
    requires !act.kind.Uninit? && act.tid >= 1 && act.now >= 1
    requires forall a: nat :: Numbered(s, a) ==> s[a].now < act.now
    ensures Clocked(s + [WithClock(s, act, parent)], G + ParentEdge(parent, |s|))
  {
    var s', G' := s + [WithClock(s, act, parent)], G + ParentEdge(parent, |s|);
    var n := |s|;
    NewOwnClock(s, act, parent);
    forall a: nat, b: nat | Numbered(s', a) && Numbered(s', b) && a < b ensures s'[a].now < s'[b].now {
      if b < n {
        assert Numbered(s, a) && Numbered(s, b);
      } else {
        assert Numbered(s, a);
      }
    }
    forall a: nat | Numbered(s', a) ensures OwnClock(s'[a]) {
      if a < n {
        assert Numbered(s, a);
      }
    }
    forall a: nat, b: nat | Numbered(s', a) && Numbered(s', b) ensures HB(s', a, b) <==> Reach(G', a, b) {
      NewActionReach(s, G, parent, a, b);
      HBIsEntry(s', a, b);
      if a < n && b < n {
        HBIsEntry(s, a, b);
      } else if a < n {
        NewActionEntry(s, G, act, parent, a);
      } else if b < n {
        assert Numbered(s, b) && OwnClock(s[b]);
        assert At(s[b].cv, act.tid) <= s[b].now;
      }
    }
    forall a: nat, b: nat | Numbered(s', a) && Numbered(s', b) && HB(s', a, b) ensures Le(s'[a].cv, s'[b].cv) {
      NewActionReach(s, G, parent, a, b);
      if a < n && b < n {
        assert HB(s, a, b);
      } else if a < n {
        NewMonotone(s, G, act, parent, a);
      }
    }
  }

  lemma NewMonotone(s: Trace, G: Edges, act: Action, parent: Option<nat>, a: nat)
    requires Clocked(s, G) && ParentOf(s, parent, act.tid) && Numbered(s, a) && s[a].now < act.now
    requires forall b: nat :: Numbered(s, b) ==> s[b].now < act.now
    requires parent.Some? && HB(s, a, parent.value)
    ensures Le(s[a].cv, WithClock(s, act, parent).cv)
  {
    var r := WithClock(s, act, parent);
    assert OwnClock(s[a]);
    forall t: nat ensures At(s[a].cv, t) <= At(r.cv, t) {
      if t == act.tid {
        assert At(s[a].cv, t) <= s[a].now;
      }
    }
  }

  lemma NewOwnClock(s: Trace, act: Action, parent: Option<nat>)
    requires WellClocked(s) && ParentOf(s, parent, act.tid)
    requires !act.kind.Uninit? && act.tid >= 1 && act.now >= 1
    requires forall a: nat :: Numbered(s, a) ==> s[a].now < act.now
    ensures OwnClock(WithClock(s, act, parent))
  {
    var r := WithClock(s, act, parent);
    if parent.Some? {
      assert OwnClock(s[parent.value]);
      forall t: nat ensures At(r.cv, t) <= act.now {
        if t != act.tid {
          assert At(s[parent.value].cv, t) <= s[parent.value].now;
        }
      }
    }
  }

  /** Paths to and from the new action. */
  lemma NewActionReach(s: Trace, G: Edges, parent: Option<nat>, a: nat, b: nat)
    requires Forward(s, G) && (parent.Some? ==> parent.value < |s|) && a <= |s| && b <= |s|
    ensures var G' := G + ParentEdge(parent, |s|);
            Reach(G', a, b) <==>
            if a == |s| then b == |s|
            else if b < |s| then Reach(G, a, b)
            else parent.Some? && Reach(G, a, parent.value)
  {
    var n := |s|;
    if parent.Some? {
      ReachAddEdge(G, parent.value, n, a, b);
    } else {
      assert G + ParentEdge(parent, n) == G;
    }
    forall x: nat, y: nat | Reach(G, x, y) && (x == n || y == n) ensures x == y {
      ForwardReach(s, G, x, y);
    }
    ReachRefl(G, n);
    if a == n && b == n {
      ReachRefl(G + ParentEdge(parent, n), n);
    }
  }

  /** What the new action's clock says of earlier actions. */
  lemma NewActionEntry(s: Trace, G: Edges, act: Action, parent: Option<nat>, a: nat)
    requires Clocked(s, G) && ParentOf(s, parent, act.tid) && Numbered(s, a) && s[a].now < act.now
    ensures s[a].now <= At(WithClock(s, act, parent).cv, s[a].tid) <==> parent.Some? && Reach(G, a, parent.value)
  {
    assert OwnClock(s[a]);
    if parent.Some? {
      var p := parent.value;
      HBIsEntry(s, a, p);
      if s[a].tid == act.tid {
        HBSameThread(s, a, p);
      }
    }
  }

  /** A placeholder for an uninitialized value changes nothing among numbered actions. */
  lemma NewUninitClocked(s: Trace, G: Edges, u: Action)
    requires Clocked(s, G) && u.kind.Uninit? && u.tid == 0 && u.now == 0 && u.cv == [0]
    ensures Clocked(s + [u], G)
  {
    var s' := s + [u];
    assert forall a: nat :: Numbered(s', a) <==> Numbered(s, a);
    assert forall a: nat :: a < |s| ==> s'[a] == s[a];
    forall a: nat, b: nat | Numbered(s', a) && Numbered(s', b) ensures HB(s', a, b) <==> Reach(G, a, b) {
      assert HB(s', a, b) <==> HB(s, a, b);
    }
  }

  /** A placeholder happens before everything; nothing numbered happens before it. */
  lemma UninitFirst(s: Trace, u: nat, b: nat)
    requires WellClocked(s) && u < |s| && b < |s| && s[u].kind.Uninit?
    ensures HB(s, u, b)
    ensures Numbered(s, b) ==> !HB(s, b, u)
  {
    if Numbered(s, b) {
      assert OwnClock(s[b]);
    }
  }

  // ------------------------------------------------------------------
  // Synchronization, early or late
  // ------------------------------------------------------------------

  /** `x` synchronizes with `h`: `x` and everything after it inherit the clock of `h`. */
  function Sync(s: Trace, h: nat, x: nat): (s': Trace)
    requires h < |s| && x < |s|
    ensures |s'| == |s|
    ensures forall y :: 0 <= y < |s| ==> s'[y] == if HB(s, x, y) then s[y].(cv := Join(s[y].cv, s[h].cv)) else s[y]
  {
    seq(|s|, y requires 0 <= y < |s| => if HB(s, x, y) then s[y].(cv := Join(s[y].cv, s[h].cv)) else s[y])
  }

  lemma SyncOwnClock(s: Trace, h: nat, x: nat, y: nat)
    requires WellClocked(s) && Numbered(s, h) && Numbered(s, x) && Numbered(s, y) && h < x
    ensures OwnClock(Sync(s, h, x)[y])
  {
    assert OwnClock(s[y]);
    assert OwnClock(s[h]);
    if HB(s, x, y) {
      HBForward(s, x, y);
      forall t: nat ensures At(s[h].cv, t) <= s[y].now {
        assert At(s[h].cv, t) <= s[h].now;
      }
      assert At(s[h].cv, s[y].tid) <= s[y].now;
    }
  }

  /** One synchronization edge, found at any time, keeps the clocks exact. */
  lemma SyncClocked(s: Trace, G: Edges, h: nat, x: nat)
    requires Clocked(s, G) && Numbered(s, h) && Numbered(s, x) && h < x
    ensures Clocked(Sync(s, h, x), G + {(h, x)})
  {
    var s', G' := Sync(s, h, x), G + {(h, x)};
    hide Reach, OwnClock, WellClocked, Le;
    SyncWellClocked(s, h, x);
    forall a: nat, b: nat | Numbered(s', a) && Numbered(s', b) && HB(s', a, b) ensures Le(s'[a].cv, s'[b].cv) {
      SyncMonotone(s, G, h, x, a, b);
    }
    forall a: nat, b: nat | Numbered(s', a) && Numbered(s', b) ensures HB(s', a, b) <==> Reach(G', a, b) {
      SyncPair(s, G, h, x, a, b);
    }
  }

  lemma SyncPair(s: Trace, G: Edges, h: nat, x: nat, a: nat, b: nat)
    requires Clocked(s, G) && Numbered(s, h) && Numbered(s, x) && h < x && Numbered(s, a) && Numbered(s, b)
    ensures HB(Sync(s, h, x), a, b) <==> Reach(G + {(h, x)}, a, b)
  {
    SyncWellClocked(s, h, x);
    HBIsEntry(Sync(s, h, x), a, b);
    HBIsEntry(s, a, b);
    HBIsEntry(s, a, h);
    ReachAddEdge(G, h, x, a, b);
  }

  lemma SyncMonotone(s: Trace, G: Edges, h: nat, x: nat, a: nat, b: nat)
    requires Clocked(s, G) && Numbered(s, h) && Numbered(s, x) && h < x && Numbered(s, a) && Numbered(s, b)
    requires HB(Sync(s, h, x), a, b)
    ensures Le(Sync(s, h, x)[a].cv, Sync(s, h, x)[b].cv)
  {
    SyncPair(s, G, h, x, a, b);
    ReachAddEdge(G, h, x, a, b);
    if HB(s, x, a) {
      if Reach(G, a, h) {
        ReachTrans(G, x, a, h);
        ForwardReach(s, G, x, h);
      }
      ReachTrans(G, x, a, b);
    }
  }

  lemma SyncWellClocked(s: Trace, h: nat, x: nat)
    requires WellClocked(s) && Numbered(s, h) && Numbered(s, x) && h < x
    ensures WellClocked(Sync(s, h, x))
  {
    var s' := Sync(s, h, x);
    forall a: nat | Numbered(s', a) ensures OwnClock(s'[a]) {
      SyncOwnClock(s, h, x, a);
    }
    forall a: nat | a < |s'| && s'[a].kind.Uninit? ensures s'[a] == s[a] {
      UninitFirst(s, a, x);
    }
  }

  /** A sequence of synchronizations of one action. */
  function SyncAll(s: Trace, hs: seq<nat>, x: nat): (s': Trace)
    requires x < |s| && forall i :: 0 <= i < |hs| ==> hs[i] < |s|
    ensures |s'| == |s|
    decreases |hs|
  {
    if hs == [] then s else Sync(SyncAll(s, hs[..|hs| - 1], x), hs[|hs| - 1], x)
  }

  ghost function SyncEdges(hs: seq<nat>, x: nat): Edges {
    set h | h in hs :: (h, x)
  }

  ghost predicate Heads(s: Trace, hs: seq<nat>, x: nat) {
    forall i :: 0 <= i < |hs| ==> Numbered(s, hs[i]) && hs[i] < x
  }

  lemma {:induction false} SyncAllClocked(s: Trace, G: Edges, hs: seq<nat>, x: nat)
    requires Clocked(s, G) && Numbered(s, x) && Heads(s, hs, x)
    ensures Clocked(SyncAll(s, hs, x), G + SyncEdges(hs, x))
    ensures forall a: nat :: Numbered(SyncAll(s, hs, x), a) <==> Numbered(s, a)
    decreases |hs|
  {
    hide Clocked, Reach;
    if hs == [] {
      assert G + SyncEdges(hs, x) == G;
    } else {
      var init, h := hs[..|hs| - 1], hs[|hs| - 1];
      assert hs == init + [h];
      SyncAllClocked(s, G, init, x);
      SyncClocked(SyncAll(s, init, x), G + SyncEdges(init, x), h, x);
      assert SyncEdges(hs, x) == SyncEdges(init, x) + {(h, x)};
      assert G + SyncEdges(hs, x) == G + SyncEdges(init, x) + {(h, x)};
    }
  }

  // ------------------------------------------------------------------
  // The program's way: join the heads into `x`, then push `x` forward
  // ------------------------------------------------------------------

  function JoinAll(c: Clock, s: Trace, hs: seq<nat>): Clock
    requires forall i :: 0 <= i < |hs| ==> hs[i] < |s|
    decreases |hs|
  {
    if hs == [] then c else Join(JoinAll(c, s, hs[..|hs| - 1]), s[hs[|hs| - 1]].cv)
  }

  /** What SyncAll does to each clock. */
  lemma {:induction false} SyncAllAt(s: Trace, G: Edges, hs: seq<nat>, x: nat, y: nat)
    requires Clocked(s, G) && Numbered(s, x) && Heads(s, hs, x) && y < |s|
    ensures SyncAll(s, hs, x)[y] ==
            if HB(s, x, y) then s[y].(cv := JoinAll(s[y].cv, s, hs)) else s[y]
    decreases |hs|
  {
    hide Exact, Monotone, Reach;
    if hs != [] {
      var init, h := hs[..|hs| - 1], hs[|hs| - 1];
      SyncAllAt(s, G, init, x, y);
      SyncAllAt(s, G, init, x, h);
      SyncAllAt(s, G, init, x, x);
      if HB(s, x, h) {
        HBForward(s, x, h);
      }
      JoinAllGrows(s[y].cv, s, init);
      JoinAllUncounted(s, G, init, x, y);
    }
  }

  lemma {:induction false} JoinAllGrows(c: Clock, s: Trace, hs: seq<nat>)
    requires forall i :: 0 <= i < |hs| ==> hs[i] < |s|
    ensures Le(c, JoinAll(c, s, hs))
    decreases |hs|
  {
    if hs != [] {
      JoinAllGrows(c, s, hs[..|hs| - 1]);
    }
  }

  /** Joining heads into `y` does not change whether `x` happens before it. */
  lemma JoinAllUncounted(s: Trace, G: Edges, hs: seq<nat>, x: nat, y: nat)
    requires Clocked(s, G) && Numbered(s, x) && Heads(s, hs, x) && y < |s|
    ensures HB(s, x, y) ==> Since(JoinAll(s[y].cv, s, hs), s[x].tid, s[x].now)
  {
    JoinAllGrows(s[y].cv, s, hs);
  }

  /** Pushing the clock of `x` forward gives each later action what SyncAll gives it. */
  lemma {:induction false} PushedIsSynced(s: Trace, hs: seq<nat>, c: Clock, d: Clock)
    requires Le(c, d) && forall i :: 0 <= i < |hs| ==> hs[i] < |s|
    ensures Join(d, JoinAll(c, s, hs)) == JoinAll(d, s, hs)
    decreases |hs|
  {
    if hs == [] {
      JoinLe(d, c);
    } else {
      PushedIsSynced(s, hs[..|hs| - 1], c, d);
      JoinAssociates(d, JoinAll(c, s, hs[..|hs| - 1]), s[hs[|hs| - 1]].cv);
    }
  }

  // ------------------------------------------------------------------
  // What clocks do not depend on
  // ------------------------------------------------------------------

  ghost predicate SameTiming(s: Trace, s': Trace) {
    |s| == |s'| &&
    forall a: nat :: a < |s| ==>
      s'[a].tid == s[a].tid && s'[a].now == s[a].now && s'[a].cv == s[a].cv &&
          (s'[a].kind.Uninit? <==> s[a].kind.Uninit?)
  }

  lemma SameTimingClocked(s: Trace, s': Trace, G: Edges)
    requires Clocked(s, G) && SameTiming(s, s')
    ensures Clocked(s', G)
  {
    hide Reach, Le;
    forall a: nat | Numbered(s', a) ensures OwnClock(s'[a]) {
      assert Numbered(s, a) && OwnClock(s[a]);
    }
    assert forall a: nat :: Numbered(s', a) <==> Numbered(s, a);
    assert forall a: nat, b: nat :: a < |s| && b < |s| ==> (HB(s', a, b) <==> HB(s, a, b));
  }

  lemma SameTimingHB(s: Trace, s': Trace, a: nat, b: nat)
    requires SameTiming(s, s') && a < |s| && b < |s|
    ensures HB(s', a, b) <==> HB(s, a, b)
  {
  }

  // ------------------------------------------------------------------
  // What a run does to the actions of a trace
  // ------------------------------------------------------------------

  /** What later steps leave of an action: its clock may grow, and a read in progress may be completed. */
  ghost predicate Kept(x: Action, y: Action) {
    && y.tid == x.tid && y.now == x.now && y.loc == x.loc && y.lastFence == x.lastFence && Le(x.cv, y.cv)
    && (x.kind.Uninit? <==> y.kind.Uninit?) && (x.kind.IsRead() ==> y.kind.IsRead()) &&
          (x.rf.Some? || x.kind.IsWrite() ==> y.rf == x.rf)
    && (!x.kind.Rmwr? ==> y.kind == x.kind && y.order == x.order)
  }

  /** `s'` is what a run has made of `s`, in which only the last action can be in progress. */
  ghost predicate Evolved(s: Trace, s': Trace) {
    |s| <= |s'| && forall a: nat :: a < |s| ==> Kept(s[a], s'[a]) && (a + 1 < |s| ==> s'[a] == s[a].(cv := s'[a].cv))
  }

  lemma EvolvedAt(s: Trace, s': Trace, a: nat)
    requires Evolved(s, s') && a < |s|
    ensures a < |s'| && Kept(s[a], s'[a]) && (s'[a].kind.IsRead() ==> s[a].kind.IsRead())
  {
    assert Kept(s[a], s'[a]);
  }

  lemma EvolvedSame(s: Trace)
    ensures Evolved(s, s)
  {
  }

  /** The states that a run comes to, with the edges of happens-before in each. */
  ghost predicate Trail(ss: seq<Trace>, Gs: seq<Edges>) {
    && |ss| == |Gs|
    && (forall k: nat :: k < |ss| ==> Clocked(ss[k], Gs[k]) && RealEntries(ss[k]))
    && forall i: nat, k: nat :: i <= k < |ss| ==> Evolved(ss[i], ss[k])
  }

  lemma TrailMore(ss: seq<Trace>, Gs: seq<Edges>, s: Trace, G: Edges)
    requires Trail(ss, Gs) && ss != [] && Evolved(ss[|ss| - 1], s) && Clocked(s, G) && RealEntries(s)
    ensures Trail(ss + [s], Gs + [G])
  {
    hide Evolved, Clocked, RealEntries;
    var more := ss + [s];
    EvolvedSame(s);
    forall i: nat, k: nat | i <= k < |more| ensures Evolved(more[i], more[k]) {
      if i < |ss| <= k {
        EvolvedTrans(ss[i], ss[|ss| - 1], s);
      }
    }
  }

  lemma EvolvedTrans(s: Trace, s': Trace, s'': Trace)
    requires Evolved(s, s') && Evolved(s', s'')
    ensures Evolved(s, s'')
  {
    forall a: nat | a < |s| ensures Kept(s[a], s''[a]) && (a + 1 < |s| ==> s''[a] == s[a].(cv := s''[a].cv)) {
      assert Kept(s[a], s'[a]) && Kept(s'[a], s''[a]);
    }
  }

  /** What happened before still does. */
  lemma EvolvedHB(s: Trace, s': Trace, a: nat, b: nat)
    requires Evolved(s, s') && a < |s| && b < |s| && HB(s, a, b)
    ensures HB(s', a, b)
  {
    assert Kept(s[a], s'[a]) && Kept(s[b], s'[b]);
    assert At(s[b].cv, s[a].tid) <= At(s'[b].cv, s[a].tid);
  }

  /** The entries of a clock are numbers of actions, those of other threads too. */
  ghost predicate RealEntries(s: Trace) {
    forall a: nat, t: nat :: Numbered(s, a) && At(s[a].cv, t) > 0 ==> IsNumber(s, t, At(s[a].cv, t))
  }

  /** Thread `t` has an action with number `n`. */
  ghost predicate IsNumber(s: Trace, t: nat, n: nat) {
    exists b: nat :: Numbered(s, b) && s[b].tid == t && s[b].now == n
  }

  lemma SameNumbers(s: Trace, s': Trace, t: nat, n: nat)
    requires |s| <= |s'| && IsNumber(s, t, n)
    requires forall a: nat :: Numbered(s, a) ==> Numbered(s', a) && s'[a].tid == s[a].tid && s'[a].now == s[a].now
    ensures IsNumber(s', t, n)
  {
    var b: nat :| Numbered(s, b) && s[b].tid == t && s[b].now == n;
    assert Numbered(s', b);
  }

  lemma RealNew(s: Trace, act: Action, parent: Option<nat>)
    requires RealEntries(s) && (parent.Some? ==> Numbered(s, parent.value)) && !act.kind.Uninit?
    ensures RealEntries(s + [WithClock(s, act, parent)])
  {
    var s' := s + [WithClock(s, act, parent)];
    forall a: nat, t: nat | Numbered(s', a) && At(s'[a].cv, t) > 0 ensures IsNumber(s', t, At(s'[a].cv, t)) {
      if a == |s| && t == act.tid {
        assert Numbered(s', |s|);
      } else {
        var b := if a < |s| then a else parent.value;
        assert Numbered(s, b);
        SameNumbers(s, s', t, At(s[b].cv, t));
      }
    }
  }

  lemma RealSync(s: Trace, h: nat, x: nat)
    requires RealEntries(s) && Numbered(s, h) && x < |s|
    ensures RealEntries(Sync(s, h, x))
  {
    var s' := Sync(s, h, x);
    forall a: nat, t: nat | Numbered(s', a) && At(s'[a].cv, t) > 0 ensures IsNumber(s', t, At(s'[a].cv, t)) {
      assert Numbered(s, a);
      var b := if At(s[a].cv, t) == At(s'[a].cv, t) then a else h;
      SameNumbers(s, s', t, At(s[b].cv, t));
    }
  }

  lemma {:induction false} RealSyncAll(s: Trace, hs: seq<nat>, x: nat)
    requires RealEntries(s) && x < |s| && Heads(s, hs, x)
    ensures RealEntries(SyncAll(s, hs, x))
    ensures forall a: nat :: Numbered(SyncAll(s, hs, x), a) <==> Numbered(s, a)
    decreases |hs|
  {
    hide RealEntries;
    if hs != [] {
      var init, h := hs[..|hs| - 1], hs[|hs| - 1];
      RealSyncAll(s, init, x);
      RealSync(SyncAll(s, init, x), h, x);
    }
  }
}
