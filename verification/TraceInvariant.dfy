/**
 What the model checker keeps about a trace: exact clocks, and ordering
 constraints that reflect every happens-before pair except those that the work
 queue will re-check. Each step of check_current_action keeps it.
 */
module TraceInvariant {
  import opened Digraph
  import opened Optional
  import opened Clocks
  import opened Actions
  import opened HappensBefore
  import opened Coherence

  /** Read-modify-writes are ordered after what they read. */
  ghost predicate RmwLinked(s: Trace, M: Edges) {
    forall a: nat :: a < |s| && s[a].kind.Rmw? && s[a].rf.Some? ==> (s[a].rf.value, a) in M
  }

  /** Constraints are about writes. */
  ghost predicate WritesOnly(s: Trace, M: Edges) {
    forall a, b :: (a, b) in M ==> a < |s| && b < |s| && s[a].kind.IsWrite() && s[b].kind.IsWrite()
  }

  ghost predicate ThreadsBelow(s: Trace, threads: nat) {
    forall a: nat :: a < |s| ==> s[a].tid < threads
  }

  /** The invariant, except that the actions of `except` are still being processed. */
  ghost predicate ConsistentBut(s: Trace, G: Edges, M: Edges, pending: set<nat>, except: set<nat>) {
    && Clocked(s, G)
    && ReadsKnown(s, except) && UninitOnce(s)
    && OwnSettled(s, M, except) && Settled(s, M, pending + except)
    && RmwLinked(s, M) && WritesOnly(s, M)
  }

  ghost predicate Consistent(s: Trace, G: Edges, M: Edges, pending: set<nat>) {
    ConsistentBut(s, G, M, pending, {})
  }

  /** What happens before the read `curr` is ordered no later than what it reads from. */
  ghost predicate ReadDone(s: Trace, M: Edges, curr: nat) {
    ReadsKnown(s, {curr}) && curr < |s| &&
    (s[curr].kind.IsRead() ==>
       ReadKnown(s, curr) &&
       forall a: nat :: SameLocation(s, a, curr) && HB(s, a, curr) ==> Reach(M, Stands(s, a), s[curr].rf.value))
  }

  /** What happens before the write `curr` is ordered before it. */
  ghost predicate WriteDone(s: Trace, M: Edges, curr: nat) {
    ReadsKnown(s, {curr}) && curr < |s| &&
    (s[curr].kind.IsWrite() ==>
       forall a: nat :: SameLocation(s, a, curr) && HB(s, a, curr) ==> Plus(M, Stands(s, a), curr))
  }

  // ------------------------------------------------------------------
  // More constraints, and the end of processing
  // ------------------------------------------------------------------

  lemma SoundMono(s: Trace, G: Edges, M: Edges, M': Edges, pending: set<nat>, except: set<nat>)
    requires ConsistentBut(s, G, M, pending, except) && M <= M' && WritesOnly(s, M')
    ensures ConsistentBut(s, G, M', pending, except)
  {
    hide Clocked, HB, Reach;
    forall a: nat, b: nat | SameLocation(s, a, b) && HB(s, a, b) && b !in pending + except && Known(s, a) && Known(s, b)
      ensures Coherent(s, M', a, b)
    {
      assert Coherent(s, M, a, b);
      CoherentMono(s, M, M', a, b);
    }
    forall a: nat, b: nat | SameThreadPair(s, a, b) && b !in except && Known(s, a) && Known(s, b)
      ensures Coherent(s, M', a, b)
    {
      assert Coherent(s, M, a, b);
      CoherentMono(s, M, M', a, b);
    }
  }

  /** Once both parts of an action are reflected, it is settled. */
  lemma Processed(s: Trace, G: Edges, M: Edges, pending: set<nat>, curr: nat)
    requires ConsistentBut(s, G, M, pending, {curr}) && curr < |s| && ReadDone(s, M, curr) && WriteDone(s, M, curr)
    ensures Consistent(s, G, M, pending - {curr})
  {
    hide Reach, Exact, Forward, Monotone;
    forall a: nat, b: nat | SameLocation(s, a, b) && HB(s, a, b) && b !in pending - {curr} && Known(s, a) && Known(s, b)
      ensures Coherent(s, M, a, b)
    {
      if b != curr {
        assert b !in pending + {curr};
      }
    }
    forall a: nat, b: nat | SameThreadPair(s, a, b) && Known(s, a) && Known(s, b)
      ensures Coherent(s, M, a, b)
    {
      if b == curr {
        OwnHB(s, a, b);
      }
    }
  }

  /** Thread order within a location is happens-before. */
  lemma OwnHB(s: Trace, a: nat, b: nat)
    requires WellClocked(s) && UninitOnce(s) && SameThreadPair(s, a, b)
    ensures HB(s, a, b)
  {
    if s[a].kind.Uninit? {
      UninitFirst(s, a, b);
    } else {
      assert OwnClock(s[a]);
      assert !s[b].kind.Uninit?;
      HBSameThread(s, a, b);
    }
  }

  lemma ReadProcessed(s: Trace, G: Edges, M: Edges, pending: set<nat>, curr: nat, rf: nat, threads: nat)
    requires ConsistentBut(s, G, M, pending, {curr}) && curr < |s| && rf < |s| && s[rf].kind.IsWrite()
    requires ReadOrdered(s, M, curr, rf, threads) && ThreadsBelow(s, threads)
    ensures forall a: nat :: SameLocation(s, a, curr) && HB(s, a, curr) ==> Reach(M, Stands(s, a), rf)
  {
    hide Reach, Clocked, HB, ReadOrdered, OwnSettled, Settled;
    forall a: nat | SameLocation(s, a, curr) && HB(s, a, curr) ensures Reach(M, Stands(s, a), rf) {
      ReadOrderedCoherent(s, M, curr, rf, threads, a);
    }
  }

  lemma WriteProcessed(s: Trace, G: Edges, M: Edges, pending: set<nat>, curr: nat, threads: nat)
    requires ConsistentBut(s, G, M, pending, {curr}) && curr < |s|
    requires s[curr].kind.IsWrite() && WriteOrdered(s, M, curr, threads) && ThreadsBelow(s, threads)
    requires ReadDone(s, M, curr)
    ensures WriteDone(s, M, curr)
  {
    hide Reach, Clocked, HB, WriteOrdered, OwnSettled, Settled;
    forall a: nat | SameLocation(s, a, curr) && HB(s, a, curr) ensures Plus(M, Stands(s, a), curr) {
      if s[curr].kind.Rmw? && s[curr].rf.Some? && s[a].tid == s[curr].tid {
        EdgePlus(M, s[curr].rf.value, curr);
        ReachThenPlus(M, Stands(s, a), s[curr].rf.value, curr);
      } else {
        WriteOrderedCoherent(s, M, curr, threads, a);
      }
    }
  }

  lemma ReadDoneMono(s: Trace, M: Edges, M': Edges, curr: nat)
    requires ReadDone(s, M, curr) && M <= M'
    ensures ReadDone(s, M', curr)
  {
    hide HB, Reach;
    forall a: nat | s[curr].kind.IsRead() && SameLocation(s, a, curr) && HB(s, a, curr)
      ensures Reach(M', Stands(s, a), s[curr].rf.value)
    {
      ReachMono(M, M', Stands(s, a), s[curr].rf.value);
    }
  }

  /** The edges of w_modification_order finish the processing of a write. */
  lemma WriteTaken(s: Trace, G: Edges, M: Edges, M': Edges, pending: set<nat>, curr: nat, threads: nat)
    requires ConsistentBut(s, G, M, pending, {curr}) && ReadDone(s, M, curr) && M <= M' && WritesOnly(s, M')
    requires curr < |s| && s[curr].kind.IsWrite() && WriteOrdered(s, M', curr, threads) && ThreadsBelow(s, threads)
    ensures Consistent(s, G, M', pending - {curr})
  {
    hide Clocked, HB, ReadOrdered, OwnSettled, Settled, ReadsKnown, UninitOnce, RmwLinked, ReadDone, WriteDone,
         WriteOrdered;
    SoundMono(s, G, M, M', pending, {curr});
    ReadDoneMono(s, M, M', curr);
    WriteProcessed(s, G, M', pending, curr, threads);
    Processed(s, G, M', pending, curr);
  }

  // ------------------------------------------------------------------
  // A new action
  // ------------------------------------------------------------------

  lemma NewActionSound(s: Trace, G: Edges, M: Edges, act: Action, parent: Option<nat>)
    requires Consistent(s, G, M, {}) && ParentOf(s, parent, act.tid)
    requires !act.kind.Uninit? && !act.kind.Rmw? && act.tid >= 1 && act.now >= 1
    requires forall a: nat :: Numbered(s, a) ==> s[a].now < act.now
    ensures ConsistentBut(s + [WithClock(s, act, parent)], G + ParentEdge(parent, |s|), M, {}, {|s|})
  {
    var s' := s + [WithClock(s, act, parent)];
    var n := |s|;
    NewActionClocked(s, G, act, parent);
    Extension(s, s', M, n);
    hide Clocked, Reach, Le;
    forall a: nat, b: nat | SameLocation(s', a, b) && HB(s', a, b) && b !in {n} && Known(s', a) && Known(s', b)
      ensures Coherent(s', M, a, b)
    {
      if a == n {
        LastBeforeNone(s', G + ParentEdge(parent, n), n, b);
      } else {
        assert HB(s, a, b);
        assert Coherent(s, M, a, b);
      }
    }
  }

  /** The last action happens before no other. */
  lemma LastBeforeNone(s: Trace, G: Edges, n: nat, b: nat)
    requires Clocked(s, G) && n + 1 == |s| && b < n && Numbered(s, n)
    ensures !HB(s, n, b)
  {
    if s[b].kind.Uninit? {
      UninitFirst(s, b, n);
    } else if HB(s, n, b) {
      HBForward(s, n, b);
    }
  }

  /** What appending one action leaves as it was. */
  lemma Extension(s: Trace, s': Trace, M: Edges, n: nat)
    requires n == |s| && |s'| == n + 1 && s' == s + [s'[n]] && !s'[n].kind.Uninit? && !s'[n].kind.Rmw?
    requires ReadsKnown(s, {}) && UninitOnce(s) && OwnSettled(s, M, {}) && RmwLinked(s, M) && WritesOnly(s, M)
    ensures ReadsKnown(s', {n}) && UninitOnce(s') && OwnSettled(s', M, {n}) && RmwLinked(s', M) && WritesOnly(s', M)
    ensures forall a: nat :: a < n ==> (Known(s', a) <==> Known(s, a)) && s'[a] == s[a]
  {
    hide Reach;
    assert forall a: nat :: a < n ==> s'[a] == s[a];
    forall a: nat | a < n ensures Known(s', a) <==> Known(s, a) {
      if s[a].kind.IsRead() {
        assert ReadKnown(s, a);
      }
    }
    forall a: nat | a < |s'| && a !in {n} && s'[a].kind.IsRead() ensures ReadKnown(s', a) {
      assert ReadKnown(s, a);
    }
    forall a: nat, b: nat | SameThreadPair(s', a, b) && b !in {n} && Known(s', a) && Known(s', b)
      ensures Coherent(s', M, a, b)
    {
      assert SameThreadPair(s, a, b);
      assert Coherent(s, M, a, b);
    }
    forall a: nat, b: nat | SameLocation(s', a, b) && s'[b].kind.Uninit? ensures b < a && !s'[a].kind.Uninit? {
      if a < n {
        assert SameLocation(s, a, b);
      }
    }
  }

  /** get_uninitialized_action: the first action on a location brings a placeholder along. */
  lemma NewUninitSound(s: Trace, G: Edges, M: Edges, u: Action)
    requires Consistent(s, G, M, {}) && u.kind.Uninit? && u.tid == 0 && u.now == 0 && u.cv == [0] && u.rf.None?
    requires forall a: nat :: a < |s| && s[a].kind.IsAtomic() ==> s[a].loc != u.loc
    ensures Consistent(s + [u], G, M, {})
  {
    var s' := s + [u];
    NewUninitClocked(s, G, u);
    hide Clocked, Reach;
    assert forall a: nat :: a < |s| ==> s'[a] == s[a];
    forall a: nat | a < |s'| && s'[a].kind.IsRead() ensures ReadKnown(s', a) {
      assert ReadKnown(s, a);
    }
    forall a: nat | a < |s| ensures Known(s', a) <==> Known(s, a) {
      if s[a].kind.IsRead() {
        assert ReadKnown(s, a);
      }
    }
    forall a: nat, b: nat | SameLocation(s', a, b) ensures SameLocation(s, a, b) {
    }
    forall a: nat, b: nat | SameThreadPair(s', a, b) && Known(s', a) && Known(s', b) ensures Coherent(s', M, a, b) {
      assert SameThreadPair(s, a, b);
      assert Coherent(s, M, a, b);
    }
    forall a: nat, b: nat | SameLocation(s', a, b) && HB(s', a, b) && Known(s', a) && Known(s', b)
      ensures Coherent(s', M, a, b)
    {
      assert HB(s, a, b);
      assert Coherent(s, M, a, b);
    }
  }

  // ------------------------------------------------------------------
  // A read that takes its write
  // ------------------------------------------------------------------

  function SetRf(s: Trace, curr: nat, w: nat): (s': Trace)
    requires curr < |s|
    ensures |s'| == |s|
    ensures forall a :: 0 <= a < |s| ==> s'[a] == if a == curr then s[a].(rf := Some(w)) else s[a]
  {
    s[curr := s[curr].(rf := Some(w))]
  }

  lemma ReadSound(s: Trace, G: Edges, M: Edges, curr: nat, w: nat, threads: nat)
    requires ConsistentBut(s, G, M, {}, {curr}) && curr + 1 == |s| && !s[curr].kind.IsWrite() && s[curr].kind.IsRead()
    requires w < curr && s[w].kind.IsWrite() && s[w].loc == s[curr].loc
    requires ReadOrdered(s, M, curr, w, threads) && ThreadsBelow(s, threads)
    ensures Consistent(SetRf(s, curr, w), G, M, {})
  {
    var s' := SetRf(s, curr, w);
    ReadProcessed(s, G, M, {}, curr, w, threads);
    SetRfFrame(s, G, M, curr, w);
    assert ReadKnown(s', curr);
    hide Clocked, Reach, ReadOrdered, Settled, OwnSettled;
    forall a: nat | SameLocation(s', a, curr) && HB(s', a, curr) ensures Reach(M, Stands(s', a), w) {
      assert HB(s, a, curr) && SameLocation(s, a, curr);
    }
    Processed(s', G, M, {}, curr);
    assert {} - {curr} == {};
  }

  lemma SetRfFrame(s: Trace, G: Edges, M: Edges, curr: nat, w: nat)
    requires ConsistentBut(s, G, M, {}, {curr}) && curr + 1 == |s| && !s[curr].kind.IsWrite() && s[curr].kind.IsRead()
    requires w < curr && s[w].kind.IsWrite() && s[w].loc == s[curr].loc
    ensures ConsistentBut(SetRf(s, curr, w), G, M, {}, {curr}) && ReadsKnown(SetRf(s, curr, w), {})
  {
    var s' := SetRf(s, curr, w);
    SameTimingClocked(s, s', G);
    ReplaceLast(s, s', G, M, curr);
    ReplacedKnown(s, s', curr);
    ReplacedRest(s, s', M, curr);
  }

  /** With its last action replaced by one that reads as it should, a trace still reads as it should. */
  lemma ReplacedKnown(s: Trace, s': Trace, curr: nat)
    requires ReadsKnown(s, {curr}) && |s'| == |s| && curr < |s| && forall x: nat :: x < |s| && x != curr ==>
               s'[x] == s[x]
    requires s'[curr].loc == s[curr].loc && (s[curr].kind.IsWrite() ==> s'[curr].kind.IsWrite())
    requires s'[curr].kind.IsRead() ==> ReadKnown(s', curr)
    ensures ReadsKnown(s', {})
  {
    forall a: nat | a < |s| && s'[a].kind.IsRead() ensures ReadKnown(s', a) {
      assert a != curr ==> ReadKnown(s, a);
    }
  }

  lemma ReplacedRest(s: Trace, s': Trace, M: Edges, curr: nat)
    requires |s'| == |s| && curr < |s| && forall x: nat :: x < |s| && x != curr ==> s'[x] == s[x]
    requires UninitOnce(s) && RmwLinked(s, M) && WritesOnly(s, M)
    requires s'[curr].loc == s[curr].loc && s'[curr].kind.IsAtomic() &&
             (s[curr].kind.IsWrite() ==> s'[curr].kind.IsWrite())
    requires s[curr].kind.IsAtomic() && !s[curr].kind.Uninit? && !s'[curr].kind.Uninit?
    requires s'[curr].kind.Rmw? && s'[curr].rf.Some? ==> (s'[curr].rf.value, curr) in M
    ensures UninitOnce(s') && RmwLinked(s', M) && WritesOnly(s', M)
  {
    forall a: nat, b: nat | SameLocation(s', a, b) && s'[b].kind.Uninit? ensures b < a && !s'[a].kind.Uninit? {
      assert SameLocation(s, a, b);
    }
  }

  /** Changing the last action leaves every other pair reflected. */
  lemma ReplaceLast(s: Trace, s': Trace, G: Edges, M: Edges, curr: nat)
    requires Clocked(s, G) && |s'| == |s| && SameTiming(s, s') && curr + 1 == |s| && Numbered(s, curr)
    requires forall x: nat :: x < |s| && x != curr ==> s'[x] == s[x]
    requires s'[curr].loc == s[curr].loc && (s[curr].kind.IsWrite() ==> s'[curr].kind.IsWrite())
    requires s[curr].kind.IsAtomic()
    requires ReadsKnown(s, {curr}) && OwnSettled(s, M, {curr}) && Settled(s, M, {} + {curr})
    ensures OwnSettled(s', M, {curr}) && Settled(s', M, {} + {curr})
  {
    hide Clocked, HB, Reach, SameTiming;
    forall a: nat, b: nat | SameThreadPair(s', a, b) && b !in {curr} && Known(s', a) && Known(s', b)
      ensures Coherent(s', M, a, b)
    {
      assert SameThreadPair(s, a, b);
      OldPair(s, s', M, curr, a, b);
      assert Coherent(s, M, a, b);
    }
    forall a: nat, b: nat | SameLocation(s', a, b) && HB(s', a, b) && b !in {} + {curr} && Known(s', a) && Known(s', b)
      ensures Coherent(s', M, a, b)
    {
      SameTimingHB(s, s', a, b);
      if a == curr {
        LastBeforeNone(s, G, curr, b);
      } else {
        OldPair(s, s', M, curr, a, b);
        assert SameLocation(s, a, b) && HB(s, a, b);
        assert Coherent(s, M, a, b);
      }
    }
  }

  /** Changing one action leaves pairs of other actions as they were. */
  lemma OldPair(s: Trace, s': Trace, M: Edges, curr: nat, a: nat, b: nat)
    requires |s| == |s'| && curr < |s| && a < |s| && b < |s| && a != curr && b != curr
    requires forall x: nat :: x < |s| && x != curr ==> s'[x] == s[x]
    requires s'[curr].loc == s[curr].loc && (s[curr].kind.IsWrite() ==> s'[curr].kind.IsWrite())
    requires ReadsKnown(s, {curr})
    ensures (Known(s', a) <==> Known(s, a)) && (Known(s', b) <==> Known(s, b))
    ensures Known(s, a) && Known(s, b) ==> (Coherent(s', M, a, b) <==> Coherent(s, M, a, b))
  {
    hide Reach;
    if s[a].kind.IsRead() {
      assert ReadKnown(s, a);
    }
    if s[b].kind.IsRead() {
      assert ReadKnown(s, b);
    }
  }

  // ------------------------------------------------------------------
  // Synchronization
  // ------------------------------------------------------------------

  /** Synchronization changes clocks only. */
  lemma SyncAllFrame(s: Trace, G: Edges, M: Edges, hs: seq<nat>, x: nat, except: set<nat>)
    requires Clocked(s, G) && Numbered(s, x) && Heads(s, hs, x)
    ensures var s' := SyncAll(s, hs, x);
            && |s'| == |s|
            && (forall a: nat :: a < |s| ==> s'[a] == s[a].(cv := s'[a].cv))
            && (forall a: nat :: a < |s| && !HB(s, x, a) ==> s'[a] == s[a])
            && (ReadsKnown(s, except) ==> ReadsKnown(s', except))
            && (UninitOnce(s) ==> UninitOnce(s'))
            && (OwnSettled(s, M, except) ==> OwnSettled(s', M, except))
            && (RmwLinked(s, M) ==> RmwLinked(s', M)) && (WritesOnly(s, M) ==> WritesOnly(s', M))
  {
    var s' := SyncAll(s, hs, x);
    forall a: nat | a < |s| ensures s'[a] == s[a].(cv := s'[a].cv) && (!HB(s, x, a) ==> s'[a] == s[a]) {
      SyncAllAt(s, G, hs, x, a);
    }
    ClocksOnly(s, s', M, except);
  }

  lemma ClocksOnly(s: Trace, s': Trace, M: Edges, except: set<nat>)
    requires |s| == |s'| && forall a: nat :: a < |s| ==> s'[a] == s[a].(cv := s'[a].cv)
    ensures ReadsKnown(s, except) ==> ReadsKnown(s', except)
    ensures UninitOnce(s) ==> UninitOnce(s')
    ensures OwnSettled(s, M, except) ==> OwnSettled(s', M, except)
    ensures RmwLinked(s, M) ==> RmwLinked(s', M)
    ensures WritesOnly(s, M) ==> WritesOnly(s', M)
    ensures forall a: nat :: a < |s| ==> (Known(s', a) <==> Known(s, a))
  {
    hide Reach;
    assert forall a: nat :: a < |s| ==> (ReadKnown(s', a) <==> ReadKnown(s, a)) && (Known(s', a) <==> Known(s, a));
    assert forall a: nat, b: nat :: SameLocation(s', a, b) <==> SameLocation(s, a, b);
    if OwnSettled(s, M, except) {
      forall a: nat, b: nat | SameThreadPair(s', a, b) && b !in except && Known(s', a) && Known(s', b)
        ensures Coherent(s', M, a, b)
      {
        assert SameThreadPair(s, a, b);
        assert Coherent(s, M, a, b);
      }
    }
  }

  /** Late synchronization: what it reaches waits to be re-checked. */
  lemma LateSyncSound(s: Trace, G: Edges, M: Edges, pending: set<nat>, hs: seq<nat>, x: nat, reached: set<nat>)
    requires Consistent(s, G, M, pending) && Numbered(s, x) && Heads(s, hs, x)
    requires forall y: nat :: y < |s| && HB(s, x, y) ==> y in reached
    ensures Consistent(SyncAll(s, hs, x), G + SyncEdges(hs, x), M, pending + reached)
  {
    var s' := SyncAll(s, hs, x);
    SyncAllClocked(s, G, hs, x);
    SyncAllFrame(s, G, M, hs, x, {});
    ClocksOnly(s, s', M, {});
    hide Clocked, Reach;
    forall a: nat, b: nat | SameLocation(s', a, b) && HB(s', a, b) && b !in pending + reached + {} && Known(s', a) &&
        Known(s', b)
      ensures Coherent(s', M, a, b)
    {
      assert s'[b] == s[b];
      assert HB(s, a, b) && SameLocation(s, a, b);
      assert Coherent(s, M, a, b);
    }
  }

  /** A head found through a write that the read's value comes from. */
  ghost predicate HeadOf(s: Trace, M: Edges, h: nat, x: nat, w: nat) {
    && x < |s| && w < |s| && Numbered(s, h) && Numbered(s, w) && h < x && w < x
    && s[w].kind.IsWrite() && s[w].loc == s[x].loc && HB(s, h, w)
    && s[x].rf.Some? && Reach(M, w, s[x].rf.value)
  }

  /** Every head of `hs` is one for the read `x`. */
  ghost predicate AllHeads(s: Trace, M: Edges, hs: seq<nat>, x: nat) {
    forall i :: 0 <= i < |hs| ==> IsHead(s, M, hs[i], x)
  }

  ghost predicate IsHead(s: Trace, M: Edges, h: nat, x: nat) {
    exists w: nat :: HeadOf(s, M, h, x, w)
  }

  lemma AllHeadsAreHeads(s: Trace, M: Edges, hs: seq<nat>, x: nat)
    requires AllHeads(s, M, hs, x)
    ensures Heads(s, hs, x) && forall i :: 0 <= i < |hs| ==> hs[i] < |s|
  {
    forall i | 0 <= i < |hs| ensures Numbered(s, hs[i]) && hs[i] < x && hs[i] < |s| {
      assert IsHead(s, M, hs[i], x);
      var w: nat :| HeadOf(s, M, hs[i], x, w);
    }
  }

  /**
   Synchronization at the read itself needs no re-check: what happens before a
   head happens before a write that is ordered no later than the one read.
   */
  lemma ImmediateSyncSound(s: Trace, G: Edges, M: Edges, hs: seq<nat>, x: nat)
    requires Consistent(s, G, M, {}) && Numbered(s, x) && x + 1 == |s|
    requires s[x].kind.IsRead() && !s[x].kind.IsWrite()
    requires AllHeads(s, M, hs, x) && Heads(s, hs, x)
    ensures Consistent(SyncAll(s, hs, x), G + SyncEdges(hs, x), M, {})
  {
    var s' := SyncAll(s, hs, x);
    SyncAllClocked(s, G, hs, x);
    SyncAllFrame(s, G, M, hs, x, {});
    ClocksOnly(s, s', M, {});
    hide Reach, Clocked, HB, AllHeads, OwnSettled, HeadOf;
    forall a: nat, b: nat | SameLocation(s', a, b) && HB(s', a, b) && Known(s', a) && Known(s', b)
      ensures Coherent(s', M, a, b)
    {
      if b == x {
        NewlyBefore(s, G, M, hs, x, a);
      } else {
        LastBeforeNone(s, G, x, b);
        UnchangedHB(s, s', a, b);
        assert HB(s, a, b) && SameLocation(s, a, b);
        assert Coherent(s, M, a, b);
      }
    }
  }

  lemma UnchangedHB(s: Trace, s': Trace, a: nat, b: nat)
    requires |s| == |s'| && a < |s| && b < |s| && s'[b] == s[b] && s'[a] == s[a].(cv := s'[a].cv)
    ensures HB(s', a, b) <==> HB(s, a, b)
  {
  }

  lemma NewlyBefore(s: Trace, G: Edges, M: Edges, hs: seq<nat>, x: nat, a: nat)
    requires Consistent(s, G, M, {}) && Numbered(s, x) && x + 1 == |s| && Heads(s, hs, x)
    requires s[x].kind.IsRead() && !s[x].kind.IsWrite() && AllHeads(s, M, hs, x)
    requires SameLocation(s, a, x) && HB(SyncAll(s, hs, x), a, x)
    ensures s[x].rf.Some? && (s[a].kind.IsWrite() || s[a].rf.Some?)
    ensures Reach(M, Stands(s, a), s[x].rf.value)
  {
    hide OwnSettled, Clocked, HB, Reach, HeadOf, Coherent, Settled;
    AtomicKnown(s, x);
    AtomicKnown(s, a);
    if HB(s, a, x) {
      PairCoherent(s, M, {}, a, x);
    } else {
      if s[a].kind.Uninit? {
        UninitIsFirst(s, G, a, x);
      }
      SyncAllClocked(s, G, hs, x);
      var h := BeforeSomeHead(s, G, hs, x, a);
      var i :| 0 <= i < |hs| && hs[i] == h;
      assert IsHead(s, M, hs[i], x);
      var w: nat :| HeadOf(s, M, hs[i], x, w);
      ThroughHead(s, G, M, h, x, w, a);
    }
  }

  lemma UninitIsFirst(s: Trace, G: Edges, u: nat, b: nat)
    requires Clocked(s, G) && u < |s| && b < |s| && s[u].kind.Uninit?
    ensures HB(s, u, b)
  {
    UninitFirst(s, u, b);
  }

  lemma AtomicKnown(s: Trace, a: nat)
    requires ReadsKnown(s, {}) && a < |s| && s[a].kind.IsAtomic()
    ensures Known(s, a) && (s[a].kind.IsWrite() || s[a].rf.Some?)
  {
    if s[a].kind.IsRead() {
      assert ReadKnown(s, a);
    }
  }

  lemma PairCoherent(s: Trace, M: Edges, pending: set<nat>, a: nat, b: nat)
    requires Settled(s, M, pending + {}) && SameLocation(s, a, b) && HB(s, a, b) && Known(s, a) && Known(s, b) &&
             b !in pending
    ensures s[b].kind.IsRead() ==> Reach(M, Stands(s, a), s[b].rf.value)
    ensures s[b].kind.IsWrite() ==> Plus(M, Stands(s, a), b)
  {
    assert Coherent(s, M, a, b);
  }

  lemma ThroughHead(s: Trace, G: Edges, M: Edges, h: nat, x: nat, w: nat, a: nat)
    requires Consistent(s, G, M, {}) && HeadOf(s, M, h, x, w) && SameLocation(s, a, x) && HB(s, a, h)
    requires Known(s, a) && ReadKnown(s, x)
    ensures Reach(M, Stands(s, a), s[x].rf.value)
  {
    hide OwnSettled, Clocked, HB, Reach, Settled;
    HBTrans(s, G, a, h, w);
    if a != w {
      AtomicKnown(s, w);
      PairCoherent(s, M, {}, a, w);
      PlusReach(M, Stands(s, a), w);
      ReachTrans(M, Stands(s, a), w, s[x].rf.value);
    }
  }

  /** What newly happens before `x` happens before one of the heads. */
  lemma BeforeSomeHead(s: Trace, G: Edges, hs: seq<nat>, x: nat, a: nat) returns (h: nat)
    requires Clocked(s, G) && Numbered(s, x) && Heads(s, hs, x)
    requires Clocked(SyncAll(s, hs, x), G + SyncEdges(hs, x))
    requires Numbered(s, a) && HB(SyncAll(s, hs, x), a, x) && !HB(s, a, x)
    requires forall a: nat :: Numbered(SyncAll(s, hs, x), a) <==> Numbered(s, a)
    ensures h in hs && HB(s, a, h)
  {
    var p :| PathFromTo(G + SyncEdges(hs, x), p, a, x);
    h := PathHead(s, G, hs, x, p);
    assert Reach(G, a, h);
  }

  /** A path to `x` is old, or its part up to some head is. */
  lemma {:induction false} PathHead(s: Trace, G: Edges, hs: seq<nat>, x: nat, p: seq<nat>) returns (h: nat)
    requires Forward(s, G) && Heads(s, hs, x) && IsPath(G + SyncEdges(hs, x), p) && p[|p| - 1] == x
    requires !Reach(G, p[0], x)
    ensures h in hs && Reach(G, p[0], h)
    decreases |p|
  {
    if |p| == 1 {
      ReachRefl(G, x);
      h := x;
    } else {
      assert (p[0], p[1]) in G + SyncEdges(hs, x);
      if (p[0], p[1]) in SyncEdges(hs, x) {
        h := p[0];
        ReachRefl(G, h);
      } else {
        ReachEdge(G, p[0], p[1]);
        if Reach(G, p[1], x) {
          ReachTrans(G, p[0], p[1], x);
        }
        forall i | 0 <= i < |p[1..]| - 1 ensures (p[1..][i], p[1..][i + 1]) in G + SyncEdges(hs, x) {
          assert p[1..][i] == p[i + 1] && p[1..][i + 1] == p[i + 2];
        }
        h := PathHead(s, G, hs, x, p[1..]);
        ReachTrans(G, p[0], p[1], h);
      }
    }
  }

  // ------------------------------------------------------------------
  // The second half of a read-modify-write
  // ------------------------------------------------------------------

  /** ModelAction::process_rmw: the read becomes a read-modify-write, or a plain read. */
  function CloseRmw(s: Trace, curr: nat, order: MemoryOrder, succeeded: bool): (s': Trace)
    requires curr < |s|
    ensures |s'| == |s|
    ensures forall a :: 0 <= a < |s| ==>
              s'[a] == if a == curr then s[a].(order := order, kind := if succeeded then Rmw else Read) else s[a]
  {
    s[curr := s[curr].(order := order, kind := if succeeded then Rmw else Read)]
  }

  lemma CloseRmwSound(s: Trace, G: Edges, M: Edges, curr: nat, order: MemoryOrder)
    requires Consistent(s, G, M, {}) && curr + 1 == |s| && s[curr].kind.Rmwr?
    ensures ReadKnown(s, curr)
    ensures ConsistentBut(CloseRmw(s, curr, order, true), G, M + {(s[curr].rf.value, curr)}, {}, {curr})
    ensures ReadDone(CloseRmw(s, curr, order, true), M + {(s[curr].rf.value, curr)}, curr)
  {
    assert ReadKnown(s, curr);
    SameTimingClocked(s, CloseRmw(s, curr, order, true), G);
    CloseRmwPairs(s, G, M, curr, order);
    CloseRmwReadDone(s, M, M + {(s[curr].rf.value, curr)}, curr, order, true);
  }

  lemma CloseRmwReadDone(s: Trace, M: Edges, M': Edges, curr: nat, order: MemoryOrder, succeeded: bool)
    requires ReadsKnown(s, {}) && Settled(s, M, {} + {}) && M <= M' && curr < |s| && s[curr].kind.Rmwr? &&
             ReadKnown(s, curr)
    requires ReadsKnown(CloseRmw(s, curr, order, succeeded), {curr})
    ensures ReadDone(CloseRmw(s, curr, order, succeeded), M', curr)
  {
    var s' := CloseRmw(s, curr, order, succeeded);
    hide HB, Reach, Settled;
    forall a: nat | SameLocation(s', a, curr) && HB(s', a, curr) ensures Reach(M', Stands(s', a), s'[curr].rf.value) {
      SameTimingHB(s, s', a, curr);
      AtomicKnown(s, curr);
      AtomicKnown(s, a);
      PairCoherent(s, M, {}, a, curr);
      ReachMono(M, M', Stands(s, a), s[curr].rf.value);
    }
  }

  lemma CloseRmwPairs(s: Trace, G: Edges, M: Edges, curr: nat, order: MemoryOrder)
    requires Consistent(s, G, M, {}) && curr + 1 == |s| && s[curr].kind.Rmwr? && ReadKnown(s, curr)
    ensures var s', M' := CloseRmw(s, curr, order, true), M + {(s[curr].rf.value, curr)};
            && ReadsKnown(s', {}) && ReadsKnown(s', {curr}) && UninitOnce(s')
            && OwnSettled(s', M', {curr}) && Settled(s', M', {} + {curr})
            && RmwLinked(s', M') && WritesOnly(s', M')
  {
    var s', M' := CloseRmw(s, curr, order, true), M + {(s[curr].rf.value, curr)};
    ButLast(s, G, M, curr);
    SoundMonoPairs(s, M, M', curr);
    ReplaceLast(s, s', G, M', curr);
    hide Clocked, HB, Reach, Settled, OwnSettled;
    forall a: nat | a < |s| && s'[a].kind.IsRead() ensures ReadKnown(s', a) {
      assert ReadKnown(s, a);
    }
  }

  lemma ButLast(s: Trace, G: Edges, M: Edges, curr: nat)
    requires Consistent(s, G, M, {})
    ensures ReadsKnown(s, {curr}) && OwnSettled(s, M, {curr}) && Settled(s, M, {} + {curr})
  {
    hide Clocked, HB, Reach, Coherent;
  }

  lemma SoundMonoPairs(s: Trace, M: Edges, M': Edges, curr: nat)
    requires OwnSettled(s, M, {curr}) && Settled(s, M, {} + {curr}) && M <= M'
    ensures OwnSettled(s, M', {curr}) && Settled(s, M', {} + {curr})
  {
    hide HB, Reach;
    forall a: nat, b: nat | SameThreadPair(s, a, b) && b !in {curr} && Known(s, a) && Known(s, b)
      ensures Coherent(s, M', a, b)
    {
      CoherentMono(s, M, M', a, b);
    }
    forall a: nat, b: nat | SameLocation(s, a, b) && HB(s, a, b) && b !in {} + {curr} && Known(s, a) && Known(s, b)
      ensures Coherent(s, M', a, b)
    {
      CoherentMono(s, M, M', a, b);
    }
  }

  lemma CloseFailedRmwSound(s: Trace, G: Edges, M: Edges, curr: nat, order: MemoryOrder)
    requires Consistent(s, G, M, {}) && curr + 1 == |s| && s[curr].kind.Rmwr?
    ensures Consistent(CloseRmw(s, curr, order, false), G, M, {})
  {
    var s' := CloseRmw(s, curr, order, false);
    assert ReadKnown(s, curr);
    SameTimingClocked(s, s', G);
    ButLast(s, G, M, curr);
    ReplaceLast(s, s', G, M, curr);
    ReplacedKnown(s, s', curr);
    ReplacedRest(s, s', M, curr);
    hide Clocked, HB, Reach, Settled, OwnSettled, UninitOnce, RmwLinked, WritesOnly;
    CloseRmwReadDone(s, M, M, curr, order, false);
    Processed(s', G, M, {}, curr);
    assert {} - {curr} == {};
  }
}
