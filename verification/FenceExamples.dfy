/**
 What a fence does that came after an action which is checked again: the scan does not tell
 it from an earlier one, and puts a later store of the thread before the store that was read.
 */
module FenceExamples {
  import opened Digraph
  import opened Optional
  import opened Clocks
  import opened Actions
  import opened HappensBefore
  import opened Coherence
  import opened TraceInvariant
  import opened ExecutionState
  import opened FenceRules
  import opened LawfulSteps
  import opened StandardOrders

  /**
   Checking the read `y` again, after its thread has stored to the location and passed two
   sequentially consistent fences, asks for a cycle.
   */
  lemma OvertakenCycle(s: Trace, M: Edges, y: nat, threads: nat, a: nat)
    requires y < |s| && ReadsKnown(s, {y}) && ReadKnown(s, y) && ReadOrdered(s, M, y, s[y].rf.value, threads)
    requires OwnSettled(s, M, {y}) && UninitOnce(s) && WellClocked(s) && ThreadsBelow(s, threads)
    requires s[y].kind.IsRead() && !s[y].kind.IsWrite() && StoredSince(s, y, a)
    ensures Plus(M, s[y].rf.value, s[y].rf.value)
  {
    hide OwnSettled, ReadOrdered, WellClocked, Reach, Plus;
    var rf := s[y].rf.value;
    SinceTested(s, y, a);
    StoreKnown(s, y, a);
    OwnCoherent(s, M, y, a);
    ReadRuleOther(s, M, y, rf, threads, a);
    PlusThenReach(M, rf, a, rf);
  }

  /** The thread of `y` stored `a` to its location, and then passed two sequentially consistent fences. */
  ghost predicate StoredSince(s: Trace, y: nat, a: nat) {
    && y < a && StoreFor(s, a, y) && s[a].tid == s[y].tid && Numbered(s, a)
    && exists f: nat, g: nat :: a < f < g && ScFence(s, f, s[y].tid) && ScFence(s, g, s[y].tid)
  }

  lemma SinceTested(s: Trace, y: nat, a: nat)
    requires WellClocked(s) && StoredSince(s, y, a)
    ensures ReadFenceRule(s, a, y, s[a].tid)
  {
    hide WellClocked;
    var f: nat, g: nat :| a < f < g && ScFence(s, f, s[y].tid) && ScFence(s, g, s[y].tid);
    var local := LastScFence(s, s[y].tid, |s|);
    var before := LastScFence(s, s[a].tid, local.value);
    NumberOrder(s, a, before.value);
  }

  lemma OwnCoherent(s: Trace, M: Edges, y: nat, a: nat)
    requires OwnSettled(s, M, {y}) && ReadKnown(s, y) && s[y].kind.IsRead() && y < a && StoreFor(s, a, y)
    requires s[a].tid == s[y].tid && Known(s, a) && !s[y].kind.IsWrite()
    ensures a != s[y].rf.value && Plus(M, s[y].rf.value, a)
  {
    hide Plus, Reach;
    assert SameThreadPair(s, y, a) && Coherent(s, M, y, a);
  }

  // ------------------------------------------------------------------
  // An execution that is rejected although the standard allows it
  // ------------------------------------------------------------------

  function Act(kind: Kind, order: MemoryOrder, tid: nat, now: nat, loc: nat, rf: Option<nat>, cv: Clock): Action {
    Action.Action(kind, order, tid, now, loc, rf, None, cv)
  }

  /**
   Thread 1 stores to location 1, releasing and then relaxed, and to location 2. Thread 2 acquires the
   second store, loads location 2, stores to it and passes two fences. As long as some other thread may
   still store to location 1, its acquire synchronizes with nothing.
   */
  function Before(): (s: Trace)
    ensures |s| == 10
    ensures s[0] == Act(Uninit, Relaxed, 0, 0, 1, None, [0]) && s[1] == Act(Write, Release, 1, 1, 1, None, [0, 1])
    ensures s[2] == Act(Write, Relaxed, 1, 2, 1, None, [0, 2])
    ensures s[3] == Act(Read, Acquire, 2, 3, 1, Some(2), [0, 0, 3])
    ensures s[4] == Act(Uninit, Relaxed, 0, 0, 2, None, [0]) && s[5] == Act(Write, Relaxed, 1, 4, 2, None, [0, 4])
    ensures s[6] == Act(Read, Relaxed, 2, 5, 2, Some(5), [0, 0, 5])
    ensures s[7] == Act(Write, Relaxed, 2, 6, 2, None, [0, 0, 6])
    ensures s[8] == Act(Fence, SeqCst, 2, 7, 0, None, [0, 0, 7]) && s[9] == Act(Fence, SeqCst, 2, 8, 0, None, [0, 0, 8])
  {
    [Act(Uninit, Relaxed, 0, 0, 1, None, [0]), Act(Write, Release, 1, 1, 1, None, [0, 1]),
     Act(Write, Relaxed, 1, 2, 1, None, [0, 2]), Act(Read, Acquire, 2, 3, 1, Some(2), [0, 0, 3]),
     Act(Uninit, Relaxed, 0, 0, 2, None, [0]), Act(Write, Relaxed, 1, 4, 2, None, [0, 4]),
     Act(Read, Relaxed, 2, 5, 2, Some(5), [0, 0, 5]), Act(Write, Relaxed, 2, 6, 2, None, [0, 0, 6]),
     Act(Fence, SeqCst, 2, 7, 0, None, [0, 0, 7]), Act(Fence, SeqCst, 2, 8, 0, None, [0, 0, 8])]
  }

  /** Once the other threads are done, it synchronizes with the release, and what follows it is checked again. */
  function After(): (s: Trace)
    ensures |s| == 10 && (forall a: nat :: a < 3 || 4 <= a < 6 ==> s[a] == Before()[a])
    ensures s[3] == Before()[3].(cv := [0, 1, 3]) && s[6] == Before()[6].(cv := [0, 1, 5])
    ensures s[7] == Before()[7].(cv := [0, 1, 6]) && s[8] == Before()[8].(cv := [0, 1, 7])
    ensures s[9] == Before()[9].(cv := [0, 1, 8])
  {
    var s := Before();
    s[3 := s[3].(cv := [0, 1, 3])][6 := s[6].(cv := [0, 1, 5])][7 := s[7].(cv := [0, 1, 6])]
     [8 := s[8].(cv := [0, 1, 7])][9 := s[9].(cv := [0, 1, 8])]
  }

  /** The clocks are those of the late synchronization. */
  lemma AfterIsSync()
    ensures After() == Sync(Before(), 1, 3)
  {
    var s, t := Before(), Sync(Before(), 1, 3);
    assert Join([0, 0, 3], [0, 1]) == [0, 1, 3] && Join([0, 0, 5], [0, 1]) == [0, 1, 5];
    assert Join([0, 0, 6], [0, 1]) == [0, 1, 6] && Join([0, 0, 7], [0, 1]) == [0, 1, 7];
    assert Join([0, 0, 8], [0, 1]) == [0, 1, 8];
    forall y: nat | y < 10 ensures After()[y] == t[y] {
    }
  }

  /** Stores in the order of the trace: nothing is wrong with the execution, before and after. */
  lemma TraceOrderAllowed(s: Trace)
    requires s == Before() || s == After()
    ensures Allowed(s, {}, Counting())
  {
    hide Precedent, MustSee, BothFenced, ScStores, Before, After, Counting;
    Shape(s);
    forall x: nat, y: nat, a: nat | Precedent(s, x, y, a) && y < 10
      ensures s[y].kind.IsRead() ==> ReadsNoEarlier(s, Counting(), y, a)
      ensures s[y].kind.IsWrite() ==> Sooner(Counting(), a, y)
    {
      PrecedentBelow(s, x, y, a);
    }
    assert CoherentStores(s, Counting()) by {
      forall x: nat, y: nat, a: nat | Precedent(s, x, y, a) ensures y < 10 {
        PrecedentBelow(s, x, y, a);
      }
    }
    forall a: nat, b: nat ensures !MustSee(s, {}, a, b) && !BothFenced(s, a, b) && !ScStores(s, a, b) {
      NoRule(s, a, b);
    }
  }

  function Counting(): (order: seq<nat>)
    ensures |order| == 10 && forall a: nat :: a < 10 ==> order[a] == a
  {
    [0, 1, 2, 3, 4, 5, 6, 7, 8, 9]
  }

  /** Reads read what was stored just before, and only the last two actions are sequentially consistent. */
  lemma Shape(s: Trace)
    requires s == Before() || s == After()
    ensures |s| == 10 && forall a: nat :: a < 10 ==> !s[a].kind.Rmw?
    ensures forall a: nat :: a < 10 && s[a].kind.IsRead() ==> a > 0 && s[a].rf == Some(a - 1)
    ensures forall a: nat :: a < 10 && s[a].order.SeqCst? ==> a >= 8
    ensures forall a: nat :: 8 <= a < 10 ==> !s[a].kind.IsAtomic()
    ensures WellClocked(s) && UninitOnce(s)
  {
    hide Before, After, WellClocked, UninitOnce;
    AfterIsSync();
    BeforeClocked();
    SyncWellClocked(Before(), 1, 3);
    OnePlaceholder(s);
  }

  lemma OnePlaceholder(s: Trace)
    requires s == Before() || s == After()
    ensures UninitOnce(s)
  {
    hide Before, After;
    forall a: nat, b: nat | SameLocation(s, a, b) && s[b].kind.Uninit? ensures b < a && !s[a].kind.Uninit? {
      assert b == 0 || b == 4;
    }
  }

  lemma BeforeClocked()
    ensures WellClocked(Before()) && Numbered(Before(), 1) && Numbered(Before(), 3)
  {
    hide Before, OwnClock;
    var s := Before();
    forall a: nat | Numbered(s, a) ensures OwnClock(s[a]) {
      assert a in {1, 2, 3, 5, 6, 7, 8, 9};
      NumberOnly(s[a]);
    }
  }

  /** A clock with nothing but the action's own number. */
  lemma NumberOnly(a: Action)
    requires (a.tid == 1 && a.cv == [0, a.now]) || (a.tid == 2 && a.cv == [0, 0, a.now])
    requires a.now >= 1
    ensures OwnClock(a)
  {
  }

  lemma PrecedentBelow(s: Trace, x: nat, y: nat, a: nat)
    requires |s| == 10 && WellClocked(s) && UninitOnce(s) && Precedent(s, x, y, a)
    requires forall b: nat :: b < 10 && s[b].kind.IsRead() ==> b > 0 && s[b].rf == Some(b - 1)
    ensures a < y < 10 && (s[y].kind.IsRead() ==> s[y].rf == Some(y - 1) && a <= y - 1)
  {
    hide WellClocked, UninitOnce;
    PrecedentFirst(s, x, y);
  }

  lemma NoRule(s: Trace, a: nat, b: nat)
    requires |s| == 10 && forall c: nat :: c < 10 && s[c].order.SeqCst? ==> c >= 8
    requires forall c: nat :: 8 <= c < 10 ==> !s[c].kind.IsAtomic()
    ensures !MustSee(s, {}, a, b) && !BothFenced(s, a, b) && !ScStores(s, a, b)
  {
  }

  /** But checking the load of location 2 again puts the later store of its thread before what it reads. */
  lemma RejectedLate(M: Edges)
    requires ReadsKnown(After(), {6}) && ReadOrdered(After(), M, 6, 5, 3) && OwnSettled(After(), M, {6})
    ensures Overtaken(After(), 6) && !Acyclic(M)
  {
    hide OwnSettled, ReadOrdered, Before, After;
    var s := After();
    Shape(s);
    LateFences();
    OvertakenCycle(s, M, 6, 3, 7);
  }

  lemma LateFences()
    ensures StoredSince(After(), 6, 7) && Overtaken(After(), 6) && ThreadsBelow(After(), 3) && ReadKnown(After(), 6)
    ensures After()[6].rf == Some(5) && After()[6].kind.Read?
  {
    var s := After();
    assert ScFence(s, 8, 2) && ScFence(s, 9, 2);
  }
}
