/**
 The bookkeeping around a trace: last actions, creators and release fences by
 thread, pending release sequences and the work queue, with what each kind of
 step does to it.
 */
module ExecutionState {
  import opened Digraph
  import opened Optional
  import opened OrderConstraints
  import opened Clocks
  import opened Actions
  import opened HappensBefore
  import opened Coherence
  import opened TraceInvariant
  import opened MoConstraints

  /** WorkQueueEntry, apart from the entry that starts a step. */
  datatype Work = CheckRelSeq(loc: Option<nat>) | CheckMoEdges(act: nat)

  /** release_seq: a read whose release sequences are not settled, and the action that would synchronize. */
  datatype PendingSeq = PendingSeq(acquire: nat, read: nat)

  /** The actions that the queue will re-check. */
  ghost function Queued(queue: seq<Work>): set<nat> {
    set w | w in queue && w.CheckMoEdges? :: w.act
  }

  ghost predicate QueueKnown(s: Trace, queue: seq<Work>) {
    forall w :: w in queue && w.CheckMoEdges? ==> w.act < |s|
  }

  ghost predicate IsFenceOf(s: Trace, f: nat, t: nat) {
    Numbered(s, f) && s[f].tid == t && s[f].kind.Fence? && s[f].order.IsRelease()
  }

  /** Last actions, creators and release fences are what they are called. */
  ghost predicate Registered(s: Trace, threads: nat, last: map<nat, nat>, creation: map<nat, nat>, fence: map<nat, nat>,
                             clock: nat) {
    && threads > 0 && ThreadsBelow(s, threads) && Plain(s)
    && (forall a: nat :: Numbered(s, a) ==> s[a].now <= clock && s[a].tid in last && a <= last[s[a].tid])
    && (forall t: nat :: t in last ==> Numbered(s, last[t]) && s[last[t]].tid == t)
    && (forall t: nat :: t in creation ==> Numbered(s, creation[t]))
    && FencesRegistered(s, fence)
  }

  /** The last release fence of each thread, and the last one before each action. */
  ghost predicate FencesRegistered(s: Trace, fence: map<nat, nat>) {
    && (forall t: nat :: t in fence ==> IsFenceOf(s, fence[t], t))
    && (forall f: nat, t: nat :: IsFenceOf(s, f, t) ==> t in fence && f <= fence[t])
    && (forall a: nat :: Numbered(s, a) ==> FenceLatest(s, a))
    && (forall a: nat :: a < |s| && s[a].lastFence.Some? ==> FenceKnown(s, a))
  }

  ghost predicate FenceKnown(s: Trace, a: nat)
    requires a < |s| && s[a].lastFence.Some?
  {
    s[a].lastFence.value < a && Numbered(s, a) && IsFenceOf(s, s[a].lastFence.value, s[a].tid)
  }

  /** No release fence of the thread lies between the remembered one and the action. */
  ghost predicate FenceLatest(s: Trace, a: nat)
    requires a < |s|
  {
    forall f: nat :: f < a && IsFenceOf(s, f, s[a].tid) ==> s[a].lastFence.Some? && f <= s[a].lastFence.value
  }

  /** Placeholders for uninitialized values release nothing. */
  ghost predicate Plain(s: Trace) {
    forall a: nat :: a < |s| && s[a].kind.Uninit? ==> s[a].order.Relaxed? && s[a].rf.None?
  }

  /** No action has touched the location. */
  predicate Unseen(s: Trace, loc: nat) {
    forall a :: 0 <= a < |s| ==> s[a].loc != loc
  }

  /** The placeholder that get_uninitialized_action makes. */
  function Placeholder(loc: nat): Action {
    Action(Uninit, Relaxed, 0, 0, loc, None, None, [0])
  }

  /** The trace once the location of a new action has its placeholder. */
  function Prepared(s: Trace, kind: Kind, loc: nat): Trace {
    if kind.IsAtomic() && Unseen(s, loc) then s + [Placeholder(loc)] else s
  }

  lemma RegisteredUninit(s: Trace, threads: nat, last: map<nat, nat>, creation: map<nat, nat>, fence: map<nat, nat>,
                         clock: nat, loc: nat)
    requires Registered(s, threads, last, creation, fence, clock)
    ensures Registered(s + [Placeholder(loc)], threads, last, creation, fence, clock)
  {
    hide FencesRegistered;
    var s' := s + [Placeholder(loc)];
    FencesMore(s, fence, Placeholder(loc));
    assert forall a: nat :: a < |s| ==> s'[a] == s[a];
    assert forall a: nat :: Numbered(s', a) <==> Numbered(s, a);
  }

  /** An action that is no release fence, and knows of the last one. */
  lemma FencesMore(s: Trace, fence: map<nat, nat>, act: Action)
    requires FencesRegistered(s, fence) && !(act.kind.Fence? && act.order.IsRelease())
    requires if act.kind.Uninit? then act.lastFence.None?
             else act.lastFence == if act.tid in fence then Some(fence[act.tid]) else None
    ensures FencesRegistered(s + [act], fence)
  {
    var s' := s + [act];
    forall f: nat, t: nat ensures IsFenceOf(s', f, t) <==> IsFenceOf(s, f, t) {
    }
    forall a: nat | Numbered(s', a) ensures FenceLatest(s', a) {
      assert a < |s| ==> FenceLatest(s, a);
    }
    forall a: nat | a < |s'| && s'[a].lastFence.Some? ensures FenceKnown(s', a) {
      if a < |s| {
        assert FenceKnown(s, a);
      }
    }
  }

  lemma FencesNew(s: Trace, fence: map<nat, nat>, act: Action)
    requires FencesRegistered(s, fence) && act.kind.Fence? && act.order.IsRelease()
    requires act.lastFence == if act.tid in fence then Some(fence[act.tid]) else None
    ensures FencesRegistered(s + [act], fence[act.tid := |s|])
  {
    var s' := s + [act];
    forall f: nat, t: nat ensures IsFenceOf(s', f, t) <==> IsFenceOf(s, f, t) || (f == |s| && t == act.tid) {
    }
    forall a: nat | Numbered(s', a) ensures FenceLatest(s', a) {
      assert a < |s| ==> FenceLatest(s, a);
    }
    forall a: nat | a < |s'| && s'[a].lastFence.Some? ensures FenceKnown(s', a) {
      if a < |s| {
        assert FenceKnown(s, a);
      }
    }
  }

  /** What add_action_to_lists records. */
  lemma RegisteredNew(s: Trace, threads: nat, last: map<nat, nat>, creation: map<nat, nat>, fence: map<nat, nat>,
                      clock: nat, act: Action)
    requires Registered(s, threads, last, creation, fence, clock)
    requires act.tid < threads && act.now == clock + 1 && !act.kind.Uninit?
    requires act.lastFence == if act.tid in fence then Some(fence[act.tid]) else None
    ensures Registered(s + [act], threads, last[act.tid := |s|], creation,
                       if act.kind.Fence? && act.order.IsRelease() then fence[act.tid := |s|] else fence, clock + 1)
  {
    hide FencesRegistered;
    var s' := s + [act];
    if act.kind.Fence? && act.order.IsRelease() {
      FencesNew(s, fence, act);
    } else {
      FencesMore(s, fence, act);
    }
    assert forall a: nat :: a < |s| ==> s'[a] == s[a] && (Numbered(s', a) <==> Numbered(s, a));
    assert Numbered(s', |s|);
  }

  /** The action that the thread's new action follows. */
  function Parent(last: map<nat, nat>, creation: map<nat, nat>, tid: nat): Option<nat> {
    if tid in last then Some(last[tid]) else if tid in creation then Some(creation[tid]) else None
  }

  lemma ParentIsParent(s: Trace, threads: nat, last: map<nat, nat>, creation: map<nat, nat>, fence: map<nat, nat>,
                       clock: nat, tid: nat)
    requires Registered(s, threads, last, creation, fence, clock)
    ensures ParentOf(s, Parent(last, creation, tid), tid)
  {
  }

  /** Threads that start here follow the action that creates them. */
  lemma RegisteredCreate(s: Trace, threads: nat, last: map<nat, nat>, creation: map<nat, nat>, fence: map<nat, nat>,
                         clock: nat, a: nat)
    requires Registered(s, threads, last, creation, fence, clock) && Numbered(s, a)
    ensures Registered(s, threads + 1, last, creation[threads := a], fence, clock)
  {
  }

  /** Two traces that the bookkeeping does not distinguish. */
  ghost predicate SameRecords(s: Trace, s': Trace) {
    |s| == |s'| &&
    forall a: nat :: a < |s| ==>
      && s'[a].tid == s[a].tid && s'[a].now == s[a].now && s'[a].lastFence == s[a].lastFence
      && (s'[a].kind.Uninit? <==> s[a].kind.Uninit?) &&
            (s[a].kind.Uninit? ==> s'[a].order == s[a].order && s'[a].rf == s[a].rf)
      && (s[a].kind.Fence? <==> s'[a].kind.Fence?) && (s[a].kind.Fence? ==> s'[a].order == s[a].order)
      && (s[a].kind.IsRead() ==> s'[a].kind.IsRead())
  }

  lemma RegisteredSame(s: Trace, s': Trace, threads: nat, last: map<nat, nat>, creation: map<nat, nat>,
                       fence: map<nat, nat>, clock: nat)
    requires Registered(s, threads, last, creation, fence, clock) && SameRecords(s, s')
    ensures Registered(s', threads, last, creation, fence, clock)
  {
    assert forall a: nat :: Numbered(s', a) <==> Numbered(s, a);
    forall f: nat, t: nat ensures IsFenceOf(s, f, t) <==> IsFenceOf(s', f, t) {
    }
    forall a: nat | Numbered(s', a) ensures FenceLatest(s', a) {
      assert FenceLatest(s, a);
    }
    forall a: nat | a < |s'| && s'[a].lastFence.Some? ensures FenceKnown(s', a) {
      assert FenceKnown(s, a);
    }
  }

  /** What the graph records about a trace survives changes that keep its writes and read-modify-writes. */
  ghost predicate SameWrites(s: Trace, s': Trace) {
    && |s| <= |s'|
    && (forall a: nat :: a < |s| && s[a].kind.IsWrite() ==> s'[a].kind.IsWrite())
    && (forall a: nat :: a < |s'| && s'[a].kind.Rmw? && s'[a].rf.Some? ==>
        a < |s| && s[a].kind.Rmw? && s[a].rf == s'[a].rf)
  }

  lemma LinkedSame(s: Trace, s': Trace, M: Edges, t: map<nat, nat>, log: set<Constraint>)
    requires SameWrites(s, s') && Linked(s, M, t, log) && RmwConstrained(s, t, log)
    ensures Linked(s', M, t, log) && RmwConstrained(s', t, log)
  {
  }

  lemma LinkedNew(s: Trace, r: Action, M: Edges, t: map<nat, nat>, log: set<Constraint>)
    requires !r.kind.Rmw? && Linked(s, M, t, log) && RmwConstrained(s, t, log)
    ensures Linked(s + [r], M, t, log) && RmwConstrained(s + [r], t, log)
  {
    LinkedSame(s, s + [r], M, t, log);
  }

  /** A new action starts to be processed. */
  lemma NewAction(s: Trace, G: Edges, M: Edges, threads: nat, last: map<nat, nat>, creation: map<nat, nat>,
                  fence: map<nat, nat>, clock: nat, act: Action)
    requires Consistent(s, G, M, {}) && Registered(s, threads, last, creation, fence, clock)
    requires !act.kind.Uninit? && !act.kind.Rmw? && 1 <= act.tid < threads && act.now == clock + 1
    requires act.lastFence == if act.tid in fence then Some(fence[act.tid]) else None
    ensures var parent := Parent(last, creation, act.tid);
            && (parent.Some? ==> parent.value < |s|)
            && var r := WithClock(s, act, parent);
            && ConsistentBut(s + [r], G + ParentEdge(parent, |s|), M, {}, {|s|})
            && Registered(s + [r], threads, last[act.tid := |s|], creation,
                          if act.kind.Fence? && act.order.IsRelease() then fence[act.tid := |s|] else fence, clock + 1)
  {
    hide Consistent, ConsistentBut;
    var parent := Parent(last, creation, act.tid);
    ParentIsParent(s, threads, last, creation, fence, clock, act.tid);
    NewActionSound(s, G, M, act, parent);
    var r := WithClock(s, act, parent);
    RegisteredNew(s, threads, last, creation, fence, clock, r);
  }

  // ------------------------------------------------------------------
  // The set of actions to re-check
  // ------------------------------------------------------------------

  lemma PendingMono(s: Trace, G: Edges, M: Edges, pending: set<nat>, pending': set<nat>)
    requires Consistent(s, G, M, pending) && pending <= pending'
    ensures Consistent(s, G, M, pending')
  {
    hide Clocked, HB, Coherent, OwnSettled;
  }

  /** Only atomic actions need a re-check. */
  lemma DropOther(s: Trace, G: Edges, M: Edges, x: nat)
    requires Consistent(s, G, M, {x}) && x < |s| && !s[x].kind.IsAtomic()
    ensures Consistent(s, G, M, {})
  {
    hide Clocked, HB, Coherent, OwnSettled;
    forall a: nat, b: nat | SameLocation(s, a, b) && HB(s, a, b) && b !in {} + {} && Known(s, a) && Known(s, b)
      ensures Coherent(s, M, a, b)
    {
      assert b !in {x} + {};
    }
  }

  lemma OtherProcessed(s: Trace, G: Edges, M: Edges, x: nat)
    requires ConsistentBut(s, G, M, {}, {x}) && x < |s| && !s[x].kind.IsAtomic()
    ensures Consistent(s, G, M, {})
  {
    Processed(s, G, M, {}, x);
    assert {} - {x} == {};
  }

  // ------------------------------------------------------------------
  // Joining heads and pushing the result forward
  // ------------------------------------------------------------------

  /** `x` takes in the clocks of `hs`. */
  function Joined(s: Trace, hs: seq<nat>, x: nat): (s': Trace)
    requires x < |s| && forall i :: 0 <= i < |hs| ==> hs[i] < |s|
    ensures |s'| == |s| && forall y :: 0 <= y < |s| && y != x ==> s'[y] == s[y]
  {
    s[x := s[x].(cv := JoinAll(s[x].cv, s, hs))]
  }

  /** `s'` is `s` once `x` took in the clocks of its heads `hs`. */
  ghost predicate Took(s: Trace, hs: seq<nat>, x: nat, s': Trace) {
    x < |s| && Heads(s, hs, x) && s' == Joined(s, hs, x)
  }

  lemma JoinedPush(s: Trace, hs: seq<nat>, x: nat, h: nat)
    requires x < |s| && h < |s| && h != x && forall i :: 0 <= i < |hs| ==> hs[i] < |s|
    ensures var s' := Joined(s, hs, x);
            s'[x := s'[x].(cv := Join(s'[x].cv, s'[h].cv))] == Joined(s, hs + [h], x)
  {
    var more := hs + [h];
    assert more[..|more| - 1] == hs;
  }

  /** For the last action, joining is all there is to synchronization. */
  lemma JoinedLast(s: Trace, G: Edges, hs: seq<nat>, x: nat)
    requires Clocked(s, G) && Numbered(s, x) && x + 1 == |s| && Heads(s, hs, x)
    ensures Joined(s, hs, x) == SyncAll(s, hs, x)
  {
    hide Clocked, HB;
    forall y: nat | y < |s| ensures SyncAll(s, hs, x)[y] == Joined(s, hs, x)[y] {
      SyncAllAt(s, G, hs, x, y);
      if y == x {
        Reflexive(s, G, x);
      } else {
        LastBeforeNone(s, G, x, y);
      }
    }
  }

  lemma Reflexive(s: Trace, G: Edges, x: nat)
    requires Clocked(s, G) && Numbered(s, x)
    ensures HB(s, x, x)
  {
    HBRefl(s, x);
  }

  /** The trace while the clock of `x` has been pushed to the actions from `k` on. */
  ghost predicate Pushed(s: Trace, hs: seq<nat>, x: nat, k: nat, s': Trace)
    requires x < k <= |s| && forall i :: 0 <= i < |hs| ==> hs[i] < |s|
  {
    && |s'| == |s|
    && (forall y: nat :: y < k ==> s'[y] == Joined(s, hs, x)[y])
    && (forall y: nat :: k <= y < |s| ==>
        s'[y] == if HB(s, x, y) then s[y].(cv := Join(s[y].cv, Joined(s, hs, x)[x].cv)) else s[y])
  }

  /** propagate_clockvector gives every action the clock that synchronization gives it. */
  lemma PushedAll(s: Trace, G: Edges, hs: seq<nat>, x: nat, s': Trace)
    requires Clocked(s, G) && Numbered(s, x) && Heads(s, hs, x) && Pushed(s, hs, x, x + 1, s')
    ensures s' == SyncAll(s, hs, x)
  {
    hide Clocked, Join, HB;
    forall y: nat | y < |s| ensures s'[y] == SyncAll(s, hs, x)[y] {
      SyncAllAt(s, G, hs, x, y);
      if y == x {
        Reflexive(s, G, x);
      } else if y < x {
        NotBackwards(s, G, x, y);
      } else if HB(s, x, y) {
        Inherits(s, G, x, y);
        PushedIsSynced(s, hs, s[x].cv, s[y].cv);
      }
    }
  }

  lemma NotBackwards(s: Trace, G: Edges, x: nat, y: nat)
    requires Clocked(s, G) && Numbered(s, x) && y < x
    ensures !HB(s, x, y)
  {
    if Numbered(s, y) {
      if HB(s, x, y) {
        HBForward(s, x, y);
      }
    } else {
      UninitFirst(s, y, x);
    }
  }

  lemma Inherits(s: Trace, G: Edges, x: nat, y: nat)
    requires Clocked(s, G) && Numbered(s, x) && y < |s| && x < y && HB(s, x, y)
    ensures Le(s[x].cv, s[y].cv)
  {
    if !Numbered(s, y) {
      UninitFirst(s, y, x);
    }
  }
}
