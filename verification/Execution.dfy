/**
 The execution engine: actions with their clock vectors, the modification-order
 graph, pending release sequences and the work queue, changed step by step.
 Every step keeps the clocks exact, and every happens-before pair that the work
 queue is not about to re-check is reflected in the graph.
 */
module Execution {
  import opened Digraph
  import opened Optional
  import opened OrderConstraints
  import opened CycleGraphs
  import opened Clocks
  import opened Actions
  import opened HappensBefore
  import opened Coherence
  import opened TraceInvariant
  import opened MoConstraints
  import opened ReleaseSequence
  import opened ReleaseSearch
  import opened ExecutionState
  import opened SyncRecords
  import opened Certificates
  import opened Contiguity
  import opened FenceRules
  import opened LawfulSteps
  import opened StandardOrders
  import opened FenceExamples

  /** What a thread of the program does next. */
  datatype Request =
    | Load(kind: Kind, order: MemoryOrder, tid: nat, loc: nat, from: Option<nat>)
    | Store(kind: Kind, order: MemoryOrder, tid: nat, loc: nat)
    | SecondHalf(tid: nat, order: MemoryOrder, succeeded: bool)
    | Barrier(order: MemoryOrder, tid: nat, loc: nat)
    | Sync(order: MemoryOrder, tid: nat, loc: nat, first: Option<nat>, update: bool)
    | Create(order: MemoryOrder, tid: nat, loc: nat)

  class ModelExecution {
    var acts: Trace
    const graph: CycleGraph
    var threads: nat
    var usedNumbers: nat
    var lastAction: map<nat, nat>
    var creation: map<nat, nat>
    var lastFenceRelease: map<nat, nat>
    var pendingSeqs: seq<PendingSeq>
    var queue: seq<Work>
    var badSynchronization: bool
    var badScRead: bool

    /** Program order, creation and synchronization edges. */
    ghost var G: Edges
    /** Where the synchronization edges come from. */
    ghost var record: SyncRecord
    /** Pairs of writes whose order was requested. */
    ghost var M: Edges
    /** Read-modify-writes the halves of which name different orders. */
    ghost var changed: set<nat>
    /** Actions that were re-checked when a sequentially consistent fence had come after them. */
    ghost var late: set<nat>

    ghost predicate Valid()
      reads this, graph
    {
      ValidBut({})
    }

    /** Between steps, every acquire has been searched for. */
    ghost predicate Complete()
      reads this`acts, this`record, this`changed
    {
      AllAsked(acts, record.searched, changed)
    }

    /** The invariant while the actions of `except` are being processed. */
    ghost predicate ValidBut(except: set<nat>)
      reads this, graph
    {
      && ConsistentBut(acts, G, M, Queued(queue), except)
      && Registered(acts, threads, lastAction, creation, lastFenceRelease, usedNumbers)
      && Accounted(acts, G, creation, record, pendingSeqs) && QueueKnown(acts, queue)
      && Lawful(acts, M, except, changed, late)
      && GraphValid()
    }

    ghost predicate GraphLinked()
      reads this`acts, this`M, graph
    {
      && graph.Valid() && graph.unmerged
      && Linked(acts, M, graph.actionToNode, graph.log)
      && RmwConstrained(acts, graph.actionToNode, graph.log)
      && Sourced(acts, M, graph.actionToNode, graph.log)
    }

    /** What the graph says of the trace, and what stands behind the record. */
    ghost predicate GraphValid()
      reads this`acts, this`M, this`threads, this`creation, this`record, this`pendingSeqs, graph
    {
      && GraphLinked()
      && Attested(acts, graph.actionToNode, EdgeSet(graph.nodes), threads, creation, record, pendingSeqs)
    }

    /** The model thread and the main thread exist. */
    constructor ()
      ensures Valid() && fresh(graph) && acts == [] && queue == [] && threads == 2
      ensures Complete() && changed == {} && late == {}
    {
      hide Lawful, Consistent, ConsistentBut, Registered, CycleGraph.Valid;
      graph := new CycleGraph();
      acts, threads, usedNumbers, lastAction, creation, lastFenceRelease := [], 2, 0, map[], map[], map[];
      pendingSeqs, queue, badSynchronization, badScRead := [], [], false, false;
      G, M, record, changed, late := {}, {}, SyncRecord({}, {}, {}, {}), {}, {};
      new;
      NothingHappens();
      NothingLawful();
      NothingAccounted();
      NothingAttested(graph.actionToNode, EdgeSet(graph.nodes));
    }

    // ----------------------------------------------------------------
    // New actions
    // ----------------------------------------------------------------

    /** The first atomic action on a location brings a placeholder for its uninitialized value. */
    method PrepareLocation(kind: Kind, loc: nat)
      requires Valid() && queue == []
      modifies this`acts
      ensures Valid() && acts == Prepared(old(acts), kind, loc)
    {
      hide Lawful, Sourced, Consistent, ConsistentBut, Registered, Linked, RmwConstrained, Attested, Accounted,
           CycleGraph.Valid;
      if kind.IsAtomic() && Unseen(acts, loc) {
        var u := Placeholder(loc);
        assert Queued(queue) == {};
        NothingBut(acts, G, M, {});
        NewUninitSound(acts, G, M, u);
        NothingBut(acts + [u], G, M, {});
        RegisteredUninit(acts, threads, lastAction, creation, lastFenceRelease, usedNumbers, loc);
        CreatorsKnown(acts, threads, lastAction, creation, lastFenceRelease, usedNumbers);
        AccountedUninit(acts, G, creation, record, pendingSeqs, u);
        LinkedSame(acts, acts + [u], M, graph.actionToNode, graph.log);
        EvolvedMore(acts, u);
        StillAttested(acts + [u]);
        LawfulPlaceholder(acts, G, M, u, changed, late);
        acts := acts + [u];
      }
    }

    /** What a step does to the trace leaves what stands behind the record. */
    lemma StillAttested(s: Trace)
      requires GraphValid() && Evolved(acts, s)
      ensures Attested(s, graph.actionToNode, EdgeSet(graph.nodes), threads, creation, record, pendingSeqs)
      ensures Sourced(s, M, graph.actionToNode, graph.log)
    {
      hide Sourced, RmwConstrained, Linked, CycleGraph.Valid, EdgeSet, Attested, Evolved;
      AttestedStill(acts, s, graph.actionToNode, graph.actionToNode, EdgeSet(graph.nodes), EdgeSet(graph.nodes),
                    threads, creation, record, pendingSeqs);
      SourcedEvolves(acts, s, M, graph.actionToNode, graph.log);
    }

    method Append(r: Action)
      requires GraphValid() && !r.kind.Rmw?
      modifies this`acts
      ensures GraphValid() && acts == old(acts) + [r]
    {
      hide Sourced, Linked, RmwConstrained, Attested, CycleGraph.Valid;
      LinkedNew(acts, r, M, graph.actionToNode, graph.log);
      EvolvedMore(acts, r);
      StillAttested(acts + [r]);
      acts := acts + [r];
    }

    /** The record of a new action, apart from its clock. */
    function Announced(kind: Kind, order: MemoryOrder, tid: nat, loc: nat): Action
      reads this`usedNumbers, this`lastFenceRelease
    {
      Action.Action(kind, order, tid, usedNumbers + 1, loc, None,
                    if tid in lastFenceRelease then Some(lastFenceRelease[tid]) else None, [])
    }

    /** initialize_curr_action and add_action_to_lists for an action that was not seen before. */
    method Begin(kind: Kind, order: MemoryOrder, tid: nat, loc: nat) returns (curr: nat)
      requires Valid() && queue == [] && 1 <= tid < threads && !kind.Uninit? && !kind.Rmw?
      modifies this`acts, this`usedNumbers, this`lastAction, this`lastFenceRelease, this`G
      ensures ValidBut({curr}) && curr + 1 == |acts|
      ensures acts[..curr] == Prepared(old(acts), kind, loc)
      ensures var parent := Parent(old(lastAction), creation, tid);
              && (parent.Some? ==> parent.value < curr)
              && acts[curr] == WithClock(acts[..curr], old(Announced(kind, order, tid, loc)), parent)
              && G == old(G) + ParentEdge(parent, curr)
      ensures lastAction == old(lastAction)[tid := curr] && Evolved(old(acts), acts)
      ensures lastFenceRelease == if kind.Fence? && order.IsRelease() then old(lastFenceRelease)[tid := curr]
                                  else old(lastFenceRelease)
    {
      hide ValidBut, WithClock, ParentEdge, Parent, Prepared;
      PrepareLocation(kind, loc);
      curr := AddAction(kind, order, tid, loc);
      StepEvolves(old(acts), acts, kind, loc);
    }

    /** The action comes last, after that of its parent. */
    method AddAction(kind: Kind, order: MemoryOrder, tid: nat, loc: nat) returns (curr: nat)
      requires Valid() && queue == [] && 1 <= tid < threads && !kind.Uninit? && !kind.Rmw?
      modifies this`acts, this`usedNumbers, this`lastAction, this`lastFenceRelease, this`G
      ensures ValidBut({curr}) && curr == |old(acts)| && curr + 1 == |acts| && acts[..curr] == old(acts)
      ensures var parent := Parent(old(lastAction), creation, tid);
              && (parent.Some? ==> parent.value < curr)
              && acts[curr] == WithClock(old(acts), old(Announced(kind, order, tid, loc)), parent)
              && G == old(G) + ParentEdge(parent, curr)
      ensures lastAction == old(lastAction)[tid := curr]
      ensures lastFenceRelease == if kind.Fence? && order.IsRelease() then old(lastFenceRelease)[tid := curr]
                                  else old(lastFenceRelease)
    {
      hide Lawful, Consistent, ConsistentBut, Registered, Accounted, WithClock, ParentEdge, Parent, Queued,
           QueueKnown, GraphValid;
      curr := |acts|;
      var act := Announced(kind, order, tid, loc);
      usedNumbers := usedNumbers + 1;
      QueueEmpty(acts);
      NothingBut(acts, G, M, {});
      NewAction(acts, G, M, threads, lastAction, creation, lastFenceRelease, old(usedNumbers), act);
      AccountedNew(acts, G, creation, record, pendingSeqs, act, threads, lastAction, lastFenceRelease,
                   old(usedNumbers));
      var parent := Parent(lastAction, creation, tid);
      var r := WithClock(acts, act, parent);
      QueueEmpty(acts + [r]);
      LawfulNew(acts, G, G + ParentEdge(parent, curr), M, r, changed, late);
      G := G + ParentEdge(parent, curr);
      Append(r);
      lastAction := lastAction[tid := curr];
      if kind.Fence? && order.IsRelease() {
        lastFenceRelease := lastFenceRelease[tid := curr];
      }
    }

    // ----------------------------------------------------------------
    // Ordering constraints
    // ----------------------------------------------------------------

    /** Stores with an edge between their nodes. */
    ghost function Direct(): Edges
      reads graph
    {
      DirectEdges(graph.actionToNode, EdgeSet(graph.nodes))
    }

    method AddMoEdge(a: nat, b: nat) returns (added: bool)
      requires GraphValid() && a < |acts| && b < |acts| && acts[a].kind.IsWrite() && acts[b].kind.IsWrite()
      modifies this`M, graph
      ensures GraphValid() && M == old(M) + {(a, b)}
      ensures (a, b) in Direct() && Progress(old(Direct()), Direct(), added)
    {
      hide Sourced, RmwConstrained, Linked, CycleGraph.Valid, EdgeSet, Attested;
      ghost var t, log, E := graph.actionToNode, graph.log, EdgeSet(graph.nodes);
      added := graph.AddEdgeBetween(Key.Action(a), Key.Action(b));
      assert Acts({Key.Action(a), Key.Action(b)}) <= {a, b};
      EvolvedSame(acts);
      AttestedStill(acts, acts, t, graph.actionToNode, E, EdgeSet(graph.nodes), threads, creation, record, pendingSeqs);
      LinkedGrows(acts, M, t, log, graph.actionToNode, graph.log, a, b);
      RmwConstrainedGrows(acts, t, log, graph.actionToNode, graph.log);
      SourcedGrows(acts, M, t, log, graph.actionToNode, a, b, Before(graph.actionToNode[a], graph.actionToNode[b]));
      M := M + {(a, b)};
    }

    /** The inner loop of r_modification_order for thread `tid`. */
    method FindReadEdge(curr: nat, rf: nat, tid: nat) returns (w: Option<nat>)
      requires curr < |acts| && rf < |acts| && ReadsKnown(acts, {curr})
      ensures w == ScanRead(acts, curr, rf, tid, |acts|)
    {
      var k: nat := |acts|;
      while k > 0
        invariant k <= |acts|
        invariant ScanRead(acts, curr, rf, tid, k) == ScanRead(acts, curr, rf, tid, |acts|)
      {
        match JudgeRead(acts, k - 1, curr, rf, tid) {
          case Skip => k := k - 1;
          case Stop => return None;
          case Order(source) => return Some(source);
        }
      }
      w := None;
    }

    /** The inner loop of w_modification_order for thread `tid`. */
    method FindWriteEdge(curr: nat, tid: nat) returns (w: Option<nat>)
      requires curr < |acts| && ReadsKnown(acts, {curr})
      ensures w == ScanWrite(acts, curr, tid, |acts|)
    {
      var k: nat := |acts|;
      while k > 0
        invariant k <= |acts|
        invariant ScanWrite(acts, curr, tid, k) == ScanWrite(acts, curr, tid, |acts|)
      {
        match JudgeWrite(acts, k - 1, curr, tid) {
          case Skip => k := k - 1;
          case Stop => return None;
          case Order(source) => return Some(source);
        }
      }
      w := None;
    }

    /** The edge that r_modification_order asks for because of thread `i`. */
    method OrderReadAfter(curr: nat, rf: nat, i: nat) returns (added: bool)
      requires GraphValid() && curr < |acts| && rf < |acts| && ReadsKnown(acts, {curr}) && acts[rf].kind.IsWrite()
      requires WritesOnly(acts, M) && WellClocked(acts) && Plain(acts) && acts[curr].kind.IsRead()
      modifies this`M, graph
      ensures GraphValid() && NewForRead(acts, old(M), M, curr, rf, Overtaken(acts, curr)) && WritesOnly(acts, M)
      ensures var w := ScanRead(acts, curr, rf, i, |acts|); w.Some? ==> (w.value, rf) in M
      ensures Progress(old(Direct()), Direct(), added)
    {
      hide GraphValid, ReadsKnown, DirectEdges;
      added := false;
      var w := FindReadEdge(curr, rf, i);
      if w.Some? {
        ScanReadWrites(acts, curr, rf, i, |acts|);
        if !Overtaken(acts, curr) {
          ScanReadAsked(acts, curr, rf, i, |acts|);
        }
        added := AddMoEdge(w.value, rf);
      }
    }

    /**
     r_modification_order. Whatever the fence rules put before the read is ordered no later than what it
     reads, and so is what happens before it; and unless a fence came after the read, nothing else is
     asked for.
     */
    method ReadModificationOrder(curr: nat, rf: nat) returns (added: bool)
      requires GraphValid() && curr < |acts| && rf < |acts| && ReadsKnown(acts, {curr}) && acts[rf].kind.IsWrite()
      requires WritesOnly(acts, M) && Scannable(curr) && acts[curr].kind.IsRead()
      modifies this`M, graph
      ensures GraphValid() && WritesOnly(acts, M) && ReadOrdered(acts, M, curr, rf, threads)
      ensures forall a: nat :: MustSee(acts, {}, a, curr) ==> Reach(M, a, rf)
      ensures forall x: nat, a: nat :: Precedent(acts, x, curr, a) ==> Reach(M, a, rf)
      ensures NewForRead(acts, old(M), M, curr, rf, Overtaken(acts, curr))
      ensures Progress(old(Direct()), Direct(), added)
    {
      hide GraphValid, ReadsKnown, WritesOnly, Direct;
      added := false;
      var i := 0;
      while i < threads
        invariant i <= threads && GraphValid() && WritesOnly(acts, M)
        invariant NewForRead(acts, old(M), M, curr, rf, Overtaken(acts, curr))
        invariant ReadOrdered(acts, M, curr, rf, i)
        invariant Progress(old(Direct()), Direct(), added)
      {
        ghost var M1 := M;
        var more := OrderReadAfter(curr, rf, i);
        NewReadTrans(acts, old(M), M1, M, curr, rf, Overtaken(acts, curr));
        OrderedMore(acts, M1, M, curr, rf, i);
        added := added || more;
        i := i + 1;
      }
      ReadRulesHold(acts, old(M), M, curr, rf, threads);
    }

    /** What the scans for an action rely on. */
    ghost predicate Scannable(curr: nat)
      reads this`acts, this`M, this`threads
    {
      && WellClocked(acts) && Plain(acts) && UninitOnce(acts) && OwnSettled(acts, M, {curr})
      && ThreadsBelow(acts, threads)
    }

    /** A sequentially consistent store is ordered after the last such store to the location. */
    method OrderScWrite(curr: nat) returns (added: bool)
      requires GraphValid() && curr < |acts| && acts[curr].kind.IsWrite() && WritesOnly(acts, M)
      modifies this`M, graph
      ensures GraphValid() && WritesOnly(acts, M) && ScOrdered(acts, M, curr)
      ensures NewForWrite(acts, old(M), M, curr, false)
      ensures Progress(old(Direct()), Direct(), added)
    {
      hide GraphValid, DirectEdges;
      added := false;
      if acts[curr].order.SeqCst? {
        var lastSc := LastScWrite(acts, curr, curr);
        if lastSc.Some? {
          added := AddMoEdge(lastSc.value, curr);
        }
      }
    }

    /** The edge that w_modification_order asks for because of thread `i`. */
    method OrderWriteAfter(curr: nat, i: nat) returns (added: bool)
      requires GraphValid() && curr < |acts| && ReadsKnown(acts, {curr}) && acts[curr].kind.IsWrite() &&
               WritesOnly(acts, M) && WellClocked(acts)
      modifies this`M, graph
      ensures GraphValid() && WritesOnly(acts, M) && NewForWrite(acts, old(M), M, curr, Overtaken(acts, curr))
      ensures var w := ScanWrite(acts, curr, i, |acts|); w.Some? ==> (w.value, curr) in M
      ensures Progress(old(Direct()), Direct(), added)
    {
      hide GraphValid, ReadsKnown, DirectEdges;
      added := false;
      var w := FindWriteEdge(curr, i);
      if w.Some? {
        ScanWriteWrites(acts, curr, i, |acts|);
        if !Overtaken(acts, curr) {
          ScanWriteAsked(acts, curr, i, |acts|);
        }
        added := AddMoEdge(w.value, curr);
      }
    }

    /**
     w_modification_order, without the future values it may send. What paragraph 7 puts before the store
     is ordered before it, as far as other threads go, and so is the last sequentially consistent store;
     and unless a fence came after the store, nothing is asked for without a reason.
     */
    method WriteModificationOrder(curr: nat) returns (added: bool)
      requires GraphValid() && curr < |acts| && ReadsKnown(acts, {curr}) && acts[curr].kind.IsWrite()
      requires WritesOnly(acts, M) && Scannable(curr)
      modifies this`M, graph
      ensures GraphValid() && WritesOnly(acts, M)
      ensures WriteOrdered(acts, M, curr, threads) && ScOrdered(acts, M, curr)
      ensures forall a: nat :: BothFenced(acts, a, curr) && acts[a].tid != acts[curr].tid ==> Plus(M, a, curr)
      ensures NewForWrite(acts, old(M), M, curr, Overtaken(acts, curr))
      ensures Progress(old(Direct()), Direct(), added)
    {
      hide GraphValid, ReadsKnown, WritesOnly, Direct;
      added := OrderScWrite(curr);
      var i := 0;
      while i < threads
        invariant i <= threads && GraphValid() && WritesOnly(acts, M)
        invariant WriteOrdered(acts, M, curr, i) && ScOrdered(acts, M, curr)
        invariant NewForWrite(acts, old(M), M, curr, Overtaken(acts, curr))
        invariant Progress(old(Direct()), Direct(), added)
      {
        ghost var M1 := M;
        var more := OrderWriteAfter(curr, i);
        NewWriteTrans(acts, old(M), M1, M, curr, Overtaken(acts, curr));
        WriteOrderedMore(acts, M1, M, curr, i);
        added := added || more;
        i := i + 1;
      }
      WriteRulesHold(acts, old(M), M, curr, threads);
    }

    // ----------------------------------------------------------------
    // Release sequences
    // ----------------------------------------------------------------

    /** What the search for release sequences relies on. */
    ghost predicate Searchable()
      reads this`acts, this`M, this`G, this`threads, this`lastAction, this`creation, this`lastFenceRelease,
            this`usedNumbers
    {
      && Clocked(acts, G) && ReadsKnown(acts, {}) && UninitOnce(acts) && RmwLinked(acts, M)
      && Registered(acts, threads, lastAction, creation, lastFenceRelease, usedNumbers)
    }

    /** What the search looks at, when the threads of `settled` do nothing more. */
    ghost function Look(settled: seq<bool>): View
      reads this`acts, this`lastAction, graph
    {
      View(acts, graph.actionToNode, EdgeSet(graph.nodes), lastAction, settled)
    }

    /** The first loop of release_seq_heads: back along the chain of read-modify-writes. */
    method ChainHeads(rf0: nat) returns (heads: seq<nat>, rf: nat, complete: bool)
      requires Searchable() && rf0 < |acts| && acts[rf0].kind.IsWrite()
      ensures AllVia(acts, M, heads, rf0) && Tail(acts, M, rf, rf0)
      ensures rf == ChainTail(acts, rf0) && (complete <==> acts[rf].kind.Rmw?)
      ensures ChainCaught(acts, rf0, heads) && forall h :: h in heads ==> OnChain(acts, rf0, h)
    {
      hide Lawful, Clocked, Registered, HeadVia, Reach, UninitOnce, OnChain;
      rf := rf0;
      heads := [];
      ReachRefl(M, rf0);
      while true
        invariant Tail(acts, M, rf, rf0) && AllVia(acts, M, heads, rf0)
        invariant ChainTail(acts, rf) == ChainTail(acts, rf0) && Chain(acts, rf) <= Chain(acts, rf0)
        invariant forall r :: r in Chain(acts, rf0) ==> r in Chain(acts, rf) || Caught(acts, r, heads)
        invariant forall h :: h in heads ==> OnChain(acts, rf0, h)
        decreases rf
      {
        var release := ReleaseAt(acts, rf);
        if release.Some? {
          ChainHead(acts, G, M, threads, lastAction, creation, lastFenceRelease, usedNumbers, heads, rf0, rf,
                    release.value);
          IsOnChain(acts, rf0, rf, release.value);
          heads := heads + [release.value];
        }
        if !acts[rf].kind.Rmw? {
          return heads, rf, false;
        }
        if acts[rf].order.IsAcquire() && acts[rf].order.IsRelease() {
          return heads, rf, true;
        }
        assert ReadKnown(acts, rf);
        ReachEdge(M, acts[rf].rf.value, rf);
        ReachTrans(M, acts[rf].rf.value, rf, rf0);
        rf := acts[rf].rf.value;
      }
    }

    /** The search for the last release of the thread of `rf`, not further back than its last release fence. */
    method FindRelease(rf: nat) returns (r: Option<nat>)
      requires rf < |acts| && WellClocked(acts)
      requires acts[rf].lastFence.Some? ==> acts[rf].lastFence.value < rf && Numbered(acts, rf)
      ensures if r.Some? then OwnRelease(acts, rf, r.value) else forall h: nat :: !OwnRelease(acts, rf, h)
    {
      var fence := acts[rf].lastFence;
      var k: nat := rf + 1;
      while k > 0
        invariant k <= rf + 1
        invariant forall b: nat :: k <= b <= rf && Listed(acts, b, rf, acts[rf].tid) ==> !acts[b].order.IsRelease()
      {
        var act := k - 1;
        if Listed(acts, act, rf, acts[rf].tid) {
          if fence.Some? && acts[act].now < acts[fence.value].now {
            BehindFence(acts, rf, act);
            return None;
          }
          if acts[act].order.IsRelease() {
            return Some(act);
          }
        }
        k := k - 1;
      }
      r := None;
    }

    /** What the inner loop of release_seq_heads makes of the action `act` of another thread. */
    method Consider(release: nat, rf: nat, act: nat) returns (sight: Sight)
      requires graph.Valid() && rf < |acts| && release < |acts| && act < |acts|
      ensures sight == Sighting(acts, graph.actionToNode, EdgeSet(graph.nodes), release, rf, act)
    {
      hide HB, Reach, EdgeSet, CycleGraph.Valid;
      if HB(acts, act, release) {
        return Ends;
      }
      if HB(acts, rf, act) {
        return Past;
      }
      if !acts[act].kind.IsWrite() || acts[act].kind.Rmw? {
        return Nothing;
      }
      var after := graph.CheckOrdered(Key.Action(rf), Key.Action(act));
      if after {
        return Past;
      }
      var before := graph.CheckOrdered(Key.Action(act), Key.Action(release));
      if before {
        return Ends;
      }
      after := graph.CheckOrdered(Key.Action(release), Key.Action(act));
      if after {
        before := graph.CheckOrdered(Key.Action(act), Key.Action(rf));
        if before {
          return Breaks;
        }
      }
      sight := Open;
    }

    /** The inner loop of release_seq_heads over the actions of thread `i`. */
    method ScanThread(release: nat, rf: nat, i: nat) returns (ordered: bool, sure: bool, broken: bool)
      requires Searchable() && graph.Valid() && rf < |acts| && Numbered(acts, release) && i != acts[rf].tid
      ensures broken <==> Sees(acts, graph.actionToNode, EdgeSet(graph.nodes), release, rf, i, Breaks)
      ensures !broken ==> (sure <==> !Sees(acts, graph.actionToNode, EdgeSet(graph.nodes), release, rf, i, Open))
      ensures !broken ==> (ordered <==> Sees(acts, graph.actionToNode, EdgeSet(graph.nodes), release, rf, i, Past))
      ensures sure && !broken ==>
                ThreadOutside(acts, graph.actionToNode, EdgeSet(graph.nodes), release, rf, i, 0)
      ensures ordered ==> ThreadPast(acts, graph.actionToNode, EdgeSet(graph.nodes), rf, i)
    {
      hide Lawful, Sourced, Clocked, Registered, HB, EdgeSet, CycleGraph.Valid, UninitOnce, Sees, SeesFrom, Sighting,
           ThreadOutside, ThreadPast, ReadsKnown, RmwLinked;
      ghost var t, E := graph.actionToNode, EdgeSet(graph.nodes);
      ordered, sure, broken := false, true, false;
      var k: nat := |acts|;
      NothingSeen(acts, t, E, release, rf, i);
      while k > 0
        invariant k <= |acts|
        invariant !SeesFrom(acts, t, E, release, rf, i, k, Ends) && !SeesFrom(acts, t, E, release, rf, i, k, Breaks)
        invariant sure <==> !SeesFrom(acts, t, E, release, rf, i, k, Open)
        invariant ordered <==> SeesFrom(acts, t, E, release, rf, i, k, Past)
        invariant sure ==> ThreadOutside(acts, t, E, release, rf, i, k)
        invariant ordered ==> ThreadPast(acts, t, E, rf, i)
      {
        var act := k - 1;
        SeesAll(acts, t, E, release, rf, i, k);
        if Listed(acts, act, rf, i) {
          var sight := Consider(release, rf, act);
          match sight {
            case Ends =>
              ScanOver(acts, G, t, E, release, rf, i, k, sure);
              return;
            case Breaks =>
              SeesNow(acts, t, E, release, rf, i, act);
              broken := true;
              return;
            case Past =>
              ordered := true;
            case Open =>
              sure := false;
            case Nothing =>
          }
        }
        ScanStep(acts, t, E, release, rf, i, k);
        k := k - 1;
      }
      ScanDone(acts, t, E, release, rf, i, 0);
    }

    /** The last loop of release_seq_heads: is the sequence from `release` to `rf` certainly contiguous? */
    method ScanThreads(release: nat, rf: nat, settled: seq<bool>) returns (certain: bool, broken: bool)
      requires Searchable() && GraphValid() && rf < |acts| && Numbered(acts, release) && |settled| == threads
      requires acts[rf].kind.IsWrite() && Listed(acts, release, rf, acts[rf].tid) && release <= rf && Numbered(acts, rf)
      requires acts[release].order.IsRelease()
      ensures broken <==> Broken(Look(settled), release, rf)
      ensures !broken ==> (certain <==> Clear(Look(settled), release, rf))
      ensures certain && !broken ==> Certified(acts, graph.actionToNode, EdgeSet(graph.nodes), settled, release, rf)
    {
      hide Sourced, Clocked, HB, Reach, EdgeSet, CycleGraph.Valid, UninitOnce, RmwConstrained, ThreadOutside,
           Attested, ReadsKnown, ThreadsBelow, RmwLinked, ThreadPast, Sees;
      ghost var t, E := graph.actionToNode, EdgeSet(graph.nodes);
      certain, broken := true, false;
      var i := 0;
      while i < threads
        invariant i <= threads && !broken
        invariant forall j: nat :: j < i && j != acts[rf].tid ==> !Sees(acts, t, E, release, rf, j, Breaks)
        invariant certain <==> forall j: nat :: j < i && j != acts[rf].tid ==>
                                   ThreadClear(Look(settled), release, rf, j)
        invariant certain ==> forall j: nat :: j < i && j != acts[rf].tid ==>
                    ThreadOutside(acts, t, E, release, rf, j, 0) && (settled[j] || ThreadPast(acts, t, E, rf, j))
      {
        if i != acts[rf].tid {
          var ordered, sure;
          ordered, sure, broken := ScanThread(release, rf, i);
          if broken {
            return;
          }
          LastsKnown(acts, threads, lastAction, creation, lastFenceRelease, usedNumbers);
          var future := settled[i];
          if i in lastAction && HB(acts, rf, lastAction[i]) {
            PastByHB(acts, t, E, rf, i, lastAction[i]);
            future := true;
          }
          assert sure && (ordered || future) <==> ThreadClear(Look(settled), release, rf, i);
          certain := certain && sure && (ordered || future);
        }
        i := i + 1;
      }
    }

    /** release_seq_heads: the heads found for a read from `rf0`, and whether they are all there can be. */
    method ReleaseSeqHeads(rf0: nat, settled: seq<bool>)
      returns (heads: seq<nat>, certain: bool, ghost cert: Option<Certificate>)
      requires Searchable() && GraphValid() && rf0 < |acts| && acts[rf0].kind.IsWrite() && |settled| == threads
      ensures AllVia(acts, M, heads, rf0) && Outcome(Look(settled), graph.hasCycles, rf0, heads, certain)
      ensures !graph.hasCycles ==> ChainCaught(acts, rf0, heads)
      ensures Backed(Look(settled), rf0, heads, cert)
    {
      hide Lawful, Sourced, Clocked, HB, Reach, EdgeSet, CycleGraph.Valid, UninitOnce, Linked, RmwConstrained,
           Attested, Registered, ReadsKnown, RmwLinked, Chain, Certified, Caught, OnChain, Broken, Clear;
      heads, certain, cert := [], false, None;
      var cycles := graph.CheckForCycles();
      if cycles {
        return;
      }
      var rf, complete;
      heads, rf, complete := ChainHeads(rf0);
      ghost var v, chained := Look(settled), heads;
      ChainIsCaught(acts, rf0, heads);
      if complete || acts[rf].order.IsRelease() {
        NotLoose(v, rf0);
        return heads, true, None;
      }
      KnownFences(acts, threads, lastAction, creation, lastFenceRelease, usedNumbers);
      var fence := acts[rf].lastFence;
      if fence.Some? {
        ChainHead(acts, G, M, threads, lastAction, creation, lastFenceRelease, usedNumbers, heads, rf0, rf,
                  fence.value);
        IsOnChain(acts, rf0, rf, fence.value);
        CaughtMore(acts, Chain(acts, rf0), heads, fence.value);
        heads := heads + [fence.value];
      }
      ClockedWell(acts, G);
      var release := FindRelease(rf);
      if release.None? {
        NoOwnRelease(v, rf0);
        return heads, true, None;
      }
      ReleaseNumbered(acts, G, threads, lastAction, creation, lastFenceRelease, usedNumbers, release.value, rf);
      OneOffChain(v, rf0, release.value);
      var sure, broken := ScanThreads(release.value, rf, settled);
      if broken {
        return heads, true, None;
      }
      certain := sure;
      if certain {
        OwnHead(acts, M, release.value, rf0, rf);
        AllViaPush(acts, M, heads, rf0, release.value, rf);
        CaughtMore(acts, Chain(acts, rf0), heads, release.value);
        heads := heads + [release.value];
        cert := Some(Certificate(v, release.value, rf));
      }
    }

    // ----------------------------------------------------------------
    // Synchronization
    // ----------------------------------------------------------------

    /** synchronize: the second action inherits the clock of the first, unless it came first. */
    method Synchronize(first: nat, second: nat) returns (ok: bool)
      requires first < |acts| && second < |acts|
      modifies this`acts, this`badSynchronization
      ensures ok <==> old(acts)[first].now <= old(acts)[second].now
      ensures badSynchronization <==> old(badSynchronization) || !ok
      ensures acts == if ok then Met(old(acts), first, second) else old(acts)
    {
      if acts[second].now < acts[first].now {
        badSynchronization := true;
        return false;
      }
      acts := acts[second := acts[second].(cv := Join(acts[second].cv, acts[first].cv))];
      ok := true;
    }

    /**
     Synchronizes `x` with its heads in turn; when `again` is not set, only with those
     that it has not synchronized with. None of them comes after `x`.
     */
    method SynchronizeAll(heads: seq<nat>, x: nat, again: bool) returns (updated: bool, ghost done: seq<nat>)
      requires WellClocked(acts) && Numbered(acts, x) && Heads(acts, heads, x)
      modifies this`acts, this`badSynchronization
      ensures Took(old(acts), done, x, acts) && (forall h :: h in done ==> h in heads)
      ensures again ==> done == heads
      ensures updated <==> done != []
      ensures !again && done != [] ==> done[0] < |acts| && !HB(old(acts), done[0], x)
      ensures badSynchronization == old(badSynchronization)
      ensures AllBefore(acts, heads, x)
    {
      hide WellClocked, HB, Joined, AllBefore, Numbered;
      updated, done := false, [];
      ghost var s := acts;
      TookNone(s, x);
      JoinedNothing(s, x);
      var i := 0;
      while i < |heads|
        invariant 0 <= i <= |heads|
        invariant Took(s, done, x, acts) && badSynchronization == old(badSynchronization)
        invariant (again ==> done == heads[..i]) && (forall h :: h in done ==> h in heads)
        invariant updated <==> done != []
        invariant !again && done != [] ==> done[0] < |s| && !HB(s, done[0], x)
        invariant AllBefore(acts, heads[..i], x)
      {
        var h := heads[i];
        ghost var before := acts;
        TookHead(s, done, x, before, h);
        if again || !HB(acts, h, x) {
          TookMore(s, done, x, before, h);
          StillBefore(before, heads[..i], h, x);
          var ok := Synchronize(h, x);
          updated := true;
          done := done + [h];
        }
        BeforeMore(acts, heads[..i], x, h);
        assert heads[..i] + [h] == heads[..i + 1];
        i := i + 1;
      }
      assert heads[..i] == heads;
    }

    // ----------------------------------------------------------------
    // Steps
    // ----------------------------------------------------------------

    /** The read `curr`, the last action, takes its value from `w`. */
    method TakeValue(curr: nat, w: nat) returns (added: bool)
      requires ValidBut({curr}) && queue == [] && curr + 1 == |acts| && (acts[curr].kind.Read? || acts[curr].kind.Rmwr?)
      requires w < curr && acts[w].kind.IsWrite() && acts[w].loc == acts[curr].loc && acts[curr].rf.None?
      modifies this`acts, this`M, graph
      ensures Valid() && acts == SetRf(old(acts), curr, w) && old(M) <= M
      ensures Progress(old(Direct()), Direct(), added)
    {
      hide Lawful, Sourced, HB, ReadOrdered, Accounted, Registered, Linked, RmwConstrained, Attested,
           CycleGraph.Valid, Clocked, OwnSettled, Settled, RmwLinked, UninitOnce, Consistent;
      CanScan(curr, Queued(queue));
      added := ReadModificationOrder(curr, w);
      StillOwnSettled(acts, G, old(M), M, Queued(queue), curr);
      TakeLawful(acts, old(M), M, curr, w, changed, late, threads);
      QueueEmpty(acts);
      ReadTaken(acts, G, old(M), M, curr, w, threads, lastAction, creation, lastFenceRelease, usedNumbers);
      var s := SetRf(acts, curr, w);
      AccountedLast(acts, s, G, creation, record, pendingSeqs);
      Replace(s);
      NothingBut(acts, G, M, {});
    }

    /** Replaces the trace by one with the same writes. */
    method Replace(s: Trace)
      requires GraphValid() && SameWrites(acts, s) && Evolved(acts, s)
      modifies this`acts
      ensures GraphValid() && acts == s
    {
      hide Sourced, Linked, RmwConstrained, Attested, CycleGraph.Valid, SameWrites, Evolved;
      LinkedSame(acts, s, M, graph.actionToNode, graph.log);
      StillAttested(s);
      acts := s;
    }

    /**
     The last action `x` synchronizes with the heads behind what `read` reads, which is itself, or an
     earlier read of its thread when it is an acquire fence. An unsettled search is remembered.
     */
    method SynchronizeWithHeads(x: nat, read: nat, settled: seq<bool>)
      returns (updated: bool, ghost heads: seq<nat>, ghost cert: Option<Certificate>)
      requires read <= x && x + 1 == |acts| && |settled| == threads && Asks(acts, PendingSeq(x, read))
      requires Valid() && queue == []
      modifies this`acts, this`badSynchronization, this`pendingSeqs, this`G, this`record
      ensures |acts| == |old(acts)| && acts[..x] == old(acts)[..x] && acts[x] == old(acts)[x].(cv := acts[x].cv)
      ensures Valid() && Grew(old(acts), acts) && old(acts)[read].rf.Some? && (updated <==> heads != [])
      ensures G == old(G) + SyncEdges(heads, x) && record == Asking(old(record), PendingSeq(x, read), heads, cert)
      ensures AllBefore(acts, heads, x)
      ensures Asked(old(Look(settled)), graph.hasCycles, PendingSeq(x, read), old(acts)[read].rf.value, heads,
                    old(pendingSeqs), pendingSeqs)
      ensures Backed(old(Look(settled)), old(acts)[read].rf.value, heads, cert)
    {
      hide Lawful, Sourced, HB, Registered, Linked, RmwConstrained, Attested, CycleGraph.Valid, WellClocked, Chain,
           Caught, Searchable, GraphLinked, Queued, AllVia, Accounted, Grew, AllBefore, ConsistentBut, Consistent,
           Clocked, Backed, SyncEdges, EdgeSet, QueueKnown, ChainCaught, Answered, Heading, Asking;
      CanSearch(read);
      var hs, certain;
      hs, certain, cert := ReleaseSeqHeads(acts[read].rf.value, settled);
      ghost var v, seqs, p, rf := Look(settled), pendingSeqs, PendingSeq(x, read), acts[read].rf.value;
      heads := hs;
      LastSynchronized(v.s, G, M, hs, p, threads, lastAction, creation, lastFenceRelease, usedNumbers);
      ThreadsKnown(acts, threads, lastAction, creation, lastFenceRelease, usedNumbers);
      updated := SynchronizeInGraph(hs, x);
      TookFacts(v.s, acts, hs, x, rf);
      LawfulClocks(v.s, acts, G, M, {}, changed, late);
      RememberSearch(v, p, hs, cert, certain);
      if !certain {
        pendingSeqs := pendingSeqs + [PendingSeq(x, read)];
      }
      JoinedSearch(v.s, G, creation, record, seqs, pendingSeqs, p, v, hs, cert);
      G, record := G + SyncEdges(hs, x), Asking(record, p, hs, cert);
      QueueEmpty(acts);
      NothingBut(acts, G, M, {});
      assert acts[..x] == v.s[..x];
    }

    /** What stands behind the record once a search has been asked. */
    lemma RememberSearch(v: View, p: PendingSeq, heads: seq<nat>, cert: Option<Certificate>, certain: bool)
      requires v.t == graph.actionToNode && v.E == EdgeSet(graph.nodes) && Grew(v.s, acts)
      requires Attested(v.s, v.t, v.E, threads, creation, record, pendingSeqs) && |v.settled| == threads
      requires ThreadsBelow(v.s, threads) && IsSearch(v.s, p) && Backed(v, v.s[p.read].rf.value, heads, cert)
      requires certain ==> Outcome(v, false, v.s[p.read].rf.value, heads, certain) && AllBefore(acts, heads, p.acquire)
      ensures Attested(acts, graph.actionToNode, EdgeSet(graph.nodes), threads, creation,
                       Asking(record, p, heads, cert), if certain then pendingSeqs else pendingSeqs + [p])
    {
      hide Sourced, Attested, Linked, RmwConstrained, CycleGraph.Valid, Backed, Answered, Heading, IsSearch, EdgeSet,
           Grew, Asking, AllBefore, Evolved;
      GrewEvolved(v.s, acts);
      var seqs' := if certain then pendingSeqs else pendingSeqs + [p];
      AttestedSearch(v, acts, threads, creation, record, pendingSeqs, seqs', p, heads, heads, cert);
    }

    lemma CanSearch(read: nat)
      requires Valid() && queue == [] && read < |acts| && acts[read].kind.IsRead()
      ensures Searchable() && GraphValid() && Consistent(acts, G, M, {}) && Clocked(acts, G) && WellClocked(acts)
      ensures ReadKnown(acts, read) && Numbered(acts, read)
    {
      hide Lawful, Sourced, Clocked, HB, Registered, Linked, RmwConstrained, Attested, CycleGraph.Valid, OwnSettled,
           Settled, Accounted, UninitOnce, RmwLinked;
      QueueEmpty(acts);
      NothingBut(acts, G, M, {});
      assert WellClocked(acts) by {
        ClockedWell(acts, G);
      }
    }

    /** SynchronizeAll on a trace in which only clocks matter. */
    method SynchronizeInGraph(heads: seq<nat>, x: nat) returns (updated: bool)
      requires GraphValid() && WellClocked(acts) && Numbered(acts, x) && Heads(acts, heads, x)
      modifies this`acts, this`badSynchronization
      ensures GraphValid() && Took(old(acts), heads, x, acts) && (updated <==> heads != [])
      ensures badSynchronization == old(badSynchronization)
      ensures AllBefore(acts, heads, x)
    {
      hide Sourced, Linked, RmwConstrained, Attested, CycleGraph.Valid, HB;
      LinkedSame(acts, Joined(acts, heads, x), M, graph.actionToNode, graph.log);
      TookGrew(acts, heads, x, Joined(acts, heads, x));
      GrewEvolved(acts, Joined(acts, heads, x));
      StillAttested(Joined(acts, heads, x));
      ghost var done;
      updated, done := SynchronizeAll(heads, x, true);
    }

    /**
     A read, or the first half of a read-modify-write, that reads from `from`, or from the
     placeholder made for it. `v` is what an acquire looks at when it searches.
     */
    method StepRead(kind: Kind, order: MemoryOrder, tid: nat, loc: nat, from: Option<nat>, settled: seq<bool>)
      returns (curr: nat, w: nat, ghost heads: seq<nat>, ghost cert: Option<Certificate>, ghost v: View)
      requires Valid() && queue == [] && 1 <= tid < threads && (kind.Read? || kind.Rmwr?) && |settled| == threads
      requires if from.Some? then from.value < |acts| && acts[from.value].kind.IsWrite() && acts[from.value].loc == loc
               else Unseen(acts, loc)
      modifies this, graph
      ensures changed == old(changed) && late == old(late)
      ensures Valid() && threads == old(threads) && creation == old(creation) && Evolved(old(acts), acts)
      ensures curr + 1 == |acts| && acts[..curr] == Prepared(old(acts), kind, loc)
      ensures acts[curr].kind == kind && acts[curr].order == order && acts[curr].tid == tid && acts[curr].loc == loc
      ensures acts[curr].rf == Some(w) && w == if from.Some? then from.value else curr - 1
      ensures G == old(G) + ParentEdge(Parent(old(lastAction), creation, tid), curr) + SyncEdges(heads, curr)
      ensures record == if order.IsAcquire() then Asking(old(record), PendingSeq(curr, curr), heads, cert)
              else old(record)
      ensures old(M) <= M && AllBefore(acts, heads, curr) && v == Look(settled).(s := v.s)
      ensures Parent(old(lastAction), creation, tid).Some? ==> Parent(old(lastAction), creation, tid).value < curr
      ensures v.s == acts[..curr] + [WithClock(acts[..curr], old(Announced(kind, order, tid, loc)),
                                               Parent(old(lastAction), creation, tid)).(rf := Some(w))]
      ensures if order.IsAcquire() then Backed(v, w, heads, cert) &&
                Asked(v, graph.hasCycles, PendingSeq(curr, curr), w, heads, old(pendingSeqs), pendingSeqs)
              else heads == [] && pendingSeqs == old(pendingSeqs)
      ensures queue == if Direct() == old(Direct()) then [] else [CheckRelSeq(Some(loc))]
    {
      hide ValidBut, HB, WithClock, ParentEdge, Parent, AllBefore, SyncEdges, Asking, Direct, Backed, Asked, EdgeSet,
           Evolved, Prepared, Announced;
      var added;
      curr, w, added := StartRead(kind, order, tid, loc, from);
      v := Look(settled);
      heads, cert := FinishRead(curr, added, settled);
      StepEvolves(old(acts), acts, kind, loc);
    }

    /** The rest of a read: an acquire synchronizes, and the graph's changes are kept. */
    method FinishRead(curr: nat, added: bool, settled: seq<bool>)
      returns (ghost heads: seq<nat>, ghost cert: Option<Certificate>)
      requires Valid() && queue == [] && curr + 1 == |acts| && |settled| == threads
      requires acts[curr].kind.Read? || acts[curr].kind.Rmwr?
      modifies this`acts, this`badSynchronization, this`pendingSeqs, this`G, this`record, this`queue, graph
      ensures |acts| == |old(acts)| && acts[..curr] == old(acts)[..curr] &&
              acts[curr] == old(acts)[curr].(cv := acts[curr].cv)
      ensures Valid() && G == old(G) + SyncEdges(heads, curr) && acts[curr].rf.Some?
      ensures record == if acts[curr].order.IsAcquire() then Asking(old(record), PendingSeq(curr, curr), heads, cert)
              else old(record)
      ensures AllBefore(acts, heads, curr) && Direct() == old(Direct())
      ensures graph.actionToNode == old(graph.actionToNode) && EdgeSet(graph.nodes) == EdgeSet(old(graph.nodes))
      ensures if acts[curr].order.IsAcquire()
              then Backed(old(Look(settled)), acts[curr].rf.value, heads, cert) &&
                   Asked(old(Look(settled)), graph.hasCycles, PendingSeq(curr, curr), acts[curr].rf.value, heads,
                         old(pendingSeqs), pendingSeqs)
              else heads == [] && pendingSeqs == old(pendingSeqs)
      ensures queue == if added then [CheckRelSeq(Some(acts[curr].loc))] else []
    {
      hide ValidBut, AllBefore, SyncEdges, Asking, Backed, Asked, Look, EdgeSet, DirectEdges;
      heads, cert := ReadFrom(curr, settled);
      FinishStep(added, Some(acts[curr].loc));
    }

    /** A new read that has taken its value. */
    method StartRead(kind: Kind, order: MemoryOrder, tid: nat, loc: nat, from: Option<nat>)
      returns (curr: nat, w: nat, added: bool)
      requires Valid() && queue == [] && 1 <= tid < threads && (kind.Read? || kind.Rmwr?)
      requires if from.Some? then from.value < |acts| && acts[from.value].kind.IsWrite() && acts[from.value].loc == loc
               else Unseen(acts, loc)
      modifies this`acts, this`usedNumbers, this`lastAction, this`lastFenceRelease, this`G, this`M, graph
      ensures Valid() && old(M) <= M && Progress(old(Direct()), Direct(), added)
      ensures w == if from.Some? then from.value else curr - 1
      ensures Parent(old(lastAction), creation, tid).Some? ==> Parent(old(lastAction), creation, tid).value < curr
      ensures curr + 1 == |acts| && acts[..curr] == Prepared(old(acts), kind, loc)
      ensures acts == acts[..curr] + [WithClock(acts[..curr], old(Announced(kind, order, tid, loc)),
                                                Parent(old(lastAction), creation, tid)).(rf := Some(w))]
      ensures G == old(G) + ParentEdge(Parent(old(lastAction), creation, tid), curr)
      ensures acts[curr].kind == kind && acts[curr].order == order && acts[curr].tid == tid && acts[curr].loc == loc
    {
      hide Lawful, Sourced, HB, Registered, Linked, RmwConstrained, Attested, CycleGraph.Valid, ConsistentBut,
           Consistent, Accounted, ParentEdge, Parent, EdgeSet, Queued, QueueKnown, DirectEdges, GraphValid, Evolved;
      curr := Begin(kind, order, tid, loc);
      w := if from.Some? then from.value else curr - 1;
      assert acts[w] == acts[..curr][w];
      added := TakeValue(curr, w);
    }

    /** read_from once the value is taken: an acquire synchronizes. */
    method ReadFrom(curr: nat, settled: seq<bool>) returns (ghost heads: seq<nat>, ghost cert: Option<Certificate>)
      requires Valid() && queue == [] && curr + 1 == |acts| && |settled| == threads
      requires acts[curr].kind.Read? || acts[curr].kind.Rmwr?
      modifies this`acts, this`badSynchronization, this`pendingSeqs, this`G, this`record
      ensures |acts| == |old(acts)| && acts[..curr] == old(acts)[..curr] &&
              acts[curr] == old(acts)[curr].(cv := acts[curr].cv)
      ensures Valid() && G == old(G) + SyncEdges(heads, curr) && acts[curr].rf.Some?
      ensures record == if acts[curr].order.IsAcquire() then Asking(old(record), PendingSeq(curr, curr), heads, cert)
              else old(record)
      ensures AllBefore(acts, heads, curr)
      ensures if acts[curr].order.IsAcquire()
              then Backed(old(Look(settled)), acts[curr].rf.value, heads, cert) &&
                   Asked(old(Look(settled)), graph.hasCycles, PendingSeq(curr, curr), acts[curr].rf.value, heads,
                         old(pendingSeqs), pendingSeqs)
              else heads == [] && pendingSeqs == old(pendingSeqs)
    {
      hide Lawful, Sourced, HB, Registered, Linked, RmwConstrained, Attested, CycleGraph.Valid, ConsistentBut,
           Consistent, Accounted, AllBefore, SyncEdges, EdgeSet, Asking, Grew, Backed, Outcome;
      heads, cert := [], None;
      AllBeforeNone(acts, curr);
      NoEdges(G, curr);
      QueueEmpty(acts);
      LastReadKnown(acts, G, M, curr);
      if acts[curr].order.IsAcquire() {
        var updated;
        updated, heads, cert := SynchronizeWithHeads(curr, curr, settled);
      }
    }

    /** What every step ends with: the graph's changes are kept, and release sequences may have to be checked. */
    method FinishStep(update: bool, loc: Option<nat>)
      requires Valid() && queue == []
      modifies this`queue, graph
      ensures Valid() && queue == (if update then [CheckRelSeq(loc)] else []) && graph.hasCycles == old(graph.hasCycles)
      ensures graph.nodes == old(graph.nodes) && graph.actionToNode == old(graph.actionToNode)
      ensures Direct() == old(Direct())
    {
      hide Lawful, Sourced, DirectEdges, Registered, Linked, RmwConstrained, Attested, CycleGraph.Valid,
           ConsistentBut, Accounted;
      graph.CommitChanges();
      QueueEmpty(acts);
      QueueNoActs(acts, loc);
      if update {
        queue := [CheckRelSeq(loc)];
      }
    }

    /** A store. */
    method StepWrite(kind: Kind, order: MemoryOrder, tid: nat, loc: nat) returns (curr: nat)
      requires Valid() && queue == [] && 1 <= tid < threads && (kind.Write? || kind.Init?)
      modifies this, graph
      ensures changed == old(changed) && late == old(late)
      ensures Valid() && threads == old(threads) && creation == old(creation) && Evolved(old(acts), acts)
      ensures curr + 1 == |acts| && acts[..curr] == Prepared(old(acts), kind, loc)
      ensures acts[curr].kind == kind && acts[curr].order == order && acts[curr].tid == tid && acts[curr].loc == loc
      ensures G == old(G) + ParentEdge(Parent(old(lastAction), creation, tid), curr) && record == old(record)
      ensures old(M) <= M && ScOrdered(acts, M, curr)
      ensures queue == if Direct() == old(Direct()) then [] else [CheckRelSeq(Some(loc))]
    {
      hide Lawful, Sourced, ScOrdered, HB, Registered, Linked, RmwConstrained, Attested, CycleGraph.Valid,
           ConsistentBut, Consistent, Accounted, WithClock, ParentEdge, Parent, ReadDone, DirectEdges, Evolved;
      curr := Begin(kind, order, tid, loc);
      NotARead(acts, G, M, Queued(queue), curr);
      NoReadRules(acts, M, changed, curr);
      var added := OrderWrite(curr);
      FinishStep(added, Some(loc));
    }

    lemma CanScan(curr: nat, pending: set<nat>)
      requires ConsistentBut(acts, G, M, pending, {curr})
      requires Registered(acts, threads, lastAction, creation, lastFenceRelease, usedNumbers)
      ensures Scannable(curr) && WritesOnly(acts, M) && ReadsKnown(acts, {curr})
    {
      hide HB, Settled, RmwLinked, FencesRegistered, HappensBefore.Exact, Monotone, Forward;
    }

    /** w_modification_order for the last action, a store whose reading half is done. */
    method OrderWrite(curr: nat) returns (added: bool)
      requires ValidBut({curr}) && queue == [] && curr + 1 == |acts| && acts[curr].kind.IsWrite() &&
               ReadDone(acts, M, curr) && ReadRules(acts, M, changed, curr)
      modifies this`M, graph
      ensures Valid() && old(M) <= M && ScOrdered(acts, M, curr)
      ensures Progress(old(Direct()), Direct(), added)
    {
      hide Lawful, Sourced, HB, Linked, RmwConstrained, Attested, CycleGraph.Valid, Consistent, Accounted, ReadDone,
           WriteOrdered, ScOrdered, Clocked, OwnSettled, Settled, UninitOnce, RmwLinked, FenceKnown, IsFenceOf,
           Plain;
      CanScan(curr, Queued(queue));
      added := WriteModificationOrder(curr);
      QueueEmpty(acts);
      WriteTaken(acts, G, old(M), M, {}, curr, threads);
      assert {} - {curr} == {};
      assert !Overtaken(acts, curr);
      WriteLawful(acts, G, old(M), M, {}, curr, changed, late, late, threads);
      NothingBut(acts, G, M, {});
    }

    /** The second half of a read-modify-write: it also writes, or it was a plain read. */
    method StepCloseRmw(tid: nat, order: MemoryOrder, succeeded: bool) returns (curr: nat, ghost linked: Edges)
      requires Valid() && queue == [] && tid in lastAction && lastAction[tid] + 1 == |acts|
      requires acts[lastAction[tid]].kind.Rmwr?
      modifies this, graph
      ensures changed == old(changed + Switched(acts, lastAction[tid], order)) && late == old(late)
      ensures Valid() && threads == old(threads) && Evolved(old(acts), acts)
      ensures curr == old(lastAction[tid]) && acts == CloseRmw(old(acts), curr, order, succeeded)
      ensures G == old(G) && record == old(record) && creation == old(creation) && old(M) <= M
      ensures succeeded ==> ScOrdered(acts, M, curr)
      ensures old(Direct()) <= linked <= Direct() && (!succeeded ==> linked == Direct() == old(Direct()))
      ensures succeeded ==> acts[curr].rf.Some? && (acts[curr].rf.value, curr) in linked
      ensures queue == if Direct() == linked then [] else [CheckRelSeq(Some(acts[curr].loc))]
    {
      hide Lawful, Sourced, ScOrdered, HB, Linked, RmwConstrained, Attested, CycleGraph.Valid, Consistent,
           ConsistentBut, Accounted, Registered, ReadDone, Queued, DirectEdges, Evolved;
      curr := lastAction[tid];
      QueueEmpty(acts);
      NothingBut(acts, G, M, {});
      RecordsClosed(acts, curr, order, succeeded, threads, lastAction, creation, lastFenceRelease, usedNumbers);
      LastReadKnown(acts, G, M, curr);
      CloseEvolves(acts, curr, order, succeeded);
      linked := Direct();
      var added := false;
      ghost var more := Switched(acts, curr, order);
      CloseLawfully(curr, order, succeeded);
      if succeeded {
        CloseRmwSound(acts, G, M, curr, order);
        AccountedLast(acts, CloseRmw(acts, curr, order, true), G, creation, record, pendingSeqs);
        CloseInGraph(curr, order);
        changed := changed + more;
        linked := Direct();
        added := OrderWrite(curr);
      } else {
        CloseFailedRmwSound(acts, G, M, curr, order);
        AccountedLast(acts, CloseRmw(acts, curr, order, false), G, creation, record, pendingSeqs);
        Replace(CloseRmw(acts, curr, order, false));
        changed := changed + more;
        NothingBut(acts, G, M, {});
      }
      FinishStep(added, Some(acts[curr].loc));
    }

    lemma CloseLawfully(curr: nat, order: MemoryOrder, succeeded: bool)
      requires Valid() && queue == [] && curr + 1 == |acts| && acts[curr].kind.Rmwr?
      ensures ReadKnown(acts, curr)
      ensures var s := CloseRmw(acts, curr, order, succeeded);
              var M' := if succeeded then M + {(acts[curr].rf.value, curr)} else M;
              && Lawful(s, M', if succeeded then {curr} else {}, changed + Switched(acts, curr, order), late)
              && ReadRules(s, M', changed + Switched(acts, curr, order), curr)
    {
      hide Lawful, GraphValid, HB, Registered, Accounted, OwnSettled, Settled, RmwLinked;
      CloseLawful(acts, M, curr, order, succeeded, changed, late);
    }

    /** ModelExecution::process_rmw on a read-modify-write that succeeded. */
    method CloseInGraph(curr: nat, order: MemoryOrder)
      requires GraphValid() && curr + 1 == |acts| && acts[curr].kind.Rmwr? && ReadKnown(acts, curr)
      modifies this`acts, this`M, graph
      ensures GraphValid() && acts == CloseRmw(old(acts), curr, order, true)
      ensures M == old(M) + {(old(acts)[curr].rf.value, curr)}
      ensures old(Direct()) + {(old(acts)[curr].rf.value, curr)} <= Direct()
    {
      hide Sourced, Linked, RmwConstrained, CycleGraph.Valid, Attested, Evolved, EdgeSet;
      ghost var t, log, E := graph.actionToNode, graph.log, EdgeSet(graph.nodes);
      var rf := acts[curr].rf.value;
      CloseEvolves(acts, curr, order, true);
      OnlyWritesLinked(acts, M, t, log, curr);
      graph.AddRmwEdgeBetween(Key.Action(rf), curr);
      AttestedStill(acts, CloseRmw(acts, curr, order, true), t, graph.actionToNode, E, EdgeSet(graph.nodes), threads,
                    creation, record, pendingSeqs);
      assert Acts({Key.Action(rf)}) <= {rf};
      ClosedSourced(acts, M, t, log, graph.actionToNode, graph.log, curr, order);
      ClosedLinked(acts, M, t, log, graph.actionToNode, graph.log, curr, order);
      M := M + {(rf, curr)};
      acts := CloseRmw(acts, curr, order, true);
    }

    /** process_fence on an acquire: synchronizes with the release sequences behind the reads before it. */
    method StepFence(order: MemoryOrder, tid: nat, loc: nat, settled: seq<bool>)
      returns (curr: nat, ghost heads: seq<nat>, ghost certs: set<Certificate>, ghost s: Trace)
      requires Valid() && queue == [] && 1 <= tid < threads && |settled| == threads
      modifies this, graph
      ensures changed == old(changed) && late == old(late)
      ensures Valid() && threads == old(threads) && creation == old(creation) && M == old(M)
      ensures curr + 1 == |acts| == |s| && acts[..curr] == old(acts) == s[..curr] && Evolved(old(acts), acts)
      ensures acts[curr].kind.Fence? && acts[curr].order == order && acts[curr].tid == tid
      ensures Parent(old(lastAction), creation, tid).Some? ==> Parent(old(lastAction), creation, tid).value < curr
      ensures s[curr] == WithClock(old(acts), old(Announced(Fence, order, tid, loc)),
                                   Parent(old(lastAction), creation, tid))
      ensures G == old(G) + ParentEdge(Parent(old(lastAction), creation, tid), curr) + SyncEdges(heads, curr)
      ensures record == if order.IsAcquire() then Meeting(old(record), acts, curr, heads, certs) else old(record)
      ensures AllBefore(acts, heads, curr) && (!order.IsAcquire() ==> heads == [] && pendingSeqs == old(pendingSeqs))
      ensures order.IsAcquire() ==>
                MetSoFar(Look(settled).(s := s), s, acts, graph.hasCycles, curr, 0, heads, old(pendingSeqs),
                         pendingSeqs)
      ensures queue == if heads == [] then [] else [CheckRelSeq(None)]
    {
      hide ValidBut, HB, WithClock, ParentEdge, Parent, SyncEdges, AllBefore, MetReads, Grew, MetSoFar, Evolved;
      PendingBelow();
      curr := Begin(Fence, order, tid, loc);
      NotAtomic(curr);
      var updated := false;
      heads, certs, s := [], {}, acts;
      ghost var G1 := G;
      AllBeforeNone(acts, curr);
      NoEdges(G, curr);
      if order.IsAcquire() {
        updated, heads, certs := AcquireFence(curr, settled);
        MetSame(s, acts, curr);
      }
      assert G == G1 + SyncEdges(heads, curr);
      FinishStep(updated, None);
      assert Prepared(old(acts), Fence, loc) == old(acts);
      StepEvolves(old(acts), acts, Fence, loc);
    }

    /** There is nothing to process of an action that is not atomic. */
    lemma NotAtomic(curr: nat)
      requires ValidBut({curr}) && queue == [] && curr < |acts| && !acts[curr].kind.IsAtomic()
      ensures Valid()
    {
      hide Lawful, Consistent, ConsistentBut, Registered, Accounted, QueueKnown, GraphValid;
      QueueEmpty(acts);
      OtherProcessed(acts, G, M, curr);
      LawfulOther(acts, M, curr, changed, late);
      NothingBut(acts, G, M, {});
    }

    lemma NamesBelow()
      requires Valid()
      ensures forall h: nat, x: nat :: x >= |acts| ==> (h, x) !in record.named
    {
      hide Lawful, ConsistentBut, Registered, Accounted, QueueKnown, GraphValid;
      NamedBelow(acts, G, creation, record, pendingSeqs);
    }

    lemma PendingBelow()
      requires Valid()
      ensures forall p :: p in pendingSeqs ==> p.acquire < |acts|
    {
      hide Lawful, Sourced, Linked, RmwConstrained, Attested, CycleGraph.Valid, ConsistentBut, Accounted, Registered;
      forall p | p in pendingSeqs ensures p.acquire < |acts| {
        PendingSearch(acts, G, creation, record, pendingSeqs, p);
      }
    }

    /** The loop of process_fence, back to the acquire fence before. */
    method AcquireFence(curr: nat, settled: seq<bool>)
      returns (updated: bool, ghost heads: seq<nat>, ghost certs: set<Certificate>)
      requires Valid() && queue == [] && curr + 1 == |acts| && Numbered(acts, curr)
      requires acts[curr].kind.Fence? && acts[curr].order.IsAcquire()
      requires |settled| == threads && forall p :: p in pendingSeqs ==> p.acquire != curr
      modifies this`acts, this`badSynchronization, this`pendingSeqs, this`G, this`record
      ensures |acts| == |old(acts)| && acts[..curr] == old(acts)[..curr] &&
              acts[curr] == old(acts)[curr].(cv := acts[curr].cv)
      ensures Valid() && Grew(old(acts), acts) && (updated <==> heads != [])
      ensures G == old(G) + SyncEdges(heads, curr) && record == Meeting(old(record), old(acts), curr, heads, certs)
      ensures AllBefore(acts, heads, curr)
      ensures MetSoFar(old(Look(settled)), old(acts), acts, graph.hasCycles, curr, 0, heads, old(pendingSeqs),
                       pendingSeqs)
    {
      hide Lawful, Sourced, HB, Linked, RmwConstrained, Attested, CycleGraph.Valid, Consistent, ConsistentBut,
           Accounted, Registered, SyncEdges, AllBefore, MetReads, Grew, Evolved, MetSoFar, Outcome, Backed, ValidBut;
      updated, heads, certs := false, [], {};
      ghost var s, seqs0, cycles, base := acts, pendingSeqs, graph.hasCycles, Look(settled);
      var k: nat := curr;
      NothingGrew(acts);
      AllBeforeNone(acts, curr);
      NoEdges(G, curr);
      MetNone(s, curr);
      MetSoFarNone(base, s, acts, cycles, curr, k, seqs0);
      while k > 0
        invariant k <= curr && |acts| == |s| && acts[..curr] == s[..curr] && acts[curr] == s[curr].(cv := acts[curr].cv)
        invariant Valid() && Grew(s, acts) && (updated <==> heads != [])
        invariant G == old(G) + SyncEdges(heads, curr) && AllBefore(acts, heads, curr)
        invariant record.synced == old(record).synced + SyncEdges(heads, curr) && record.named == old(record).named
        invariant record.searched == old(record).searched + MetReads(s, curr, k)
        invariant record.certs == old(record).certs + certs
        invariant NoAcquireFence(s, curr, k)
        invariant MetSoFar(base, s, acts, cycles, curr, k, heads, seqs0, pendingSeqs)
      {
        var act := k - 1;
        assert acts[act] == acts[..curr][act] == s[..curr][act] == s[act];
        MetStep(s, curr, k);
        if acts[act].tid == acts[curr].tid {
          if acts[act].kind.Fence? && acts[act].order.IsAcquire() {
            MetStop(s, curr, k);
            MetSoFarStop(base, s, acts, cycles, curr, k, heads, seqs0, pendingSeqs);
            return;
          }
        }
        if acts[act].tid == acts[curr].tid && acts[act].kind.IsRead() && !acts[act].order.IsAcquire() {
          var more;
          ghost var v, seqs, found, cert := Look(settled), pendingSeqs, [], None;
          more, found, cert := SynchronizeWithHeads(curr, act, settled);
          updated := updated || more;
          GrewTrans(s, v.s, acts);
          GrewEvolved(v.s, acts);
          EvolvedBefore(v.s, acts, heads, curr);
          BothBefore(acts, heads, found, curr);
          MetSoFarMore(v, base, s, acts, cycles, curr, k, heads, found, seqs0, seqs, pendingSeqs);
          heads, certs := heads + found, certs + Shown(cert);
        } else {
          MetSoFarSkip(base, s, acts, cycles, curr, k, heads, seqs0, pendingSeqs);
        }
        k := k - 1;
      }
    }

    /**
     Any other action: it may synchronize with an earlier one, as a join does with the last
     action of the thread it joins and a lock with the last unlock.
     */
    method StepOther(order: MemoryOrder, tid: nat, loc: nat, first: Option<nat>, update: bool) returns (curr: nat)
      requires Valid() && queue == [] && 1 <= tid < threads && (first.Some? ==> Numbered(acts, first.value))
      modifies this, graph
      ensures changed == old(changed) && late == old(late)
      ensures Valid() && threads == old(threads) && creation == old(creation) && M == old(M)
      ensures curr + 1 == |acts| && acts[..curr] == old(acts)
      ensures acts[curr].kind.Other? && acts[curr].order == order && acts[curr].tid == tid && acts[curr].loc == loc
      ensures G == old(G) + ParentEdge(Parent(old(lastAction), creation, tid), curr) +
                   (if first.Some? then {(first.value, curr)} else {})
      ensures record == if first.Some? then Naming(old(record), first.value, curr) else old(record)
      ensures (first.Some? ==> HB(acts, first.value, curr)) && Evolved(old(acts), acts)
      ensures pendingSeqs == old(pendingSeqs) && queue == if update || first.Some? then [CheckRelSeq(None)] else []
    {
      hide ValidBut, HB, WithClock, ParentEdge, Parent, Evolved;
      NamesBelow();
      curr := Begin(Other, order, tid, loc);
      NotAtomic(curr);
      if first.Some? {
        SynchronizeOther(first.value, curr);
      }
      FinishStep(update || first.Some?, None);
      assert Prepared(old(acts), Other, loc) == old(acts);
      StepEvolves(old(acts), acts, Other, loc);
    }

    method SynchronizeOther(first: nat, curr: nat)
      requires Valid() && queue == [] && curr + 1 == |acts| && Numbered(acts, curr) && acts[curr].kind.Other?
      requires Numbered(acts, first) && first < curr && forall h: nat :: (h, curr) !in record.named
      modifies this`acts, this`badSynchronization, this`G, this`record
      ensures Valid() && |acts| == |old(acts)| && acts[..curr] == old(acts)[..curr]
      ensures G == old(G) + {(first, curr)} && record == Naming(old(record), first, curr)
      ensures acts[curr] == old(acts)[curr].(cv := acts[curr].cv) && HB(acts, first, curr)
    {
      hide Lawful, Sourced, HB, Registered, Linked, RmwConstrained, Attested, CycleGraph.Valid, WellClocked,
           OwnSettled, Settled, RmwLinked, UninitOnce, HappensBefore.Exact, Monotone, Forward, Accounted;
      var heads := [first];
      QueueEmpty(acts);
      NothingBut(acts, G, M, {});
      SynchronizedPlain(acts, G, M, heads, curr, threads, lastAction, creation, lastFenceRelease, usedNumbers);
      ghost var s := acts;
      var updated := SynchronizeInGraph(heads, curr);
      TookGrew(s, heads, curr, acts);
      LawfulClocks(s, acts, G, M, {}, changed, late);
      JoinedNamed(s, G, creation, record, pendingSeqs, first, curr);
      AttestedNamed(acts, graph.actionToNode, EdgeSet(graph.nodes), threads, creation, record, pendingSeqs, first,
                    curr);
      G, record := G + {(first, curr)}, Naming(record, first, curr);
      assert SyncEdges(heads, curr) == {(first, curr)};
      NothingBut(acts, G, M, {});
      assert acts[..curr] == s[..curr];
      assert first in heads;
    }

    /** THREAD_CREATE: the new thread's first action will follow this one. */
    method StepCreate(order: MemoryOrder, tid: nat, loc: nat) returns (curr: nat, child: nat)
      requires Valid() && queue == [] && 1 <= tid < threads
      modifies this, graph
      ensures changed == old(changed) && late == old(late)
      ensures Valid() && child == old(threads) && threads == child + 1
      ensures curr + 1 == |acts| && acts[..curr] == old(acts)
      ensures acts[curr].kind.Other? && acts[curr].order == order && acts[curr].tid == tid && acts[curr].loc == loc
      ensures creation == old(creation)[child := curr]
      ensures G == old(G) + ParentEdge(Parent(old(lastAction), old(creation), tid), curr)
      ensures record == old(record) && M == old(M) && Evolved(old(acts), acts) && queue == []
    {
      hide Lawful, Sourced, HB, Linked, RmwConstrained, Attested, CycleGraph.Valid, Consistent, ConsistentBut,
           Accounted, Registered, Parent, ParentEdge;
      CertsBelow(acts, graph.actionToNode, EdgeSet(graph.nodes), threads, creation, record, pendingSeqs);
      curr := StepOther(order, tid, loc, None, false);
      AttestedCreate(acts, graph.actionToNode, EdgeSet(graph.nodes), threads, creation, record, pendingSeqs, curr);
      ThreadsKnown(acts, threads, lastAction, creation, lastFenceRelease, usedNumbers);
      AccountedCreate(acts, G, creation, record, pendingSeqs, threads, curr);
      RegisteredCreate(acts, threads, lastAction, creation, lastFenceRelease, usedNumbers, curr);
      child := threads;
      threads := threads + 1;
      creation := creation[child := curr];
    }

    // ----------------------------------------------------------------
    // The work queue
    // ----------------------------------------------------------------

    /**
     propagate_clockvector, once `x` has taken in the clocks of `hs`: every later
     action that `x` happens before inherits them, and waits to be re-checked.
     */
    method Propagate(x: nat, ghost s: Trace, ghost hs: seq<nat>)
      requires Clocked(s, G) && Numbered(s, x) && Took(s, hs, x, acts) && QueueKnown(s, queue)
      modifies this`acts, this`queue, this`badSynchronization
      ensures Heads(s, hs, x) && acts == SyncAll(s, hs, x) && QueueKnown(s, queue)
      ensures badSynchronization == old(badSynchronization)
      ensures Queued(queue) >= Queued(old(queue)) + set y: nat | y < |s| && HB(s, x, y)
      ensures CheckRelSeq(None) in queue
    {
      hide Clocked, HB, Joined;
      queue := queue + [CheckRelSeq(None)];
      queue := queue + [CheckMoEdges(x)];
      ghost var reached: set<nat> := {x};
      ghost var q0 := old(queue);
      PushStart(s, G, hs, x, acts);
      assert CheckMoEdges(x) in queue;
      var k: nat := |acts|;
      while k > x + 1
        invariant x < k <= |s| && Pushed(s, hs, x, k, acts) && badSynchronization == old(badSynchronization)
        invariant QueueKnown(s, queue) && q0 <= queue && CheckMoEdges(x) in queue && CheckRelSeq(None) in queue
        invariant forall y: nat :: k <= y < |s| && HB(s, x, y) ==> CheckMoEdges(y) in queue
      {
        var y := k - 1;
        PushSame(s, hs, x, k, acts);
        if HB(acts, x, y) {
          PushStep(s, G, hs, x, k, acts);
          var ok := Synchronize(x, y);
          queue := queue + [CheckMoEdges(y)];
        } else {
          PushSkip(s, hs, x, k, acts);
        }
        k := k - 1;
      }
      PushedAll(s, G, hs, x, acts);
      forall y: nat | y < |s| && HB(s, x, y) ensures CheckMoEdges(y) in queue {
        if y < x {
          NotBackwards(s, G, x, y);
        }
      }
    }

    /** What late synchronization relies on and keeps. */
    ghost predicate Synchronizable()
      reads this, graph
    {
      && Consistent(acts, G, M, Queued(queue)) && QueueKnown(acts, queue)
      && Registered(acts, threads, lastAction, creation, lastFenceRelease, usedNumbers)
      && Lawful(acts, M, {}, changed, late) && GraphLinked()
    }

    /**
     The acquire `x` synchronizes with the heads that it has not met yet. When it met any, or something
     was updated before, its clock is pushed forward.
     */
    method SynchronizeLate(hs: seq<nat>, x: nat, updatedBefore: bool) returns (updated: bool, ghost done: seq<nat>)
      requires Synchronizable() && Numbered(acts, x) && Heads(acts, hs, x)
      modifies this`acts, this`queue, this`badSynchronization, this`G
      ensures Synchronizable() && (updated <==> updatedBefore || done != []) && G == old(G) + SyncEdges(done, x)
      ensures badSynchronization == old(badSynchronization) && forall h :: h in done ==> h in hs
      ensures Grew(old(acts), acts) && AllBefore(acts, hs, x)
      ensures Heads(old(acts), done, x) && acts == SyncAll(old(acts), done, x)
      ensures done != [] ==> NotBefore(acts) < NotBefore(old(acts))
      ensures if updated then CheckRelSeq(None) in queue else acts == old(acts) && queue == old(queue)
    {
      hide Lawful, Sourced, Grew, HB, Registered, Linked, RmwConstrained, CycleGraph.Valid, WellClocked, OwnSettled,
           Settled, RmwLinked, UninitOnce, HappensBefore.Exact, Monotone, Forward, Queued, QueueKnown, AllBefore,
           SyncEdges, NotBefore, ReadsKnown, WritesOnly;
      ghost var s, q, t, log := acts, queue, graph.actionToNode, graph.log;
      var did;
      did, done := SynchronizeAll(hs, x, false);
      updated := updatedBefore || did;
      if updated {
        Propagate(x, s, done);
        LateSynchronized(s, G, M, q, queue, done, x, threads, lastAction, creation, lastFenceRelease, usedNumbers,
                         t, log, changed, late);
        AllBeforeAfter(s, G, hs, done, x);
        SyncAllGrew(s, G, done, x);
        if done != [] {
          assert done[0] in done;
          MoreBefore(s, acts, hs, done[0], x);
        }
      } else {
        JoinedNothing(s, x);
        SyncNothing(s, x);
        NothingGrew(s);
      }
      NoEdges(G, x);
      G := G + SyncEdges(done, x);
    }

    /**
     One pending release sequence is tried again. When anything was updated by this try or
     an earlier one, the clock of the acquire is pushed forward.
     */
    method Retry(p: PendingSeq, updatedBefore: bool, settled: seq<bool>)
      returns (updated: bool, complete: bool, ghost heads: seq<nat>, ghost done: seq<nat>,
               ghost cert: Option<Certificate>)
      requires Valid() && p in pendingSeqs && |settled| == threads
      modifies this`acts, this`queue, this`badSynchronization, this`G, this`record
      ensures Valid() && (updated <==> updatedBefore || done != []) && G == old(G) + SyncEdges(done, p.acquire)
      ensures record == Asking(old(record), p, done, cert) && forall h :: h in done ==> h in heads
      ensures badSynchronization == old(badSynchronization)
      ensures Grew(old(acts), acts) && (!graph.hasCycles ==> Resolved(acts, p.acquire, p.read))
      ensures AllBefore(acts, heads, p.acquire) && (done != [] ==> NotBefore(acts) < NotBefore(old(acts)))
      ensures if updated then CheckRelSeq(None) in queue else acts == old(acts) && queue == old(queue)
      ensures p.read < |old(acts)| && old(acts)[p.read].rf.Some?
      ensures Outcome(old(Look(settled)), graph.hasCycles, old(acts)[p.read].rf.value, heads, complete)
      ensures Backed(old(Look(settled)), old(acts)[p.read].rf.value, heads, cert)
      ensures complete ==> Concluded(acts, graph.actionToNode, EdgeSet(graph.nodes), p)
    {
      hide Lawful, Sourced, Grew, Resolved, HB, Registered, Linked, RmwConstrained, Attested, CycleGraph.Valid,
           WellClocked, OwnSettled, Settled, ChainCaught, RmwLinked, UninitOnce, AllVia, HappensBefore.Exact,
           Monotone, Forward, Queued, QueueKnown, AllBefore, Accounted, SyncEdges, NotBefore, Backed, Answered,
           Heading, Concluded, EdgeSet, Evolved, Asking;
      PendingSearch(acts, G, creation, record, pendingSeqs, p);
      assert ReadKnown(acts, p.read);
      var x := p.acquire;
      var hs, certain;
      hs, certain, cert := ReleaseSeqHeads(acts[p.read].rf.value, settled);
      heads, complete := hs, certain;
      NothingBut(acts, G, M, Queued(queue));
      ViaBefore(acts, M, heads, acts[p.read].rf.value, x);
      ThreadsKnown(acts, threads, lastAction, creation, lastFenceRelease, usedNumbers);
      ghost var v, s := Look(settled), acts;
      ghost var G0 := G;
      updated, done := SynchronizeLate(hs, x, updatedBefore);
      if !graph.hasCycles {
        CaughtResolved(s, acts, heads, p.acquire, p.read);
      }
      GrewEvolved(s, acts);
      if complete {
        AnsweredConcludes(v, acts, p, heads);
      }
      AttestedSearch(v, acts, threads, creation, record, pendingSeqs, pendingSeqs, p, heads, done, cert);
      LateSearch(s, acts, G0, creation, record, pendingSeqs, p, v, hs, done, cert);
      record := Asking(record, p, done, cert);
      NothingBut(acts, G, M, Queued(queue));
    }

    /** The search is certain, in this state. */
    ghost predicate CanSettle(settled: seq<bool>, p: PendingSeq)
      reads this`acts, this`lastAction, graph
    {
      !graph.hasCycles && p.read < |acts| && acts[p.read].rf.Some? && Answered(Look(settled), acts[p.read].rf.value)
    }

    /**
     resolve_release_sequences: every pending release sequence of the location is tried
     again. Its acquire then has synchronized with all that it is known to have to. When nothing
     was updated, exactly the searches that are still uncertain stay pending.
     */
    method ResolveReleaseSequences(location: Option<nat>, settled: seq<bool>) returns (updated: bool)
      requires Valid() && |settled| == threads
      modifies this`acts, this`queue, this`badSynchronization, this`G, this`record, this`pendingSeqs
      ensures Valid() && badSynchronization == old(badSynchronization)
      ensures Later(old(G), old(record), old(pendingSeqs), G, record)
      ensures if updated then NotBefore(acts) < NotBefore(old(acts)) && CheckRelSeq(None) in queue
              else acts == old(acts) && queue == old(queue)
      ensures !updated ==> forall p :: p in old(pendingSeqs) && AtLocation(acts, p, location) ==>
                (p in pendingSeqs <==> !CanSettle(settled, p))
      ensures Grew(old(acts), acts) && forall p :: p in pendingSeqs ==> p in old(pendingSeqs)
      ensures forall p :: p in old(pendingSeqs) ==> IsSearch(old(acts), p)
      ensures forall p :: p in old(pendingSeqs) && !AtLocation(old(acts), p, location) ==> p in pendingSeqs
      ensures !graph.hasCycles ==>
                forall p :: p in old(pendingSeqs) && AtLocation(old(acts), p, location) ==>
                      Resolved(acts, p.acquire, p.read)
    {
      hide ValidBut, HB, AllBefore, Grew, Resolved, AtLocation, Later, IsSearch, SyncEdges, Asking, Backed, NotBefore,
           Answered, Heading, Concluded, EdgeSet;
      updated := false;
      var it := 0;
      ghost var tried: set<PendingSeq> := {};
      ghost var G0, record0, seqs0 := G, record, pendingSeqs;
      NothingGrew(acts);
      NothingLater();
      PendingNow();
      while it < |pendingSeqs|
        invariant 0 <= it <= |pendingSeqs| && Valid() && badSynchronization == old(badSynchronization)
        invariant Later(G0, record0, seqs0, G, record)
        invariant if updated then NotBefore(acts) < NotBefore(old(acts)) && CheckRelSeq(None) in queue
                  else acts == old(acts) && queue == old(queue)
        invariant !updated ==> (forall p :: p in pendingSeqs[..it] && AtLocation(acts, p, location) ==>
                      !CanSettle(settled, p))
        invariant !updated ==> forall p :: p in tried && p !in pendingSeqs ==> CanSettle(settled, p)
        invariant Grew(old(acts), acts) && forall p :: p in pendingSeqs ==> p in old(pendingSeqs)
        invariant forall p :: p in old(pendingSeqs) ==> p in pendingSeqs[it..] || p in tried || p in pendingSeqs[..it]
        invariant forall p :: p in pendingSeqs[..it] ==> p in tried || !AtLocation(old(acts), p, location)
        invariant forall p :: p in tried ==> AtLocation(old(acts), p, location)
        invariant !graph.hasCycles ==> forall p :: p in tried ==> Resolved(acts, p.acquire, p.read)
        decreases |pendingSeqs| - it
      {
        var p := pendingSeqs[it];
        PendingNow();
        AtLocationGrew(old(acts), acts, p, location);
        SplitAt(pendingSeqs, it);
        if !AtLocation(acts, p, location) {
          it := it + 1;
        } else {
          var complete;
          ghost var heads, done, cert := [], [], None;
          ghost var before, G1, record1 := acts, G, record;
          updated, complete, heads, done, cert := Retry(p, updated, settled);
          LaterSearch(G0, record0, seqs0, G1, record1, p, done, cert);
          GrewNotBefore(before, acts);
          StillResolved(before, acts, tried, graph.hasCycles);
          GrewTrans(old(acts), before, acts);
          tried := tried + {p};
          if complete {
            SettleSearch(it);
          } else {
            it := it + 1;
          }
        }
      }
    }

    lemma PendingNow()
      requires Valid()
      ensures forall p :: p in pendingSeqs ==> IsSearch(acts, p) && p in record.searched
    {
      hide Lawful, ConsistentBut, Registered, Accounted, QueueKnown, GraphValid, IsSearch;
      forall p | p in pendingSeqs ensures IsSearch(acts, p) && p in record.searched {
        PendingSearch(acts, G, creation, record, pendingSeqs, p);
      }
    }

    /** A search that is settled is no longer pending. */
    method SettleSearch(it: nat)
      requires Valid() && it < |pendingSeqs| && Resolved(acts, pendingSeqs[it].acquire, pendingSeqs[it].read)
      requires Concluded(acts, graph.actionToNode, EdgeSet(graph.nodes), pendingSeqs[it])
      modifies this`pendingSeqs
      ensures Valid() && pendingSeqs == old(pendingSeqs)[..it] + old(pendingSeqs)[it + 1..]
    {
      hide Lawful, ConsistentBut, Registered, Accounted, QueueKnown, GraphLinked, Attested, Resolved, Concluded;
      AccountedSettled(acts, G, creation, record, pendingSeqs, it);
      AttestedSettled(acts, graph.actionToNode, EdgeSet(graph.nodes), threads, creation, record, pendingSeqs, it);
      pendingSeqs := pendingSeqs[..it] + pendingSeqs[it + 1..];
    }

    /** The read misses a sequentially consistent store. */
    predicate Misses(act: nat)
      reads this`acts
    {
      && act < |acts| && acts[act].kind.IsRead() && acts[act].rf.Some? && acts[act].rf.value < |acts|
      && MissedScWrite(acts, act)
    }

    function LocationOf(act: nat): Option<nat>
      reads this`acts
    {
      if act < |acts| then Some(acts[act].loc) else None
    }

    /** The reading half of WORK_CHECK_MO_EDGES. */
    method RecheckRead(act: nat) returns (updated: bool)
      requires act < |acts| && acts[act].kind.IsRead() && ReadKnown(acts, act) && (Overtaken(acts, act) ==> act in late)
      requires ValidBut({act})
      modifies this`M, this`badScRead, graph
      ensures badScRead <==> old(badScRead) || Misses(act)
      ensures StoredOver(act) ==> graph.hasCycles
      ensures old(M) <= M && ReadDone(acts, M, act) && ReadRules(acts, M, changed, act) && ValidBut({act})
      ensures Progress(old(Direct()), Direct(), updated)
    {
      hide Lawful, Sourced, DirectEdges, HB, Linked, RmwConstrained, Attested, CycleGraph.Valid, Clocked, OwnSettled,
           Settled, UninitOnce, RmwLinked, ReadOrdered, ReadDone, Consistent, FenceKnown, IsFenceOf, Plain, Queued,
           MissedScWrite, Accounted;
      var rf := acts[act].rf.value;
      CanScan(act, Queued(queue));
      updated := ReadModificationOrder(act, rf);
      StillOwnSettled(acts, G, old(M), M, Queued(queue), act);
      ReadLawful(acts, old(M), M, act, changed, late, late, threads);
      Rejected(act);
      ReadAgain(acts, G, old(M), M, Queued(queue), act, threads);
      if MissedScWrite(acts, act) {
        badScRead := true;
      }
    }

    /** A plain read, to the location of which its thread has stored since, with two fences to follow. */
    ghost predicate StoredOver(act: nat)
      reads this`acts
    {
      act < |acts| && !acts[act].kind.IsWrite() && exists a: nat :: StoredSince(acts, act, a)
    }

    /** Checking such a read again makes the graph cyclic. */
    lemma Rejected(act: nat)
      requires act < |acts| && acts[act].kind.IsRead() && ReadKnown(acts, act)
      requires ReadsKnown(acts, {act}) && Scannable(act) && ReadOrdered(acts, M, act, acts[act].rf.value, threads)
      requires GraphValid()
      ensures StoredOver(act) ==> graph.hasCycles
    {
      hide WellClocked, UninitOnce, OwnSettled, Plain, ReadOrdered, StoredSince, Attested, RmwConstrained, Linked,
           Sourced, CycleGraphs.Sane, Table, Solves, Plus, Tracks;
      if StoredOver(act) {
        var a: nat :| StoredSince(acts, act, a);
        OvertakenCycle(acts, M, act, threads, a);
        Decides(graph.nodes, graph.rank, graph.log);
        if !graph.hasCycles {
          var pos :| Solves(pos, |graph.nodes|, graph.log);
          var rf := acts[act].rf.value;
          SolutionPlus(acts, M, graph.actionToNode, graph.log, |graph.nodes|, pos, rf, rf);
        }
      }
    }

    /** The actions that the scans for `act` take too much notice of. */
    ghost function NowLate(act: nat): set<nat>
      reads this`acts
    {
      if Overtaken(acts, act) then {act} else {}
    }

    /** WORK_CHECK_MO_EDGES: the edges of an action whose clock has grown are computed again. */
    method RecheckMoEdges(act: nat)
      requires act < |acts| && (acts[act].kind.IsRead() ==> ReadKnown(acts, act)) && ValidBut({act})
      modifies this`M, this`queue, this`badScRead, this`late, graph
      ensures old(M) <= M && late == old(late) + NowLate(act)
      ensures old(Direct()) <= Direct()
      ensures queue == old(queue) + if Direct() == old(Direct()) then [] else [CheckRelSeq(LocationOf(act))]
      ensures ScOrdered(acts, M, act)
      ensures badScRead <==> old(badScRead) || Misses(act)
      ensures Valid()
    {
      hide ValidBut, DirectEdges, ScOrdered, MissedScWrite, ReadDone, ReadRules, Rechecked;
      NoteLate(act);
      var updated := false;
      if acts[act].kind.IsRead() {
        updated := RecheckRead(act);
      } else {
        NothingRead(act);
      }
      if acts[act].kind.IsWrite() {
        var more := RecheckWrite(act);
        updated := updated || more;
      } else {
        NothingWritten(act);
      }
      CommitRecheck(act, updated);
    }

    ghost method NoteLate(act: nat)
      requires ValidBut({act})
      modifies this`late
      ensures late == old(late) + NowLate(act) && (Overtaken(acts, act) ==> act in late) && ValidBut({act})
    {
      hide Lawful, Overtaken, ConsistentBut, Registered, Accounted, QueueKnown, GraphValid;
      ghost var late0 := late;
      late := late + NowLate(act);
      LawfulLater(acts, M, {act}, changed, late0, late);
    }

    /** All but the queue is as it should be, once `act` is off it. */
    ghost predicate Rechecked(act: nat)
      reads this, graph
    {
      && Consistent(acts, G, M, Queued(queue) - {act})
      && Registered(acts, threads, lastAction, creation, lastFenceRelease, usedNumbers)
      && Accounted(acts, G, creation, record, pendingSeqs) && QueueKnown(acts, queue)
      && Lawful(acts, M, {}, changed, late)
      && GraphValid()
    }

    lemma NothingRead(act: nat)
      requires act < |acts| && !acts[act].kind.IsRead() && ValidBut({act})
      ensures ReadDone(acts, M, act) && ReadRules(acts, M, changed, act)
    {
      hide Lawful, HB, Clocked, OwnSettled, Settled, Registered, Accounted, QueueKnown, GraphValid;
      NotARead(acts, G, M, Queued(queue), act);
      NoReadRules(acts, M, changed, act);
    }

    lemma NothingWritten(act: nat)
      requires act < |acts| && !acts[act].kind.IsWrite() && ReadDone(acts, M, act) && ReadRules(acts, M, changed, act)
      requires ValidBut({act})
      ensures Rechecked(act) && ScOrdered(acts, M, act)
    {
      hide Lawful, ConsistentBut, Consistent, Registered, Accounted, QueueKnown, GraphValid, ReadDone, ReadRules;
      ProcessedRead(acts, G, M, Queued(queue), act);
      LawfulProcessed(acts, M, act, changed, late);
    }

    /** The writing half of WORK_CHECK_MO_EDGES. */
    method RecheckWrite(act: nat) returns (updated: bool)
      requires act < |acts| && acts[act].kind.IsWrite() && (Overtaken(acts, act) ==> act in late)
      requires ReadDone(acts, M, act) && ReadRules(acts, M, changed, act) && ValidBut({act})
      modifies this`M, graph
      ensures ScOrdered(acts, M, act) && old(M) <= M && Progress(old(Direct()), Direct(), updated)
      ensures Rechecked(act)
    {
      hide Lawful, Sourced, DirectEdges, ScOrdered, HB, Linked, RmwConstrained, Attested, CycleGraph.Valid, Clocked,
           OwnSettled, Settled, UninitOnce, RmwLinked, WriteOrdered, ReadDone, Consistent, Plain, Queued, Accounted,
           QueueKnown, FencesRegistered;
      ghost var pending := Queued(queue);
      CanScan(act, pending);
      updated := WriteModificationOrder(act);
      WriteTaken(acts, G, old(M), M, pending, act, threads);
      WriteLawful(acts, G, old(M), M, pending - {act}, act, changed, late, late, threads);
    }

    method CommitRecheck(act: nat, updated: bool)
      requires act < |acts| && Rechecked(act)
      modifies this`queue, graph
      ensures graph.nodes == old(graph.nodes) && graph.actionToNode == old(graph.actionToNode)
      ensures queue == old(queue) + if updated then [CheckRelSeq(LocationOf(act))] else []
      ensures Valid()
    {
      hide Lawful, Sourced, Linked, RmwConstrained, Attested, CycleGraph.Valid, Consistent, Queued, Registered,
           Accounted, QueueKnown;
      ghost var pending := Queued(queue);
      graph.CommitChanges();
      QueueMore(acts, queue, acts[act].loc);
      if updated {
        queue := queue + [CheckRelSeq(LocationOf(act))];
      }
      PendingMono(acts, G, M, pending - {act}, Queued(queue));
      NothingBut(acts, G, M, Queued(queue));
    }

    /** One turn of the work loop of check_current_action. */
    method ProcessWork(settled: seq<bool>)
      requires Valid() && queue != [] && |settled| == threads
      modifies this, graph
      ensures changed == old(changed)
      ensures match old(queue)[0]
              case CheckRelSeq(_) => late == old(late)
              case CheckMoEdges(act) => late == old(late) + NowLate(act)
      ensures Valid() && threads == old(threads) && creation == old(creation)
      ensures Grew(old(acts), acts) && old(M) <= M && Later(old(G), old(record), old(pendingSeqs), G, record)
      ensures forall p :: p in pendingSeqs ==> p in old(pendingSeqs)
      ensures match old(queue)[0]
              case CheckRelSeq(loc) =>
                !graph.hasCycles ==>
                  forall p :: p in old(pendingSeqs) && AtLocation(old(acts), p, loc) ==>
                        Resolved(acts, p.acquire, p.read)
              case CheckMoEdges(act) =>
                && acts == old(acts) && pendingSeqs == old(pendingSeqs) && record == old(record) && act < |acts|
                && queue == old(queue)[1..] +
                            if Direct() == old(Direct()) then [] else [CheckRelSeq(LocationOf(act))]
      ensures match old(queue)[0]
              case CheckRelSeq(loc) =>
                if acts == old(acts)
                then queue == old(queue)[1..] && forall p :: p in old(pendingSeqs) && AtLocation(acts, p, loc) ==>
                           (p in pendingSeqs <==> !CanSettle(settled, p))
                else CheckRelSeq(None) in queue
              case CheckMoEdges(_) => true
      ensures NotBefore(acts) < NotBefore(old(acts)) ||
              (acts == old(acts) && old(Direct()) <= Direct() && (Direct() != old(Direct()) || |queue| < |old(queue)|))
    {
      hide Lawful, Sourced, HB, Linked, RmwConstrained, Attested, CycleGraph.Valid, ConsistentBut, Registered,
           Queued, Accounted, Grew, Resolved, AtLocation, Later, NotBefore, DirectEdges, MissedScWrite, ScOrdered,
           CanSettle;
      var work := queue[0];
      QueueRest(acts, G, M, queue);
      if work.CheckMoEdges? {
        LawfulBut(acts, M, work.act, changed, late);
      }
      queue := queue[1..];
      NothingGrew(acts);
      LaterSame(acts, G, creation, record, pendingSeqs);
      match work {
        case CheckRelSeq(loc) =>
          var _ := ResolveReleaseSequences(loc, settled);
        case CheckMoEdges(act) =>
          RecheckMoEdges(act);
      }
    }

    /**
     The work loop. It ends: each turn shortens the queue, or adds an edge between two
     stores, or makes an action happen before another.
     */
    method WorkLoop(settled: seq<bool>)
      requires Valid() && |settled| == threads
      modifies this, graph
      ensures changed == old(changed) && old(late) <= late
      ensures Valid() && queue == [] && threads == old(threads) && creation == old(creation)
      ensures Grew(old(acts), acts) && old(M) <= M && Later(old(G), old(record), old(pendingSeqs), G, record)
      ensures forall p :: p in pendingSeqs ==> p in old(pendingSeqs)
    {
      hide ValidBut, Grew, Later, NotBefore, Direct, Resolved, AtLocation;
      ghost var s0, G0, record0, seqs0 := acts, G, record, pendingSeqs;
      NothingGrew(acts);
      NothingLater();
      while queue != []
        invariant Valid() && threads == old(threads) && creation == old(creation)
        invariant changed == old(changed) && old(late) <= late
        invariant Grew(s0, acts) && old(M) <= M && Later(G0, record0, seqs0, G, record)
        invariant forall p :: p in pendingSeqs ==> p in seqs0
        decreases NotBefore(acts), Pairs(|acts|) - Direct(), |queue|
      {
        ghost var s, D, G1, record1, seqs1 := acts, Direct(), G, record, pendingSeqs;
        ProcessWork(settled);
        GrewTrans(s0, s, acts);
        LaterTrans(G0, record0, seqs0, G1, record1, seqs1, G, record);
        DirectBounded();
        FewerLeft(Pairs(|acts|), D, Direct());
      }
    }

    // ----------------------------------------------------------------
    // Whole runs
    // ----------------------------------------------------------------

    /** What the program asks for can be done in this state. */
    predicate CanTake(req: Request)
      reads this`acts, this`threads, this`lastAction
    {
      match req
      case Load(kind, order, tid, loc, from) =>
        1 <= tid < threads && (kind.Read? || kind.Rmwr?) &&
            if from.Some? then from.value < |acts| && acts[from.value].kind.IsWrite() && acts[from.value].loc == loc
            else Unseen(acts, loc)
      case Store(kind, order, tid, loc) => 1 <= tid < threads && (kind.Write? || kind.Init?)
      case SecondHalf(tid, order, succeeded) =>
        tid in lastAction && lastAction[tid] + 1 == |acts| && acts[lastAction[tid]].kind.Rmwr?
      case Barrier(order, tid, loc) => 1 <= tid < threads
      case Sync(order, tid, loc, first, update) => 1 <= tid < threads && (first.Some? ==> Numbered(acts, first.value))
      case Create(order, tid, loc) => 1 <= tid < threads
    }

    /** The read-modify-write of which the request is the second half, when the halves name different orders. */
    function Switches(req: Request): set<nat>
      requires CanTake(req)
      reads this`acts, this`threads, this`lastAction
    {
      if req.SecondHalf? then Switched(acts, lastAction[req.tid], req.order) else {}
    }

    /** The work entry for the current action of check_current_action. */
    method TakeStep(req: Request, settled: seq<bool>)
      requires Valid() && queue == [] && CanTake(req) && |settled| == threads
      modifies this, graph
      ensures Valid() && Evolved(old(acts), acts) && (old(Complete()) ==> Complete())
      ensures changed == old(changed + Switches(req)) && late == old(late)
    {
      hide ValidBut, Evolved, Direct, Outcome, Backed, ScOrdered, AllBefore, MetSoFar, HB, AllAsked, AskedAt, Asked,
           WithClock, ParentEdge, Parent, SyncEdges, Announced, MetReads;
      ghost var s, searched, changed0 := acts, record.searched, changed;
      match req {
        case Load(kind, order, tid, loc, from) =>
          var curr, _, _, _, _ := StepRead(kind, order, tid, loc, from, settled);
          AskedPlain(acts, record.searched, changed, |acts| - 1);
          AskedNext(s, acts, searched, record.searched, changed, kind, loc);
        case Store(kind, order, tid, loc) =>
          var _ := StepWrite(kind, order, tid, loc);
          AskedPlain(acts, record.searched, changed, |acts| - 1);
          AskedNext(s, acts, searched, record.searched, changed, kind, loc);
        case SecondHalf(tid, order, succeeded) =>
          var curr, _ := StepCloseRmw(tid, order, succeeded);
          AskedClosed(s, acts, searched, changed0, curr, order, succeeded);
        case Barrier(order, tid, loc) =>
          var _, _, _, _ := StepFence(order, tid, loc, settled);
          AskedFence(acts, record.searched, changed, |acts| - 1);
          AskedNext(s, acts, searched, record.searched, changed, Fence, loc);
        case Sync(order, tid, loc, first, update) =>
          var _ := StepOther(order, tid, loc, first, update);
          AskedPlain(acts, record.searched, changed, |acts| - 1);
          AskedNext(s, acts, searched, record.searched, changed, Other, loc);
        case Create(order, tid, loc) =>
          var _, _ := StepCreate(order, tid, loc);
          AskedPlain(acts, record.searched, changed, |acts| - 1);
          AskedNext(s, acts, searched, record.searched, changed, Other, loc);
      }
    }

    /** check_current_action: the step, and then the work loop until nothing is left to do. */
    method CheckCurrentAction(req: Request, done: set<nat>)
      requires Valid() && queue == [] && CanTake(req)
      modifies this, graph
      ensures Valid() && queue == [] && Evolved(old(acts), acts) && (old(Complete()) ==> Complete())
      ensures changed == old(changed + Switches(req)) && old(late) <= late
    {
      hide ValidBut, Evolved, Grew, CanTake, AllAsked;
      TakeStep(req, seq(threads, t => t in done));
      ghost var s, searched := acts, record.searched;
      WorkLoop(seq(threads, t => t in done));
      GrewEvolved(s, acts);
      EvolvedTrans(old(acts), s, acts);
      AskedGrew(s, acts, searched, changed);
    }

    /** A run: what the program asks for is done in turn, as far as it can be. */
    method Run(reqs: seq<Request>, done: seq<set<nat>>) returns (ghost ss: seq<Trace>, ghost Gs: seq<Edges>)
      requires Valid() && queue == [] && |done| == |reqs|
      modifies this, graph
      ensures |ss| == |Gs| == |reqs| + 1
      ensures ss[0] == old(acts) && ss[|reqs|] == acts && Gs[|reqs|] == G
      ensures Trail(ss, Gs) && Valid() && queue == [] && (old(Complete()) ==> Complete())
    {
      hide ValidBut, Evolved, Clocked, RealEntries, CanTake, Trail, AllAsked;
      ss, Gs := [acts], [G];
      TrailStart();
      var i := 0;
      while i < |reqs|
        invariant 0 <= i <= |reqs| && Valid() && queue == [] && (old(Complete()) ==> Complete())
        invariant |ss| == |Gs| == i + 1 && ss[0] == old(acts) && ss[i] == acts && Gs[i] == G && Trail(ss, Gs)
      {
        if CanTake(reqs[i]) {
          CheckCurrentAction(reqs[i], done[i]);
        } else {
          EvolvedSame(acts);
        }
        TrailStart();
        TrailMore(ss, Gs, acts, G);
        ss, Gs := ss + [acts], Gs + [G];
        i := i + 1;
      }
    }

    lemma TrailStart()
      requires Valid()
      ensures Clocked(acts, G) && RealEntries(acts) && Trail([acts], [G])
    {
      hide Lawful, Sourced, GraphValid, Registered, Clocked, RealEntries, Served, Justified, ThreadOrder, OwnSettled,
           Settled, Evolved, RmwLinked, UninitOnce;
      EvolvedSame(acts);
    }

    lemma NothingLater()
      requires Valid()
      ensures Later(G, record, pendingSeqs, G, record)
    {
      hide Lawful, Sourced, ConsistentBut, Registered, Linked, RmwConstrained, Attested, CycleGraph.Valid, Accounted,
           Later;
      LaterSame(acts, G, creation, record, pendingSeqs);
    }

    lemma DirectBounded()
      requires Valid()
      ensures Direct() <= Pairs(|acts|)
    {
      hide Lawful, Sourced, ConsistentBut, Registered, RmwConstrained, CycleGraph.Valid, Accounted, EdgeSet;
    }

    // ----------------------------------------------------------------
    // What a run decides
    // ----------------------------------------------------------------

    /**
     The clock test is happens-before: reachability by the order of each thread, the creation
     of threads and synchronization, which is either named by the caller or with the head of a
     release sequence that what an acquire reads belongs to: a release or a release fence on the
     chain, or the thread's own release when a search of this run certified the rest of the sequence.
     */
    lemma ClocksAreExact()
      requires Valid()
      ensures forall a: nat, b: nat :: Numbered(acts, a) && Numbered(acts, b) ==>
                (HB(acts, a, b) <==> Reach(ThreadOrder(acts, creation) + record.synced, a, b))
      ensures forall h, x :: (h, x) in record.synced ==> (h, x) in record.named || Found(acts, record, h, x)
      ensures forall c :: c in record.certs ==>
                          Vouched(c, acts, graph.actionToNode, EdgeSet(graph.nodes), threads, creation)
      ensures NamedOnce(acts, record.named)
    {
      hide Lawful, Sourced, HB, Reach, Registered, Linked, RmwConstrained, CycleGraph.Valid, ThreadOrder, Served,
           Found, NamedOnce, Vouched, Concluded, EdgeSet;
    }

    /**
     No synchronization is missed: once a search is settled, every release on the chain of
     read-modify-writes behind the value read, and else the release fence before it, happens
     before the acquire; and so does the thread's own release, unless the graph puts a store of
     another thread between it and the end of the chain.
     */
    lemma NothingMissed(p: PendingSeq)
      requires Valid() && p in record.searched && p !in pendingSeqs
      ensures IsSearch(acts, p)
      ensures forall h: nat :: OnChain(acts, acts[p.read].rf.value, h) ==> h < |acts| && HB(acts, h, p.acquire)
      ensures forall h: nat :: OffChain(acts, acts[p.read].rf.value, h) ==>
                || HB(acts, h, p.acquire)
                || Interrupted(acts, graph.actionToNode, EdgeSet(graph.nodes), h,
                               ChainTail(acts, acts[p.read].rf.value))
    {
      hide Lawful, Sourced, HB, Clocked, Registered, Linked, RmwConstrained, CycleGraph.Valid, ConsistentBut,
           ThreadOrder, Justified, RealEntries, Vouched, OnChain, Interrupted, EdgeSet, ChainCaught;
      assert Concluded(acts, graph.actionToNode, EdgeSet(graph.nodes), p);
      assert Resolved(acts, p.acquire, p.read);
      var heads :| ChainCaught(acts, acts[p.read].rf.value, heads) && AllBefore(acts, heads, p.acquire);
      ChainIsCaught(acts, acts[p.read].rf.value, heads);
    }

    /**
     A certificate of any earlier moment of the run: as long as the threads that were settled then
     have done nothing since, no coherent order that respects the graph puts a store of another
     thread between the release and the end of its sequence.
     */
    lemma StillContiguous(c: Certificate)
      requires Valid() && c in record.certs
      ensures c.release <= c.tail < |acts| && OwnRelease(acts, c.tail, c.release)
      ensures acts[c.release].kind.IsWrite() && Rested(c) ==>
                Uninterrupted(acts, graph.actionToNode, EdgeSet(graph.nodes), c.release, c.tail)
    {
      hide Lawful, Sourced, HB, Reach, Registered, Linked, RmwConstrained, CycleGraph.Valid, OwnSettled, Settled,
           RmwLinked, Concluded, Evolved, Served, Justified, EdgeSet, Clocked, Uninterrupted, ThreadOrder, Certified,
           RealEntries, Extended;
      var t, E := graph.actionToNode, EdgeSet(graph.nodes);
      assert Vouched(c, acts, t, E, threads, creation);
      CertifiedParts(c.v, c.release, c.tail);
      EvolvedOwn(c.v.s, acts, c.tail, c.release);
      EvolvedAt(c.v.s, acts, c.release);
      if acts[c.release].kind.IsWrite() && Rested(c) {
        ThreadsKnown(acts, threads, lastAction, creation, lastFenceRelease, usedNumbers);
        CreatorsKnown(acts, threads, lastAction, creation, lastFenceRelease, usedNumbers);
        WriteWasWrite(c.v.s, acts, c.release, c.tail);
        StaysUninterrupted(c.v, acts, G, creation, t, E, c.release, c.tail);
      }
    }

    /** The threads that the certificate counts on to do nothing have done nothing since. */
    ghost predicate Rested(c: Certificate)
      reads this`acts
    {
      forall b: nat :: |c.v.s| <= b && Numbered(acts, b) && acts[b].tid < |c.v.settled| ==> !c.v.settled[acts[b].tid]
    }

    /**
     What the search certifies, once nothing waits to be re-checked: in no solution of the
     constraints does a store of another thread lie between the release and the end of its sequence.
     */
    lemma CertifiedMeans(settled: seq<bool>, release: nat, rf: nat)
      requires Valid() && queue == [] && |settled| == threads
      requires Certified(acts, graph.actionToNode, EdgeSet(graph.nodes), settled, release, rf) &&
               acts[release].kind.IsWrite()
      ensures forall pos, act: nat :: Solves(pos, |graph.nodes|, graph.log) && MayBreak(acts, act, rf) ==>
                !(Earlier(graph.actionToNode, pos, release, act) && Earlier(graph.actionToNode, pos, act, rf))
    {
      hide Lawful, Sourced, HB, Reach, Registered, Linked, RmwConstrained, Attested, Solves, CoherentOrder,
           ConsistentBut, CycleGraphs.Sane, Table, EdgeSet, Accounted, Respects, Earlier, MayBreak, ThreadOutside;
      QueueEmpty(acts);
      NothingBut(acts, G, M, {});
      ConsistentClocked(acts, G, M, {});
      ThreadsKnown(acts, threads, lastAction, creation, lastFenceRelease, usedNumbers);
      ScannedAll(acts, graph.actionToNode, EdgeSet(graph.nodes), release, rf, threads);
      forall pos, act: nat | Solves(pos, |graph.nodes|, graph.log) && MayBreak(acts, act, rf)
        ensures !(Earlier(graph.actionToNode, pos, release, act) && Earlier(graph.actionToNode, pos, act, rf))
      {
        SolutionCoherent(acts, G, M, graph.actionToNode, graph.log, |graph.nodes|, pos);
      }
    }

    /**
     Stopping at an acquire-release operation loses nothing. Along any path of read-modify-writes back
     from what a settled search's read takes its value from, a release or an earlier release fence of
     the last store's thread happens before the acquire, if the searches of the acquire-release
     operations on the path are settled as well.
     */
    lemma {:induction false} NoReleaseLost(p: PendingSeq, path: seq<nat>, h: nat)
      requires Valid() && IsSettled(p) && RmwPath(acts, path, acts[p.read].rf.value)
      requires Releases(acts, path[|path| - 1], h)
      requires forall i :: 0 <= i < |path| - 1 && IsBoth(acts, path[i]) ==> IsSettled(PendingSeq(path[i], path[i]))
      ensures HB(acts, h, p.acquire)
      decreases |path|
    {
      hide ValidBut, HB, OnChain, OffChain, Chain, Interrupted, EdgeSet, IsSearch;
      var rf := acts[p.read].rf.value;
      assert ReadsKnown(acts, {}) && WellClocked(acts) by {
        KnownNow();
      }
      var j := AlongPath(acts, path, rf);
      var w := path[j];
      NothingMissed(p);
      if j == |path| - 1 {
        var r := Offered(w, h);
        IsOnChain(acts, rf, w, r);
        HBThen(h, r, p);
      } else {
        IsOnChain(acts, rf, w, w);
        var q := PendingSeq(w, w);
        var rest := path[j + 1..];
        PathFrom(acts, path, rf, j + 1);
        forall i | 0 <= i < |rest| - 1 && IsBoth(acts, rest[i]) ensures IsSettled(PendingSeq(rest[i], rest[i])) {
          assert rest[i] == path[j + 1 + i];
        }
        NoReleaseLost(q, rest, h);
        HBThen(h, w, p);
      }
    }

    /**
     No synchronization of ISO C++11 is missed (1.10 paragraph 8 and 29.8 paragraphs 2 to 4), release
     sequences being paths of read-modify-writes: when no search is pending, a release, or a release
     fence before the store at the end of the path, happens before whatever the reading thread acquires
     with, be it the read or a later fence.
     */
    lemma AllSynchronized(r: nat, x: nat, path: seq<nat>, h: nat)
      requires Valid() && Complete() && pendingSeqs == [] && Acquires(acts, r, x) && r !in changed
      requires acts[r].rf.Some? && RmwPath(acts, path, acts[r].rf.value) && Releases(acts, path[|path| - 1], h)
      requires forall i :: 0 <= i < |path| - 1 ==> path[i] !in changed
      ensures HB(acts, h, x)
    {
      hide ValidBut, HB, AllAsked;
      forall i | 0 <= i < |path| - 1 && IsBoth(acts, path[i]) ensures IsSettled(PendingSeq(path[i], path[i])) {
        assert acts[path[i]].kind.Rmw? && acts[path[i]].rf == Some(path[i + 1]);
        assert path[i] !in changed;
        IsAsked(path[i]);
      }
      var y := Acquirer(r, x);
      var p := PendingSeq(y, r);
      NoReleaseLost(p, path, h);
      if y != x {
        SearchOf(p);
        ThenHB(h, y, x);
      }
    }

    lemma IsAsked(x: nat)
      requires Complete() && x < |acts| && acts[x].kind.IsRead() && acts[x].order.IsAcquire() && x !in changed
      ensures PendingSeq(x, x) in record.searched
    {
      assert AskedAt(acts, record.searched, changed, x);
    }

    /** The action that the read's value is acquired with first: the read, or the first acquire fence after it. */
    lemma Acquirer(r: nat, x: nat) returns (y: nat)
      requires Valid() && Complete() && Acquires(acts, r, x) && r !in changed
      ensures r <= y <= x && acts[y].tid == acts[x].tid && PendingSeq(y, r) in record.searched
      ensures Numbered(acts, y) && Numbered(acts, x)
    {
      hide ValidBut;
      if acts[r].order.IsAcquire() {
        y := r;
        IsAsked(r);
      } else {
        y := FirstAcquireFence(acts, r, x);
        assert MetBy(acts, y, r);
        assert AskedAt(acts, record.searched, changed, y);
      }
    }

    lemma SearchOf(p: PendingSeq)
      requires Valid() && p in record.searched
      ensures IsSearch(acts, p)
    {
      hide Lawful, ConsistentBut, Registered, QueueKnown, GraphValid, Served, RealEntries, IsSearch;
    }

    lemma ThenHB(h: nat, y: nat, x: nat)
      requires Valid() && h < |acts| && y < x < |acts| && HB(acts, h, y) && Numbered(acts, y) && Numbered(acts, x)
      requires acts[y].tid == acts[x].tid
      ensures HB(acts, h, x)
    {
      hide Lawful, OwnSettled, Settled, Accounted, QueueKnown, GraphValid, UninitOnce, RmwLinked, Registered, HB,
           ReadsKnown, HappensBefore.Exact, Monotone, Forward, OwnClock;
      HBSameThread(acts, y, x);
      HBTrans(acts, G, h, y, x);
    }

    /** The search was made, and is not pending. */
    ghost predicate IsSettled(p: PendingSeq)
      reads this`acts, this`record, this`pendingSeqs
    {
      p in record.searched && p !in pendingSeqs && p.read < |acts| && acts[p.read].rf.Some?
    }

    lemma KnownNow()
      requires Valid()
      ensures ReadsKnown(acts, {}) && WellClocked(acts)
    {
      hide Lawful, HB, OwnSettled, Settled, Registered, Accounted, QueueKnown, GraphValid, UninitOnce, RmwLinked,
           HappensBefore.Exact, Monotone, Forward;
    }

    /** What the store `w` offers to the chain is the release, or a fence that is no earlier. */
    lemma Offered(w: nat, h: nat) returns (r: nat)
      requires Valid() && Releases(acts, w, h)
      ensures ReleaseAt(acts, w) == Some(r) && r < |acts| && HB(acts, h, r) && Numbered(acts, r)
    {
      hide Lawful, OwnSettled, Settled, Accounted, QueueKnown, GraphValid, UninitOnce, RmwLinked,
           HappensBefore.Exact, Monotone, Forward, ReadsKnown, OwnClock, HB, FencesRegistered;
      r := OfferedBy(acts, lastFenceRelease, w, h);
    }

    lemma HBThen(h: nat, r: nat, p: PendingSeq)
      requires Valid() && h < |acts| && r < |acts| && HB(acts, h, r) && Numbered(acts, r)
      requires IsSearch(acts, p) && HB(acts, r, p.acquire)
      ensures HB(acts, h, p.acquire)
    {
      hide Lawful, OwnSettled, Settled, Accounted, QueueKnown, GraphValid, UninitOnce, RmwLinked, Registered, HB,
           Clocked;
      HBTrans(acts, G, h, r, p.acquire);
    }

    /**
     Once nothing waits to be re-checked and the graph has no cycle, there is a modification order that
     the standard allows: it is coherent with happens-before, every read-modify-write directly follows
     what it reads, and the rules for sequentially consistent stores and fences are kept.
     */
    lemma Explained()
      requires Valid() && queue == [] && !graph.hasCycles
      ensures exists pos :: Solves(pos, |graph.nodes|, graph.log) &&
                            CoherentOrder(acts, graph.actionToNode, pos) && AtomicOrder(acts, graph.actionToNode, pos)
      ensures exists order :: Allowed(acts, changed, order)
    {
      hide HB, Reach, Registered, Linked, RmwConstrained, Sourced, Attested, Solves, CoherentOrder, AtomicOrder,
           Tracks, ConsistentBut, CycleGraphs.Sane, Lawful, Allowed;
      QueueEmpty(acts);
      NothingBut(acts, G, M, {});
      Decides(graph.nodes, graph.rank, graph.log);
      var pos :| Solves(pos, |graph.nodes|, graph.log);
      SolutionCoherent(acts, G, M, graph.actionToNode, graph.log, |graph.nodes|, pos);
      SolutionAtomic(acts, graph.actionToNode, graph.log, |graph.nodes|, pos);
      NodesOfStores();
      SolvesOrder(pos, |graph.nodes|, graph.log);
      LawfulRules(acts, M, changed, late);
      var order := SolutionAllowed(acts, G, M, changed, graph.actionToNode, graph.log, pos);
    }

    lemma NodesOfStores()
      requires Valid()
      ensures OneNodeEach(graph.actionToNode, |graph.nodes|)
      ensures forall x :: x in graph.actionToNode ==> x < |acts| && acts[x].kind.IsWrite()
    {
      hide Lawful, ConsistentBut, Registered, Accounted, QueueKnown, Attested, RmwConstrained, Sourced,
           CycleGraphs.Sane;
    }

    /**
     The other way round, at any time: as long as nothing strayed from what the standard asks for, a
     cycle means that it allows no modification order.
     */
    lemma CycleMeans(order: seq<nat>)
      requires Valid() && changed == {} && late == {} && Allowed(acts, {}, order)
      ensures !graph.hasCycles
    {
      hide HB, Registered, Linked, RmwConstrained, Attested, Solves, Tracks, ConsistentBut, CycleGraphs.Sane,
           Allowed, RulesSeen, AllForced, Sourced;
      NodesOfStores();
      assert changed + late == {};
      var pos := AllowedSolves(acts, M, {}, graph.actionToNode, graph.log, |graph.nodes|, order);
      Decides(graph.nodes, graph.rank, graph.log);
    }

    /** Both together: the execution is rejected exactly when the standard allows no modification order. */
    lemma RejectedExactly()
      requires Valid() && queue == [] && changed == {} && late == {}
      ensures graph.hasCycles <==> forall order :: !Allowed(acts, {}, order)
    {
      hide ValidBut, Allowed;
      if !graph.hasCycles {
        Explained();
      }
      forall order | Allowed(acts, {}, order) ensures !graph.hasCycles {
        CycleMeans(order);
      }
    }

    /** Nothing has strayed but actions after which a sequentially consistent fence came. */
    lemma StraysOvertaken()
      requires Valid()
      ensures forall y :: y in late ==> Overtaken(acts, y)
    {
      hide ConsistentBut, Registered, Accounted, QueueKnown, GraphValid, RulesSeen, AllForced;
    }
  }

  lemma LawfulRules(s: Trace, M: Edges, changed: set<nat>, late: set<nat>)
    requires Lawful(s, M, {}, changed, late)
    ensures RulesSeen(s, M, {}, changed)
  {
  }

  /** `x` acquires what `r` reads: it is the read, or a later fence of its thread. */
  predicate Acquires(s: Trace, r: nat, x: nat) {
    && r <= x < |s| && Numbered(s, r) && s[r].kind.IsRead() && s[x].order.IsAcquire() && s[r].tid == s[x].tid
    && (r == x || s[x].kind.Fence?)
  }

  lemma FirstAcquireFence(s: Trace, r: nat, x: nat) returns (y: nat)
    requires Acquires(s, r, x) && !s[r].order.IsAcquire()
    ensures r < y <= x && Numbered(s, y) && s[y].tid == s[x].tid && s[y].kind.Fence? && s[y].order.IsAcquire()
    ensures NoAcquireFence(s, y, r)
  {
    y := r + 1;
    while !(s[y].kind.Fence? && s[y].order.IsAcquire() && s[y].tid == s[x].tid)
      invariant r < y <= x
      invariant forall f: nat :: r < f < y && s[f].tid == s[x].tid ==> !(s[f].kind.Fence? && s[f].order.IsAcquire())
      decreases x - y
    {
      y := y + 1;
    }
  }

  /** A step that adds an action, which has been searched for. */
  lemma AskedNext(s: Trace, s': Trace, searched: set<PendingSeq>, searched': set<PendingSeq>, changed: set<nat>,
                  kind: Kind, loc: nat)
    requires Evolved(s, s') && s' != [] && s'[..|s'| - 1] == Prepared(s, kind, loc) && searched <= searched'
    requires AskedAt(s', searched', changed, |s'| - 1)
    ensures AllAsked(s, searched, changed) ==> AllAsked(s', searched', changed)
  {
    hide Evolved, AskedAt;
    if AllAsked(s, searched, changed) {
      forall x: nat | |s| <= x < |s'| ensures AskedAt(s', searched', changed, x) {
        if x + 1 < |s'| {
          assert s'[x] == s'[..|s'| - 1][x] == Placeholder(loc);
          AskedPlain(s', searched', changed, x);
        }
      }
      forall x: nat | x < |s| ensures s'[x].order == s[x].order {
        assert s'[x] == s'[..|s'| - 1][x] == s[x];
      }
      AskedEvolves(s, s', searched, searched', changed, changed);
    }
  }

  lemma AskedPlain(s: Trace, searched: set<PendingSeq>, changed: set<nat>, x: nat)
    requires x < |s| && !s[x].kind.Fence?
    requires s[x].kind.IsRead() && s[x].order.IsAcquire() ==> PendingSeq(x, x) in searched
    ensures AskedAt(s, searched, changed, x)
  {
  }

  lemma AskedFence(s: Trace, searched: set<PendingSeq>, changed: set<nat>, x: nat)
    requires x < |s| && s[x].kind.Fence? && (s[x].order.IsAcquire() ==> MetReads(s, x, 0) <= searched)
    ensures AskedAt(s, searched, changed, x)
  {
    if s[x].order.IsAcquire() {
      forall r: nat | r < x && MetBy(s, x, r) ensures PendingSeq(x, r) in searched {
        assert PendingSeq(x, r) in MetReads(s, x, 0);
      }
    }
  }

  lemma AskedClosed(s: Trace, s': Trace, searched: set<PendingSeq>, changed: set<nat>, curr: nat, order: MemoryOrder,
                    succeeded: bool)
    requires curr + 1 == |s| && Evolved(s, s') && s' == CloseRmw(s, curr, order, succeeded)
    ensures AllAsked(s, searched, changed) ==> AllAsked(s', searched, changed + Switched(s, curr, order))
  {
    hide Evolved, AskedAt;
    if AllAsked(s, searched, changed) {
      AskedEvolves(s, s', searched, searched, changed, changed + Switched(s, curr, order));
    }
  }

  lemma AskedGrew(s: Trace, s': Trace, searched: set<PendingSeq>, changed: set<nat>)
    requires Grew(s, s')
    ensures AllAsked(s, searched, changed) ==> AllAsked(s', searched, changed)
  {
    hide AskedAt;
    if AllAsked(s, searched, changed) {
      GrewEvolved(s, s');
      AskedEvolves(s, s', searched, searched, changed, changed);
    }
  }

  /**
   The release that may head the sequence from off the chain, in terms of the trace: the last one of its
   thread on the location, after which the thread has passed no release fence.
   */
  lemma OffChainMeans(s: Trace, rf0: nat, h: nat)
    requires WellClocked(s) && ChainTail(s, rf0) < |s| && Numbered(s, ChainTail(s, rf0))
    requires FenceLatest(s, ChainTail(s, rf0))
    requires s[ChainTail(s, rf0)].lastFence.Some? ==> FenceKnown(s, ChainTail(s, rf0))
    ensures var tail := ChainTail(s, rf0);
            OffChain(s, rf0, h) <==>
              && !s[tail].kind.Rmw? && !s[tail].order.IsRelease()
              && h <= tail && s[h].order.IsRelease() && Listed(s, h, tail, s[tail].tid)
              && (forall b: nat :: h < b <= tail && Listed(s, b, tail, s[tail].tid) ==> !s[b].order.IsRelease())
              && forall f: nat :: h < f < tail ==> !IsFenceOf(s, f, s[tail].tid)
  {
    hide WellClocked;
    var tail := ChainTail(s, rf0);
    if h <= tail && s[h].tid == s[tail].tid && s[h].order.IsRelease() && Listed(s, h, tail, s[tail].tid) {
      OwnNumbered(s, h, tail);
      if s[tail].lastFence.Some? {
        NumberOrder(s, h, s[tail].lastFence.value);
      }
    }
  }

  lemma OwnNumbered(s: Trace, h: nat, tail: nat)
    requires WellClocked(s) && Numbered(s, tail) && h < |s| && s[h].tid == s[tail].tid
    ensures Numbered(s, h)
  {
    assert OwnClock(s[tail]);
  }

  /** `h` is the store `w`, a release, or an earlier release fence of its thread. */
  predicate Releases(s: Trace, w: nat, h: nat) {
    && h <= w < |s| && Numbered(s, h) && Numbered(s, w) && s[h].order.IsRelease() && s[h].tid == s[w].tid
    && (h == w || s[h].kind.Fence?)
  }

  lemma OfferedBy(s: Trace, fence: map<nat, nat>, w: nat, h: nat) returns (r: nat)
    requires FencesRegistered(s, fence) && WellClocked(s) && Releases(s, w, h)
    ensures ReleaseAt(s, w) == Some(r) && r < |s| && HB(s, h, r) && Numbered(s, r)
  {
    hide WellClocked, HB;
    if s[w].order.IsRelease() {
      r := w;
    } else {
      assert FenceLatest(s, w) && IsFenceOf(s, h, s[w].tid);
      r := s[w].lastFence.value;
      assert FenceKnown(s, w);
    }
    HBSameThread(s, h, r);
  }

  lemma PathFrom(s: Trace, path: seq<nat>, rf: nat, j: nat)
    requires RmwPath(s, path, rf) && 0 < j < |path|
    ensures RmwPath(s, path[j..], path[j]) && path[j..][|path| - j - 1] == path[|path| - 1]
    ensures s[path[j - 1]].rf == Some(path[j])
  {
    var rest := path[j..];
    assert forall i :: 0 <= i < |rest| ==> rest[i] == path[i + j];
  }

  /** No edge is lost, and the answer says whether one is new. */
  ghost predicate Progress(before: Edges, after: Edges, added: bool) {
    before <= after && (added <==> before != after)
  }

  ghost function DirectEdges(t: map<nat, nat>, E: Edges): Edges {
    set a: nat, b: nat | a in t && b in t && (t[a], t[b]) in E :: (a, b)
  }

  lemma NothingBut(s: Trace, G: Edges, M: Edges, pending: set<nat>)
    ensures ConsistentBut(s, G, M, pending, {}) <==> Consistent(s, G, M, pending)
  {
  }

  /**
   A sequentially consistent read from a store that happens before the last such store (29.3
   paragraph 3 of ISO C++11).
   */
  predicate MissedScWrite(s: Trace, act: nat)
    requires act < |s| && s[act].rf.Some? && s[act].rf.value < |s|
  {
    var w := LastScWrite(s, act, act);
    s[act].order.SeqCst? && w.Some? && HB(s, s[act].rf.value, w.value)
  }

  /** The last sequentially consistent store to the location before `act`. */
  predicate LastScStore(s: Trace, act: nat, w: nat)
    requires act < |s|
  {
    && w < act && s[w].kind.IsWrite() && s[w].loc == s[act].loc && s[w].order.SeqCst?
    && forall v: nat :: w < v < act ==> !(s[v].kind.IsWrite() && s[v].loc == s[act].loc && s[v].order.SeqCst?)
  }

  /** The read misses a store exactly when there is such a last one, and what it reads happens before that. */
  lemma MissedMeans(s: Trace, act: nat)
    requires act < |s| && s[act].rf.Some? && s[act].rf.value < |s|
    ensures MissedScWrite(s, act) <==>
            s[act].order.SeqCst? && exists w: nat :: LastScStore(s, act, w) && HB(s, s[act].rf.value, w)
  {
    hide HB;
    var w := LastScWrite(s, act, act);
    if w.Some? {
      assert LastScStore(s, act, w.value);
    }
  }

  lemma JoinedNothing(s: Trace, x: nat)
    requires x < |s|
    ensures Joined(s, [], x) == s
  {
  }

  /** The filter of resolve_release_sequences: a given location, or any. */
  predicate AtLocation(s: Trace, p: PendingSeq, location: Option<nat>) {
    p.read < |s| && (location.Some? ==> s[p.read].loc == location.value)
  }

  lemma AtLocationGrew(s: Trace, s': Trace, p: PendingSeq, location: Option<nat>)
    requires Grew(s, s')
    ensures AtLocation(s', p, location) <==> AtLocation(s, p, location)
  {
  }

  lemma NothingGrew(s: Trace)
    ensures Grew(s, s)
  {
  }

  lemma SyncAllGrew(s: Trace, G: Edges, hs: seq<nat>, x: nat)
    requires Clocked(s, G) && Numbered(s, x) && Heads(s, hs, x)
    ensures Grew(s, SyncAll(s, hs, x))
  {
    hide Clocked, HB;
    forall a: nat | a < |s|
      ensures SyncAll(s, hs, x)[a] == s[a].(cv := SyncAll(s, hs, x)[a].cv) && Le(s[a].cv, SyncAll(s, hs, x)[a].cv)
    {
      SyncAllAt(s, G, hs, x, a);
      JoinAllGrows(s[a].cv, s, hs);
    }
  }

  lemma CaughtResolved(s: Trace, s': Trace, heads: seq<nat>, acquire: nat, read: nat)
    requires Grew(s, s') && read < |s| && s[read].rf.Some?
    requires ChainCaught(s, s[read].rf.value, heads) && AllBefore(s', heads, acquire)
    ensures Resolved(s', acquire, read)
  {
    GrewEvolved(s, s');
    EvolvedCaught(s, s', s[read].rf.value, heads);
  }

  lemma StillResolved(s: Trace, s': Trace, tried: set<PendingSeq>, cycles: bool)
    requires Grew(s, s') && (!cycles ==> forall p :: p in tried ==> Resolved(s, p.acquire, p.read))
    ensures !cycles ==> forall p :: p in tried ==> Resolved(s', p.acquire, p.read)
  {
    if !cycles {
      forall p | p in tried ensures Resolved(s', p.acquire, p.read) {
        GrewEvolved(s, s');
        EvolvedResolved(s, s', p.acquire, p.read);
      }
    }
  }

  lemma SplitAt(seqs: seq<PendingSeq>, i: nat)
    requires i < |seqs|
    ensures forall p :: p in seqs[i..] <==> p == seqs[i] || p in seqs[i + 1..]
    ensures forall p :: p in seqs[..i + 1] <==> p in seqs[..i] || p == seqs[i]
    ensures forall p :: p in seqs <==> p in seqs[..i] || p in seqs[i..]
    ensures (seqs[..i] + seqs[i + 1..])[..i] == seqs[..i] && (seqs[..i] + seqs[i + 1..])[i..] == seqs[i + 1..]
  {
    assert seqs == seqs[..i] + seqs[i..];
    assert seqs[i..] == [seqs[i]] + seqs[i + 1..];
    assert seqs[..i + 1] == seqs[..i] + [seqs[i]];
  }

  lemma AllBeforeAfter(s: Trace, G: Edges, heads: seq<nat>, done: seq<nat>, x: nat)
    requires Clocked(s, G) && Numbered(s, x) && Heads(s, heads, x) && Heads(s, done, x)
    requires AllBefore(Joined(s, done, x), heads, x)
    ensures AllBefore(SyncAll(s, done, x), heads, x)
  {
    hide Clocked;
    var s' := SyncAll(s, done, x);
    SyncAllAt(s, G, done, x, x);
    Reflexive(s, G, x);
    forall h | h in heads ensures h < |s| && HB(s', h, x) {
      SyncAllAt(s, G, done, x, h);
      NotBackwards(s, G, x, h);
    }
  }

  lemma LateSynchronized(s: Trace, G: Edges, M: Edges, q: seq<Work>, q': seq<Work>, hs: seq<nat>, x: nat, threads: nat,
                         last: map<nat, nat>, creation: map<nat, nat>, fence: map<nat, nat>, clock: nat,
                         t: map<nat, nat>, log: set<Constraint>, changed: set<nat>, late: set<nat>)
    requires Consistent(s, G, M, Queued(q)) && Numbered(s, x) && Heads(s, hs, x) && QueueKnown(s, q')
    requires Queued(q') >= Queued(q) + set y: nat | y < |s| && HB(s, x, y)
    requires Registered(s, threads, last, creation, fence, clock)
    requires Linked(s, M, t, log) && RmwConstrained(s, t, log) && Sourced(s, M, t, log)
    requires Lawful(s, M, {}, changed, late)
    ensures var s' := SyncAll(s, hs, x);
            && Consistent(s', G + SyncEdges(hs, x), M, Queued(q')) && QueueKnown(s', q')
            && Registered(s', threads, last, creation, fence, clock)
            && Linked(s', M, t, log) && RmwConstrained(s', t, log) && Sourced(s', M, t, log)
            && Lawful(s', M, {}, changed, late)
  {
    hide Lawful, Sourced, Registered, Linked, RmwConstrained, Attested, HB, OwnSettled, Settled, ReadsKnown,
         UninitOnce, Queued, Clocked;
    var s' := SyncAll(s, hs, x);
    var reached := set y: nat | y < |s| && HB(s, x, y);
    LateSyncSound(s, G, M, Queued(q), hs, x, reached);
    PendingMono(s', G + SyncEdges(hs, x), M, Queued(q) + reached, Queued(q'));
    SyncAllFrame(s, G, M, hs, x, {});
    RegisteredSame(s, s', threads, last, creation, fence, clock);
    SyncAllGrew(s, G, hs, x);
    GrewEvolved(s, s');
    SourcedEvolves(s, s', M, t, log);
    LawfulClocks(s, s', G, M, Queued(q), changed, late);
    LinkedSame(s, s', M, t, log);
  }

  /** The edges of r_modification_order bring the reading half of an action up to date. */
  lemma ReadAgain(s: Trace, G: Edges, M: Edges, M': Edges, pending: set<nat>, act: nat, threads: nat)
    requires ConsistentBut(s, G, M, pending, {act}) && act < |s| && s[act].kind.IsRead() && ReadKnown(s, act)
    requires M <= M' && WritesOnly(s, M') && ThreadsBelow(s, threads)
    requires ReadOrdered(s, M', act, s[act].rf.value, threads)
    ensures ConsistentBut(s, G, M', pending, {act}) && ReadDone(s, M', act)
  {
    hide Lawful, Sourced, HB, Clocked, OwnSettled, Settled, RmwLinked, UninitOnce, ReadOrdered, Reach;
    SoundMono(s, G, M, M', pending, {act});
    ReadProcessed(s, G, M', pending, act, s[act].rf.value, threads);
  }

  lemma ProcessedRead(s: Trace, G: Edges, M: Edges, pending: set<nat>, act: nat)
    requires ConsistentBut(s, G, M, pending, {act}) && act < |s| && !s[act].kind.IsWrite() && ReadDone(s, M, act)
    ensures Consistent(s, G, M, pending - {act})
  {
    hide Lawful, Sourced, HB, Clocked, OwnSettled, Settled, RmwLinked, UninitOnce, Reach;
    Processed(s, G, M, pending, act);
  }

  lemma QueueMore(s: Trace, queue: seq<Work>, loc: nat)
    requires QueueKnown(s, queue)
    ensures var q := queue + [CheckRelSeq(Some(loc))]; Queued(q) == Queued(queue) && QueueKnown(s, q)
  {
    var q := queue + [CheckRelSeq(Some(loc))];
    assert forall w :: w in q && w.CheckMoEdges? <==> w in queue && w.CheckMoEdges?;
  }

  /** Taking the first item from the queue. */
  lemma QueueRest(s: Trace, G: Edges, M: Edges, queue: seq<Work>)
    requires ConsistentBut(s, G, M, Queued(queue), {}) && QueueKnown(s, queue) && queue != []
    ensures QueueKnown(s, queue[1..])
    ensures match queue[0]
            case CheckRelSeq(_) => ConsistentBut(s, G, M, Queued(queue[1..]), {})
            case CheckMoEdges(act) =>
              act < |s| && ConsistentBut(s, G, M, Queued(queue[1..]), {act}) &&
                  (s[act].kind.IsRead() ==> ReadKnown(s, act))
  {
    hide Sourced, Clocked, HB, Coherent, UninitOnce, RmwLinked, ReadKnown;
    assert queue == [queue[0]] + queue[1..];
    assert queue[0] in queue;
    if queue[0].CheckMoEdges? {
      assert Queued(queue) <= Queued(queue[1..]) + {queue[0].act};
    } else {
      assert Queued(queue) == Queued(queue[1..]);
    }
  }

  /** The last action may ask for the release sequences of what a read reads. */
  predicate Asks(s: Trace, p: PendingSeq) {
    && p.read <= p.acquire && p.acquire < |s| && s[p.read].kind.IsRead() && s[p.read].tid == s[p.acquire].tid
    && if p.read == p.acquire then s[p.read].kind.Read? || s[p.read].kind.Rmwr?
       else s[p.acquire].kind.Fence? && s[p.acquire].order.IsAcquire()
  }

  lemma LastSynchronized(s: Trace, G: Edges, M: Edges, hs: seq<nat>, p: PendingSeq, threads: nat, last: map<nat, nat>,
                         creation: map<nat, nat>, fence: map<nat, nat>, clock: nat)
    requires Consistent(s, G, M, {}) && p.acquire + 1 == |s| && Asks(s, p) && ReadKnown(s, p.read)
    requires AllVia(s, M, hs, s[p.read].rf.value) && Registered(s, threads, last, creation, fence, clock)
    ensures Heads(s, hs, p.acquire) && (forall i :: 0 <= i < |hs| ==> hs[i] < |s|) && IsSearch(s, p)
    ensures var s' := Joined(s, hs, p.acquire);
            Consistent(s', G + SyncEdges(hs, p.acquire), M, {}) && Registered(s', threads, last, creation, fence, clock)
  {
    hide Lawful, Consistent, Registered, AllVia, SyncEdges, ReadsKnown;
    if p.read == p.acquire {
      Synchronized(s, G, M, hs, p.acquire, threads, last, creation, fence, clock);
    } else {
      ViaBefore(s, M, hs, s[p.read].rf.value, p.acquire);
      SynchronizedPlain(s, G, M, hs, p.acquire, threads, last, creation, fence, clock);
    }
  }

  lemma ClockedWell(s: Trace, G: Edges)
    requires Clocked(s, G)
    ensures WellClocked(s)
  {
  }

  lemma LastReadKnown(s: Trace, G: Edges, M: Edges, curr: nat)
    requires ConsistentBut(s, G, M, {}, {}) && curr < |s| && s[curr].kind.IsRead()
    ensures s[curr].rf.Some?
  {
    assert ReadKnown(s, curr);
  }

  lemma PastByHB(s: Trace, t: map<nat, nat>, E: Edges, rf: nat, i: nat, act: nat)
    requires rf < |s| && act < |s| && s[act].tid == i && HB(s, rf, act)
    ensures ThreadPast(s, t, E, rf, i)
  {
    assert IsPast(s, t, E, rf, i, act);
  }

  lemma ViaBefore(s: Trace, M: Edges, heads: seq<nat>, rf: nat, x: nat)
    requires AllVia(s, M, heads, rf) && rf < x < |s|
    ensures Heads(s, heads, x) && forall i :: 0 <= i < |heads| ==> heads[i] < |s|
  {
    hide HB, Reach;
    forall i | 0 <= i < |heads| ensures Numbered(s, heads[i]) && heads[i] < x && heads[i] < |s| {
      assert IsVia(s, M, heads[i], rf);
      var w: nat :| HeadVia(s, M, heads[i], rf, w);
    }
  }

  /** Synchronizing the last action keeps everything when it is not atomic. */
  lemma SynchronizedPlain(s: Trace, G: Edges, M: Edges, hs: seq<nat>, x: nat, threads: nat, last: map<nat, nat>,
             creation: map<nat, nat>, fence: map<nat, nat>, clock: nat)
    requires Consistent(s, G, M, {}) && Numbered(s, x) && x + 1 == |s| && !s[x].kind.IsAtomic() && Heads(s, hs, x)
    requires Registered(s, threads, last, creation, fence, clock)
    ensures var s' := Joined(s, hs, x);
            && Consistent(s', G + SyncEdges(hs, x), M, {})
            && Registered(s', threads, last, creation, fence, clock)
  {
    hide Lawful, Consistent, Registered, Reach, HB;
    ConsistentClocked(s, G, M, {});
    forall y: nat | y < |s| && HB(s, x, y) ensures y in {x} {
      if y != x {
        LastBeforeNone(s, G, x, y);
      }
    }
    LateSyncSound(s, G, M, {}, hs, x, {x});
    JoinedLast(s, G, hs, x);
    assert {} + {x} == {x};
    DropOther(Joined(s, hs, x), G + SyncEdges(hs, x), M, x);
    RegisteredSame(s, Joined(s, hs, x), threads, last, creation, fence, clock);
  }

  lemma RecordsClosed(s: Trace, curr: nat, order: MemoryOrder, succeeded: bool, threads: nat, last: map<nat, nat>,
                      creation: map<nat, nat>, fence: map<nat, nat>, clock: nat)
    requires Registered(s, threads, last, creation, fence, clock)
    requires curr < |s| && s[curr].kind.Rmwr?
    ensures var s' := CloseRmw(s, curr, order, succeeded);
            Registered(s', threads, last, creation, fence, clock) && (!succeeded ==> SameWrites(s, s'))
  {
    hide Lawful, Registered;
    var s' := CloseRmw(s, curr, order, succeeded);
    RegisteredSame(s, s', threads, last, creation, fence, clock);
  }

  lemma OnlyWritesLinked(s: Trace, M: Edges, t: map<nat, nat>, log: set<Constraint>, a: nat)
    requires Linked(s, M, t, log) && a < |s| && !s[a].kind.IsWrite()
    ensures a !in t
  {
  }

  lemma ClosedLinked(s: Trace, M: Edges, t: map<nat, nat>, log: set<Constraint>, t': map<nat, nat>,
                     log': set<Constraint>, curr: nat, order: MemoryOrder)
    requires Linked(s, M, t, log) && RmwConstrained(s, t, log) && curr < |s| && s[curr].kind.Rmwr? && ReadKnown(s, curr)
    requires (forall k :: k in t ==> k in t' && t'[k] == t[k]) && t'.Keys <= t.Keys + {s[curr].rf.value, curr}
    requires s[curr].rf.value in t' && curr in t' && log <= log'
    requires Constraint.Rmw(t'[s[curr].rf.value], t'[curr]) in log'
    ensures var s' := CloseRmw(s, curr, order, true);
            Linked(s', M + {(s[curr].rf.value, curr)}, t', log') && RmwConstrained(s', t', log')
  {
  }

  lemma PushStart(s: Trace, G: Edges, hs: seq<nat>, x: nat, s': Trace)
    requires Clocked(s, G) && Numbered(s, x) && Took(s, hs, x, s')
    ensures Pushed(s, hs, x, |s|, s')
  {
  }

  lemma PushSame(s: Trace, hs: seq<nat>, x: nat, k: nat, s': Trace)
    requires x + 1 < k <= |s| && Heads(s, hs, x) && Pushed(s, hs, x, k, s')
    ensures |s'| == |s| && (HB(s', x, k - 1) <==> HB(s, x, k - 1))
  {
  }

  lemma PushStep(s: Trace, G: Edges, hs: seq<nat>, x: nat, k: nat, s': Trace)
    requires Clocked(s, G) && Numbered(s, x)
    requires x + 1 < k <= |s| && Heads(s, hs, x) && Pushed(s, hs, x, k, s') && HB(s, x, k - 1)
    ensures Pushed(s, hs, x, k - 1, Met(s', x, k - 1)) && s'[x].now <= s'[k - 1].now
  {
    LaterNumbered(s, G, x, k - 1);
  }

  /** What a numbered action happens before is numbered. */
  lemma LaterNumbered(s: Trace, G: Edges, x: nat, y: nat)
    requires Clocked(s, G) && Numbered(s, x) && y < |s| && HB(s, x, y)
    ensures Numbered(s, y)
  {
    hide Reach, HappensBefore.Exact, Forward, Monotone;
    assert OwnClock(s[x]);
  }

  lemma PushSkip(s: Trace, hs: seq<nat>, x: nat, k: nat, s': Trace)
    requires x + 1 < k <= |s| && Heads(s, hs, x) && Pushed(s, hs, x, k, s') && !HB(s, x, k - 1)
    ensures Pushed(s, hs, x, k - 1, s')
  {
  }

  lemma AllBeforeNone(s: Trace, x: nat)
    requires x < |s|
    ensures AllBefore(s, [], x)
  {
  }

  lemma QueueNoActs(s: Trace, loc: Option<nat>)
    ensures Queued([CheckRelSeq(loc)]) == {} && QueueKnown(s, [CheckRelSeq(loc)])
  {
  }

  lemma NotARead(s: Trace, G: Edges, M: Edges, pending: set<nat>, curr: nat)
    requires ConsistentBut(s, G, M, pending, {curr}) && curr < |s| && !s[curr].kind.IsRead()
    ensures ReadDone(s, M, curr)
  {
  }

  /** Joining the heads of the last action, a read, keeps everything. */
  lemma Synchronized(s: Trace, G: Edges, M: Edges, hs: seq<nat>, x: nat, threads: nat, last: map<nat, nat>,
                     creation: map<nat, nat>, fence: map<nat, nat>, clock: nat)
    requires Consistent(s, G, M, {}) && Numbered(s, x) && x + 1 == |s| && (s[x].kind.Read? || s[x].kind.Rmwr?)
    requires ReadKnown(s, x) && AllVia(s, M, hs, s[x].rf.value)
    requires Registered(s, threads, last, creation, fence, clock)
    ensures Heads(s, hs, x) && forall i :: 0 <= i < |hs| ==> hs[i] < |s|
    ensures var s' := Joined(s, hs, x);
            && Consistent(s', G + SyncEdges(hs, x), M, {})
            && Registered(s', threads, last, creation, fence, clock)
  {
    hide Lawful, Consistent, Registered, AllVia, AllHeads, Reach, HB;
    ConsistentClocked(s, G, M, {});
    ViaHeads(s, M, hs, x);
    AllHeadsAreHeads(s, M, hs, x);
    ImmediateSyncSound(s, G, M, hs, x);
    JoinedLast(s, G, hs, x);
    RegisteredSame(s, Joined(s, hs, x), threads, last, creation, fence, clock);
  }

  lemma ConsistentClocked(s: Trace, G: Edges, M: Edges, pending: set<nat>)
    requires Consistent(s, G, M, pending)
    ensures Clocked(s, G) && ReadsKnown(s, {})
  {
  }

  lemma ReadTaken(s: Trace, G: Edges, M: Edges, M': Edges, curr: nat, w: nat, threads: nat, last: map<nat, nat>,
                  creation: map<nat, nat>, fence: map<nat, nat>, clock: nat)
    requires ConsistentBut(s, G, M, {}, {curr}) && M <= M' && WritesOnly(s, M') && curr + 1 == |s|
    requires s[curr].kind.Read? || s[curr].kind.Rmwr?
    requires w < curr && s[w].kind.IsWrite() && s[w].loc == s[curr].loc
    requires ReadOrdered(s, M', curr, w, threads)
    requires Registered(s, threads, last, creation, fence, clock)
    ensures var s' := SetRf(s, curr, w);
            && Consistent(s', G, M', {}) && SameWrites(s, s')
            && Registered(s', threads, last, creation, fence, clock)
  {
    hide Lawful, Sourced, HB, ReadOrdered, Clocked, OwnSettled, Settled, ReadsKnown, UninitOnce, RmwLinked;
    var s' := SetRf(s, curr, w);
    SoundMono(s, G, M, M', {}, {curr});
    ReadSound(s, G, M', curr, w, threads);
    RegisteredSame(s, s', threads, last, creation, fence, clock);
  }

  /** The trace once `x` has inherited the clock of `h`. */
  function Met(s: Trace, h: nat, x: nat): (s': Trace)
    requires h < |s| && x < |s|
    ensures |s'| == |s|
  {
    s[x := s[x].(cv := Join(s[x].cv, s[h].cv))]
  }

  lemma TookNone(s: Trace, x: nat)
    requires Numbered(s, x)
    ensures Took(s, [], x, s) && AllBefore(s, [], x)
  {
  }

  /** A head comes first and keeps its clock while `x` takes in others. */
  lemma TookHead(s: Trace, done: seq<nat>, x: nat, s': Trace, h: nat)
    requires Took(s, done, x, s') && WellClocked(s) && Numbered(s, h) && Numbered(s, x) && h < x
    ensures |s'| == |s| && s'[h].now <= s'[x].now
  {
  }

  lemma TookMore(s: Trace, done: seq<nat>, x: nat, s': Trace, h: nat)
    requires Took(s, done, x, s') && WellClocked(s) && Numbered(s, h) && h < x
    ensures Took(s, done + [h], x, Met(s', h, x)) && HB(Met(s', h, x), h, x)
  {
    JoinedPush(s, done, x, h);
    HBRefl(s, h);
  }

  lemma StillBefore(s: Trace, hs: seq<nat>, h: nat, x: nat)
    requires AllBefore(s, hs, x) && (forall g :: g in hs ==> g != x) && h < |s|
    ensures AllBefore(Met(s, h, x), hs, x)
  {
  }

  lemma BeforeMore(s: Trace, hs: seq<nat>, x: nat, h: nat)
    requires AllBefore(s, hs, x) && h < |s| && HB(s, h, x)
    ensures AllBefore(s, hs + [h], x)
  {
  }

  lemma KnownFences(s: Trace, threads: nat, last: map<nat, nat>, creation: map<nat, nat>, fence: map<nat, nat>,
                    clock: nat)
    requires Registered(s, threads, last, creation, fence, clock)
    ensures forall a: nat :: a < |s| && s[a].lastFence.Some? ==> s[a].lastFence.value < a && Numbered(s, a)
  {
    forall a: nat | a < |s| && s[a].lastFence.Some? ensures s[a].lastFence.value < a && Numbered(s, a) {
      assert FenceKnown(s, a);
    }
  }

  lemma CaughtMore(s: Trace, chain: set<nat>, heads: seq<nat>, h: nat)
    requires forall r :: r in chain ==> Caught(s, r, heads)
    ensures forall r :: r in chain ==> Caught(s, r, heads + [h])
  {
  }

  /** Placeholders have a thread of their own and release nothing. */
  lemma ReleaseNumbered(s: Trace, G: Edges, threads: nat, last: map<nat, nat>, creation: map<nat, nat>,
                        fence: map<nat, nat>, clock: nat, release: nat, rf: nat)
    requires Clocked(s, G) && Registered(s, threads, last, creation, fence, clock) && release < |s| && rf < |s|
    requires s[release].order.IsRelease() && s[release].tid == s[rf].tid
    ensures Numbered(s, release) && Numbered(s, rf) && WellClocked(s)
  {
    assert Numbered(s, release);
    assert OwnClock(s[release]);
  }

  /** A release on the chain, or the release fence before it, is a head. */
  lemma ChainHead(s: Trace, G: Edges, M: Edges, threads: nat, last: map<nat, nat>, creation: map<nat, nat>,
                  fence: map<nat, nat>, clock: nat, heads: seq<nat>, rf0: nat, rf: nat, h: nat)
    requires Clocked(s, G) && Registered(s, threads, last, creation, fence, clock)
    requires AllVia(s, M, heads, rf0) && Tail(s, M, rf, rf0)
    requires (h == rf && s[rf].order.IsRelease()) || s[rf].lastFence == Some(h)
    ensures AllVia(s, M, heads + [h], rf0)
  {
    hide Reach, HappensBefore.Exact, Monotone, Forward, HB, HeadVia;
    if h != rf || !s[rf].order.IsRelease() {
      assert FenceKnown(s, rf);
    }
    OwnHead(s, M, h, rf0, rf);
    AllViaPush(s, M, heads, rf0, h, rf);
  }

  lemma NothingLawful()
    ensures Lawful([], {}, {}, {}, {}) && Sourced([], {}, map[], {})
  {
  }

  /** A placeholder is made. */
  lemma LawfulPlaceholder(s: Trace, G: Edges, M: Edges, u: Action, changed: set<nat>, late: set<nat>)
    requires Consistent(s, G, M, {}) && Consistent(s + [u], G, M, {}) && Lawful(s, M, {}, changed, late)
    requires u.kind.Uninit?
    ensures Lawful(s + [u], M, {}, changed, late)
  {
    hide Lawful, OwnSettled, Settled, RmwLinked, Forward, HappensBefore.Exact, Monotone, HB, Evolved;
    EvolvedMore(s, u);
    assert Settles(s, s + [u], {}, {});
    LawfulInside(s, M, {}, changed, late);
    LawfulEvolves(s, s + [u], M, {}, {}, changed, changed, late);
  }

  lemma LawfulInside(s: Trace, M: Edges, except: set<nat>, changed: set<nat>, late: set<nat>)
    requires Lawful(s, M, except, changed, late)
    ensures forall y :: y in changed ==> y < |s|
  {
  }

  /** A new action, still to be processed. */
  lemma LawfulNew(s: Trace, G: Edges, G': Edges, M: Edges, r: Action, changed: set<nat>, late: set<nat>)
    requires Consistent(s, G, M, {}) && ConsistentBut(s + [r], G', M, {}, {|s|}) && Lawful(s, M, {}, changed, late)
    ensures Lawful(s + [r], M, {|s|}, changed, late)
  {
    hide Lawful, OwnSettled, Settled, RmwLinked, Forward, HappensBefore.Exact, Monotone, HB, Evolved;
    EvolvedMore(s, r);
    assert Settles(s, s + [r], {}, {|s|});
    LawfulInside(s, M, {}, changed, late);
    LawfulEvolves(s, s + [r], M, {}, {|s|}, changed, changed, late);
  }

  /** Synchronization. */
  lemma LawfulClocks(s: Trace, s': Trace, G: Edges, M: Edges, pending: set<nat>, changed: set<nat>, late: set<nat>)
    requires Consistent(s, G, M, pending) && Lawful(s, M, {}, changed, late) && Grew(s, s')
    ensures Lawful(s', M, {}, changed, late)
  {
    hide Lawful, OwnSettled, Settled, RmwLinked, Forward, HappensBefore.Exact, Monotone, HB;
    LawfulGrew(s, s', M, {}, changed, late);
  }

  /** There are no rules for actions that are not atomic. */
  lemma LawfulOther(s: Trace, M: Edges, x: nat, changed: set<nat>, late: set<nat>)
    requires Lawful(s, M, {x}, changed, late) && x < |s| && !s[x].kind.IsAtomic()
    ensures Lawful(s, M, {}, changed, late)
  {
    hide AllForced, Overtaken, ReadRules, WriteRules;
    NoRules(s, M, changed, x);
  }

  /** A read that is no write is processed. */
  lemma LawfulProcessed(s: Trace, M: Edges, x: nat, changed: set<nat>, late: set<nat>)
    requires Lawful(s, M, {x}, changed, late) && x < |s| && !s[x].kind.IsWrite() && ReadRules(s, M, changed, x)
    ensures Lawful(s, M, {}, changed, late)
  {
    hide AllForced, Overtaken, ReadRules;
  }

  lemma LawfulBut(s: Trace, M: Edges, x: nat, changed: set<nat>, late: set<nat>)
    requires Lawful(s, M, {}, changed, late)
    ensures Lawful(s, M, {x}, changed, late)
  {
    hide AllForced, Overtaken, ReadRules, WriteRules;
  }

  lemma LawfulLater(s: Trace, M: Edges, except: set<nat>, changed: set<nat>, late: set<nat>, late': set<nat>)
    requires Lawful(s, M, except, changed, late) && late <= late' && forall y :: y in late' ==>
               y in late || Overtaken(s, y)
    ensures Lawful(s, M, except, changed, late')
  {
    hide RulesSeen, Forced, TouchedBy, Overtaken;
    forall a: nat, b: nat | (a, b) in M ensures Forced(s, changed, a, b) || TouchedBy(s, changed + late', b) {
      if !Forced(s, changed, a, b) {
        TouchedMore(s, changed + late, changed + late', b);
      }
    }
  }

  lemma NoReadRules(s: Trace, M: Edges, changed: set<nat>, x: nat)
    requires x < |s| && !s[x].kind.IsRead()
    ensures ReadRules(s, M, changed, x)
  {
  }

  lemma NewReadTrans(s: Trace, M: Edges, M': Edges, M'': Edges, curr: nat, rf: nat, late: bool)
    requires NewForRead(s, M, M', curr, rf, late) && NewForRead(s, M', M'', curr, rf, late)
    ensures NewForRead(s, M, M'', curr, rf, late)
  {
    hide AskedRead;
    forall a: nat, b: nat | (a, b) in M'' && (a, b) !in M ensures b == rf && (late || AskedRead(s, a, curr, rf)) {
      assert (a, b) in M' || (a, b) !in M';
    }
  }

  lemma NewWriteTrans(s: Trace, M: Edges, M': Edges, M'': Edges, curr: nat, late: bool)
    requires NewForWrite(s, M, M', curr, late) && NewForWrite(s, M', M'', curr, late)
    ensures NewForWrite(s, M, M'', curr, late)
  {
    hide AskedWrite;
    forall a: nat, b: nat | (a, b) in M'' && (a, b) !in M ensures b == curr && (late || AskedWrite(s, a, curr)) {
      assert (a, b) in M' || (a, b) !in M';
    }
  }

  lemma OrderedMore(s: Trace, M: Edges, M': Edges, curr: nat, rf: nat, i: nat)
    requires curr < |s| && ReadsKnown(s, {curr}) && ReadOrdered(s, M, curr, rf, i) && M <= M'
    requires var w := ScanRead(s, curr, rf, i, |s|); w.Some? ==> (w.value, rf) in M'
    ensures ReadOrdered(s, M', curr, rf, i + 1)
  {
  }

  lemma WriteOrderedMore(s: Trace, M: Edges, M': Edges, curr: nat, i: nat)
    requires curr < |s| && ReadsKnown(s, {curr}) && WriteOrdered(s, M, curr, i) && M <= M'
    requires var w := ScanWrite(s, curr, i, |s|); w.Some? ==> (w.value, curr) in M'
    ensures WriteOrdered(s, M', curr, i + 1) && (ScOrdered(s, M, curr) ==> ScOrdered(s, M', curr))
  {
  }

  lemma OwnSettledMore(s: Trace, M: Edges, M': Edges, except: set<nat>)
    requires OwnSettled(s, M, except) && M <= M'
    ensures OwnSettled(s, M', except)
  {
    hide Coherent;
    forall a: nat, b: nat | SameThreadPair(s, a, b) && b !in except && Known(s, a) && Known(s, b)
      ensures Coherent(s, M', a, b)
    {
      CoherentMono(s, M, M', a, b);
    }
  }

  /** What r_modification_order has reached when it is done. */
  lemma ReadRulesHold(s: Trace, M: Edges, M': Edges, curr: nat, rf: nat, threads: nat)
    requires curr < |s| && ReadsKnown(s, {curr}) && ReadOrdered(s, M', curr, rf, threads) && M <= M'
    requires rf < |s| && s[rf].kind.IsWrite() && OwnSettled(s, M, {curr}) && UninitOnce(s)
    requires WellClocked(s) && Plain(s) && ThreadsBelow(s, threads)
    ensures forall a: nat :: MustSee(s, {}, a, curr) ==> Reach(M', a, rf)
    ensures forall x: nat, a: nat :: Precedent(s, x, curr, a) ==> Reach(M', a, rf)
  {
    hide BeforeFence, FencedBefore, BothFenced, Reach, OwnSettled, UninitOnce, WellClocked, Plain, ReadOrdered, HB;
    OwnSettledMore(s, M, M', {curr});
    forall a: nat | MustSee(s, {}, a, curr) ensures Reach(M', a, rf) {
      ReadRule(s, M', curr, rf, threads, a);
    }
    forall x: nat, a: nat | Precedent(s, x, curr, a) ensures Reach(M', a, rf) {
      ReadOrderedCoherent(s, M', curr, rf, threads, x);
    }
  }

  lemma WriteRulesHold(s: Trace, M: Edges, M': Edges, curr: nat, threads: nat)
    requires curr < |s| && ReadsKnown(s, {curr}) && WriteOrdered(s, M', curr, threads) && M <= M'
    requires OwnSettled(s, M, {curr}) && UninitOnce(s) && WellClocked(s) && ThreadsBelow(s, threads)
    ensures forall a: nat :: BothFenced(s, a, curr) && s[a].tid != s[curr].tid ==> Plus(M', a, curr)
  {
    hide Plus, OwnSettled, UninitOnce, WellClocked, WriteOrdered;
    OwnSettledMore(s, M, M', {curr});
    forall a: nat | BothFenced(s, a, curr) && s[a].tid != s[curr].tid ensures Plus(M', a, curr) {
      WriteRule(s, M', curr, threads, a);
    }
  }

  lemma StillOwnSettled(s: Trace, G: Edges, M: Edges, M': Edges, pending: set<nat>, act: nat)
    requires ConsistentBut(s, G, M, pending, {act}) && M <= M'
    ensures OwnSettled(s, M', {act})
  {
    hide OwnSettled, Settled, Clocked;
    OwnSettledMore(s, M, M', {act});
  }

  lemma ClosedSourced(s: Trace, M: Edges, t: map<nat, nat>, log: set<Constraint>, t': map<nat, nat>,
                      log': set<Constraint>, curr: nat, order: MemoryOrder)
    requires Sourced(s, M, t, log) && curr + 1 == |s| && s[curr].kind.Rmwr? && ReadKnown(s, curr)
    requires (forall k :: k in t ==> k in t' && t'[k] == t[k]) && s[curr].rf.value in t' && curr in t'
    requires log' == log + {Constraint.Rmw(t'[s[curr].rf.value], t'[curr])}
    ensures Sourced(CloseRmw(s, curr, order, true), M + {(s[curr].rf.value, curr)}, t', log')
  {
    hide Evolved;
    var s' := CloseRmw(s, curr, order, true);
    CloseEvolves(s, curr, order, true);
    SourcedEvolves(s, s', M, t, log);
    SourcedGrows(s', M, t, log, t', s[curr].rf.value, curr, Constraint.Rmw(t'[s[curr].rf.value], t'[curr]));
  }

  lemma NothingHappens()
    ensures ConsistentBut([], {}, {}, Queued([]), {}) && Registered([], 2, map[], map[], map[], 0)
  {
  }

  lemma QueueEmpty(s: Trace)
    ensures Queued([]) == {} && QueueKnown(s, [])
  {
  }

  /** Scans end at writes. */
  lemma {:induction false} ScanReadWrites(s: Trace, curr: nat, rf: nat, tid: nat, k: nat)
    requires k <= |s| && curr < |s| && ReadsKnown(s, {curr})
    ensures var w := ScanRead(s, curr, rf, tid, k); w.Some? ==> w.value < |s| && s[w.value].kind.IsWrite()
  {
    if k > 0 {
      if JudgeRead(s, k - 1, curr, rf, tid).Skip? {
        ScanReadWrites(s, curr, rf, tid, k - 1);
      } else if s[k - 1].kind.IsRead() && k - 1 != curr {
        assert ReadKnown(s, k - 1);
      }
    }
  }

  lemma {:induction false} ScanWriteWrites(s: Trace, curr: nat, tid: nat, k: nat)
    requires k <= |s| && curr < |s| && ReadsKnown(s, {curr})
    ensures var w := ScanWrite(s, curr, tid, k); w.Some? ==> w.value < |s| && s[w.value].kind.IsWrite()
  {
    if k > 0 {
      if JudgeWrite(s, k - 1, curr, tid).Skip? {
        ScanWriteWrites(s, curr, tid, k - 1);
      } else if s[k - 1].kind.IsRead() && k - 1 != curr {
        assert ReadKnown(s, k - 1);
      }
    }
  }
}
