/**
 Actions as values: their kinds, memory orders and predicates, and the
 happens-before test that reads clock vectors.
 */
module Actions {
  import opened Optional
  import opened Clocks

  /** action_type: the kinds that the ordering rules distinguish. */
  datatype Kind = Read | Write | Rmwr | Rmw | Init | Uninit | Fence | Other {
    predicate IsRead() { Read? || Rmwr? || Rmw? }
    predicate IsWrite() { Write? || Rmw? || Init? || Uninit? }
    predicate IsAtomic() { IsRead() || IsWrite() }
  }

  datatype MemoryOrder = Relaxed | Acquire | Release | AcqRel | SeqCst {
    predicate IsAcquire() { Acquire? || AcqRel? || SeqCst? }
    predicate IsRelease() { Release? || AcqRel? || SeqCst? }
  }

  /** ModelAction; other actions are named by their index in the trace. */
  datatype Action = Action(
    kind: Kind,
    order: MemoryOrder,
    tid: nat,
    now: nat,                  // seq_number
    loc: nat,
    rf: Option<nat>,           // reads_from
    lastFence: Option<nat>,    // last_fence_release
    cv: Clock)

  type Trace = seq<Action>

  /** ModelAction::happens_before. */
  predicate HB(s: Trace, a: nat, b: nat)
    requires a < |s| && b < |s|
  {
    Since(s[b].cv, s[a].tid, s[a].now)
  }
}
