/**
 Read and write coherence. One edge per thread and action is enough: the scans
 that pick those edges are functions here, and every happens-before pair on one
 location is shown to be reflected in the ordering constraints.
 */
module Coherence {
  import opened Digraph
  import opened Optional
  import opened Clocks
  import opened Actions
  import opened HappensBefore

  // ------------------------------------------------------------------
  // The constraints that coherence asks for
  // ------------------------------------------------------------------

  /** Reads, apart from the one being processed, read from a write of their location. */
  ghost predicate ReadsKnown(s: Trace, except: set<nat>) {
    forall a: nat :: a < |s| && a !in except && s[a].kind.IsRead() ==> ReadKnown(s, a)
  }

  ghost predicate ReadKnown(s: Trace, a: nat) {
    && a < |s| && s[a].rf.Some? && s[a].rf.value < a
    && s[s[a].rf.value].kind.IsWrite() && s[s[a].rf.value].loc == s[a].loc
  }

  ghost predicate Known(s: Trace, a: nat) {
    a < |s| && s[a].kind.IsAtomic() && (s[a].kind.IsRead() ==> ReadKnown(s, a))
  }

  /** The write that an action stands for: itself, or the one it reads from. */
  function Stands(s: Trace, a: nat): (w: nat)
    requires a < |s| && (s[a].kind.IsWrite() || s[a].rf.Some?)
  {
    if s[a].kind.IsWrite() then a else s[a].rf.value
  }

  /** Two atomic actions on one location. */
  predicate SameLocation(s: Trace, a: nat, b: nat) {
    a < |s| && b < |s| && a != b && s[a].kind.IsAtomic() && s[b].kind.IsAtomic() && s[a].loc == s[b].loc
  }

  /**
   What `a` happening before `b` demands of the modification order `M` (1.10
   paragraphs 15 to 18 of ISO C++11): the write `a` stands for comes no later
   than the one `b` reads from, and before the one `b` makes.
   */
  ghost predicate Coherent(s: Trace, M: Edges, a: nat, b: nat)
    requires Known(s, a) && Known(s, b)
  {
    && (s[b].kind.IsRead() ==> Reach(M, Stands(s, a), s[b].rf.value))
    && (s[b].kind.IsWrite() ==> Plus(M, Stands(s, a), b))
  }

  /** Happens-before pairs are reflected, unless the later action still waits to be re-checked. */
  ghost predicate Settled(s: Trace, M: Edges, pending: set<nat>) {
    forall a: nat, b: nat :: SameLocation(s, a, b) && HB(s, a, b) && b !in pending && Known(s, a) && Known(s, b) ==>
                               Coherent(s, M, a, b)
  }

  predicate SameThreadPair(s: Trace, a: nat, b: nat) {
    SameLocation(s, a, b) && s[a].tid == s[b].tid && a < b
  }

  /** Within a thread, they always are. */
  ghost predicate OwnSettled(s: Trace, M: Edges, except: set<nat>) {
    forall a: nat, b: nat :: SameThreadPair(s, a, b) && b !in except && Known(s, a) && Known(s, b) ==>
                               Coherent(s, M, a, b)
  }

  /** One placeholder per location, made before any other action there. */
  ghost predicate UninitOnce(s: Trace) {
    forall a: nat, b: nat :: SameLocation(s, a, b) && s[b].kind.Uninit? ==> b < a && !s[a].kind.Uninit?
  }

  lemma CoherentMono(s: Trace, M: Edges, M': Edges, a: nat, b: nat)
    requires Known(s, a) && Known(s, b) && Coherent(s, M, a, b) && M <= M'
    ensures Coherent(s, M', a, b)
  {
    if s[b].kind.IsRead() {
      ReachMono(M, M', Stands(s, a), s[b].rf.value);
    }
    if s[b].kind.IsWrite() {
      PlusMono(M, M', Stands(s, a), b);
    }
  }

  // ------------------------------------------------------------------
  // Fences
  // ------------------------------------------------------------------

  /** get_last_seq_cst_fence over the first `k` actions. */
  function LastScFence(s: Trace, tid: nat, k: nat): (f: Option<nat>)
    requires k <= |s|
    ensures f.Some? ==> f.value < k && s[f.value].kind.Fence? && s[f.value].tid == tid && s[f.value].order.SeqCst?
    ensures forall g: nat :: g < k && s[g].kind.Fence? && s[g].tid == tid && s[g].order.SeqCst? ==>
              f.Some? && g <= f.value
  {
    if k == 0 then None
    else if s[k - 1].kind.Fence? && s[k - 1].tid == tid && s[k - 1].order.SeqCst? then Some(k - 1)
    else LastScFence(s, tid, k - 1)
  }

  /** The last sequentially consistent fence of `tid` before the fence `f`, if there is an `f`. */
  function ScFenceBefore(s: Trace, tid: nat, f: Option<nat>): (g: Option<nat>)
    requires f.Some? ==> f.value < |s|
    ensures g.Some? ==> g.value < |s|
  {
    if f.None? then None else LastScFence(s, tid, f.value)
  }

  /** `*act < *fence`, false when there is no such fence. */
  predicate Precedes(s: Trace, act: nat, f: Option<nat>)
    requires act < |s| && (f.Some? ==> f.value < |s|)
  {
    f.Some? && s[act].now < s[f.value].now
  }

  // ------------------------------------------------------------------
  // The scans of one thread's actions, most recent first
  // ------------------------------------------------------------------

  predicate Listed(s: Trace, act: nat, curr: nat, tid: nat)
    requires act < |s| && curr < |s|
  {
    s[act].loc == s[curr].loc && s[act].tid == tid && s[act].kind.IsAtomic()
  }

  /** The fence rules 29.3 paragraphs 4 to 6 as r_modification_order tests them. */
  predicate ReadFenceRule(s: Trace, act: nat, curr: nat, tid: nat)
    requires act < |s| && curr < |s|
  {
    var local := LastScFence(s, s[curr].tid, |s|);
    var threadLocal := if tid != s[curr].tid then LastScFence(s, tid, |s|) else None;
    var before := ScFenceBefore(s, tid, local);
    s[act].kind.IsWrite() &&
    ((s[curr].order.SeqCst? && Precedes(s, act, threadLocal)) ||
     (s[act].order.SeqCst? && Precedes(s, act, local)) ||
     Precedes(s, act, before))
  }

  /** What one step of the inner loop of r_modification_order decides. */
  datatype Verdict = Skip | Stop | Order(w: nat)

  function JudgeRead(s: Trace, act: nat, curr: nat, rf: nat, tid: nat): (v: Verdict)
    requires act < |s| && curr < |s|
    requires Listed(s, act, curr, tid) && act != curr && !s[act].kind.IsWrite() ==> s[act].rf.Some?
  {
    if !Listed(s, act, curr, tid) || act == curr then Skip
    else if act == rf then (if HB(s, act, curr) then Stop else Skip)
    else if ReadFenceRule(s, act, curr, tid) then Order(act)
    else if HB(s, act, curr) then
      if s[act].kind.IsWrite() then Order(act)
      else if s[act].rf.value != rf then Order(s[act].rf.value)
      else Stop
    else Skip
  }

  /** The write, if any, that r_modification_order puts before `rf` on behalf of thread `tid`. */
  ghost function ScanRead(s: Trace, curr: nat, rf: nat, tid: nat, k: nat): Option<nat>
    requires k <= |s| && curr < |s| && ReadsKnown(s, {curr})
  {
    if k == 0 then None
    else
      match JudgeRead(s, k - 1, curr, rf, tid)
      case Skip => ScanRead(s, curr, rf, tid, k - 1)
      case Stop => None
      case Order(w) => Some(w)
  }

  /** The rule 29.3 paragraph 7 as w_modification_order tests it. */
  predicate WriteFenceRule(s: Trace, act: nat, curr: nat, tid: nat)
    requires act < |s| && curr < |s|
  {
    tid != s[curr].tid && s[act].kind.IsWrite() &&
    Precedes(s, act, ScFenceBefore(s, tid, LastScFence(s, s[curr].tid, |s|)))
  }

  function JudgeWrite(s: Trace, act: nat, curr: nat, tid: nat): (v: Verdict)
    requires act < |s| && curr < |s|
    requires Listed(s, act, curr, tid) && act != curr && !s[act].kind.IsWrite() ==> s[act].rf.Some?
  {
    if !Listed(s, act, curr, tid) then Skip
    else if act == curr then (if s[curr].kind.Rmw? && s[curr].rf.Some? then Stop else Skip)
    else if WriteFenceRule(s, act, curr, tid) then Order(act)
    else if HB(s, act, curr) then Order(if s[act].kind.IsWrite() then act else s[act].rf.value)
    else Skip
  }

  /** The write, if any, that w_modification_order puts before `curr` on behalf of thread `tid`. */
  ghost function ScanWrite(s: Trace, curr: nat, tid: nat, k: nat): Option<nat>
    requires k <= |s| && curr < |s| && ReadsKnown(s, {curr})
  {
    if k == 0 then None
    else
      match JudgeWrite(s, k - 1, curr, tid)
      case Skip => ScanWrite(s, curr, tid, k - 1)
      case Stop => None
      case Order(w) => Some(w)
  }

  // ------------------------------------------------------------------
  // One edge per thread is enough
  // ------------------------------------------------------------------

  /**
   Any action of the thread that happens before the read, or that the fence rules put before it, is
   covered by the action at which the scan ended, or a later one.
   */
  lemma {:induction false} ScanReadCovers(s: Trace, curr: nat, rf: nat, tid: nat, k: nat, a: nat) returns (c: nat)
    requires k <= |s| && curr < |s| && ReadsKnown(s, {curr}) && a < k && a != curr
    requires Listed(s, a, curr, tid) && rf < |s| && s[rf].kind.IsWrite()
    requires HB(s, a, curr) || (a != rf && ReadFenceRule(s, a, curr, tid))
    ensures a <= c < k && c != curr && Listed(s, c, curr, tid)
    ensures Stands(s, c) == rf || ScanRead(s, curr, rf, tid, k) == Some(Stands(s, c))
  {
    match JudgeRead(s, k - 1, curr, rf, tid)
    case Skip =>
      c := ScanReadCovers(s, curr, rf, tid, k - 1, a);
    case Stop =>
      c := k - 1;
    case Order(w) =>
      c := k - 1;
  }

  lemma {:induction false} ScanWriteCovers(s: Trace, curr: nat, tid: nat, k: nat, a: nat) returns (c: nat)
    requires k <= |s| && curr < |s| && ReadsKnown(s, {curr}) && a < k && a != curr
    requires Listed(s, a, curr, tid) && (HB(s, a, curr) || WriteFenceRule(s, a, curr, tid))
    requires s[curr].kind.Rmw? && s[curr].rf.Some? ==> tid != s[curr].tid
    ensures a <= c < k && c != curr && Listed(s, c, curr, tid)
    ensures tid == s[curr].tid ==> HB(s, c, curr)
    ensures ScanWrite(s, curr, tid, k) == Some(Stands(s, c))
  {
    match JudgeWrite(s, k - 1, curr, tid)
    case Skip =>
      c := ScanWriteCovers(s, curr, tid, k - 1, a);
    case Order(w) =>
      c := k - 1;
  }

  /** Coherence inside a thread carries the edge back to every earlier action. */
  lemma CarryBack(s: Trace, M: Edges, except: set<nat>, a: nat, c: nat)
    requires OwnSettled(s, M, except) && UninitOnce(s) && Known(s, a) && Known(s, c) && c !in except
    requires a <= c && s[a].loc == s[c].loc && s[a].tid == s[c].tid
    ensures Reach(M, Stands(s, a), Stands(s, c))
  {
    if a == c {
      ReachRefl(M, Stands(s, a));
    } else {
      assert SameThreadPair(s, a, c);
      assert Coherent(s, M, a, c);
      if s[c].kind.IsWrite() {
        PlusReach(M, Stands(s, a), c);
      }
    }
  }

  /** The edges of one run of r_modification_order are all in `M`. */
  ghost predicate ReadOrdered(s: Trace, M: Edges, curr: nat, rf: nat, threads: nat)
    requires curr < |s| && ReadsKnown(s, {curr})
  {
    forall t: nat :: t < threads ==>
      var w := ScanRead(s, curr, rf, t, |s|); w.Some? ==> (w.value, rf) in M
  }

  /** After r_modification_order, everything that happens before the read is ordered before what it reads. */
  lemma ReadOrderedCoherent(s: Trace, M: Edges, curr: nat, rf: nat, threads: nat, a: nat)
    requires curr < |s| && ReadsKnown(s, {curr}) && ReadOrdered(s, M, curr, rf, threads)
    requires rf < |s| && s[rf].kind.IsWrite()
    requires OwnSettled(s, M, {curr}) && UninitOnce(s)
    requires SameLocation(s, a, curr) && HB(s, a, curr) && s[a].tid < threads
    ensures Reach(M, Stands(s, a), rf)
  {
    var c := ScanReadCovers(s, curr, rf, s[a].tid, |s|, a);
    assert Known(s, a) && Known(s, c);
    CarryBack(s, M, {curr}, a, c);
    if Stands(s, c) != rf {
      ReachEdge(M, Stands(s, c), rf);
      ReachTrans(M, Stands(s, a), Stands(s, c), rf);
    }
  }

  /** The edges of one run of w_modification_order are all in `M`. */
  ghost predicate WriteOrdered(s: Trace, M: Edges, curr: nat, threads: nat)
    requires curr < |s| && ReadsKnown(s, {curr})
  {
    forall t: nat :: t < threads ==>
      var w := ScanWrite(s, curr, t, |s|); w.Some? ==> (w.value, curr) in M
  }

  /** After w_modification_order, everything that happens before the write is ordered before it. */
  lemma WriteOrderedCoherent(s: Trace, M: Edges, curr: nat, threads: nat, a: nat)
    requires curr < |s| && ReadsKnown(s, {curr}) && WriteOrdered(s, M, curr, threads)
    requires OwnSettled(s, M, {curr}) && UninitOnce(s)
    requires SameLocation(s, a, curr) && HB(s, a, curr) && s[a].tid < threads
    requires s[curr].kind.Rmw? && s[curr].rf.Some? ==> s[a].tid != s[curr].tid
    ensures Plus(M, Stands(s, a), curr)
  {
    var c := ScanWriteCovers(s, curr, s[a].tid, |s|, a);
    assert Known(s, a) && Known(s, c);
    CarryBack(s, M, {curr}, a, c);
    EdgePlus(M, Stands(s, c), curr);
    ReachThenPlus(M, Stands(s, a), Stands(s, c), curr);
  }

  /** get_last_seq_cst_write over the actions before `k`. */
  function LastScWrite(s: Trace, curr: nat, k: nat): (w: Option<nat>)
    requires k <= curr < |s|
    ensures w.Some? ==>
              w.value < k && s[w.value].kind.IsWrite() && s[w.value].loc == s[curr].loc && s[w.value].order.SeqCst?
    ensures forall v: nat :: v < k && s[v].kind.IsWrite() && s[v].loc == s[curr].loc && s[v].order.SeqCst? ==>
                               w.Some? && v <= w.value
  {
    if k == 0 then None
    else if s[k - 1].kind.IsWrite() && s[k - 1].loc == s[curr].loc && s[k - 1].order.SeqCst? then Some(k - 1)
    else LastScWrite(s, curr, k - 1)
  }
}
