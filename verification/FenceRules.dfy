/**
 What the standard asks of the modification order: coherence with happens-before, the order
 of sequentially consistent stores, and the fence rules (29.3 paragraphs 3 to 7 of ISO
 C++11), in terms of the trace alone. The two scans ask for all of it, and for nothing else
 unless a fence came after the action that they are run for.
 */
module FenceRules {
  import opened Digraph
  import opened Optional
  import opened Clocks
  import opened Actions
  import opened HappensBefore
  import opened Coherence
  import opened TraceInvariant
  import opened ExecutionState

  // ------------------------------------------------------------------
  // The rules
  // ------------------------------------------------------------------

  predicate ScFence(s: Trace, f: nat, tid: nat) {
    f < |s| && s[f].kind.Fence? && s[f].tid == tid && s[f].order.SeqCst?
  }

  /** `a` is a store to the location of the atomic action `b`. */
  predicate StoreFor(s: Trace, a: nat, b: nat) {
    SameLocation(s, a, b) && s[a].kind.IsWrite()
  }

  /** Paragraph 4: a sequentially consistent store, then a fence of the thread of `b`. */
  ghost predicate BeforeFence(s: Trace, a: nat, b: nat) {
    StoreFor(s, a, b) && s[a].order.SeqCst? && exists g: nat :: a < g < b && ScFence(s, g, s[b].tid)
  }

  /** Paragraph 5: a store, then a fence of its thread, then `b`, which is sequentially consistent. */
  ghost predicate FencedBefore(s: Trace, a: nat, b: nat) {
    StoreFor(s, a, b) && s[b].order.SeqCst? && exists f: nat :: a < f < b && ScFence(s, f, s[a].tid)
  }

  /** Paragraphs 6 and 7: a store, a fence of its thread, a fence of the thread of `b`, then `b`. */
  ghost predicate BothFenced(s: Trace, a: nat, b: nat) {
    StoreFor(s, a, b) && exists f: nat, g: nat :: a < f < g < b && ScFence(s, f, s[a].tid) && ScFence(s, g, s[b].tid)
  }

  /** The read `b` reads `a`, or a store that comes later in the modification order. */
  ghost predicate MustSee(s: Trace, changed: set<nat>, a: nat, b: nat) {
    BeforeFence(s, a, b) || (b !in changed && FencedBefore(s, a, b)) || BothFenced(s, a, b)
  }

  /** Paragraph 3: the order of sequentially consistent stores. */
  predicate ScStores(s: Trace, a: nat, b: nat) {
    StoreFor(s, a, b) && a < b && s[b].kind.IsWrite() && s[a].order.SeqCst? && s[b].order.SeqCst?
  }

  /** The rules for what `b` reads hold in `M`. */
  ghost predicate ReadRules(s: Trace, M: Edges, changed: set<nat>, b: nat) {
    b < |s| && s[b].kind.IsRead() && ReadKnown(s, b) ==>
      forall a: nat :: MustSee(s, changed, a, b) ==> Reach(M, a, s[b].rf.value)
  }

  /** The rules for the store `b` hold in `M`. */
  ghost predicate WriteRules(s: Trace, M: Edges, b: nat) {
    b < |s| && s[b].kind.IsWrite() ==>
      && (forall a: nat :: BothFenced(s, a, b) ==> Plus(M, a, b))
      && (forall a: nat :: ScStores(s, a, b) ==> Plus(M, a, b))
  }

  /**
   The rules hold for all actions but those of `except`. For the reads of `changed`, the second
   halves of which name another order than the first, without paragraph 5.
   */
  ghost predicate RulesSeen(s: Trace, M: Edges, except: set<nat>, changed: set<nat>) {
    forall b: nat :: b < |s| && b !in except ==> ReadRules(s, M, changed, b) && WriteRules(s, M, b)
  }

  /** The order of sequentially consistent stores to a location (29.3 paragraph 3 of ISO C++11). */
  ghost predicate ScOrdered(s: Trace, M: Edges, curr: nat) {
    curr < |s| && s[curr].kind.IsWrite() && s[curr].order.SeqCst? ==>
      var w := LastScWrite(s, curr, curr); w.Some? ==> (w.value, curr) in M
  }

  // ------------------------------------------------------------------
  // Reasons for constraints
  // ------------------------------------------------------------------

  /** `x` happens before `y`, and stands for the store `a`. */
  ghost predicate Precedent(s: Trace, x: nat, y: nat, a: nat) {
    SameLocation(s, x, y) && HB(s, x, y) && Known(s, x) && Stands(s, x) == a
  }

  ghost predicate HasPrecedent(s: Trace, y: nat, a: nat) {
    exists x: nat :: Precedent(s, x, y, a)
  }

  /** Because of the read `y`, the store `a` comes before the store `b` that it reads. */
  ghost predicate ForcedByRead(s: Trace, changed: set<nat>, a: nat, b: nat, y: nat) {
    && y < |s| && s[y].kind.IsRead() && s[y].rf == Some(b) && a != b
    && (HasPrecedent(s, y, a) || MustSee(s, changed, a, y))
  }

  /** Because of the store `b` itself. */
  ghost predicate ForcedByWrite(s: Trace, a: nat, b: nat) {
    HasPrecedent(s, b, a) || BothFenced(s, a, b) || ScStores(s, a, b)
  }

  /** Store `a` comes before store `b` in every modification order that the standard allows. */
  ghost predicate Forced(s: Trace, changed: set<nat>, a: nat, b: nat) {
    && a < |s| && b < |s| && s[a].kind.IsWrite() && s[b].kind.IsWrite() && s[a].loc == s[b].loc
    && (|| (s[b].kind.Rmw? && s[b].rf == Some(a)) || ForcedByWrite(s, a, b)
        || exists y: nat :: ForcedByRead(s, changed, a, b, y))
  }

  /** `y` is the store `b`, or reads it. */
  predicate Touches(s: Trace, y: nat, b: nat) {
    y < |s| && (y == b || (s[y].kind.IsRead() && s[y].rf == Some(b)))
  }

  ghost predicate TouchedBy(s: Trace, strays: set<nat>, b: nat) {
    exists y: nat :: y in strays && Touches(s, y, b)
  }

  /** Every constraint has a reason, or was asked for because of an action of `strays`. */
  ghost predicate AllForced(s: Trace, M: Edges, changed: set<nat>, strays: set<nat>) {
    forall a: nat, b: nat :: (a, b) in M ==> Forced(s, changed, a, b) || TouchedBy(s, strays, b)
  }

  /**
   A sequentially consistent fence of the thread of `y`, or of any thread when `y` is a
   sequentially consistent read, comes after `y`. The scans do not tell it from an earlier one.
   */
  ghost predicate Overtaken(s: Trace, y: nat) {
    y < |s| &&
    exists g: nat :: y < g < |s| && ScFence(s, g, s[g].tid) &&
                     (s[g].tid == s[y].tid || (s[y].kind.IsRead() && s[y].order.SeqCst?))
  }

  /** The constraints are what the standard asks for, apart from the actions of `changed` and `late`. */
  ghost predicate Lawful(s: Trace, M: Edges, except: set<nat>, changed: set<nat>, late: set<nat>) {
    && RulesSeen(s, M, except, changed) && AllForced(s, M, changed, changed + late)
    && (forall y :: y in changed ==> y < |s|) && (forall y :: y in late ==> Overtaken(s, y))
  }

  // ------------------------------------------------------------------
  // Numbers and positions
  // ------------------------------------------------------------------

  /** An action and a fence are in the order of their numbers; placeholders have no fences of their thread. */
  lemma NumberOrder(s: Trace, a: nat, f: nat)
    requires WellClocked(s) && a < |s| && f < |s| && s[f].kind.Fence? && !s[a].kind.Fence? && Numbered(s, a)
    ensures s[a].now < s[f].now <==> a < f
  {
    if f < a {
      assert s[f].now < s[a].now;
    }
  }

  lemma FenceThread(s: Trace, f: nat, a: nat)
    requires WellClocked(s) && f < |s| && s[f].kind.Fence? && a < |s| && s[f].tid == s[a].tid
    ensures Numbered(s, a)
  {
    assert Numbered(s, f) && OwnClock(s[f]);
  }

  lemma OrderedNumbered(s: Trace, a: nat)
    requires Plain(s) && a < |s| && s[a].order.SeqCst?
    ensures Numbered(s, a)
  {
  }

  // ------------------------------------------------------------------
  // The scans ask for what the rules demand
  // ------------------------------------------------------------------

  /** The rules of paragraphs 4 to 6 are among what the scan for another thread tests. */
  lemma RuleTested(s: Trace, a: nat, b: nat)
    requires WellClocked(s) && Plain(s) && (BeforeFence(s, a, b) || FencedBefore(s, a, b) || BothFenced(s, a, b))
    requires s[a].tid != s[b].tid
    ensures ReadFenceRule(s, a, b, s[a].tid)
  {
    hide WellClocked, Plain;
    var local := LastScFence(s, s[b].tid, |s|);
    if BeforeFence(s, a, b) {
      var g: nat :| a < g < b && ScFence(s, g, s[b].tid);
      OrderedNumbered(s, a);
      NumberOrder(s, a, local.value);
    } else if FencedBefore(s, a, b) {
      var f: nat :| a < f < b && ScFence(s, f, s[a].tid);
      var last := LastScFence(s, s[a].tid, |s|);
      FenceThread(s, f, a);
      NumberOrder(s, a, last.value);
    } else {
      BothTested(s, a, b);
    }
  }

  lemma BothTested(s: Trace, a: nat, b: nat)
    requires WellClocked(s) && BothFenced(s, a, b)
    ensures Precedes(s, a, ScFenceBefore(s, s[a].tid, LastScFence(s, s[b].tid, |s|)))
  {
    hide WellClocked;
    var f: nat, g: nat :| a < f < g < b && ScFence(s, f, s[a].tid) && ScFence(s, g, s[b].tid);
    var local := LastScFence(s, s[b].tid, |s|);
    assert g <= local.value;
    var before := LastScFence(s, s[a].tid, local.value);
    FenceThread(s, f, a);
    NumberOrder(s, a, before.value);
  }

  /** After r_modification_order, the fence rules hold for the read. */
  lemma ReadRule(s: Trace, M: Edges, curr: nat, rf: nat, threads: nat, a: nat)
    requires curr < |s| && ReadsKnown(s, {curr}) && ReadOrdered(s, M, curr, rf, threads)
    requires rf < |s| && s[rf].kind.IsWrite() && OwnSettled(s, M, {curr}) && UninitOnce(s)
    requires WellClocked(s) && Plain(s) && ThreadsBelow(s, threads)
    requires BeforeFence(s, a, curr) || FencedBefore(s, a, curr) || BothFenced(s, a, curr)
    ensures Reach(M, a, rf)
  {
    hide Reach, HB, WellClocked, Plain, OwnSettled, ReadOrdered, UninitOnce;
    if a == rf {
      ReachRefl(M, a);
    } else if s[a].tid == s[curr].tid {
      OwnHB(s, a, curr);
      ReadOrderedCoherent(s, M, curr, rf, threads, a);
    } else {
      RuleTested(s, a, curr);
      ReadRuleOther(s, M, curr, rf, threads, a);
    }
  }

  lemma ReadRuleOther(s: Trace, M: Edges, curr: nat, rf: nat, threads: nat, a: nat)
    requires curr < |s| && ReadsKnown(s, {curr}) && ReadOrdered(s, M, curr, rf, threads)
    requires rf < |s| && s[rf].kind.IsWrite() && OwnSettled(s, M, {curr}) && UninitOnce(s)
    requires ThreadsBelow(s, threads) && StoreFor(s, a, curr) && a != rf && ReadFenceRule(s, a, curr, s[a].tid)
    ensures Reach(M, a, rf)
  {
    hide Reach, HB, OwnSettled, UninitOnce, ReadFenceRule;
    var c := ScanReadCovers(s, curr, rf, s[a].tid, |s|, a);
    StoreKnown(s, curr, a);
    ListedKnown(s, curr, c, s[a].tid);
    CarryBack(s, M, {curr}, a, c);
    if Stands(s, c) != rf {
      ReachEdge(M, Stands(s, c), rf);
      ReachTrans(M, a, Stands(s, c), rf);
    }
  }

  lemma StoreKnown(s: Trace, curr: nat, a: nat)
    requires ReadsKnown(s, {curr}) && StoreFor(s, a, curr)
    ensures Known(s, a) && Stands(s, a) == a
  {
    if s[a].kind.IsRead() {
      assert ReadKnown(s, a);
    }
  }

  lemma ListedKnown(s: Trace, curr: nat, c: nat, tid: nat)
    requires ReadsKnown(s, {curr}) && curr < |s| && c < |s| && c != curr && Listed(s, c, curr, tid)
    ensures Known(s, c)
  {
    if s[c].kind.IsRead() {
      assert ReadKnown(s, c);
    }
  }

  /** After w_modification_order, paragraph 7 holds for the store, as far as other threads go. */
  lemma WriteRule(s: Trace, M: Edges, curr: nat, threads: nat, a: nat)
    requires curr < |s| && ReadsKnown(s, {curr}) && WriteOrdered(s, M, curr, threads)
    requires OwnSettled(s, M, {curr}) && UninitOnce(s) && WellClocked(s) && ThreadsBelow(s, threads)
    requires BothFenced(s, a, curr) && s[a].tid != s[curr].tid
    ensures Plus(M, a, curr)
  {
    hide Reach, HB, WellClocked, OwnSettled, UninitOnce;
    BothTested(s, a, curr);
    var c := ScanWriteCovers(s, curr, s[a].tid, |s|, a);
    StoreKnown(s, curr, a);
    ListedKnown(s, curr, c, s[a].tid);
    CarryBack(s, M, {curr}, a, c);
    EdgePlus(M, Stands(s, c), curr);
    ReachThenPlus(M, a, Stands(s, c), curr);
  }

  // ------------------------------------------------------------------
  // The scans ask for nothing else
  // ------------------------------------------------------------------

  /** What r_modification_order may ask for on behalf of `curr`. */
  ghost predicate AskedRead(s: Trace, a: nat, curr: nat, rf: nat) {
    && a < |s| && s[a].kind.IsWrite() && a != rf && curr < |s| && s[a].loc == s[curr].loc
    && (HasPrecedent(s, curr, a) || BeforeFence(s, a, curr) || FencedBefore(s, a, curr) || BothFenced(s, a, curr))
  }

  /** What w_modification_order may. */
  ghost predicate AskedWrite(s: Trace, a: nat, curr: nat) {
    && a < |s| && s[a].kind.IsWrite() && curr < |s| && s[a].loc == s[curr].loc
    && ForcedByWrite(s, a, curr)
  }

  /** A fence that the scans find came before `curr`, unless `curr` was overtaken. */
  lemma NotOvertaken(s: Trace, curr: nat, g: nat)
    requires curr < |s| && g < |s| && !Overtaken(s, curr) && ScFence(s, g, s[g].tid) && s[curr].kind.IsAtomic()
    requires s[g].tid == s[curr].tid || (s[curr].kind.IsRead() && s[curr].order.SeqCst?)
    ensures g < curr
  {
  }

  lemma FenceRuleAsked(s: Trace, act: nat, curr: nat, tid: nat)
    requires curr < |s| && act < |s| && WellClocked(s) && Plain(s) && !Overtaken(s, curr) && s[curr].kind.IsAtomic()
    requires s[curr].kind.IsRead() && Listed(s, act, curr, tid) && act != curr && ReadFenceRule(s, act, curr, tid)
    ensures BeforeFence(s, act, curr) || FencedBefore(s, act, curr) || BothFenced(s, act, curr)
  {
    hide WellClocked, Plain, Overtaken;
    var local := LastScFence(s, s[curr].tid, |s|);
    if s[act].order.SeqCst? && Precedes(s, act, local) {
      OrderedNumbered(s, act);
      NumberOrder(s, act, local.value);
      NotOvertaken(s, curr, local.value);
      assert ScFence(s, local.value, s[curr].tid);
    } else if s[curr].order.SeqCst? && tid != s[curr].tid && Precedes(s, act, LastScFence(s, tid, |s|)) {
      var f := LastScFence(s, tid, |s|).value;
      FenceThread(s, f, act);
      NumberOrder(s, act, f);
      NotOvertaken(s, curr, f);
      assert ScFence(s, f, s[act].tid);
    } else {
      BothAsked(s, act, curr);
    }
  }

  lemma BothAsked(s: Trace, act: nat, curr: nat)
    requires curr < |s| && act < |s| && WellClocked(s) && !Overtaken(s, curr) && StoreFor(s, act, curr)
    requires Precedes(s, act, ScFenceBefore(s, s[act].tid, LastScFence(s, s[curr].tid, |s|)))
    ensures BothFenced(s, act, curr)
  {
    hide WellClocked, Overtaken;
    var g := LastScFence(s, s[curr].tid, |s|).value;
    var f := LastScFence(s, s[act].tid, g).value;
    FenceThread(s, f, act);
    NumberOrder(s, act, f);
    NotOvertaken(s, curr, g);
    assert ScFence(s, f, s[act].tid) && ScFence(s, g, s[curr].tid);
  }

  lemma IsPrecedent(s: Trace, curr: nat, act: nat, tid: nat)
    requires curr < |s| && act < |s| && act != curr && ReadsKnown(s, {curr}) && s[curr].kind.IsAtomic()
    requires Listed(s, act, curr, tid) && HB(s, act, curr)
    ensures Known(s, act) && HasPrecedent(s, curr, Stands(s, act))
    ensures Stands(s, act) < |s| && s[Stands(s, act)].kind.IsWrite() && s[Stands(s, act)].loc == s[curr].loc
  {
    ListedKnown(s, curr, act, tid);
    assert Precedent(s, act, curr, Stands(s, act));
  }

  lemma {:induction false} ScanReadAsked(s: Trace, curr: nat, rf: nat, tid: nat, k: nat)
    requires k <= |s| && curr < |s| && ReadsKnown(s, {curr}) && WellClocked(s) && Plain(s) && !Overtaken(s, curr)
    requires s[curr].kind.IsRead()
    ensures var w := ScanRead(s, curr, rf, tid, k); w.Some? ==> AskedRead(s, w.value, curr, rf)
  {
    hide WellClocked, Plain, Overtaken, ReadFenceRule, HB, BeforeFence, FencedBefore, BothFenced, HasPrecedent;
    if k > 0 {
      var act := k - 1;
      match JudgeRead(s, act, curr, rf, tid)
      case Skip => ScanReadAsked(s, curr, rf, tid, k - 1);
      case Stop =>
      case Order(w) =>
        if ReadFenceRule(s, act, curr, tid) {
          FenceRuleAsked(s, act, curr, tid);
          FenceRuleWrites(s, act, curr, tid);
        } else {
          IsPrecedent(s, curr, act, tid);
        }
    }
  }

  lemma FenceRuleWrites(s: Trace, act: nat, curr: nat, tid: nat)
    requires curr < |s| && act < |s| && ReadFenceRule(s, act, curr, tid)
    ensures s[act].kind.IsWrite()
  {
  }

  lemma {:induction false} ScanWriteAsked(s: Trace, curr: nat, tid: nat, k: nat)
    requires k <= |s| && curr < |s| && ReadsKnown(s, {curr}) && WellClocked(s) && !Overtaken(s, curr)
    requires s[curr].kind.IsWrite()
    ensures var w := ScanWrite(s, curr, tid, k); w.Some? ==> AskedWrite(s, w.value, curr)
  {
    hide WellClocked, Overtaken, HB, BothFenced, HasPrecedent, ScStores;
    if k > 0 {
      var act := k - 1;
      match JudgeWrite(s, act, curr, tid)
      case Skip => ScanWriteAsked(s, curr, tid, k - 1);
      case Stop =>
      case Order(w) =>
        if WriteFenceRule(s, act, curr, tid) {
          BothAsked(s, act, curr);
        } else {
          IsPrecedent(s, curr, act, tid);
        }
    }
  }
}
