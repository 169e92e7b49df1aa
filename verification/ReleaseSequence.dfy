/**
 Release sequences (1.10 of ISO C++11): why the heads that the search finds may
 be synchronized with, and why no store of another thread interrupts a sequence
 that the search certifies as contiguous.
 */
module ReleaseSequence {
  import opened Digraph
  import opened Optional
  import opened OrderConstraints
  import opened Clocks
  import opened Actions
  import opened HappensBefore
  import opened Coherence
  import opened TraceInvariant
  import opened MoConstraints

  /** A store that is not a read-modify-write, of another thread than `rf`, on its location. */
  predicate MayBreak(s: Trace, act: nat, rf: nat) {
    act < |s| && rf < |s| && s[act].tid != s[rf].tid && s[act].loc == s[rf].loc &&
    s[act].kind.IsWrite() && !s[act].kind.Rmw?
  }

  /** The graph orders `a` before `b`. */
  ghost predicate GraphReach(t: map<nat, nat>, E: Edges, a: nat, b: nat) {
    a in t && b in t && Reach(E, t[a], t[b])
  }

  /** A reason why `act` cannot lie between `release` and `rf`. */
  ghost predicate Outside(s: Trace, t: map<nat, nat>, E: Edges, release: nat, rf: nat, act: nat)
    requires act < |s| && release < |s| && rf < |s|
  {
    || HB(s, act, release)
    || HB(s, rf, act)
    || (exists c :: PassesAfter(s, t, E, rf, act, c))
    || (exists c :: PassesBefore(s, t, E, release, act, c))
  }

  /** `act` is, or comes after, a store that the graph orders after `rf`. */
  ghost predicate PassesAfter(s: Trace, t: map<nat, nat>, E: Edges, rf: nat, act: nat, c: nat)
    requires act < |s|
  {
    && c < |s| && s[c].kind.IsWrite() && s[c].loc == s[act].loc
    && (c == act || HB(s, c, act)) && GraphReach(t, E, rf, c)
  }

  /** `act` is, or happens before, a store that the graph orders before `release`. */
  ghost predicate PassesBefore(s: Trace, t: map<nat, nat>, E: Edges, release: nat, act: nat, c: nat)
    requires act < |s|
  {
    && c < |s| && s[c].kind.IsWrite() && s[c].loc == s[act].loc
    && (c == act || HB(s, act, c)) && GraphReach(t, E, c, release)
  }

  /** No store of another thread lies between `release` and `rf` in any coherent order that respects the graph. */
  ghost predicate Uninterrupted(s: Trace, t: map<nat, nat>, E: Edges, release: nat, rf: nat) {
    forall pos, act: nat :: Respects(pos, E) && CoherentOrder(s, t, pos) && MayBreak(s, act, rf) ==>
                              !(Earlier(t, pos, release, act) && Earlier(t, pos, act, rf))
  }

  lemma GraphReachOrder(t: map<nat, nat>, E: Edges, pos: seq<nat>, a: nat, b: nat)
    requires Respects(pos, E) && GraphReach(t, E, a, b)
    ensures !Earlier(t, pos, b, a)
  {
    if t[a] != t[b] {
      RespectsReach(pos, E, t[a], t[b]);
    }
  }

  lemma WriteKnown(s: Trace, a: nat)
    requires ReadsKnown(s, {}) && a < |s| && s[a].kind.IsWrite()
    ensures Known(s, a) && Stands(s, a) == a
  {
    if s[a].kind.IsRead() {
      assert ReadKnown(s, a);
    }
  }

  lemma HBOrder(s: Trace, t: map<nat, nat>, pos: seq<nat>, a: nat, b: nat)
    requires CoherentOrder(s, t, pos) && ReadsKnown(s, {}) && a < |s| && b < |s| && a != b
    requires s[a].kind.IsWrite() && s[b].kind.IsWrite() && s[a].loc == s[b].loc && HB(s, a, b)
    ensures Earlier(t, pos, a, b)
  {
    WriteKnown(s, a);
    WriteKnown(s, b);
    assert SameLocation(s, a, b);
  }

  lemma OutsideMeans(s: Trace, t: map<nat, nat>, E: Edges, pos: seq<nat>, release: nat, rf: nat, act: nat)
    requires ReadsKnown(s, {}) && CoherentOrder(s, t, pos) && Respects(pos, E)
    requires MayBreak(s, act, rf) && release < |s| && s[release].kind.IsWrite() && s[rf].kind.IsWrite()
    requires s[release].loc == s[rf].loc && s[release].tid == s[rf].tid
    requires Outside(s, t, E, release, rf, act)
    ensures !(Earlier(t, pos, release, act) && Earlier(t, pos, act, rf))
  {
    if HB(s, act, release) {
      HBOrder(s, t, pos, act, release);
    } else if HB(s, rf, act) {
      HBOrder(s, t, pos, rf, act);
    } else if c :| PassesAfter(s, t, E, rf, act, c) {
      GraphReachOrder(t, E, pos, rf, c);
      if c != act {
        HBOrder(s, t, pos, c, act);
      }
    } else {
      var c :| PassesBefore(s, t, E, release, act, c);
      GraphReachOrder(t, E, pos, c, release);
      if c != act {
        HBOrder(s, t, pos, act, c);
      }
    }
  }

  /** A store that ends the scan of its thread ends it for all earlier stores of the thread. */
  lemma EarlierOutside(s: Trace, G: Edges, t: map<nat, nat>, E: Edges, release: nat, rf: nat, c: nat, a: nat)
    requires Clocked(s, G) && UninitOnce(s) && release < |s| && rf < |s| && c < |s| && a < c && Numbered(s, release)
    requires s[a].tid == s[c].tid && s[a].loc == s[c].loc && s[a].kind.IsAtomic() && s[c].kind.IsAtomic()
    requires HB(s, c, release) || (s[c].kind.IsWrite() && GraphReach(t, E, c, release))
    ensures Outside(s, t, E, release, rf, a)
  {
    assert SameThreadPair(s, a, c);
    OwnHB(s, a, c);
    if HB(s, c, release) {
      HBTrans(s, G, a, c, release);
    } else {
      assert PassesBefore(s, t, E, release, a, c);
    }
  }

  /** From `k` on, no store of thread `i` can lie between `release` and `rf`. */
  ghost predicate ThreadOutside(s: Trace, t: map<nat, nat>, E: Edges, release: nat, rf: nat, i: nat, k: nat)
    requires release < |s| && rf < |s|
  {
    forall act: nat :: MayBreak(s, act, rf) && s[act].tid == i && act >= k ==> Outside(s, t, E, release, rf, act)
  }

  /** The action at which the scan of a thread ends covers the rest of the thread. */
  lemma ThreadBreak(s: Trace, G: Edges, t: map<nat, nat>, E: Edges, release: nat, rf: nat, i: nat, k: nat)
    requires Clocked(s, G) && UninitOnce(s) && rf < |s| && Numbered(s, release) && 0 < k <= |s|
    requires ThreadOutside(s, t, E, release, rf, i, k) && Listed(s, k - 1, rf, i)
    requires HB(s, k - 1, release) || (s[k - 1].kind.IsWrite() && GraphReach(t, E, k - 1, release))
    ensures ThreadOutside(s, t, E, release, rf, i, 0)
  {
    hide Clocked, HB, Reach, UninitOnce;
    forall act: nat | MayBreak(s, act, rf) && s[act].tid == i ensures Outside(s, t, E, release, rf, act) {
      if act < k - 1 {
        EarlierOutside(s, G, t, E, release, rf, k - 1, act);
      } else if act == k - 1 && !HB(s, act, release) {
        assert PassesBefore(s, t, E, release, act, act);
      }
    }
  }

  lemma IsOutside(s: Trace, t: map<nat, nat>, E: Edges, release: nat, rf: nat, act: nat)
    requires release < |s| && rf < |s| && act < |s|
    requires HB(s, rf, act) || (s[act].kind.IsWrite() && GraphReach(t, E, rf, act))
    ensures Outside(s, t, E, release, rf, act)
  {
    if !HB(s, rf, act) {
      assert PassesAfter(s, t, E, rf, act, act);
    }
  }

  /** Thread `i` has done something that comes after `rf`; whatever it still does will, too. */
  ghost predicate ThreadPast(s: Trace, t: map<nat, nat>, E: Edges, rf: nat, i: nat)
    requires rf < |s|
  {
    exists act: nat :: IsPast(s, t, E, rf, i, act)
  }

  ghost predicate IsPast(s: Trace, t: map<nat, nat>, E: Edges, rf: nat, i: nat, act: nat)
    requires rf < |s|
  {
    && act < |s| && s[act].tid == i
    && (HB(s, rf, act) || (s[act].kind.IsWrite() && s[act].loc == s[rf].loc && GraphReach(t, E, rf, act)))
  }

  /** The sequence from `release` to `rf` is found contiguous; the threads of `settled` do nothing more. */
  ghost predicate Certified(s: Trace, t: map<nat, nat>, E: Edges, settled: seq<bool>, release: nat, rf: nat) {
    && release <= rf < |s| && Numbered(s, release) && Numbered(s, rf) && s[release].order.IsRelease()
    && s[release].tid == s[rf].tid && s[release].loc == s[rf].loc && s[rf].kind.IsWrite()
    && forall i: nat :: i < |settled| && i != s[rf].tid ==>
         ThreadOutside(s, t, E, release, rf, i, 0) && (settled[i] || ThreadPast(s, t, E, rf, i))
  }

  /** No thread but that of `rf` has a store that can lie between `release` and `rf`. */
  lemma ScannedAll(s: Trace, t: map<nat, nat>, E: Edges, release: nat, rf: nat, threads: nat)
    requires ReadsKnown(s, {}) && ThreadsBelow(s, threads) && rf < |s| && release < |s|
    requires s[release].kind.IsWrite() && s[rf].kind.IsWrite()
    requires s[release].loc == s[rf].loc && s[release].tid == s[rf].tid
    requires forall i: nat :: i < threads && i != s[rf].tid ==> ThreadOutside(s, t, E, release, rf, i, 0)
    ensures Uninterrupted(s, t, E, release, rf)
  {
    hide Respects, CoherentOrder, Outside, Earlier, HB;
    forall pos, act: nat | Respects(pos, E) && CoherentOrder(s, t, pos) && MayBreak(s, act, rf)
      ensures !(Earlier(t, pos, release, act) && Earlier(t, pos, act, rf))
    {
      assert ThreadOutside(s, t, E, release, rf, s[act].tid, 0);
      OutsideMeans(s, t, E, pos, release, rf, act);
    }
  }

  // ------------------------------------------------------------------
  // Heads
  // ------------------------------------------------------------------

  /** A head of a release sequence that `rf` belongs to, found through the store `w`. */
  ghost predicate HeadVia(s: Trace, M: Edges, h: nat, rf: nat, w: nat) {
    && w <= rf < |s| && Numbered(s, h) && s[h].order.IsRelease() && Numbered(s, w) && h <= w
    && s[w].kind.IsWrite() && s[w].loc == s[rf].loc && HB(s, h, w) && Reach(M, w, rf)
  }

  ghost predicate IsVia(s: Trace, M: Edges, h: nat, rf: nat) {
    exists w: nat :: HeadVia(s, M, h, rf, w)
  }

  ghost predicate AllVia(s: Trace, M: Edges, hs: seq<nat>, rf: nat) {
    forall i :: 0 <= i < |hs| ==> IsVia(s, M, hs[i], rf)
  }

  lemma AllViaPush(s: Trace, M: Edges, hs: seq<nat>, rf: nat, h: nat, w: nat)
    requires AllVia(s, M, hs, rf) && HeadVia(s, M, h, rf, w)
    ensures AllVia(s, M, hs + [h], rf)
  {
    hide HeadVia;
    assert IsVia(s, M, h, rf);
  }

  /** Heads of the sequence that a read's value belongs to are heads for the read. */
  lemma ViaHeads(s: Trace, M: Edges, hs: seq<nat>, x: nat)
    requires x < |s| && s[x].rf.Some? && s[x].rf.value < x && s[s[x].rf.value].loc == s[x].loc
    requires AllVia(s, M, hs, s[x].rf.value)
    ensures AllHeads(s, M, hs, x)
  {
    hide HB, Reach;
    forall i | 0 <= i < |hs| ensures IsHead(s, M, hs[i], x) {
      assert IsVia(s, M, hs[i], s[x].rf.value);
      var w: nat :| HeadVia(s, M, hs[i], s[x].rf.value, w);
      assert HeadOf(s, M, hs[i], x, w);
    }
  }

  /** A release of the same thread that is not later may head the sequence. */
  lemma OwnHead(s: Trace, M: Edges, h: nat, rf: nat, w: nat)
    requires WellClocked(s) && w <= rf < |s| && Numbered(s, h) && Numbered(s, w) && h <= w && s[h].tid == s[w].tid
    requires s[h].order.IsRelease()
    requires s[w].kind.IsWrite() && s[w].loc == s[rf].loc && Reach(M, w, rf)
    ensures HeadVia(s, M, h, rf, w)
  {
    HBSameThread(s, h, w);
  }

  /** `rf` lies on the chain of read-modify-writes behind `rf0`. */
  ghost predicate Tail(s: Trace, M: Edges, rf: nat, rf0: nat) {
    rf <= rf0 < |s| && s[rf].kind.IsWrite() && s[rf].loc == s[rf0].loc && Reach(M, rf, rf0)
  }

  /** `rf` is a read-modify-write that continues the release sequences of what it reads. */
  predicate Continues(s: Trace, rf: nat) {
    && rf < |s| && s[rf].kind.Rmw? && !(s[rf].order.IsAcquire() && s[rf].order.IsRelease())
    && s[rf].rf.Some? && s[rf].rf.value < rf && s[s[rf].rf.value].kind.IsWrite()
  }

  /** The stores whose release sequences a read from `rf` continues, back to an acquire-release one. */
  ghost function Chain(s: Trace, rf: nat): (c: set<nat>)
    decreases rf
  {
    if Continues(s, rf) then {rf} + Chain(s, s[rf].rf.value) else {rf}
  }

  /** Where the chain ends. */
  ghost function ChainTail(s: Trace, rf: nat): (tail: nat)
    ensures tail <= rf && tail in Chain(s, rf)
    decreases rf
  {
    if Continues(s, rf) then ChainTail(s, s[rf].rf.value) else rf
  }

  /** An acquire-release operation ends the chain: it synchronizes itself with what it continues. */
  predicate IsBoth(s: Trace, a: nat) {
    a < |s| && s[a].order.IsAcquire() && s[a].order.IsRelease()
  }

  /** Stores back from `rf`, each but the last a read-modify-write that reads from the next. */
  ghost predicate RmwPath(s: Trace, path: seq<nat>, rf: nat) {
    && path != [] && path[0] == rf
    && (forall i :: 0 <= i < |path| ==> path[i] < |s| && s[path[i]].kind.IsWrite())
    && forall i :: 0 <= i < |path| - 1 ==> s[path[i]].kind.Rmw? && s[path[i]].rf == Some(path[i + 1])
  }

  lemma PathRest(s: Trace, path: seq<nat>, rf: nat)
    requires RmwPath(s, path, rf) && |path| > 1
    ensures RmwPath(s, path[1..], path[1]) && path[1..][|path| - 2] == path[|path| - 1]
  {
    var rest := path[1..];
    assert forall i :: 0 <= i < |rest| ==> rest[i] == path[i + 1];
  }

  /** A path of read-modify-writes stays on the chain, up to its end or to an acquire-release one. */
  lemma {:induction false} AlongPath(s: Trace, path: seq<nat>, rf: nat) returns (j: nat)
    requires ReadsKnown(s, {}) && RmwPath(s, path, rf)
    ensures j < |path| && path[j] in Chain(s, rf) && (j == |path| - 1 || IsBoth(s, path[j]))
    ensures forall i :: 0 <= i < j ==> !IsBoth(s, path[i])
    decreases |path|
  {
    j := 0;
    if |path| > 1 && !IsBoth(s, path[0]) {
      assert ReadKnown(s, path[0]) && s[path[0]].rf == Some(path[1]);
      PathRest(s, path, rf);
      var k := AlongPath(s, path[1..], path[1]);
      j := k + 1;
      forall i | 0 <= i < j ensures !IsBoth(s, path[i]) {
        assert i > 0 ==> path[i] == path[1..][i - 1];
      }
    }
  }

  /** The chain is what such paths lead to before an acquire-release operation ends them. */
  lemma {:induction false} ChainIsPaths(s: Trace, rf: nat, r: nat)
    requires ReadsKnown(s, {}) && rf < |s| && s[rf].kind.IsWrite()
    ensures r in Chain(s, rf) <==>
            exists path :: RmwPath(s, path, rf) && path[|path| - 1] == r &&
                           forall i :: 0 <= i < |path| - 1 ==> !IsBoth(s, path[i])
    decreases rf
  {
    if path :| RmwPath(s, path, rf) && path[|path| - 1] == r &&
               forall i :: 0 <= i < |path| - 1 ==> !IsBoth(s, path[i]) {
      var j := AlongPath(s, path, rf);
    }
    if r in Chain(s, rf) {
      var path := PathTo(s, rf, r);
    }
  }

  lemma {:induction false} PathTo(s: Trace, rf: nat, r: nat) returns (path: seq<nat>)
    requires rf < |s| && s[rf].kind.IsWrite() && r in Chain(s, rf)
    ensures RmwPath(s, path, rf) && path[|path| - 1] == r
    ensures forall i :: 0 <= i < |path| - 1 ==> !IsBoth(s, path[i])
    decreases rf
  {
    if r == rf {
      path := [rf];
    } else {
      var rest := PathTo(s, s[rf].rf.value, r);
      path := [rf] + rest;
      forall i | 0 <= i < |path| - 1
        ensures s[path[i]].kind.Rmw? && s[path[i]].rf == Some(path[i + 1]) && !IsBoth(s, path[i])
      {
        assert i > 0 ==> path[i] == rest[i - 1] && path[i + 1] == rest[i];
      }
    }
  }

  /** What the chain has to offer at `r`: the store itself if it is a release, or the release fence before it. */
  function ReleaseAt(s: Trace, r: nat): Option<nat>
    requires r < |s|
  {
    if s[r].order.IsRelease() then Some(r) else s[r].lastFence
  }

  /** `r` itself, or the release fence before it, is among the heads. */
  predicate Caught(s: Trace, r: nat, hs: seq<nat>) {
    r < |s| && (ReleaseAt(s, r).Some? ==> ReleaseAt(s, r).value in hs)
  }

  /** Every release on the chain behind `rf`, or the release fence before it, is among the heads. */
  ghost predicate ChainCaught(s: Trace, rf: nat, hs: seq<nat>) {
    rf < |s| && s[rf].kind.IsWrite() && forall r :: r in Chain(s, rf) ==> Caught(s, r, hs)
  }

  /** All the heads happen before `x`. */
  ghost predicate AllBefore(s: Trace, hs: seq<nat>, x: nat) {
    x < |s| && forall h :: h in hs ==> h < |s| && HB(s, h, x)
  }

  /** Only clocks have changed, and those have grown. */
  ghost predicate Grew(s: Trace, s': Trace) {
    |s'| == |s| && forall a: nat :: a < |s| ==> s'[a] == s[a].(cv := s'[a].cv) && Le(s[a].cv, s'[a].cv)
  }

  lemma GrewTrans(s: Trace, s': Trace, s'': Trace)
    requires Grew(s, s') && Grew(s', s'')
    ensures Grew(s, s'')
  {
    forall a: nat | a < |s| ensures s''[a] == s[a].(cv := s''[a].cv) && Le(s[a].cv, s''[a].cv) {
      assert Le(s[a].cv, s'[a].cv) && Le(s'[a].cv, s''[a].cv);
    }
  }

  lemma GrewEvolved(s: Trace, s': Trace)
    requires Grew(s, s')
    ensures Evolved(s, s')
  {
    forall a: nat | a < |s| ensures Kept(s[a], s'[a]) && s'[a] == s[a].(cv := s'[a].cv) {
      assert s'[a] == s[a].(cv := s'[a].cv);
    }
  }

  lemma EvolvedBefore(s: Trace, s': Trace, hs: seq<nat>, x: nat)
    requires Evolved(s, s') && AllBefore(s, hs, x)
    ensures AllBefore(s', hs, x)
  {
    forall h | h in hs ensures h < |s'| && HB(s', h, x) {
      EvolvedHB(s, s', h, x);
    }
  }

  /** No later step changes what lies behind a store. */
  lemma {:induction false} EvolvedChain(s: Trace, s': Trace, rf: nat)
    requires Evolved(s, s') && rf < |s| && s[rf].kind.IsWrite()
    ensures Chain(s, rf) == Chain(s', rf) && ChainTail(s, rf) == ChainTail(s', rf)
    ensures forall r :: r in Chain(s, rf) ==> r < |s| && s[r].kind.IsWrite()
    decreases rf
  {
    assert Kept(s[rf], s'[rf]);
    if s[rf].kind.Rmw? && s[rf].rf.Some? && s[rf].rf.value < rf {
      var v := s[rf].rf.value;
      assert Kept(s[v], s'[v]) && s'[v] == s[v].(cv := s'[v].cv);
    }
    assert Continues(s, rf) <==> Continues(s', rf);
    if Continues(s, rf) {
      EvolvedChain(s, s', s[rf].rf.value);
    }
  }

  lemma EvolvedCaught(s: Trace, s': Trace, rf: nat, hs: seq<nat>)
    requires Evolved(s, s') && ChainCaught(s, rf, hs)
    ensures ChainCaught(s', rf, hs)
  {
    EvolvedChain(s, s', rf);
    assert Kept(s[rf], s'[rf]);
    forall r | r in Chain(s', rf) ensures Caught(s', r, hs) {
      assert Caught(s, r, hs) && Kept(s[r], s'[r]);
    }
  }

  /**
   The acquire has synchronized with every release, and every release fence, on the chain
   behind what `read` reads.
   */
  ghost predicate Resolved(s: Trace, acquire: nat, read: nat) {
    read < |s| && s[read].rf.Some? &&
    exists heads :: ChainCaught(s, s[read].rf.value, heads) && AllBefore(s, heads, acquire)
  }

  /** What an acquire has synchronized with, it has for good. */
  lemma EvolvedResolved(s: Trace, s': Trace, acquire: nat, read: nat)
    requires Evolved(s, s') && Resolved(s, acquire, read)
    ensures Resolved(s', acquire, read)
  {
    var heads :| ChainCaught(s, s[read].rf.value, heads) && AllBefore(s, heads, acquire);
    assert Kept(s[read], s'[read]);
    EvolvedCaught(s, s', s[read].rf.value, heads);
    EvolvedBefore(s, s', heads, acquire);
  }

  /** A store of another thread that the graph puts inside the sequence. */
  ghost predicate Interrupts(s: Trace, t: map<nat, nat>, E: Edges, release: nat, rf: nat, act: nat) {
    MayBreak(s, act, rf) && GraphReach(t, E, release, act) && GraphReach(t, E, act, rf)
  }

  /** Some store of another thread is put inside. */
  ghost predicate Interrupted(s: Trace, t: map<nat, nat>, E: Edges, release: nat, rf: nat) {
    exists act: nat :: Interrupts(s, t, E, release, rf, act)
  }
}
