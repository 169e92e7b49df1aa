/**
 What release_seq_heads looks at and what it answers: the releases on the chain of
 read-modify-writes, the one release off the chain that may head the sequence, and
 what the scan of the other threads finds between that release and the end of the
 chain.
 */
module ReleaseSearch {
  import opened Digraph
  import opened Optional
  import opened OrderConstraints
  import opened Clocks
  import opened Actions
  import opened HappensBefore
  import opened Coherence
  import opened TraceInvariant
  import opened MoConstraints
  import opened ReleaseSequence
  import opened ExecutionState

  // ------------------------------------------------------------------
  // Heads on and off the chain
  // ------------------------------------------------------------------

  /** `h` is a release on the chain behind `rf`, or the release fence before a store on it. */
  ghost predicate OnChain(s: Trace, rf: nat, h: nat) {
    exists r :: r in Chain(s, rf) && r < |s| && ReleaseAt(s, r) == Some(h)
  }

  /** The chain ends with a store that releases nothing itself. */
  predicate Loose(s: Trace, tail: nat) {
    tail < |s| && !s[tail].kind.Rmw? && !s[tail].order.IsRelease()
  }

  /** The latest release on the location by the thread of `rf`, unless its last release fence is later. */
  predicate OwnRelease(s: Trace, rf: nat, h: nat) {
    && h <= rf < |s| && Listed(s, h, rf, s[rf].tid) && s[h].order.IsRelease()
    && (s[rf].lastFence.Some? ==> s[rf].lastFence.value < rf && s[s[rf].lastFence.value].now <= s[h].now)
    && forall b: nat :: h < b <= rf && Listed(s, b, rf, s[rf].tid) ==> !s[b].order.IsRelease()
  }

  /** `h` may head the sequence that the end of the chain behind `rf` belongs to. */
  ghost predicate OffChain(s: Trace, rf: nat, h: nat) {
    Loose(s, ChainTail(s, rf)) && OwnRelease(s, ChainTail(s, rf), h)
  }

  lemma IsOnChain(s: Trace, rf0: nat, r: nat, h: nat)
    requires r in Chain(s, rf0) && r < |s| && ReleaseAt(s, r) == Some(h)
    ensures OnChain(s, rf0, h)
  {
  }

  lemma ChainIsCaught(s: Trace, rf0: nat, heads: seq<nat>)
    requires ChainCaught(s, rf0, heads)
    ensures forall h :: OnChain(s, rf0, h) ==> h in heads
  {
    forall h | OnChain(s, rf0, h) ensures h in heads {
      var r :| r in Chain(s, rf0) && r < |s| && ReleaseAt(s, r) == Some(h);
      assert Caught(s, r, heads);
    }
  }

  /** Once an action is behind the last release fence, so are all earlier ones. */
  lemma BehindFence(s: Trace, rf: nat, act: nat)
    requires act <= rf < |s| && WellClocked(s) && Numbered(s, rf) && Listed(s, act, rf, s[rf].tid)
    requires s[rf].lastFence.Some? && s[rf].lastFence.value < |s| && s[act].now < s[s[rf].lastFence.value].now
    requires forall b: nat :: act < b <= rf && Listed(s, b, rf, s[rf].tid) ==> !s[b].order.IsRelease()
    ensures forall h: nat :: !OwnRelease(s, rf, h)
  {
    assert OwnClock(s[rf]);
    forall h: nat ensures !OwnRelease(s, rf, h) {
      if OwnRelease(s, rf, h) {
        assert Numbered(s, h) && Numbered(s, act);
      }
    }
  }

  /** Only one release can head the sequence from off the chain. */
  lemma OwnReleaseUnique(s: Trace, rf: nat, g: nat, h: nat)
    requires OwnRelease(s, rf, g) && OwnRelease(s, rf, h)
    ensures g == h
  {
  }

  // ------------------------------------------------------------------
  // The scan of the other threads
  // ------------------------------------------------------------------

  /** What the scan makes of an action of another thread. */
  datatype Sight = Ends | Past | Breaks | Open | Nothing

  ghost function Sighting(s: Trace, t: map<nat, nat>, E: Edges, release: nat, rf: nat, act: nat): Sight
    requires release < |s| && rf < |s| && act < |s|
  {
    if HB(s, act, release) then Ends
    else if HB(s, rf, act) then Past
    else if !s[act].kind.IsWrite() || s[act].kind.Rmw? then Nothing
    else if GraphReach(t, E, rf, act) then Past
    else if GraphReach(t, E, act, release) then Ends
    else if GraphReach(t, E, release, act) && GraphReach(t, E, act, rf) then Breaks
    else Open
  }

  /** The scan of thread `i` comes to `act`: nothing later stops it. */
  ghost predicate Reached(s: Trace, t: map<nat, nat>, E: Edges, release: nat, rf: nat, i: nat, act: nat)
    requires release < |s| && rf < |s|
  {
    && act < |s| && Listed(s, act, rf, i)
    && forall b: nat :: act < b < |s| && Listed(s, b, rf, i) ==> Sighting(s, t, E, release, rf, b) != Ends
  }

  ghost predicate Sees(s: Trace, t: map<nat, nat>, E: Edges, release: nat, rf: nat, i: nat, what: Sight)
    requires release < |s| && rf < |s|
  {
    exists act: nat :: Reached(s, t, E, release, rf, i, act) && Sighting(s, t, E, release, rf, act) == what
  }

  /** The same as far as the actions from `k` on go. */
  ghost predicate SeesFrom(s: Trace, t: map<nat, nat>, E: Edges, release: nat, rf: nat, i: nat, k: nat, what: Sight)
    requires release < |s| && rf < |s|
  {
    exists act: nat :: k <= act < |s| && Listed(s, act, rf, i) && Sighting(s, t, E, release, rf, act) == what
  }

  lemma NothingSeen(s: Trace, t: map<nat, nat>, E: Edges, release: nat, rf: nat, i: nat)
    requires release < |s| && rf < |s|
    ensures (forall what :: !SeesFrom(s, t, E, release, rf, i, |s|, what)) &&
            ThreadOutside(s, t, E, release, rf, i, |s|)
  {
  }

  lemma SeesAll(s: Trace, t: map<nat, nat>, E: Edges, release: nat, rf: nat, i: nat, k: nat)
    requires release < |s| && rf < |s| && 0 < k <= |s|
    ensures forall what :: SeesFrom(s, t, E, release, rf, i, k - 1, what) <==>
                           SeesFrom(s, t, E, release, rf, i, k, what) ||
                           (Listed(s, k - 1, rf, i) && Sighting(s, t, E, release, rf, k - 1) == what)
  {
    hide Sighting, Listed, SeesFrom;
    forall what
      ensures SeesFrom(s, t, E, release, rf, i, k - 1, what) <==>
              SeesFrom(s, t, E, release, rf, i, k, what) ||
              (Listed(s, k - 1, rf, i) && Sighting(s, t, E, release, rf, k - 1) == what)
    {
      SeesOne(s, t, E, release, rf, i, k, what);
    }
  }

  lemma SeesOne(s: Trace, t: map<nat, nat>, E: Edges, release: nat, rf: nat, i: nat, k: nat, what: Sight)
    requires release < |s| && rf < |s| && 0 < k <= |s|
    ensures SeesFrom(s, t, E, release, rf, i, k - 1, what) <==>
            SeesFrom(s, t, E, release, rf, i, k, what) ||
            (Listed(s, k - 1, rf, i) && Sighting(s, t, E, release, rf, k - 1) == what)
  {
    hide Sighting, Listed;
    if act: nat :| k - 1 <= act < |s| && Listed(s, act, rf, i) && Sighting(s, t, E, release, rf, act) == what {
      assert act >= k ==> SeesFrom(s, t, E, release, rf, i, k, what);
    }
  }

  /** The scan has come to the first action, or to one that ends it: all that it sees has been seen. */
  lemma ScanDone(s: Trace, t: map<nat, nat>, E: Edges, release: nat, rf: nat, i: nat, k: nat)
    requires release < |s| && rf < |s| && k <= |s| && !SeesFrom(s, t, E, release, rf, i, k, Ends)
    requires k > 0 ==> Listed(s, k - 1, rf, i) && Sighting(s, t, E, release, rf, k - 1) == Ends
    ensures forall what :: what != Ends ==>
              (Sees(s, t, E, release, rf, i, what) <==> SeesFrom(s, t, E, release, rf, i, k, what))
  {
    hide Sighting;
    forall what | what != Ends
      ensures Sees(s, t, E, release, rf, i, what) <==> SeesFrom(s, t, E, release, rf, i, k, what)
    {
      if act: nat :| Reached(s, t, E, release, rf, i, act) && Sighting(s, t, E, release, rf, act) == what {
        assert act >= k;
      }
      if act: nat :| k <= act < |s| && Listed(s, act, rf, i) && Sighting(s, t, E, release, rf, act) == what {
        assert Reached(s, t, E, release, rf, i, act);
      }
    }
  }

  /** An action that ends the scan also tells all there is to know of the thread. */
  lemma ScanOver(s: Trace, G: Edges, t: map<nat, nat>, E: Edges, release: nat, rf: nat, i: nat, k: nat, sure: bool)
    requires Clocked(s, G) && UninitOnce(s) && rf < |s| && Numbered(s, release) && 0 < k <= |s|
    requires !SeesFrom(s, t, E, release, rf, i, k, Ends)
    requires Listed(s, k - 1, rf, i) && Sighting(s, t, E, release, rf, k - 1) == Ends
    requires sure ==> ThreadOutside(s, t, E, release, rf, i, k)
    ensures sure ==> ThreadOutside(s, t, E, release, rf, i, 0)
    ensures forall what :: what != Ends ==>
              (Sees(s, t, E, release, rf, i, what) <==> SeesFrom(s, t, E, release, rf, i, k, what))
  {
    hide Clocked, UninitOnce, HB, Reach, Sees, SeesFrom, Outside;
    ScanDone(s, t, E, release, rf, i, k);
    if sure {
      ThreadBreak(s, G, t, E, release, rf, i, k);
    }
  }

  /** What has been seen of a thread so far, with the action at `k - 1`. */
  lemma ScanStep(s: Trace, t: map<nat, nat>, E: Edges, release: nat, rf: nat, i: nat, k: nat)
    requires release < |s| && rf < |s| && 0 < k <= |s| && i != s[rf].tid
    ensures ThreadOutside(s, t, E, release, rf, i, k) &&
            (Listed(s, k - 1, rf, i) ==> Sighting(s, t, E, release, rf, k - 1) in {Past, Nothing}) ==>
              ThreadOutside(s, t, E, release, rf, i, k - 1)
    ensures Listed(s, k - 1, rf, i) && Sighting(s, t, E, release, rf, k - 1) == Past ==> ThreadPast(s, t, E, rf, i)
  {
    hide HB, GraphReach, Outside;
    var act := k - 1;
    if Listed(s, act, rf, i) && Sighting(s, t, E, release, rf, act) == Past {
      assert IsPast(s, t, E, rf, i, act);
      IsOutside(s, t, E, release, rf, act);
    }
  }

  lemma SeesNow(s: Trace, t: map<nat, nat>, E: Edges, release: nat, rf: nat, i: nat, act: nat)
    requires release < |s| && rf < |s| && act < |s| && Listed(s, act, rf, i)
    requires !SeesFrom(s, t, E, release, rf, i, act + 1, Ends)
    ensures Sees(s, t, E, release, rf, i, Sighting(s, t, E, release, rf, act))
  {
    hide Sighting;
    assert Reached(s, t, E, release, rf, i, act);
  }

  // ------------------------------------------------------------------
  // The answer
  // ------------------------------------------------------------------

  /** What the search looks at: trace, graph, last actions by thread, and the threads that do nothing more. */
  datatype View = View(s: Trace, t: map<nat, nat>, E: Edges, last: map<nat, nat>, settled: seq<bool>)

  /** The scan of some thread comes to a store that the graph puts inside the sequence. */
  ghost predicate Broken(v: View, release: nat, rf: nat)
    requires release < |v.s| && rf < |v.s|
  {
    exists i: nat :: i < |v.settled| && i != v.s[rf].tid && Sees(v.s, v.t, v.E, release, rf, i, Breaks)
  }

  /** The scan of thread `i` comes to nothing that could lie inside, and the thread can do nothing more that could. */
  ghost predicate ThreadClear(v: View, release: nat, rf: nat, i: nat)
    requires release < |v.s| && rf < |v.s| && i < |v.settled|
  {
    && !Sees(v.s, v.t, v.E, release, rf, i, Open)
    && (v.settled[i] || Sees(v.s, v.t, v.E, release, rf, i, Past)
        || (i in v.last && v.last[i] < |v.s| && HB(v.s, rf, v.last[i])))
  }

  ghost predicate Clear(v: View, release: nat, rf: nat)
    requires release < |v.s| && rf < |v.s|
  {
    forall i: nat :: i < |v.settled| && i != v.s[rf].tid ==> ThreadClear(v, release, rf, i)
  }

  /** The search is certain about the sequences that a store `rf0` belongs to. */
  ghost predicate Answered(v: View, rf0: nat) {
    var tail := ChainTail(v.s, rf0);
    forall h: nat :: OffChain(v.s, rf0, h) ==> Broken(v, h, tail) || Clear(v, h, tail)
  }

  /** The search finds the head `h`. */
  ghost predicate Heading(v: View, rf0: nat, h: nat) {
    || OnChain(v.s, rf0, h)
    || (OffChain(v.s, rf0, h) && !Broken(v, h, ChainTail(v.s, rf0)) && Clear(v, h, ChainTail(v.s, rf0)))
  }

  /** The result of a search: nothing while the graph has a cycle, or exactly the heads, and whether it is certain. */
  ghost predicate Outcome(v: View, cycles: bool, rf0: nat, heads: seq<nat>, certain: bool) {
    if cycles then heads == [] && !certain
    else (certain <==> Answered(v, rf0)) && forall h: nat :: h in heads <==> Heading(v, rf0, h)
  }

  /** Search `p` had that result, and is pending unless it was certain. */
  ghost predicate Asked(v: View, cycles: bool, p: PendingSeq, rf0: nat, heads: seq<nat>, seqs: seq<PendingSeq>,
                        seqs': seq<PendingSeq>) {
    Outcome(v, cycles, rf0, heads, seqs' == seqs) && (seqs' == seqs || seqs' == seqs + [p])
  }

  /** The search that found `release` at the head of the sequence to `tail`. */
  datatype Certificate = Certificate(v: View, release: nat, tail: nat)

  ghost predicate Genuine(c: Certificate) {
    Certified(c.v.s, c.v.t, c.v.E, c.v.settled, c.release, c.tail) && OwnRelease(c.v.s, c.tail, c.release)
  }

  /** Every head off the chain has its certificate. */
  ghost predicate Backed(v: View, rf0: nat, heads: seq<nat>, cert: Option<Certificate>) {
    && (cert.Some? ==> cert.value.v == v && cert.value.tail == ChainTail(v.s, rf0) && Genuine(cert.value))
    && forall h :: h in heads ==>
         OnChain(v.s, rf0, h) || (OffChain(v.s, rf0, h) && cert.Some? && cert.value.release == h)
  }

  /** When the chain ends with a read-modify-write or a release, it has all the heads. */
  lemma NotLoose(v: View, rf0: nat)
    requires !Loose(v.s, ChainTail(v.s, rf0))
    ensures Answered(v, rf0) && forall h: nat :: Heading(v, rf0, h) <==> OnChain(v.s, rf0, h)
  {
    hide OnChain;
  }

  lemma NoOwnRelease(v: View, rf0: nat)
    requires forall h: nat :: !OwnRelease(v.s, ChainTail(v.s, rf0), h)
    ensures Answered(v, rf0) && forall h: nat :: Heading(v, rf0, h) <==> OnChain(v.s, rf0, h)
  {
    hide OnChain;
  }

  /** Otherwise one release is left to ask about. */
  lemma OneOffChain(v: View, rf0: nat, release: nat)
    requires Loose(v.s, ChainTail(v.s, rf0)) && OwnRelease(v.s, ChainTail(v.s, rf0), release)
    ensures var tail := ChainTail(v.s, rf0);
            && OffChain(v.s, rf0, release)
            && (Answered(v, rf0) <==> Broken(v, release, tail) || Clear(v, release, tail))
            && forall h: nat :: Heading(v, rf0, h) <==>
                   OnChain(v.s, rf0, h) || (h == release && !Broken(v, release, tail) && Clear(v, release, tail))
  {
    hide OnChain, Broken, Clear;
    forall h: nat | OffChain(v.s, rf0, h) ensures h == release {
      OwnReleaseUnique(v.s, ChainTail(v.s, rf0), h, release);
    }
  }

  // ------------------------------------------------------------------
  // When a search is certain
  // ------------------------------------------------------------------

  /** The store is known to come before the head or after the end of the sequence. */
  ghost predicate KnownOutside(v: View, release: nat, rf: nat, act: nat)
    requires release < |v.s| && rf < |v.s| && act < |v.s|
  {
    || HB(v.s, act, release) || GraphReach(v.t, v.E, act, release)
    || HB(v.s, rf, act) || GraphReach(v.t, v.E, rf, act)
  }

  /** No later action of the thread is known to come before the head. */
  ghost predicate NothingEnds(v: View, release: nat, rf: nat, i: nat, act: nat)
    requires release < |v.s| && rf < |v.s|
  {
    forall b: nat :: act <= b < |v.s| && Listed(v.s, b, rf, i) ==>
      !HB(v.s, b, release) && !(MayBreak(v.s, b, rf) && GraphReach(v.t, v.E, b, release))
  }

  /** Thread `i` is done, or its last action comes after the end of the sequence, or one on the location does. */
  ghost predicate ComesLater(v: View, release: nat, rf: nat, i: nat)
    requires release < |v.s| && rf < |v.s| && i < |v.settled|
  {
    || v.settled[i]
    || (i in v.last && v.last[i] < |v.s| && HB(v.s, rf, v.last[i]))
    || exists act: nat :: PassedAt(v, release, rf, i, act)
  }

  ghost predicate PassedAt(v: View, release: nat, rf: nat, i: nat, act: nat)
    requires release < |v.s| && rf < |v.s|
  {
    && act < |v.s| && Listed(v.s, act, rf, i) && NothingEnds(v, release, rf, i, act)
    && (HB(v.s, rf, act) || (MayBreak(v.s, act, rf) && GraphReach(v.t, v.E, rf, act)))
  }

  /**
   A release off the chain is certified when every store of another thread is known to be outside the
   sequence, and all that other threads can still do comes later.
   */
  lemma CertifiedWhen(v: View, rf0: nat, h: nat)
    requires OffChain(v.s, rf0, h) && h < |v.s| && ChainTail(v.s, rf0) < |v.s|
    requires forall act: nat :: MayBreak(v.s, act, ChainTail(v.s, rf0)) ==>
                                  KnownOutside(v, h, ChainTail(v.s, rf0), act)
    requires forall i: nat :: i < |v.settled| && i != v.s[ChainTail(v.s, rf0)].tid ==>
                                ComesLater(v, h, ChainTail(v.s, rf0), i)
    ensures Answered(v, rf0) && Heading(v, rf0, h)
  {
    hide HB, Reach, OffChain, OnChain;
    var tail := ChainTail(v.s, rf0);
    forall i: nat | i < |v.settled| && i != v.s[tail].tid
      ensures ThreadClear(v, h, tail, i) && !Sees(v.s, v.t, v.E, h, tail, i, Breaks)
    {
      ThreadCertain(v, h, tail, i);
    }
    LooseNow(v, rf0, h);
    OneOffChain(v, rf0, h);
  }

  lemma LooseNow(v: View, rf0: nat, h: nat)
    requires OffChain(v.s, rf0, h)
    ensures Loose(v.s, ChainTail(v.s, rf0)) && OwnRelease(v.s, ChainTail(v.s, rf0), h)
  {
  }

  lemma ThreadCertain(v: View, release: nat, rf: nat, i: nat)
    requires release < |v.s| && rf < |v.s| && i < |v.settled| && i != v.s[rf].tid
    requires forall act: nat :: MayBreak(v.s, act, rf) ==> KnownOutside(v, release, rf, act)
    requires ComesLater(v, release, rf, i)
    ensures ThreadClear(v, release, rf, i) && !Sees(v.s, v.t, v.E, release, rf, i, Breaks)
  {
    hide HB, GraphReach;
    forall act: nat | Reached(v.s, v.t, v.E, release, rf, i, act)
      ensures Sighting(v.s, v.t, v.E, release, rf, act) in {Ends, Past, Nothing}
    {
      if v.s[act].kind.IsWrite() && !v.s[act].kind.Rmw? {
        assert MayBreak(v.s, act, rf);
      }
    }
    if act: nat :| PassedAt(v, release, rf, i, act) {
      PassedSeen(v, release, rf, i, act);
    }
  }

  lemma PassedSeen(v: View, release: nat, rf: nat, i: nat, act: nat)
    requires release < |v.s| && rf < |v.s| && i != v.s[rf].tid && PassedAt(v, release, rf, i, act)
    ensures Sees(v.s, v.t, v.E, release, rf, i, Past)
  {
    hide HB, GraphReach;
    assert Sighting(v.s, v.t, v.E, release, rf, act) == Past;
    assert Reached(v.s, v.t, v.E, release, rf, i, act);
  }

  /** And it is certainly none when the graph puts a store inside that the scan comes to. */
  lemma NoneWhen(v: View, rf0: nat, h: nat, act: nat)
    requires OffChain(v.s, rf0, h) && h < |v.s| && ChainTail(v.s, rf0) < |v.s|
    requires Interrupts(v.s, v.t, v.E, h, ChainTail(v.s, rf0), act) && v.s[act].tid < |v.settled|
    requires !KnownOutside(v, h, ChainTail(v.s, rf0), act)
    requires NothingEnds(v, h, ChainTail(v.s, rf0), v.s[act].tid, act)
    ensures Answered(v, rf0) && (Heading(v, rf0, h) ==> OnChain(v.s, rf0, h))
  {
    hide HB, GraphReach, OffChain, OnChain;
    var tail := ChainTail(v.s, rf0);
    assert Sighting(v.s, v.t, v.E, h, tail, act) == Breaks;
    assert Reached(v.s, v.t, v.E, h, tail, v.s[act].tid, act);
    assert Sees(v.s, v.t, v.E, h, tail, v.s[act].tid, Breaks);
    assert Broken(v, h, tail);
    LooseNow(v, rf0, h);
    OneOffChain(v, rf0, h);
  }

  // ------------------------------------------------------------------
  // What a run leaves of it
  // ------------------------------------------------------------------

  /** The releases on and off the chain stay the same. */
  lemma EvolvedReleases(s: Trace, s': Trace, rf: nat, h: nat)
    requires Evolved(s, s') && rf < |s| && s[rf].kind.IsWrite()
    ensures ChainTail(s, rf) == ChainTail(s', rf) < |s| && s[ChainTail(s, rf)].kind.IsWrite()
    ensures OnChain(s, rf, h) <==> OnChain(s', rf, h)
    ensures OffChain(s, rf, h) <==> OffChain(s', rf, h)
  {
    EvolvedChain(s, s', rf);
    var tail := ChainTail(s, rf);
    hide Evolved;
    forall r | r in Chain(s, rf) ensures r < |s| && r < |s'| && ReleaseAt(s, r) == ReleaseAt(s', r) {
      StoreKept(s, s', r);
    }
    StoreKept(s, s', tail);
    EvolvedOwn(s, s', tail, h);
  }

  lemma StoreKept(s: Trace, s': Trace, r: nat)
    requires Evolved(s, s') && r < |s| && s[r].kind.IsWrite()
    ensures r < |s'| && s'[r].kind == s[r].kind && s'[r].order == s[r].order && s'[r].lastFence == s[r].lastFence
    ensures s'[r].tid == s[r].tid && s'[r].loc == s[r].loc && s'[r].now == s[r].now
  {
    assert Kept(s[r], s'[r]);
  }

  lemma EvolvedOwn(s: Trace, s': Trace, rf: nat, h: nat)
    requires Evolved(s, s') && rf < |s| && s[rf].kind.IsWrite()
    ensures OwnRelease(s, rf, h) <==> OwnRelease(s', rf, h)
  {
    StoreKept(s, s', rf);
    forall b: nat | b <= rf
      ensures Listed(s', b, rf, s[rf].tid) <==> Listed(s, b, rf, s[rf].tid)
      ensures s'[b].order == s[b].order && s'[b].now == s[b].now
    {
      assert b < rf ==> s'[b] == s[b].(cv := s'[b].cv);
    }
  }
}
