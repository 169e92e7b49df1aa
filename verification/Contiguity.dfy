/**
 Why release_seq_heads may call a search settled: a sequence that it certifies stays
 contiguous, whatever the program goes on to do.
 */
module Contiguity {
  import opened Digraph
  import opened Optional
  import opened OrderConstraints
  import opened Clocks
  import opened Actions
  import opened HappensBefore
  import opened Coherence
  import opened TraceInvariant
  import opened MoConstraints
  import opened ReleaseSequence
  import opened ReleaseSearch
  import opened SyncRecords
  import opened Certificates

  /**
   The run went on from `s` with its `|settled|` threads to `s'`: settled threads did nothing
   more, and threads that were not there have been created since.
   */
  ghost predicate WentOn(s: Trace, settled: seq<bool>, s': Trace, G': Edges, creation': map<nat, nat>) {
    && Evolved(s, s') && Clocked(s', G') && ThreadOrder(s', creation') <= G'
    && (forall t :: t in creation' ==> creation'[t] < |s'|)
    && (forall b: nat :: |s| <= b && Numbered(s', b) && s'[b].tid < |settled| ==> !settled[s'[b].tid])
    && (forall b: nat :: Numbered(s', b) && s'[b].tid >= |settled| ==>
          s'[b].tid in creation' && |s| <= creation'[s'[b].tid])
  }

  /** `b` comes after `rf`: by happens-before, or through a store that the graph orders after `rf`. */
  ghost predicate ComesAfter(s: Trace, t: map<nat, nat>, E: Edges, rf: nat, b: nat)
    requires rf < |s| && b < |s|
  {
    HB(s, rf, b) || exists c: nat :: Between(s, t, E, rf, b, c)
  }

  ghost predicate Between(s: Trace, t: map<nat, nat>, E: Edges, rf: nat, b: nat, c: nat)
    requires rf < |s| && b < |s|
  {
    c < |s| && s[c].kind.IsWrite() && s[c].loc == s[rf].loc && GraphReach(t, E, rf, c) && HB(s, c, b)
  }

  lemma ComesAfterToo(s: Trace, G: Edges, t: map<nat, nat>, E: Edges, rf: nat, a: nat, b: nat)
    requires Clocked(s, G) && rf < |s| && Numbered(s, a) && Numbered(s, b)
    requires ComesAfter(s, t, E, rf, a) && HB(s, a, b)
    ensures ComesAfter(s, t, E, rf, b)
  {
    hide Clocked, HB, GraphReach;
    if HB(s, rf, a) {
      HBTrans(s, G, rf, a, b);
    } else {
      var c: nat :| Between(s, t, E, rf, a, c);
      HBTrans(s, G, c, a, b);
      assert Between(s, t, E, rf, b, c);
    }
  }

  /** The first action of the thread of `b`. */
  lemma FirstAction(s: Trace, b: nat) returns (f: nat)
    requires Numbered(s, b)
    ensures f <= b && Numbered(s, f) && s[f].tid == s[b].tid
    ensures forall c: nat :: c < f && Numbered(s, c) ==> s[c].tid != s[b].tid
  {
    f := 0;
    while !(Numbered(s, f) && s[f].tid == s[b].tid)
      invariant f <= b && forall c: nat :: c < f && Numbered(s, c) ==> s[c].tid != s[b].tid
      decreases b - f
    {
      f := f + 1;
    }
  }

  /** Whatever a thread does after it is past `rf` comes after `rf`. */
  lemma PastStays(s: Trace, s': Trace, G': Edges, t: map<nat, nat>, t': map<nat, nat>, E: Edges, E': Edges, rf: nat,
                  i: nat, b: nat)
    requires Evolved(s, s') && Clocked(s', G') && rf < |s| && Numbered(s', rf) && |s| <= b && Numbered(s', b)
    requires s'[b].tid == i && ThreadPast(s, t, E, rf, i) && s[rf].kind.IsWrite()
    requires (forall k :: k in t ==> k in t' && t'[k] == t[k]) && E <= E'
    ensures ComesAfter(s', t', E', rf, b)
  {
    hide Evolved, HB, Reach, HappensBefore.Exact, Monotone, Forward;
    var act: nat :| IsPast(s, t, E, rf, i, act);
    EvolvedAt(s, s', act);
    EvolvedAt(s, s', rf);
    assert OwnClock(s'[b]);
    HBSameThread(s', act, b);
    if HB(s, rf, act) {
      EvolvedHB(s, s', rf, act);
      assert ComesAfter(s', t', E', rf, act);
    } else {
      ReachMono(E, E', t[rf], t[act]);
      HBRefl(s', act);
      assert Between(s', t', E', rf, act, act);
    }
    ComesAfterToo(s', G', t', E', rf, act, b);
  }

  /** Everything that other threads do from now on comes after the end of a certified sequence. */
  lemma {:induction false} LaterComesAfter(s: Trace, s': Trace, G': Edges, creation': map<nat, nat>, t: map<nat, nat>,
                                           t': map<nat, nat>, E: Edges, E': Edges, settled: seq<bool>, release: nat,
                                           rf: nat, b: nat)
    requires Certified(s, t, E, settled, release, rf) && WentOn(s, settled, s', G', creation')
    requires (forall k :: k in t ==> k in t' && t'[k] == t[k]) && E <= E'
    requires |s| <= b && Numbered(s', b)
    ensures ComesAfter(s', t', E', rf, b)
    decreases b
  {
    hide Evolved, HB, Reach, ThreadOutside, Clocked, ThreadOrder, ComesAfter, ThreadPast;
    EvolvedAt(s, s', rf);
    ClockedParts(s', G');
    if s'[b].tid == s[rf].tid {
      HBSameThread(s', rf, b);
      ByHB(s', t', E', rf, b);
    } else if s'[b].tid < |settled| {
      PastStays(s, s', G', t, t', E, E', rf, s'[b].tid, b);
    } else {
      var f := FirstAction(s', b);
      var c := creation'[s'[b].tid];
      StartIsHB(s', G', creation', c, f);
      LaterComesAfter(s, s', G', creation', t, t', E, E', settled, release, rf, c);
      HBSameThread(s', f, b);
      ComesAfterToo(s', G', t', E', rf, c, f);
      ComesAfterToo(s', G', t', E', rf, f, b);
    }
  }

  lemma ByHB(s: Trace, t: map<nat, nat>, E: Edges, rf: nat, b: nat)
    requires rf < |s| && b < |s| && HB(s, rf, b)
    ensures ComesAfter(s, t, E, rf, b)
  {
  }

  lemma ClockedParts(s: Trace, G: Edges)
    requires Clocked(s, G)
    ensures WellClocked(s)
  {
  }

  /** The creating action happens before the first action of the thread it creates. */
  lemma StartIsHB(s: Trace, G: Edges, creation: map<nat, nat>, c: nat, f: nat)
    requires Clocked(s, G) && ThreadOrder(s, creation) <= G && Starts(s, creation, c, f)
    requires forall t :: t in creation ==> creation[t] < |s|
    ensures Numbered(s, c) && c < f && HB(s, c, f)
  {
    hide Reach;
    assert (c, f) in ThreadOrder(s, creation);
    ReachEdge(G, c, f);
  }

  lemma OutsideStays(s: Trace, s': Trace, G': Edges, creation': map<nat, nat>, t: map<nat, nat>, t': map<nat, nat>,
                     E: Edges, E': Edges, settled: seq<bool>, release: nat, rf: nat, act: nat)
    requires Certified(s, t, E, settled, release, rf) && ThreadsBelow(s, |settled|)
    requires WentOn(s, settled, s', G', creation') && UninitOnce(s') && MayBreak(s', act, rf)
    requires (forall k :: k in t ==> k in t' && t'[k] == t[k]) && E <= E'
    ensures Outside(s', t', E', release, rf, act)
  {
    hide Evolved, HB, Clocked, ThreadOrder, GraphReach, Outside;
    EvolvedAt(s, s', rf);
    if act < |s| {
      EvolvedAt(s, s', act);
      assert MayBreak(s, act, rf) && ThreadOutside(s, t, E, release, rf, s[act].tid, 0);
      EvolvedOutside(s, s', t, t', E, E', release, rf, act);
    } else {
      assert !s'[act].kind.Uninit? by {
        assert SameLocation(s', rf, act);
      }
      LaterComesAfter(s, s', G', creation', t, t', E, E', settled, release, rf, act);
      AfterIsOutside(s', t', E', release, rf, act);
    }
  }

  lemma AfterIsOutside(s: Trace, t: map<nat, nat>, E: Edges, release: nat, rf: nat, act: nat)
    requires release < |s| && rf < |s| && act < |s| && s[act].loc == s[rf].loc && ComesAfter(s, t, E, rf, act)
    ensures Outside(s, t, E, release, rf, act)
  {
    if !HB(s, rf, act) {
      var c: nat :| Between(s, t, E, rf, act, c);
      assert PassesAfter(s, t, E, rf, act, c);
    }
  }

  /**
   Nothing ever lies inside: in every later state, no coherent order that respects the graph has
   a store of another thread between the release and the end of its sequence.
   */
  lemma StaysUninterrupted(v: View, s': Trace, G': Edges, creation': map<nat, nat>, t': map<nat, nat>, E': Edges,
                           release: nat, rf: nat)
    requires Certified(v.s, v.t, v.E, v.settled, release, rf) && ThreadsBelow(v.s, |v.settled|)
    requires v.s[release].kind.IsWrite() && WentOn(v.s, v.settled, s', G', creation')
    requires ReadsKnown(s', {}) && UninitOnce(s') && Extended(v.t, v.E, t', E')
    ensures Uninterrupted(s', t', E', release, rf)
  {
    hide Evolved, HB, Respects, CoherentOrder, Clocked, Earlier, ThreadOrder, Outside, ComesAfter, GraphReach;
    EvolvedAt(v.s, s', rf);
    EvolvedAt(v.s, s', release);
    forall pos, act: nat | Respects(pos, E') && CoherentOrder(s', t', pos) && MayBreak(s', act, rf)
      ensures !(Earlier(t', pos, release, act) && Earlier(t', pos, act, rf))
    {
      if act < |v.s| {
        EvolvedAt(v.s, s', act);
      }
      OutsideStays(v.s, s', G', creation', v.t, t', v.E, E', v.settled, release, rf, act);
      OutsideMeans(s', t', E', pos, release, rf, act);
    }
  }

  lemma CertifiedParts(v: View, release: nat, rf: nat)
    requires Certified(v.s, v.t, v.E, v.settled, release, rf)
    ensures release <= rf < |v.s| && v.s[rf].kind.IsWrite()
  {
    hide ThreadOutside, ThreadPast;
  }

  /** A release that is a store now was one when it was certified: later than it came the end of its sequence. */
  lemma WriteWasWrite(s: Trace, s': Trace, release: nat, rf: nat)
    requires Evolved(s, s') && release <= rf < |s| && s[rf].kind.IsWrite() && s'[release].kind.IsWrite()
    ensures s[release].kind.IsWrite()
  {
    StoreKept(s, s', rf);
    if release < rf {
      assert s'[release] == s[release].(cv := s'[release].cv);
    }
  }
}
