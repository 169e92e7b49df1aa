/**
 What stands behind the record in every state of a run: the searches that certified
 heads off the chain, as they were, and the reason why a settled search need not ask
 again.
 */
module Certificates {
  import opened Digraph
  import opened Optional
  import opened OrderConstraints
  import opened Clocks
  import opened Actions
  import opened HappensBefore
  import opened Coherence
  import opened TraceInvariant
  import opened MoConstraints
  import opened ReleaseSequence
  import opened ReleaseSearch
  import opened ExecutionState
  import opened SyncRecords

  /** The graph has grown. */
  ghost predicate Extended(t: map<nat, nat>, E: Edges, t': map<nat, nat>, E': Edges) {
    (forall k :: k in t ==> k in t' && t'[k] == t[k]) && E <= E'
  }

  /** The certificate is from an earlier state of the run, or this one. */
  ghost predicate Vouched(c: Certificate, s: Trace, t: map<nat, nat>, E: Edges, threads: nat, creation: map<nat, nat>) {
    && Genuine(c) && Evolved(c.v.s, s) && Extended(c.v.t, c.v.E, t, E)
    && 2 <= |c.v.settled| <= threads && ThreadsBelow(c.v.s, |c.v.settled|)
    && forall k :: k in creation && k >= |c.v.settled| ==> creation[k] >= |c.v.s|
  }

  /**
   The acquire of a settled search happens after the one release that could head its sequence from
   off the chain, unless the graph puts a store inside.
   */
  ghost predicate Concluded(s: Trace, t: map<nat, nat>, E: Edges, p: PendingSeq) {
    && IsSearch(s, p)
    && forall h: nat :: OffChain(s, s[p.read].rf.value, h) ==>
         HB(s, h, p.acquire) || Interrupted(s, t, E, h, ChainTail(s, s[p.read].rf.value))
  }

  ghost predicate Attested(s: Trace, t: map<nat, nat>, E: Edges, threads: nat, creation: map<nat, nat>,
                           rec: SyncRecord, seqs: seq<PendingSeq>) {
    && 2 <= threads && (forall k: nat :: 2 <= k < threads ==> k in creation)
    && (forall k :: k in creation ==> k < threads)
    && (forall c :: c in rec.certs ==> Vouched(c, s, t, E, threads, creation))
    && (forall p :: p in rec.searched && p !in seqs ==> Concluded(s, t, E, p))
  }

  lemma NothingAttested(t: map<nat, nat>, E: Edges)
    ensures Attested([], t, E, 2, map[], SyncRecord({}, {}, {}, {}), [])
  {
  }

  lemma InterruptedStill(s: Trace, s': Trace, t: map<nat, nat>, t': map<nat, nat>, E: Edges, E': Edges, h: nat,
                         tail: nat)
    requires Evolved(s, s') && Extended(t, E, t', E') && Interrupted(s, t, E, h, tail)
    requires tail < |s| && s[tail].kind.IsWrite()
    ensures Interrupted(s', t', E', h, tail)
  {
    hide Evolved;
    var act: nat :| Interrupts(s, t, E, h, tail, act);
    StoreKept(s, s', act);
    StoreKept(s, s', tail);
    ReachMono(E, E', t[h], t[act]);
    ReachMono(E, E', t[act], t[tail]);
    assert Interrupts(s', t', E', h, tail, act);
  }

  lemma ConcludedStill(s: Trace, s': Trace, t: map<nat, nat>, t': map<nat, nat>, E: Edges, E': Edges, p: PendingSeq)
    requires Evolved(s, s') && Extended(t, E, t', E') && Concluded(s, t, E, p)
    ensures Concluded(s', t', E', p)
  {
    SearchEvolves(s, s', p);
    EvolvedAt(s, s', p.read);
    var rf := s[p.read].rf.value;
    hide Evolved, Extended, OffChain, HB, Interrupted;
    forall h: nat | OffChain(s', rf, h) ensures HB(s', h, p.acquire) || Interrupted(s', t', E', h, ChainTail(s', rf)) {
      EvolvedReleases(s, s', rf, h);
      if HB(s, h, p.acquire) {
        EvolvedHB(s, s', h, p.acquire);
      } else {
        InterruptedStill(s, s', t, t', E, E', h, ChainTail(s, rf));
      }
    }
  }

  /** Whatever a run does, certificates stay good and settled searches settled. */
  lemma AttestedStill(s: Trace, s': Trace, t: map<nat, nat>, t': map<nat, nat>, E: Edges, E': Edges, threads: nat,
                      creation: map<nat, nat>, rec: SyncRecord, seqs: seq<PendingSeq>)
    requires Attested(s, t, E, threads, creation, rec, seqs) && Evolved(s, s') && Extended(t, E, t', E')
    ensures Attested(s', t', E', threads, creation, rec, seqs)
  {
    hide Evolved, Concluded, Genuine;
    forall c | c in rec.certs ensures Vouched(c, s', t', E', threads, creation) {
      assert Vouched(c, s, t, E, threads, creation);
      EvolvedTrans(c.v.s, s, s');
    }
    forall p | p in rec.searched && p !in seqs ensures Concluded(s', t', E', p) {
      ConcludedStill(s, s', t, t', E, E', p);
    }
  }

  lemma AttestedNamed(s: Trace, t: map<nat, nat>, E: Edges, threads: nat, creation: map<nat, nat>, rec: SyncRecord,
                      seqs: seq<PendingSeq>, first: nat, x: nat)
    requires Attested(s, t, E, threads, creation, rec, seqs)
    ensures Attested(s, t, E, threads, creation, Naming(rec, first, x), seqs)
  {
    hide Vouched, Concluded;
  }

  /** A thread is created after everything that was certified. */
  lemma AttestedCreate(s: Trace, t: map<nat, nat>, E: Edges, threads: nat, creation: map<nat, nat>, rec: SyncRecord,
                       seqs: seq<PendingSeq>, a: nat)
    requires Attested(s, t, E, threads, creation, rec, seqs) && forall c :: c in rec.certs ==> |c.v.s| <= a
    ensures Attested(s, t, E, threads + 1, creation[threads := a], rec, seqs)
  {
    hide Evolved, Concluded, Genuine, Extended;
    forall c | c in rec.certs ensures Vouched(c, s, t, E, threads + 1, creation[threads := a]) {
      assert Vouched(c, s, t, E, threads, creation);
    }
  }

  lemma CertsBelow(s: Trace, t: map<nat, nat>, E: Edges, threads: nat, creation: map<nat, nat>, rec: SyncRecord,
                   seqs: seq<PendingSeq>)
    requires Attested(s, t, E, threads, creation, rec, seqs)
    ensures forall c :: c in rec.certs ==> |c.v.s| <= |s|
  {
    hide Concluded, Genuine, Extended;
    forall c | c in rec.certs ensures |c.v.s| <= |s| {
      assert Vouched(c, s, t, E, threads, creation);
    }
  }

  // ------------------------------------------------------------------
  // Searches
  // ------------------------------------------------------------------

  /** A scan that is broken off has seen a store inside. */
  lemma BrokenInterrupts(v: View, release: nat, rf: nat)
    requires release < |v.s| && rf < |v.s| && Broken(v, release, rf)
    ensures Interrupted(v.s, v.t, v.E, release, rf)
  {
    var i: nat :| i < |v.settled| && i != v.s[rf].tid && Sees(v.s, v.t, v.E, release, rf, i, Breaks);
    var act: nat :| Reached(v.s, v.t, v.E, release, rf, i, act) &&
                    Sighting(v.s, v.t, v.E, release, rf, act) == Breaks;
    assert Interrupts(v.s, v.t, v.E, release, rf, act);
  }

  /** A search that is certain, and whose heads happen before its acquire by now, is concluded. */
  lemma AnsweredConcludes(v: View, s': Trace, p: PendingSeq, heads: seq<nat>)
    requires IsSearch(v.s, p) && Answered(v, v.s[p.read].rf.value) && Evolved(v.s, s')
    requires forall h :: Heading(v, v.s[p.read].rf.value, h) ==> h in heads
    requires AllBefore(s', heads, p.acquire)
    ensures Concluded(s', v.t, v.E, p)
  {
    SearchEvolves(v.s, s', p);
    EvolvedAt(v.s, s', p.read);
    var rf := v.s[p.read].rf.value;
    hide Evolved, OnChain, OffChain, HB, Interrupted, Broken, Clear;
    forall h: nat | OffChain(s', rf, h)
      ensures HB(s', h, p.acquire) || Interrupted(s', v.t, v.E, h, ChainTail(s', rf))
    {
      EvolvedReleases(v.s, s', rf, h);
      OffChainBelow(v.s, rf, h);
      if Broken(v, h, ChainTail(v.s, rf)) {
        BrokenInterrupts(v, h, ChainTail(v.s, rf));
        InterruptedStill(v.s, s', v.t, v.t, v.E, v.E, h, ChainTail(v.s, rf));
      } else {
        assert Heading(v, rf, h);
      }
    }
  }

  lemma OffChainBelow(s: Trace, rf: nat, h: nat)
    requires OffChain(s, rf, h)
    ensures h < |s| && ChainTail(s, rf) < |s|
  {
  }

  /** A search is asked, once more or for the first time. */
  lemma AttestedSearch(v: View, s': Trace, threads: nat, creation: map<nat, nat>, rec: SyncRecord,
                       seqs: seq<PendingSeq>, seqs': seq<PendingSeq>, p: PendingSeq, found: seq<nat>, done: seq<nat>,
                       cert: Option<Certificate>)
    requires Attested(v.s, v.t, v.E, threads, creation, rec, seqs) && Evolved(v.s, s') && |v.settled| == threads
    requires ThreadsBelow(v.s, threads) && IsSearch(v.s, p) && Backed(v, v.s[p.read].rf.value, found, cert)
    requires p in seqs' || (Answered(v, v.s[p.read].rf.value) && AllBefore(s', found, p.acquire) &&
                 forall h :: Heading(v, v.s[p.read].rf.value, h) ==> h in found)
    requires forall q :: q in seqs ==> q in seqs'
    ensures Attested(s', v.t, v.E, threads, creation, Asking(rec, p, done, cert), seqs')
  {
    hide Evolved, Concluded, Genuine, Answered, Heading, AllBefore, IsSearch;
    AttestedStill(v.s, s', v.t, v.t, v.E, v.E, threads, creation, rec, seqs);
    if p !in seqs' {
      AnsweredConcludes(v, s', p, found);
    }
    if cert.Some? {
      EvolvedSame(v.s);
      assert Vouched(cert.value, v.s, v.t, v.E, threads, creation);
      assert Vouched(cert.value, s', v.t, v.E, threads, creation);
    }
  }

  /** A settled search is no longer pending. */
  lemma AttestedSettled(s: Trace, t: map<nat, nat>, E: Edges, threads: nat, creation: map<nat, nat>, rec: SyncRecord,
                        seqs: seq<PendingSeq>, i: nat)
    requires Attested(s, t, E, threads, creation, rec, seqs) && i < |seqs| && Concluded(s, t, E, seqs[i])
    ensures Attested(s, t, E, threads, creation, rec, seqs[..i] + seqs[i + 1..])
  {
    hide Vouched, Concluded;
    var less := seqs[..i] + seqs[i + 1..];
    assert seqs == seqs[..i] + [seqs[i]] + seqs[i + 1..];
    forall p | p in rec.searched && p !in less ensures Concluded(s, t, E, p) {
      if p in seqs {
        assert p == seqs[i];
      }
    }
  }
}
