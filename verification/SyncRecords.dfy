/**
 What the edges of happens-before are, in every state of a run: thread order,
 creation of threads, and synchronization that release sequences or the caller
 justify. And what acquires are owed: every release they have to synchronize
 with, unless the search for it is still pending.
 */
module SyncRecords {
  import opened Digraph
  import opened Optional
  import opened OrderConstraints
  import opened Clocks
  import opened Actions
  import opened HappensBefore
  import opened Coherence
  import opened TraceInvariant
  import opened MoConstraints
  import opened ReleaseSequence
  import opened ReleaseSearch
  import opened ExecutionState

  // ------------------------------------------------------------------
  // Thread order and creation
  // ------------------------------------------------------------------

  /** `b` is the next action of the thread of `a`. */
  ghost predicate Follows(s: Trace, a: nat, b: nat) {
    && a < b && Numbered(s, a) && Numbered(s, b) && s[a].tid == s[b].tid
    && forall c: nat :: a < c < b && Numbered(s, c) ==> s[c].tid != s[b].tid
  }

  /** `b` is the first action of a thread that `a` created. */
  ghost predicate Starts(s: Trace, creation: map<nat, nat>, a: nat, b: nat) {
    && Numbered(s, b) && s[b].tid in creation && creation[s[b].tid] == a
    && forall c: nat :: c < b && Numbered(s, c) ==> s[c].tid != s[b].tid
  }

  ghost function ThreadOrder(s: Trace, creation: map<nat, nat>): Edges {
    set a: nat, b: nat | a < |s| && b < |s| && (Follows(s, a, b) || Starts(s, creation, a, b)) :: (a, b)
  }

  lemma ThreadOrderNew(s: Trace, creation: map<nat, nat>, r: Action, threads: nat, last: map<nat, nat>,
                       fence: map<nat, nat>, clock: nat)
    requires Registered(s, threads, last, creation, fence, clock) && !r.kind.Uninit?
    ensures ThreadOrder(s + [r], creation) ==
            ThreadOrder(s, creation) + ParentEdge(Parent(last, creation, r.tid), |s|)
  {
    var s', n := s + [r], |s|;
    assert forall a: nat :: a < n ==> s'[a] == s[a] && (Numbered(s', a) <==> Numbered(s, a));
    forall a: nat, b: nat | a < n + 1 && b < n + 1
      ensures (a, b) in ThreadOrder(s', creation) <==>
              (a, b) in ThreadOrder(s, creation) + ParentEdge(Parent(last, creation, r.tid), n)
    {
      if b < n {
        assert Follows(s', a, b) <==> Follows(s, a, b);
        assert Starts(s', creation, a, b) <==> Starts(s, creation, a, b);
      } else {
        assert Numbered(s', n);
        if r.tid in last {
          assert Numbered(s, last[r.tid]) && s[last[r.tid]].tid == r.tid;
        }
      }
    }
  }

  lemma ThreadOrderSame(s: Trace, s': Trace, creation: map<nat, nat>)
    requires |s'| == |s|
    requires forall a: nat :: a < |s| ==> s'[a].tid == s[a].tid && (s'[a].kind.Uninit? <==> s[a].kind.Uninit?)
    ensures ThreadOrder(s', creation) == ThreadOrder(s, creation)
  {
    assert forall a: nat :: Numbered(s', a) <==> Numbered(s, a);
    forall a: nat, b: nat | a < |s| && b < |s|
      ensures (a, b) in ThreadOrder(s', creation) <==> (a, b) in ThreadOrder(s, creation)
    {
      assert Follows(s', a, b) <==> Follows(s, a, b);
      assert Starts(s', creation, a, b) <==> Starts(s, creation, a, b);
    }
  }

  lemma ThreadOrderUninit(s: Trace, creation: map<nat, nat>, u: Action)
    requires u.kind.Uninit? && forall t :: t in creation ==> creation[t] < |s|
    ensures ThreadOrder(s + [u], creation) == ThreadOrder(s, creation)
  {
    var s' := s + [u];
    assert forall a: nat :: Numbered(s', a) <==> Numbered(s, a);
    assert forall a: nat :: a < |s| ==> s'[a] == s[a];
    forall a: nat, b: nat | a < |s'| && b < |s'|
      ensures (a, b) in ThreadOrder(s', creation) <==> (a, b) in ThreadOrder(s, creation)
    {
      assert Follows(s', a, b) <==> Follows(s, a, b);
      assert Starts(s', creation, a, b) <==> Starts(s, creation, a, b);
    }
  }

  /** A thread without actions adds no edge. */
  lemma ThreadOrderCreate(s: Trace, creation: map<nat, nat>, child: nat, a: nat)
    requires forall b: nat :: Numbered(s, b) ==> s[b].tid != child
    ensures ThreadOrder(s, creation[child := a]) == ThreadOrder(s, creation)
  {
    forall x: nat, b: nat | x < |s| && b < |s|
      ensures (x, b) in ThreadOrder(s, creation[child := a]) <==> (x, b) in ThreadOrder(s, creation)
    {
      assert Starts(s, creation[child := a], x, b) <==> Starts(s, creation, x, b);
    }
  }

  // ------------------------------------------------------------------
  // Synchronization
  // ------------------------------------------------------------------

  /**
   The synchronization edges found so far, the searches that asked for release sequences,
   the edges that the caller named, and the certificates of heads off the chain.
   */
  datatype SyncRecord = SyncRecord(synced: Edges, searched: set<PendingSeq>, named: Edges, certs: set<Certificate>)

  /** `p` asks for the release sequences of what an acquire reads, or of what was read before an acquire fence. */
  predicate IsSearch(s: Trace, p: PendingSeq) {
    && p.read <= p.acquire && Numbered(s, p.acquire) && Numbered(s, p.read) && s[p.read].tid == s[p.acquire].tid
    && s[p.read].kind.IsRead() && s[p.read].rf.Some? && s[p.read].rf.value < |s| && s[s[p.read].rf.value].kind.IsWrite()
    && (p.read < p.acquire ==> s[p.acquire].kind.Fence? && s[p.acquire].order.IsAcquire())
  }

  /**
   `h` heads a release sequence that the store `rf` belongs to: it is a release, or a release
   fence, on the chain, or the release to which the rest of the sequence is certified contiguous.
   */
  ghost predicate HeadFor(s: Trace, certs: set<Certificate>, rf: nat, h: nat) {
    || OnChain(s, rf, h)
    || (OffChain(s, rf, h) && exists c :: c in certs && c.release == h && c.tail == ChainTail(s, rf))
  }

  /** `h` heads a release sequence that the value of a search's read belongs to. */
  ghost predicate Found(s: Trace, rec: SyncRecord, h: nat, x: nat) {
    exists p :: p in rec.searched && p.acquire == x && IsSearch(s, p) && HeadFor(s, rec.certs, s[p.read].rf.value, h)
  }

  /** An action such as a join or a lock synchronizes with at most one that the caller names. */
  ghost predicate NamedOnce(s: Trace, named: Edges) {
    && (forall h, x :: (h, x) in named ==> h < x < |s| && s[x].kind.Other?)
    && forall g, h, x :: (g, x) in named && (h, x) in named ==> g == h
  }

  /** Every synchronization has its reason. */
  ghost predicate Justified(s: Trace, rec: SyncRecord) {
    && rec.named <= rec.synced && NamedOnce(s, rec.named)
    && (forall p :: p in rec.searched ==> IsSearch(s, p))
    && forall h, x :: (h, x) in rec.synced ==> (h, x) in rec.named || Found(s, rec, h, x)
  }

  /** Every search is settled, or pending. */
  ghost predicate Served(s: Trace, searched: set<PendingSeq>, seqs: seq<PendingSeq>) {
    && (forall p :: p in seqs ==> p in searched)
    && forall p :: p in searched ==> p in seqs || Resolved(s, p.acquire, p.read)
  }

  /** What the record says of a trace. */
  ghost predicate Accounted(s: Trace, G: Edges, creation: map<nat, nat>, rec: SyncRecord, seqs: seq<PendingSeq>) {
    && G == ThreadOrder(s, creation) + rec.synced
    && Justified(s, rec) && Served(s, rec.searched, seqs) && RealEntries(s)
  }

  lemma NothingAccounted()
    ensures Accounted([], {}, map[], SyncRecord({}, {}, {}, {}), [])
  {
    assert ThreadOrder([], map[]) == {};
  }

  lemma SearchEvolves(s: Trace, s': Trace, p: PendingSeq)
    requires Evolved(s, s') && IsSearch(s, p)
    ensures IsSearch(s', p)
  {
    assert Kept(s[p.read], s'[p.read]) && Kept(s[p.acquire], s'[p.acquire]);
    assert Kept(s[s[p.read].rf.value], s'[s[p.read].rf.value]);
  }

  lemma JustifiedEvolves(s: Trace, s': Trace, rec: SyncRecord)
    requires Justified(s, rec) && Evolved(s, s')
    ensures Justified(s', rec)
  {
    hide Evolved, HeadFor;
    forall h, x | (h, x) in rec.named ensures h < x < |s'| && s'[x].kind.Other? {
      EvolvedAt(s, s', x);
    }
    forall p | p in rec.searched ensures IsSearch(s', p) {
      SearchEvolves(s, s', p);
    }
    forall h, x | (h, x) in rec.synced && (h, x) !in rec.named ensures Found(s', rec, h, x) {
      assert Found(s, rec, h, x);
      var p :| p in rec.searched && p.acquire == x && IsSearch(s, p) && HeadFor(s, rec.certs, s[p.read].rf.value, h);
      HeadEvolves(s, s', rec.certs, p, h);
    }
  }

  lemma HeadEvolves(s: Trace, s': Trace, certs: set<Certificate>, p: PendingSeq, h: nat)
    requires Evolved(s, s') && IsSearch(s, p) && HeadFor(s, certs, s[p.read].rf.value, h)
    ensures IsSearch(s', p) && s'[p.read].rf == s[p.read].rf && HeadFor(s', certs, s'[p.read].rf.value, h)
  {
    SearchEvolves(s, s', p);
    assert Kept(s[p.read], s'[p.read]);
    hide Evolved, IsSearch, OnChain, OffChain;
    EvolvedReleases(s, s', s[p.read].rf.value, h);
  }

  lemma ServedEvolves(s: Trace, s': Trace, searched: set<PendingSeq>, seqs: seq<PendingSeq>)
    requires Served(s, searched, seqs) && Evolved(s, s')
    ensures Served(s', searched, seqs)
  {
    hide Evolved, Resolved;
    forall p | p in searched && p !in seqs ensures Resolved(s', p.acquire, p.read) {
      EvolvedResolved(s, s', p.acquire, p.read);
    }
  }

  /** What happens to actions that are there, and more constraints, leave the record true. */
  lemma AccountedEvolves(s: Trace, s': Trace, G: Edges, creation: map<nat, nat>, rec: SyncRecord,
                         seqs: seq<PendingSeq>)
    requires Accounted(s, G, creation, rec, seqs) && Evolved(s, s') && |s'| == |s| && RealEntries(s')
    ensures Accounted(s', G, creation, rec, seqs)
  {
    hide RealEntries, Served, Justified, ThreadOrder;
    JustifiedEvolves(s, s', rec);
    ServedEvolves(s, s', rec.searched, seqs);
    forall a: nat | a < |s| ensures s'[a].tid == s[a].tid && (s'[a].kind.Uninit? <==> s[a].kind.Uninit?) {
      assert Kept(s[a], s'[a]);
    }
    ThreadOrderSame(s, s', creation);
  }

  lemma EvolvedMore(s: Trace, r: Action)
    ensures Evolved(s, s + [r])
  {
    forall a: nat | a < |s| ensures (s + [r])[a] == s[a] {
    }
  }

  /** A step that adds an action, and a placeholder where it needs one, leaves the rest as it was. */
  lemma StepEvolves(s: Trace, s': Trace, kind: Kind, loc: nat)
    requires |s'| > 0 && s'[..|s'| - 1] == Prepared(s, kind, loc)
    ensures Evolved(s, s')
  {
    var p := Prepared(s, kind, loc);
    forall a: nat | a < |s| ensures Kept(s[a], s'[a]) && s'[a] == s[a].(cv := s'[a].cv) {
      assert s'[a] == s'[..|s'| - 1][a] == p[a] == s[a];
    }
  }

  /** So does the second half of a read-modify-write. */
  lemma CloseEvolves(s: Trace, curr: nat, order: MemoryOrder, succeeded: bool)
    requires curr + 1 == |s| && s[curr].kind.Rmwr? && s[curr].rf.Some?
    ensures Evolved(s, CloseRmw(s, curr, order, succeeded))
  {
  }

  lemma AccountedUninit(s: Trace, G: Edges, creation: map<nat, nat>, rec: SyncRecord, seqs: seq<PendingSeq>,
                        u: Action)
    requires Accounted(s, G, creation, rec, seqs) && u.kind.Uninit?
    requires forall t :: t in creation ==> creation[t] < |s|
    ensures Accounted(s + [u], G, creation, rec, seqs)
  {
    hide Served, Justified, ThreadOrder, Evolved;
    EvolvedMore(s, u);
    JustifiedEvolves(s, s + [u], rec);
    ServedEvolves(s, s + [u], rec.searched, seqs);
    ThreadOrderUninit(s, creation, u);
    forall a: nat, t: nat | Numbered(s + [u], a) && At((s + [u])[a].cv, t) > 0
      ensures IsNumber(s + [u], t, At((s + [u])[a].cv, t))
    {
      assert Numbered(s, a);
      SameNumbers(s, s + [u], t, At(s[a].cv, t));
    }
  }

  lemma AccountedNew(s: Trace, G: Edges, creation: map<nat, nat>, rec: SyncRecord, seqs: seq<PendingSeq>,
                     act: Action, threads: nat, last: map<nat, nat>, fence: map<nat, nat>, clock: nat)
    requires Accounted(s, G, creation, rec, seqs) && Registered(s, threads, last, creation, fence, clock)
    requires !act.kind.Uninit?
    ensures var parent := Parent(last, creation, act.tid);
            && (parent.Some? ==> parent.value < |s|)
            && Accounted(s + [WithClock(s, act, parent)], G + ParentEdge(parent, |s|), creation, rec, seqs)
  {
    hide Served, Justified, ThreadOrder, Evolved, RealEntries;
    var parent := Parent(last, creation, act.tid);
    ParentIsParent(s, threads, last, creation, fence, clock, act.tid);
    var r := WithClock(s, act, parent);
    EvolvedMore(s, r);
    JustifiedEvolves(s, s + [r], rec);
    ServedEvolves(s, s + [r], rec.searched, seqs);
    ThreadOrderNew(s, creation, r, threads, last, fence, clock);
    RealNew(s, act, parent);
  }

  lemma AccountedCreate(s: Trace, G: Edges, creation: map<nat, nat>, rec: SyncRecord, seqs: seq<PendingSeq>,
                        child: nat, a: nat)
    requires Accounted(s, G, creation, rec, seqs) && ThreadsBelow(s, child)
    ensures Accounted(s, G, creation[child := a], rec, seqs)
  {
    ThreadOrderCreate(s, creation, child, a);
  }

  lemma RealSame(s: Trace, s': Trace)
    requires RealEntries(s) && SameTiming(s, s')
    ensures RealEntries(s')
  {
    forall a: nat, t: nat | Numbered(s', a) && At(s'[a].cv, t) > 0 ensures IsNumber(s', t, At(s'[a].cv, t)) {
      assert Numbered(s, a);
      SameNumbers(s, s', t, At(s[a].cv, t));
    }
  }

  /** The last action, a read without a value, gets one, or a read-modify-write is closed. */
  lemma AccountedLast(s: Trace, s': Trace, G: Edges, creation: map<nat, nat>, rec: SyncRecord,
                      seqs: seq<PendingSeq>)
    requires Accounted(s, G, creation, rec, seqs) && s != [] && |s'| == |s|
    requires forall a: nat :: a + 1 < |s| ==> s'[a] == s[a]
    requires Kept(s[|s| - 1], s'[|s| - 1]) && s'[|s| - 1].cv == s[|s| - 1].cv
    ensures Accounted(s', G, creation, rec, seqs)
  {
    hide Served, Justified, ThreadOrder, RealEntries;
    assert Evolved(s, s') by {
      forall a: nat | a < |s| ensures Kept(s[a], s'[a]) && (a + 1 < |s| ==> s'[a] == s[a].(cv := s'[a].cv)) {
      }
    }
    RealSame(s, s');
    AccountedEvolves(s, s', G, creation, rec, seqs);
  }

  /** What a search adds to the record. */
  ghost function Asking(rec: SyncRecord, p: PendingSeq, heads: seq<nat>, cert: Option<Certificate>): SyncRecord {
    rec.(synced := rec.synced + SyncEdges(heads, p.acquire), searched := rec.searched + {p},
      certs := rec.certs + Shown(cert))
  }

  ghost function Shown(cert: Option<Certificate>): set<Certificate> {
    if cert.Some? then {cert.value} else {}
  }

  /** What the caller's synchronization adds. */
  ghost function Naming(rec: SyncRecord, first: nat, x: nat): SyncRecord {
    rec.(synced := rec.synced + {(first, x)}, named := rec.named + {(first, x)})
  }

  /** A search that has synchronized with `heads`, among those it found, and is settled or stays pending. */
  lemma AccountedSearch(s: Trace, s': Trace, G: Edges, creation: map<nat, nat>, rec: SyncRecord, seqs: seq<PendingSeq>,
                        seqs': seq<PendingSeq>, p: PendingSeq, v: View, heads: seq<nat>, cert: Option<Certificate>)
    requires Accounted(s, G, creation, rec, seqs) && Evolved(s, s') && |s'| == |s| && RealEntries(s')
    requires IsSearch(s, p) && v.s == s && Backed(v, s[p.read].rf.value, heads, cert)
    requires forall q :: q in seqs ==> q in seqs'
    requires forall q :: q in seqs' ==> q in seqs || q == p
    requires p in seqs' || Resolved(s', p.acquire, p.read)
    ensures Accounted(s', G + SyncEdges(heads, p.acquire), creation, Asking(rec, p, heads, cert), seqs')
  {
    hide RealEntries, ThreadOrder, Evolved, Resolved, Justified, Served, IsSearch, Backed;
    AccountedEvolves(s, s', G, creation, rec, seqs);
    JustifiedSearch(s, s', rec, p, v, heads, cert);
    ServedSearch(s', rec.searched, seqs, seqs', p);
  }

  lemma JustifiedSearch(s: Trace, s': Trace, rec: SyncRecord, p: PendingSeq, v: View, heads: seq<nat>,
                        cert: Option<Certificate>)
    requires Justified(s', rec) && Evolved(s, s')
    requires IsSearch(s, p) && v.s == s && Backed(v, s[p.read].rf.value, heads, cert)
    ensures Justified(s', Asking(rec, p, heads, cert))
  {
    hide Evolved, OnChain, OffChain, Genuine;
    var rec' := Asking(rec, p, heads, cert);
    SearchEvolves(s, s', p);
    forall h, x | (h, x) in rec'.synced && (h, x) !in rec'.named ensures Found(s', rec', h, x) {
      if (h, x) in rec.synced {
        assert Found(s', rec, h, x);
        var q :| q in rec.searched && q.acquire == x && IsSearch(s', q) &&
                 HeadFor(s', rec.certs, s'[q.read].rf.value, h);
        assert HeadFor(s', rec'.certs, s'[q.read].rf.value, h);
      } else {
        assert h in heads && x == p.acquire;
        assert HeadFor(s, rec'.certs, s[p.read].rf.value, h);
        HeadEvolves(s, s', rec'.certs, p, h);
      }
    }
  }

  lemma ServedSearch(s: Trace, searched: set<PendingSeq>, seqs: seq<PendingSeq>, seqs': seq<PendingSeq>, p: PendingSeq)
    requires Served(s, searched, seqs) && (p in seqs' || Resolved(s, p.acquire, p.read))
    requires forall q :: q in seqs ==> q in seqs'
    requires forall q :: q in seqs' ==> q in seqs || q == p
    ensures Served(s, searched + {p}, seqs')
  {
    hide Resolved;
  }

  /** A synchronization that the caller names. */
  lemma AccountedNamed(s: Trace, s': Trace, G: Edges, creation: map<nat, nat>, rec: SyncRecord,
                       seqs: seq<PendingSeq>, first: nat, x: nat)
    requires Accounted(s, G, creation, rec, seqs) && Evolved(s, s') && |s'| == |s| && RealEntries(s')
    requires first < x < |s'| && s'[x].kind.Other? && forall h: nat :: (h, x) !in rec.named
    ensures Accounted(s', G + {(first, x)}, creation, Naming(rec, first, x), seqs)
  {
    hide RealEntries, ThreadOrder, Evolved, Served, IsSearch, HeadFor;
    AccountedEvolves(s, s', G, creation, rec, seqs);
  }

  /** A settled search is no longer pending. */
  lemma AccountedSettled(s: Trace, G: Edges, creation: map<nat, nat>, rec: SyncRecord, seqs: seq<PendingSeq>,
                         i: nat)
    requires Accounted(s, G, creation, rec, seqs) && i < |seqs| && Resolved(s, seqs[i].acquire, seqs[i].read)
    ensures Accounted(s, G, creation, rec, seqs[..i] + seqs[i + 1..])
  {
    hide RealEntries, ThreadOrder, Justified, Resolved;
    var less := seqs[..i] + seqs[i + 1..];
    assert seqs == seqs[..i] + [seqs[i]] + seqs[i + 1..];
    forall p | p in rec.searched ensures p in less || Resolved(s, p.acquire, p.read) {
      if p in seqs && p !in less {
        assert p == seqs[i];
      }
    }
  }

  lemma TookGrew(s: Trace, hs: seq<nat>, x: nat, s': Trace)
    requires Took(s, hs, x, s')
    ensures Grew(s, s')
  {
    JoinAllGrows(s[x].cv, s, hs);
  }

  lemma TookCaught(s: Trace, hs: seq<nat>, x: nat, s': Trace, rf: nat)
    requires Took(s, hs, x, s') && ChainCaught(s, rf, hs)
    ensures ChainCaught(s', rf, hs)
  {
    hide Grew, Evolved;
    TookGrew(s, hs, x, s');
    GrewEvolved(s, s');
    EvolvedCaught(s, s', rf, hs);
  }

  lemma ServedResolved(s: Trace, s': Trace, p: PendingSeq, hs: seq<nat>)
    requires Evolved(s, s') && IsSearch(s, p) && ChainCaught(s, s[p.read].rf.value, hs) && AllBefore(s', hs, p.acquire)
    ensures Resolved(s', p.acquire, p.read)
  {
    hide Evolved, AllBefore;
    EvolvedCaught(s, s', s[p.read].rf.value, hs);
    SearchEvolves(s, s', p);
    assert Kept(s[p.read], s'[p.read]) by {
      EvolvedAt(s, s', p.read);
    }
  }

  /** The search of the last action. */
  lemma JoinedSearch(s: Trace, G: Edges, creation: map<nat, nat>, rec: SyncRecord, seqs: seq<PendingSeq>,
                     seqs': seq<PendingSeq>, p: PendingSeq, v: View, hs: seq<nat>, cert: Option<Certificate>)
    requires Accounted(s, G, creation, rec, seqs) && Clocked(s, G) && p.acquire + 1 == |s| && IsSearch(s, p)
    requires Heads(s, hs, p.acquire) && (forall i :: 0 <= i < |hs| ==> hs[i] < |s|)
    requires v.s == s && Backed(v, s[p.read].rf.value, hs, cert)
    requires seqs' == seqs + [p] ||
             (seqs' == seqs && ChainCaught(s, s[p.read].rf.value, hs) &&
                 AllBefore(Joined(s, hs, p.acquire), hs, p.acquire))
    ensures Accounted(Joined(s, hs, p.acquire), G + SyncEdges(hs, p.acquire), creation, Asking(rec, p, hs, cert), seqs')
  {
    hide Accounted, Clocked, ChainCaught, AllBefore, Backed, Grew, Evolved, Resolved, RealEntries, SyncEdges, Asking;
    var s' := Joined(s, hs, p.acquire);
    JoinedLast(s, G, hs, p.acquire);
    AccountedReal(s, G, creation, rec, seqs);
    RealSyncAll(s, hs, p.acquire);
    TookGrew(s, hs, p.acquire, s');
    GrewEvolved(s, s');
    if seqs' == seqs {
      ServedResolved(s, s', p, hs);
    }
    AccountedSearch(s, s', G, creation, rec, seqs, seqs', p, v, hs, cert);
  }

  lemma AccountedReal(s: Trace, G: Edges, creation: map<nat, nat>, rec: SyncRecord, seqs: seq<PendingSeq>)
    requires Accounted(s, G, creation, rec, seqs)
    ensures RealEntries(s)
  {
  }

  lemma JoinedNamed(s: Trace, G: Edges, creation: map<nat, nat>, rec: SyncRecord, seqs: seq<PendingSeq>,
                    first: nat, x: nat)
    requires Accounted(s, G, creation, rec, seqs) && Clocked(s, G) && x + 1 == |s| && Numbered(s, x)
    requires Numbered(s, first) && first < x && s[x].kind.Other? && forall h: nat :: (h, x) !in rec.named
    ensures Accounted(Joined(s, [first], x), G + {(first, x)}, creation, Naming(rec, first, x), seqs)
  {
    hide Accounted, Clocked, Grew, Evolved, RealEntries, SyncEdges;
    var s' := Joined(s, [first], x);
    JoinedLast(s, G, [first], x);
    AccountedReal(s, G, creation, rec, seqs);
    RealSyncAll(s, [first], x);
    TookGrew(s, [first], x, s');
    GrewEvolved(s, s');
    AccountedNamed(s, s', G, creation, rec, seqs, first, x);
  }

  /** A pending search is tried again. */
  lemma LateSearch(s: Trace, s': Trace, G: Edges, creation: map<nat, nat>, rec: SyncRecord, seqs: seq<PendingSeq>,
                   p: PendingSeq, v: View, found: seq<nat>, done: seq<nat>, cert: Option<Certificate>)
    requires Accounted(s, G, creation, rec, seqs) && p in seqs && IsSearch(s, p)
    requires v.s == s && Backed(v, s[p.read].rf.value, found, cert)
    requires Heads(s, done, p.acquire) && s' == SyncAll(s, done, p.acquire) && Grew(s, s')
    requires forall h :: h in done ==> h in found
    ensures Accounted(s', G + SyncEdges(done, p.acquire), creation, Asking(rec, p, done, cert), seqs)
  {
    hide Accounted, Grew, Evolved, Resolved, RealEntries, SyncEdges, OnChain, OffChain, Genuine, Asking;
    AccountedReal(s, G, creation, rec, seqs);
    RealSyncAll(s, done, p.acquire);
    GrewEvolved(s, s');
    AccountedSearch(s, s', G, creation, rec, seqs, seqs, p, v, done, cert);
  }

  lemma PendingSearch(s: Trace, G: Edges, creation: map<nat, nat>, rec: SyncRecord, seqs: seq<PendingSeq>,
                      p: PendingSeq)
    requires Accounted(s, G, creation, rec, seqs) && p in seqs
    ensures IsSearch(s, p) && p in rec.searched
  {
    hide ThreadOrder, RealEntries, Resolved;
  }

  lemma NamedBelow(s: Trace, G: Edges, creation: map<nat, nat>, rec: SyncRecord, seqs: seq<PendingSeq>)
    requires Accounted(s, G, creation, rec, seqs)
    ensures forall h: nat, x: nat :: x >= |s| ==> (h, x) !in rec.named
  {
    hide ThreadOrder, RealEntries, Served, IsSearch, Found;
  }

  lemma NoEdges(G: Edges, x: nat)
    ensures SyncEdges([], x) == {} && G + SyncEdges([], x) == G
  {
  }

  lemma SyncNothing(s: Trace, x: nat)
    requires x < |s|
    ensures SyncAll(s, [], x) == s
  {
  }

  // ------------------------------------------------------------------
  // The searches of an acquire fence
  // ------------------------------------------------------------------

  /** Between `k` and the fence `curr` its thread has no acquire fence. */
  ghost predicate NoAcquireFence(s: Trace, curr: nat, k: nat)
    requires curr < |s|
  {
    forall f: nat :: k <= f < curr && s[f].tid == s[curr].tid ==> !(s[f].kind.Fence? && s[f].order.IsAcquire())
  }

  /** A read of its thread that the acquire fence `curr` turns into an acquire. */
  ghost predicate MetBy(s: Trace, curr: nat, read: nat)
    requires curr < |s|
  {
    && read < curr && s[read].tid == s[curr].tid && s[read].kind.IsRead() && !s[read].order.IsAcquire()
    && NoAcquireFence(s, curr, read)
  }

  ghost function MetReads(s: Trace, curr: nat, k: nat): set<PendingSeq>
    requires curr < |s|
  {
    set r: nat | k <= r < curr && MetBy(s, curr, r) :: PendingSeq(curr, r)
  }

  /** Whatever the action acquires through has been searched for. */
  ghost predicate AskedAt(s: Trace, searched: set<PendingSeq>, changed: set<nat>, x: nat)
    requires x < |s|
  {
    && (s[x].kind.IsRead() && s[x].order.IsAcquire() && x !in changed ==> PendingSeq(x, x) in searched)
    && (s[x].kind.Fence? && s[x].order.IsAcquire() ==>
          forall r: nat :: r < x && MetBy(s, x, r) ==> PendingSeq(x, r) in searched)
  }

  /** So it is for all actions but the read-modify-writes of `changed`, the halves of which name different orders. */
  ghost predicate AllAsked(s: Trace, searched: set<PendingSeq>, changed: set<nat>) {
    forall x: nat :: x < |s| ==> AskedAt(s, searched, changed, x)
  }

  lemma AskedEvolves(s: Trace, s': Trace, searched: set<PendingSeq>, searched': set<PendingSeq>, changed: set<nat>,
                     changed': set<nat>)
    requires AllAsked(s, searched, changed) && Evolved(s, s') && searched <= searched' && changed <= changed'
    requires forall x: nat :: x < |s| ==> s'[x].order == s[x].order || x in changed'
    requires forall x: nat :: |s| <= x < |s'| ==> AskedAt(s', searched', changed', x)
    ensures AllAsked(s', searched', changed')
  {
    forall x: nat | x < |s| ensures AskedAt(s', searched', changed', x) {
      assert AskedAt(s, searched, changed, x);
      AskedBelow(s, s', searched, searched', changed, changed', x);
    }
  }

  lemma AskedBelow(s: Trace, s': Trace, searched: set<PendingSeq>, searched': set<PendingSeq>, changed: set<nat>,
                   changed': set<nat>, x: nat)
    requires Evolved(s, s') && searched <= searched' && changed <= changed' && x < |s|
    requires AskedAt(s, searched, changed, x) && (s'[x].order == s[x].order || x in changed')
    ensures AskedAt(s', searched', changed', x)
  {
    EvolvedAt(s, s', x);
    if s'[x].kind.Fence? {
      forall r: nat | r < x && MetBy(s', x, r) ensures MetBy(s, x, r) {
        assert forall f: nat :: f < x ==> s'[f] == s[f].(cv := s'[f].cv);
      }
    }
  }

  /** What an acquire fence adds to the record. */
  ghost function Meeting(rec: SyncRecord, s: Trace, curr: nat, heads: seq<nat>, certs: set<Certificate>): SyncRecord
    requires curr < |s|
  {
    rec.(synced := rec.synced + SyncEdges(heads, curr), searched := rec.searched + MetReads(s, curr, 0),
      certs := rec.certs + certs)
  }

  /**
   At a moment between `s` and `s'` an acquire fence asked about `read`: the search is pending unless
   it was certain then, and the fence has synchronized with what it found.
   */
  ghost predicate MetAt(base: View, s: Trace, s': Trace, cycles: bool, curr: nat, read: nat, heads: seq<nat>,
                        seqs: seq<PendingSeq>) {
    exists v: View :: AtMoment(v, base, s, s') && MetIn(v, cycles, curr, read, heads, seqs)
  }

  ghost predicate AtMoment(v: View, base: View, s: Trace, s': Trace) {
    v == base.(s := v.s) && Grew(s, v.s) && Grew(v.s, s')
  }

  ghost predicate MetIn(v: View, cycles: bool, curr: nat, read: nat, heads: seq<nat>, seqs: seq<PendingSeq>) {
    && read < |v.s| && v.s[read].rf.Some?
    && (PendingSeq(curr, read) in seqs <==> cycles || !Answered(v, v.s[read].rf.value))
    && (!cycles ==> forall h: nat :: Heading(v, v.s[read].rf.value, h) ==> h in heads)
  }

  /** The searches of the fence so far. */
  ghost predicate MetSoFar(base: View, s: Trace, s': Trace, cycles: bool, curr: nat, k: nat, heads: seq<nat>,
                           seqs0: seq<PendingSeq>, seqs: seq<PendingSeq>)
    requires curr < |s|
  {
    && (forall r: nat :: k <= r && MetBy(s, curr, r) ==> MetAt(base, s, s', cycles, curr, r, heads, seqs))
    && (forall p :: p in seqs0 ==> p in seqs)
    && forall p :: p in seqs ==> p in seqs0 || (p.acquire == curr && p.read >= k && MetBy(s, curr, p.read))
  }

  lemma MetSoFarNone(base: View, s: Trace, s': Trace, cycles: bool, curr: nat, k: nat, seqs: seq<PendingSeq>)
    requires curr <= k && curr < |s|
    ensures MetSoFar(base, s, s', cycles, curr, k, [], seqs, seqs)
  {
  }

  lemma MetSoFarSkip(base: View, s: Trace, s': Trace, cycles: bool, curr: nat, k: nat, heads: seq<nat>,
                     seqs0: seq<PendingSeq>, seqs: seq<PendingSeq>)
    requires 0 < k <= curr < |s| && MetSoFar(base, s, s', cycles, curr, k, heads, seqs0, seqs) && !MetBy(s, curr, k - 1)
    ensures MetSoFar(base, s, s', cycles, curr, k - 1, heads, seqs0, seqs)
  {
    hide MetAt, MetBy;
  }

  /** No read before an acquire fence is met. */
  lemma MetSoFarStop(base: View, s: Trace, s': Trace, cycles: bool, curr: nat, k: nat, heads: seq<nat>,
                     seqs0: seq<PendingSeq>, seqs: seq<PendingSeq>)
    requires 0 < k <= curr < |s| && MetSoFar(base, s, s', cycles, curr, k, heads, seqs0, seqs)
    requires s[k - 1].tid == s[curr].tid && s[k - 1].kind.Fence? && s[k - 1].order.IsAcquire()
    ensures MetSoFar(base, s, s', cycles, curr, 0, heads, seqs0, seqs)
  {
    hide MetAt;
    forall r: nat | r < k ensures !MetBy(s, curr, r) {
      assert r < k - 1 ==> !NoAcquireFence(s, curr, r);
    }
  }

  /** A search that was asked is pending exactly when it was not certain. */
  lemma AskedPending(v: View, cycles: bool, p: PendingSeq, rf0: nat, found: seq<nat>, seqs: seq<PendingSeq>,
                     seqs': seq<PendingSeq>)
    requires Asked(v, cycles, p, rf0, found, seqs, seqs') && p !in seqs
    ensures p in seqs' <==> cycles || !Answered(v, rf0)
    ensures !cycles ==> forall h: nat :: Heading(v, rf0, h) ==> h in found
    ensures forall q :: q != p ==> (q in seqs' <==> q in seqs)
  {
    hide Answered, Heading;
    if seqs' == seqs + [p] {
      assert p in seqs';
      assert |seqs'| != |seqs|;
    }
  }

  lemma MetNow(v: View, base: View, s: Trace, s': Trace, cycles: bool, curr: nat, read: nat, heads: seq<nat>,
               seqs: seq<PendingSeq>)
    requires AtMoment(v, base, s, s') && MetIn(v, cycles, curr, read, heads, seqs)
    ensures MetAt(base, s, s', cycles, curr, read, heads, seqs)
  {
    hide MetIn, AtMoment;
  }

  lemma MetInMore(v: View, cycles: bool, curr: nat, read: nat, heads: seq<nat>, found: seq<nat>, seqs: seq<PendingSeq>)
    requires MetIn(v, cycles, curr, read, found, seqs)
    ensures MetIn(v, cycles, curr, read, heads + found, seqs)
  {
    hide Heading, Answered;
  }

  /** More heads and the search of another read change nothing of it. */
  lemma MetAtMore(base: View, s: Trace, m: Trace, s': Trace, cycles: bool, curr: nat, r: nat, heads: seq<nat>,
                  found: seq<nat>, seqs: seq<PendingSeq>, seqs': seq<PendingSeq>)
    requires MetAt(base, s, m, cycles, curr, r, heads, seqs) && Grew(m, s')
    requires PendingSeq(curr, r) in seqs' <==> PendingSeq(curr, r) in seqs
    ensures MetAt(base, s, s', cycles, curr, r, heads + found, seqs')
  {
    hide Answered, Heading, Grew;
    var u: View :| AtMoment(u, base, s, m) && MetIn(u, cycles, curr, r, heads, seqs);
    GrewTrans(u.s, m, s');
    assert AtMoment(u, base, s, s') && MetIn(u, cycles, curr, r, heads + found, seqs');
  }

  /** The search that was asked now. */
  lemma MetOne(v: View, base: View, s: Trace, s': Trace, cycles: bool, p: PendingSeq, heads: seq<nat>,
               found: seq<nat>, seqs: seq<PendingSeq>, seqs': seq<PendingSeq>)
    requires AtMoment(v, base, s, s') && p.read < |v.s| && v.s[p.read].rf.Some? && p !in seqs
    requires Asked(v, cycles, p, v.s[p.read].rf.value, found, seqs, seqs')
    ensures MetAt(base, s, s', cycles, p.acquire, p.read, heads + found, seqs')
  {
    AskedPending(v, cycles, p, v.s[p.read].rf.value, found, seqs, seqs');
    hide Answered, Heading, AtMoment, MetAt, Asked;
    assert p == PendingSeq(p.acquire, p.read);
    assert MetIn(v, cycles, p.acquire, p.read, found, seqs');
    MetInMore(v, cycles, p.acquire, p.read, heads, found, seqs');
    MetNow(v, base, s, s', cycles, p.acquire, p.read, heads + found, seqs');
  }

  /** One more search. */
  lemma MetSoFarMore(v: View, base: View, s: Trace, s': Trace, cycles: bool, curr: nat, k: nat, heads: seq<nat>,
                     found: seq<nat>, seqs0: seq<PendingSeq>, seqs: seq<PendingSeq>, seqs': seq<PendingSeq>)
    requires 0 < k <= curr < |s| && MetSoFar(base, s, v.s, cycles, curr, k, heads, seqs0, seqs) && MetBy(s, curr, k - 1)
    requires AtMoment(v, base, s, s') && v.s[k - 1].rf.Some?
    requires Asked(v, cycles, PendingSeq(curr, k - 1), v.s[k - 1].rf.value, found, seqs, seqs')
    requires forall p :: p in seqs0 ==> p.acquire != curr
    ensures MetSoFar(base, s, s', cycles, curr, k - 1, heads + found, seqs0, seqs')
  {
    assert k - 1 < |v.s| && Grew(v.s, s');
    hide MetBy, Grew, MetAt, Asked, AtMoment;
    var p := PendingSeq(curr, k - 1);
    assert p !in seqs;
    AskedPending(v, cycles, p, v.s[k - 1].rf.value, found, seqs, seqs');
    MetOne(v, base, s, s', cycles, p, heads, found, seqs, seqs');
    hide Answered, Heading;
    forall r: nat | k - 1 <= r && MetBy(s, curr, r) ensures MetAt(base, s, s', cycles, curr, r, heads + found, seqs') {
      if r >= k {
        MetAtMore(base, s, v.s, s', cycles, curr, r, heads, found, seqs, seqs');
      }
    }
  }

  lemma MetNone(s: Trace, curr: nat)
    requires curr < |s|
    ensures MetReads(s, curr, curr) == {} && NoAcquireFence(s, curr, curr)
  {
  }

  lemma MetStep(s: Trace, curr: nat, k: nat)
    requires 0 < k <= curr < |s| && NoAcquireFence(s, curr, k)
    ensures NoAcquireFence(s, curr, k - 1) <==>
            !(s[k - 1].tid == s[curr].tid && s[k - 1].kind.Fence? && s[k - 1].order.IsAcquire())
    ensures MetReads(s, curr, k - 1) ==
            MetReads(s, curr, k) +
            if s[k - 1].tid == s[curr].tid && s[k - 1].kind.IsRead() &&
                !s[k - 1].order.IsAcquire() then {PendingSeq(curr, k - 1)} else {}
  {
  }

  lemma MetStop(s: Trace, curr: nat, k: nat)
    requires 0 < k <= curr < |s| && s[k - 1].tid == s[curr].tid && s[k - 1].kind.Fence? && s[k - 1].order.IsAcquire()
    ensures MetReads(s, curr, 0) == MetReads(s, curr, k)
  {
    assert forall r: nat :: r <= k - 1 ==> !NoAcquireFence(s, curr, r);
  }

  lemma MetSame(s: Trace, s': Trace, curr: nat)
    requires Grew(s, s') && curr < |s|
    ensures MetReads(s, curr, 0) == MetReads(s', curr, 0)
  {
    forall r: nat | r < curr ensures MetBy(s, curr, r) <==> MetBy(s', curr, r) {
    }
  }

  lemma BothBefore(s: Trace, hs: seq<nat>, more: seq<nat>, x: nat)
    requires AllBefore(s, hs, x) && AllBefore(s, more, x)
    ensures AllBefore(s, hs + more, x)
    ensures SyncEdges(hs + more, x) == SyncEdges(hs, x) + SyncEdges(more, x)
  {
  }

  // ------------------------------------------------------------------
  // Synchronization found later
  // ------------------------------------------------------------------

  /** Since, only acquires whose search was pending have synchronized with more. */
  ghost predicate Later(G: Edges, rec: SyncRecord, seqs: seq<PendingSeq>, G': Edges, rec': SyncRecord) {
    && rec.synced <= rec'.synced && rec'.named == rec.named && rec'.searched == rec.searched && rec.certs <= rec'.certs
    && G' == G + rec'.synced
    && forall h, x :: (h, x) in rec'.synced && (h, x) !in rec.synced ==> exists p :: p in seqs && p.acquire == x
  }

  lemma LaterSame(s: Trace, G: Edges, creation: map<nat, nat>, rec: SyncRecord, seqs: seq<PendingSeq>)
    requires Accounted(s, G, creation, rec, seqs)
    ensures Later(G, rec, seqs, G, rec)
  {
    hide ThreadOrder, Justified, Served, RealEntries;
  }

  lemma LaterSearch(G0: Edges, rec0: SyncRecord, seqs: seq<PendingSeq>, G: Edges, rec: SyncRecord, p: PendingSeq,
                    done: seq<nat>, cert: Option<Certificate>)
    requires Later(G0, rec0, seqs, G, rec) && p in seqs && p in rec.searched
    ensures Later(G0, rec0, seqs, G + SyncEdges(done, p.acquire), Asking(rec, p, done, cert))
  {
  }

  lemma LaterTrans(G0: Edges, rec0: SyncRecord, seqs0: seq<PendingSeq>, G: Edges, rec: SyncRecord,
                   seqs: seq<PendingSeq>, G': Edges, rec': SyncRecord)
    requires Later(G0, rec0, seqs0, G, rec) && Later(G, rec, seqs, G', rec') && forall p :: p in seqs ==> p in seqs0
    ensures Later(G0, rec0, seqs0, G', rec')
  {
  }

  // ------------------------------------------------------------------
  // What the bookkeeping says of indices
  // ------------------------------------------------------------------

  lemma CreatorsKnown(s: Trace, threads: nat, last: map<nat, nat>, creation: map<nat, nat>, fence: map<nat, nat>,
                      clock: nat)
    requires Registered(s, threads, last, creation, fence, clock)
    ensures forall t :: t in creation ==> creation[t] < |s|
  {
    forall t | t in creation ensures creation[t] < |s| {
      assert Numbered(s, creation[t]);
    }
  }

  lemma LastsKnown(s: Trace, threads: nat, last: map<nat, nat>, creation: map<nat, nat>, fence: map<nat, nat>,
                   clock: nat)
    requires Registered(s, threads, last, creation, fence, clock)
    ensures forall t :: t in last ==> last[t] < |s| && s[last[t]].tid == t
  {
    forall t | t in last ensures last[t] < |s| && s[last[t]].tid == t {
      assert Numbered(s, last[t]);
    }
  }

  lemma ThreadsKnown(s: Trace, threads: nat, last: map<nat, nat>, creation: map<nat, nat>, fence: map<nat, nat>,
                     clock: nat)
    requires Registered(s, threads, last, creation, fence, clock)
    ensures ThreadsBelow(s, threads)
  {
  }

  // ------------------------------------------------------------------
  // Certified sequences
  // ------------------------------------------------------------------

  lemma EvolvedOutside(s: Trace, s': Trace, t: map<nat, nat>, t': map<nat, nat>, E: Edges, E': Edges, release: nat,
                       rf: nat, act: nat)
    requires Evolved(s, s') && (forall k :: k in t ==> k in t' && t'[k] == t[k]) && E <= E'
    requires release < |s| && rf < |s| && act < |s| && s[act].kind.IsWrite() && Outside(s, t, E, release, rf, act)
    ensures Outside(s', t', E', release, rf, act)
  {
    hide Evolved;
    EvolvedAt(s, s', act);
    if HB(s, act, release) {
      EvolvedHB(s, s', act, release);
    } else if HB(s, rf, act) {
      EvolvedHB(s, s', rf, act);
    } else if c :| PassesAfter(s, t, E, rf, act, c) {
      EvolvedAt(s, s', c);
      if c != act {
        EvolvedHB(s, s', c, act);
      }
      ReachMono(E, E', t[rf], t[c]);
      assert PassesAfter(s', t', E', rf, act, c);
    } else {
      var c :| PassesBefore(s, t, E, release, act, c);
      EvolvedAt(s, s', c);
      if c != act {
        EvolvedHB(s, s', act, c);
      }
      ReachMono(E, E', t[c], t[release]);
      assert PassesBefore(s', t', E', release, act, c);
    }
  }

  /** What stays true when the last action takes in its heads. */
  lemma TookFacts(s: Trace, s': Trace, hs: seq<nat>, x: nat, rf: nat)
    requires Took(s, hs, x, s')
    ensures Grew(s, s') && (ChainCaught(s, rf, hs) ==> ChainCaught(s', rf, hs))
  {
    hide Took, ChainCaught, Grew;
    TookGrew(s, hs, x, s');
    if ChainCaught(s, rf, hs) {
      TookCaught(s, hs, x, s', rf);
    }
  }

  // ------------------------------------------------------------------
  // What the work loop uses up
  // ------------------------------------------------------------------

  /** Pairs of actions of which the first does not happen before the second. */
  ghost function NotBefore(s: Trace): Edges {
    set h: nat, x: nat | h < |s| && x < |s| && !HB(s, h, x) :: (h, x)
  }

  ghost function Pairs(n: nat): Edges {
    set a: nat, b: nat | a < n && b < n :: (a, b)
  }

  lemma GrewNotBefore(s: Trace, s': Trace)
    requires Grew(s, s')
    ensures NotBefore(s') <= NotBefore(s)
  {
    forall h: nat, x: nat | h < |s| && x < |s| && HB(s, h, x) ensures HB(s', h, x) {
      GrewEvolved(s, s');
      EvolvedHB(s, s', h, x);
    }
  }

  lemma MoreBefore(s: Trace, s': Trace, heads: seq<nat>, h: nat, x: nat)
    requires Grew(s, s') && h < |s| && x < |s| && !HB(s, h, x) && h in heads && AllBefore(s', heads, x)
    ensures NotBefore(s') < NotBefore(s)
  {
    hide HB;
    GrewNotBefore(s, s');
    assert (h, x) in NotBefore(s) && (h, x) !in NotBefore(s');
  }

  lemma FewerLeft(all: Edges, before: Edges, after: Edges)
    requires after <= all
    ensures before <= after && before != after ==> all - after < all - before
  {
    if before <= after && before != after {
      var e :| e in after && e !in before;
      assert e in all - before && e !in all - after;
    }
  }
}
