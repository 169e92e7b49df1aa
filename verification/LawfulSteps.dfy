/**
 Why the constraints stay what the standard asks for: what the rules demand of an action does
 not change once it was processed, and each step adds what they demand of its own action.
 */
module LawfulSteps {
  import opened Digraph
  import opened Optional
  import opened Clocks
  import opened Actions
  import opened HappensBefore
  import opened Coherence
  import opened TraceInvariant
  import opened ExecutionState
  import opened FenceRules

  // ------------------------------------------------------------------
  // What later steps leave of it
  // ------------------------------------------------------------------

  /** Earlier actions, apart from their clocks, are as they were; the order of `b` may change in `changed`. */
  lemma EvolvedBelow(s: Trace, s': Trace, a: nat, b: nat)
    requires Evolved(s, s') && a < b < |s|
    ensures s'[a] == s[a].(cv := s'[a].cv) && s'[b].tid == s[b].tid && s'[b].loc == s[b].loc
  {
    assert Kept(s[b], s'[b]);
  }

  /** The rules demand no more of an old action than they did. */
  lemma RulesBack(s: Trace, s': Trace, changed: set<nat>, changed': set<nat>, a: nat, b: nat)
    requires Evolved(s, s') && b < |s| && s[b].kind.IsAtomic() && changed <= changed'
    requires s'[b].order == s[b].order || b in changed'
    ensures MustSee(s', changed', a, b) ==> MustSee(s, changed, a, b)
    ensures BothFenced(s', a, b) ==> BothFenced(s, a, b)
  {
    if MustSee(s', changed', a, b) || BothFenced(s', a, b) {
      assert a < b;
      EvolvedBelow(s, s', a, b);
      forall f: nat, tid: nat | f < b ensures ScFence(s', f, tid) <==> ScFence(s, f, tid) {
        EvolvedBelow(s, s', f, b);
      }
      assert StoreFor(s, a, b);
    }
  }

  /** And no less. */
  lemma RulesForth(s: Trace, s': Trace, changed: set<nat>, changed': set<nat>, a: nat, b: nat)
    requires Evolved(s, s') && b < |s| && s'[b].kind.IsAtomic()
    ensures BothFenced(s, a, b) ==> BothFenced(s', a, b)
    ensures MustSee(s, changed, a, b) && (b in changed' ==> b in changed) && s'[b].order == s[b].order ==>
              MustSee(s', changed', a, b)
  {
    if MustSee(s, changed, a, b) || BothFenced(s, a, b) {
      assert a < b;
      EvolvedBelow(s, s', a, b);
      forall f: nat, tid: nat | f < b ensures ScFence(s', f, tid) <==> ScFence(s, f, tid) {
        EvolvedBelow(s, s', f, b);
      }
      assert StoreFor(s', a, b);
    }
  }

  lemma ScStoresSame(s: Trace, s': Trace, a: nat, b: nat)
    requires Evolved(s, s') && b < |s| && s[b].kind.IsWrite()
    ensures ScStores(s', a, b) <==> ScStores(s, a, b)
  {
    assert Kept(s[b], s'[b]);
    if a < b {
      EvolvedBelow(s, s', a, b);
    }
  }

  /** What an action that is not new, or is no longer being processed, was before. */
  ghost predicate Settles(s: Trace, s': Trace, except: set<nat>, except': set<nat>) {
    forall b: nat :: b < |s'| && b !in except' ==>
      || !s'[b].kind.IsAtomic() || s'[b].kind.Uninit?
      || (b < |s| && b !in except && (s'[b].kind.IsWrite() ==> s[b].kind.IsWrite()))
  }

  lemma ReadRulesEvolve(s: Trace, s': Trace, M: Edges, changed: set<nat>, changed': set<nat>, b: nat)
    requires Evolved(s, s') && b < |s| && changed <= changed' && (s'[b].order == s[b].order || b in changed')
    requires ReadRules(s, M, changed, b) && (s[b].kind.IsRead() ==> ReadKnown(s, b))
    ensures ReadRules(s', M, changed', b)
  {
    hide Reach, MustSee, Evolved;
    EvolvedAt(s, s', b);
    if s'[b].kind.IsRead() && ReadKnown(s', b) {
      forall a: nat | MustSee(s', changed', a, b) ensures Reach(M, a, s'[b].rf.value) {
        RulesBack(s, s', changed, changed', a, b);
      }
    }
  }

  lemma WriteRulesEvolve(s: Trace, s': Trace, M: Edges, b: nat)
    requires Evolved(s, s') && b < |s| && WriteRules(s, M, b) && (s'[b].kind.IsWrite() ==> s[b].kind.IsWrite())
    ensures WriteRules(s', M, b)
  {
    hide Plus, BothFenced, ScStores, Evolved;
    EvolvedAt(s, s', b);
    if s'[b].kind.IsWrite() {
      forall a: nat | BothFenced(s', a, b) ensures Plus(M, a, b) {
        RulesBack(s, s', {}, {b}, a, b);
      }
      forall a: nat | ScStores(s', a, b) ensures Plus(M, a, b) {
        ScStoresSame(s, s', a, b);
      }
    }
  }

  /** A placeholder comes first, and belongs to a thread without fences. */
  lemma PlaceholderRules(s: Trace, M: Edges, changed: set<nat>, b: nat)
    requires b < |s| && s[b].kind.Uninit? && UninitOnce(s)
    ensures ReadRules(s, M, changed, b) && WriteRules(s, M, b)
  {
    hide Plus;
    forall a: nat ensures !BothFenced(s, a, b) && !ScStores(s, a, b) {
      if SameLocation(s, a, b) {
        assert b < a;
      }
    }
  }

  lemma RulesEvolve(s: Trace, s': Trace, M: Edges, except: set<nat>, except': set<nat>, changed: set<nat>,
                    changed': set<nat>)
    requires RulesSeen(s, M, except, changed) && Evolved(s, s') && ReadsKnown(s, except) && UninitOnce(s')
    requires changed <= changed' && Settles(s, s', except, except')
    requires forall b: nat :: b < |s| ==> s'[b].order == s[b].order || b in changed'
    ensures RulesSeen(s', M, except', changed')
  {
    hide ReadRules, WriteRules, Evolved, UninitOnce;
    forall b: nat | b < |s'| && b !in except' ensures ReadRules(s', M, changed', b) && WriteRules(s', M, b) {
      if !s'[b].kind.IsAtomic() {
        NoRules(s', M, changed', b);
      } else if s'[b].kind.Uninit? {
        PlaceholderRules(s', M, changed', b);
      } else {
        ReadRulesEvolve(s, s', M, changed, changed', b);
        WriteRulesEvolve(s, s', M, b);
      }
    }
  }

  lemma NoRules(s: Trace, M: Edges, changed: set<nat>, b: nat)
    requires b < |s| && !s[b].kind.IsAtomic()
    ensures ReadRules(s, M, changed, b) && WriteRules(s, M, b)
  {
  }

  lemma PrecedentEvolves(s: Trace, s': Trace, x: nat, y: nat, a: nat)
    requires Evolved(s, s') && WellClocked(s) && UninitOnce(s) && Precedent(s, x, y, a)
    ensures Precedent(s', x, y, a)
  {
    hide WellClocked;
    EvolvedHB(s, s', x, y);
    PrecedentFirst(s, x, y);
    assert Kept(s[x], s'[x]) && Kept(s[y], s'[y]);
    if s[x].kind.IsRead() {
      var w := s[x].rf.value;
      assert Kept(s[w], s'[w]) && s'[w] == s[w].(cv := s'[w].cv);
    }
  }

  /** Only the placeholder comes later in the trace than what it happens before. */
  lemma PrecedentFirst(s: Trace, x: nat, y: nat)
    requires WellClocked(s) && UninitOnce(s) && SameLocation(s, x, y) && HB(s, x, y)
    ensures x < y
  {
    if s[y].kind.Uninit? {
      UninitFirst(s, y, x);
    } else if s[x].kind.Uninit? {
      assert SameLocation(s, y, x);
    } else {
      HBForward(s, x, y);
    }
  }

  lemma HasPrecedentEvolves(s: Trace, s': Trace, y: nat, a: nat)
    requires Evolved(s, s') && WellClocked(s) && UninitOnce(s) && HasPrecedent(s, y, a)
    ensures HasPrecedent(s', y, a)
  {
    var x: nat :| Precedent(s, x, y, a);
    PrecedentEvolves(s, s', x, y, a);
  }

  lemma ForcedEvolves(s: Trace, s': Trace, changed: set<nat>, changed': set<nat>, a: nat, b: nat)
    requires Evolved(s, s') && WellClocked(s) && UninitOnce(s) && changed <= changed' && Forced(s, changed, a, b)
    requires forall y: nat :: y < |s| ==> s'[y].order == s[y].order || y in changed'
    ensures Forced(s', changed', a, b) || TouchedBy(s', changed', b)
  {
    hide WellClocked, UninitOnce, HasPrecedent, MustSee, BothFenced, ScStores;
    assert Kept(s[a], s'[a]) && Kept(s[b], s'[b]);
    if s[b].kind.Rmw? && s[b].rf == Some(a) {
    } else if ForcedByWrite(s, a, b) {
      ByWriteEvolves(s, s', a, b);
    } else {
      var y: nat :| ForcedByRead(s, changed, a, b, y);
      EvolvedAt(s, s', y);
      if y in changed' {
        assert Touches(s', y, b);
      } else {
        RulesForth(s, s', changed, changed', a, y);
        if HasPrecedent(s, y, a) {
          HasPrecedentEvolves(s, s', y, a);
        }
        assert ForcedByRead(s', changed', a, b, y);
      }
    }
  }

  lemma ByWriteEvolves(s: Trace, s': Trace, a: nat, b: nat)
    requires Evolved(s, s') && WellClocked(s) && UninitOnce(s) && ForcedByWrite(s, a, b) && b < |s|
    requires s[b].kind.IsWrite()
    ensures ForcedByWrite(s', a, b)
  {
    hide WellClocked, UninitOnce, HasPrecedent, BothFenced, ScStores;
    assert Kept(s[b], s'[b]);
    if HasPrecedent(s, b, a) {
      HasPrecedentEvolves(s, s', b, a);
    } else if BothFenced(s, a, b) {
      RulesForth(s, s', {}, {}, a, b);
    } else {
      ScStoresSame(s, s', a, b);
    }
  }

  lemma TouchedEvolves(s: Trace, s': Trace, strays: set<nat>, b: nat)
    requires Evolved(s, s') && TouchedBy(s, strays, b)
    ensures TouchedBy(s', strays, b)
  {
    var y: nat :| y in strays && Touches(s, y, b);
    EvolvedAt(s, s', y);
    assert Touches(s', y, b);
  }

  lemma TouchedMore(s: Trace, strays: set<nat>, strays': set<nat>, b: nat)
    requires strays <= strays' && TouchedBy(s, strays, b)
    ensures TouchedBy(s, strays', b)
  {
    var y: nat :| y in strays && Touches(s, y, b);
  }

  lemma ForcedAllEvolve(s: Trace, s': Trace, M: Edges, changed: set<nat>, changed': set<nat>, strays: set<nat>,
                        strays': set<nat>)
    requires AllForced(s, M, changed, strays) && Evolved(s, s') && WellClocked(s) && UninitOnce(s)
    requires changed <= changed' <= strays' && strays <= strays'
    requires forall y: nat :: y < |s| ==> s'[y].order == s[y].order || y in changed'
    ensures AllForced(s', M, changed', strays')
  {
    hide WellClocked, UninitOnce, Forced, TouchedBy, Evolved;
    forall a: nat, b: nat | (a, b) in M ensures Forced(s', changed', a, b) || TouchedBy(s', strays', b) {
      if Forced(s, changed, a, b) {
        ForcedEvolves(s, s', changed, changed', a, b);
        if TouchedBy(s', changed', b) {
          TouchedMore(s', changed', strays', b);
        }
      } else {
        TouchedEvolves(s, s', strays, b);
        TouchedMore(s', strays, strays', b);
      }
    }
  }

  lemma OvertakenEvolves(s: Trace, s': Trace, y: nat)
    requires Evolved(s, s') && Overtaken(s, y)
    ensures Overtaken(s', y)
  {
    var g: nat :| y < g < |s| && ScFence(s, g, s[g].tid) &&
                  (s[g].tid == s[y].tid || (s[y].kind.IsRead() && s[y].order.SeqCst?));
    EvolvedBelow(s, s', y, g);
    EvolvedAt(s, s', g);
    assert ScFence(s', g, s'[g].tid);
  }

  /** Whatever a run does, the constraints stay what the standard asks for. */
  lemma LawfulEvolves(s: Trace, s': Trace, M: Edges, except: set<nat>, except': set<nat>, changed: set<nat>,
                      changed': set<nat>, late: set<nat>)
    requires Lawful(s, M, except, changed, late) && Evolved(s, s') && ReadsKnown(s, except)
    requires WellClocked(s) && UninitOnce(s) && UninitOnce(s') && Settles(s, s', except, except')
    requires changed <= changed' && (forall y :: y in changed' ==> y < |s'|)
    requires forall y: nat :: y < |s| ==> s'[y].order == s[y].order || y in changed'
    ensures Lawful(s', M, except', changed', late)
  {
    hide WellClocked, UninitOnce, RulesSeen, AllForced, Evolved, Overtaken, Settles;
    RulesEvolve(s, s', M, except, except', changed, changed');
    ForcedAllEvolve(s, s', M, changed, changed', changed + late, changed' + late);
    forall y | y in late ensures Overtaken(s', y) {
      OvertakenEvolves(s, s', y);
    }
  }

  /** Growing clocks change nothing. */
  lemma LawfulGrew(s: Trace, s': Trace, M: Edges, except: set<nat>, changed: set<nat>, late: set<nat>)
    requires Lawful(s, M, except, changed, late) && ReadsKnown(s, except) && WellClocked(s) && UninitOnce(s)
    requires |s'| == |s| && forall a: nat :: a < |s| ==> s'[a] == s[a].(cv := s'[a].cv) && Le(s[a].cv, s'[a].cv)
    ensures Lawful(s', M, except, changed, late)
  {
    hide WellClocked, RulesSeen, AllForced, Overtaken;
    assert Evolved(s, s') by {
      forall a: nat | a < |s| ensures Kept(s[a], s'[a]) {
      }
    }
    assert UninitOnce(s') by {
      assert forall a: nat, b: nat :: SameLocation(s', a, b) <==> SameLocation(s, a, b);
    }
    LawfulEvolves(s, s', M, except, except, changed, changed, late);
  }

  // ------------------------------------------------------------------
  // More constraints
  // ------------------------------------------------------------------

  lemma RulesMono(s: Trace, M: Edges, M': Edges, except: set<nat>, changed: set<nat>)
    requires RulesSeen(s, M, except, changed) && M <= M'
    ensures RulesSeen(s, M', except, changed)
  {
    hide MustSee, BothFenced, ScStores, Reach, ReadKnown;
    forall b: nat | b < |s| && b !in except ensures ReadRules(s, M', changed, b) && WriteRules(s, M', b) {
      assert ReadRules(s, M, changed, b) && WriteRules(s, M, b);
      RulesMonoAt(s, M, M', changed, b);
    }
  }

  lemma RulesMonoAt(s: Trace, M: Edges, M': Edges, changed: set<nat>, b: nat)
    requires M <= M'
    ensures ReadRules(s, M, changed, b) ==> ReadRules(s, M', changed, b)
    ensures WriteRules(s, M, b) ==> WriteRules(s, M', b)
  {
    hide MustSee, BothFenced, ScStores, Reach;
    if b < |s| && s[b].kind.IsRead() && ReadKnown(s, b) && ReadRules(s, M, changed, b) {
      forall a: nat | MustSee(s, changed, a, b) ensures Reach(M', a, s[b].rf.value) {
        ReachMono(M, M', a, s[b].rf.value);
      }
    }
    if b < |s| && s[b].kind.IsWrite() && WriteRules(s, M, b) {
      forall a: nat | BothFenced(s, a, b) || ScStores(s, a, b) ensures Plus(M', a, b) {
        PlusMono(M, M', a, b);
      }
    }
  }

  /** What the read `y` of `b` asks for has a reason. */
  lemma AskedIsForced(s: Trace, changed: set<nat>, strays: set<nat>, a: nat, b: nat, y: nat)
    requires AskedRead(s, a, y, b) && Touches(s, y, b) && s[y].kind.IsRead() && s[y].rf == Some(b)
    requires b < |s| && s[b].kind.IsWrite() && s[b].loc == s[y].loc && (y in changed ==> y in strays)
    ensures Forced(s, changed, a, b) || TouchedBy(s, strays, b)
  {
    hide HasPrecedent, BeforeFence, FencedBefore, BothFenced;
    if y !in changed || HasPrecedent(s, y, a) || MustSee(s, changed, a, y) {
      assert ForcedByRead(s, changed, a, b, y);
    } else {
      assert TouchedBy(s, strays, b);
    }
  }

  lemma AskedWriteForced(s: Trace, changed: set<nat>, a: nat, b: nat)
    requires AskedWrite(s, a, b) && s[b].kind.IsWrite()
    ensures Forced(s, changed, a, b)
  {
  }

  /** A store after the last sequentially consistent one comes after them all. */
  lemma ScStoresOrdered(s: Trace, M: Edges, curr: nat, changed: set<nat>, a: nat)
    requires RulesSeen(s, M, {curr}, changed) && curr < |s| && s[curr].kind.IsWrite() && ScStores(s, a, curr)
    requires ScOrdered(s, M, curr)
    ensures Plus(M, a, curr)
  {
    hide Plus, ReadRules;
    var w := LastScWrite(s, curr, curr).value;
    EdgePlus(M, w, curr);
    if a != w {
      assert ScStores(s, a, w);
      assert WriteRules(s, M, w);
      PlusReach(M, a, w);
      ReachThenPlus(M, a, w, curr);
    }
  }

  // ------------------------------------------------------------------
  // Steps
  // ------------------------------------------------------------------

  /** The constraints of `M'` that are not in `M` are about `b`, and `a` was asked for or `y` is a stray. */
  ghost predicate NewForRead(s: Trace, M: Edges, M': Edges, curr: nat, rf: nat, late: bool) {
    M <= M' && forall a: nat, b: nat :: (a, b) in M' && (a, b) !in M ==> b == rf && (late || AskedRead(s, a, curr, rf))
  }

  ghost predicate NewForWrite(s: Trace, M: Edges, M': Edges, curr: nat, late: bool) {
    M <= M' && forall a: nat, b: nat :: (a, b) in M' && (a, b) !in M ==> b == curr && (late || AskedWrite(s, a, curr))
  }

  /** The reading half of an action that was processed, for the first time or again. */
  lemma ReadLawful(s: Trace, M: Edges, M': Edges, curr: nat, changed: set<nat>, late: set<nat>, late': set<nat>,
                   threads: nat)
    requires Lawful(s, M, {curr}, changed, late) && ReadsKnown(s, {curr}) && curr < |s| && s[curr].kind.IsRead()
    requires ReadKnown(s, curr) && OwnSettled(s, M', {curr}) && UninitOnce(s) && WellClocked(s) && Plain(s)
    requires ThreadsBelow(s, threads) && ReadOrdered(s, M', curr, s[curr].rf.value, threads)
    requires late' == late + if Overtaken(s, curr) then {curr} else {}
    requires NewForRead(s, M, M', curr, s[curr].rf.value, Overtaken(s, curr))
    ensures Lawful(s, M', {curr}, changed, late') && ReadRules(s, M', changed, curr)
  {
    hide OwnSettled, UninitOnce, WellClocked, Plain, ReadOrdered, Overtaken, Reach, BeforeFence, FencedBefore,
         BothFenced, RulesSeen, Forced, TouchedBy, AskedRead;
    RulesMono(s, M, M', {curr}, changed);
    var rf := s[curr].rf.value;
    forall a: nat | MustSee(s, changed, a, curr) ensures Reach(M', a, rf) {
      ReadRule(s, M', curr, rf, threads, a);
    }
    forall a: nat, b: nat | (a, b) in M' ensures Forced(s, changed, a, b) || TouchedBy(s, changed + late', b) {
      if (a, b) in M {
        if !Forced(s, changed, a, b) {
          TouchedMore(s, changed + late, changed + late', b);
        }
      } else if Overtaken(s, curr) {
        IsTouched(s, changed + late', b, curr);
      } else {
        AskedIsForced(s, changed, changed + late', a, b, curr);
      }
    }
  }

  lemma IsTouched(s: Trace, strays: set<nat>, b: nat, y: nat)
    requires y in strays && Touches(s, y, b)
    ensures TouchedBy(s, strays, b)
  {
  }

  /** The writing half. */
  lemma WriteLawful(s: Trace, G: Edges, M: Edges, M': Edges, pending: set<nat>, curr: nat, changed: set<nat>,
                    late: set<nat>, late': set<nat>, threads: nat)
    requires Lawful(s, M, {curr}, changed, late) && ReadRules(s, M, changed, curr) && curr < |s|
    requires s[curr].kind.IsWrite() && Consistent(s, G, M', pending) && curr !in pending && ThreadsBelow(s, threads)
    requires ReadsKnown(s, {curr}) && WriteOrdered(s, M', curr, threads)
    requires ScOrdered(s, M', curr)
    requires late <= late' && (forall y :: y in late' ==> y in late || Overtaken(s, y))
    requires NewForWrite(s, M, M', curr, curr in late')
    ensures Lawful(s, M', {}, changed, late')
  {
    hide Consistent, Plus, BothFenced, ScStores, RulesSeen, Forced, TouchedBy, WriteOrdered, ReadsKnown, AskedWrite,
         Overtaken, ReadRules;
    RulesMono(s, M, M', {curr}, changed);
    RulesMonoAt(s, M, M', changed, curr);
    WriteRulesNow(s, G, M', pending, curr, changed, threads);
    RulesAll(s, M', curr, changed);
    forall a: nat, b: nat | (a, b) in M' ensures Forced(s, changed, a, b) || TouchedBy(s, changed + late', b) {
      if (a, b) in M {
        if !Forced(s, changed, a, b) {
          TouchedMore(s, changed + late, changed + late', b);
        }
      } else if curr in late' {
        IsTouched(s, changed + late', b, curr);
      } else {
        AskedWriteForced(s, changed, a, b);
      }
    }
  }

  lemma RulesAll(s: Trace, M: Edges, curr: nat, changed: set<nat>)
    requires RulesSeen(s, M, {curr}, changed) && ReadRules(s, M, changed, curr) && WriteRules(s, M, curr)
    ensures RulesSeen(s, M, {}, changed)
  {
    hide ReadRules, WriteRules;
  }

  lemma WriteRulesNow(s: Trace, G: Edges, M: Edges, pending: set<nat>, curr: nat, changed: set<nat>, threads: nat)
    requires RulesSeen(s, M, {curr}, changed) && Consistent(s, G, M, pending) && curr !in pending && curr < |s|
    requires s[curr].kind.IsWrite() && ThreadsBelow(s, threads) && ReadsKnown(s, {curr})
    requires WriteOrdered(s, M, curr, threads)
    requires ScOrdered(s, M, curr)
    ensures WriteRules(s, M, curr)
  {
    hide Plus, Reach, HB, WriteOrdered, Settled, OwnSettled, RulesSeen, UninitOnce, WellClocked;
    forall a: nat | BothFenced(s, a, curr) ensures Plus(M, a, curr) {
      if s[a].tid == s[curr].tid {
        OwnHB(s, a, curr);
        AtomicKnown(s, a);
        AtomicKnown(s, curr);
        PairCoherent(s, M, pending, a, curr);
      } else {
        ButCurr(s, M, curr);
        WriteRule(s, M, curr, threads, a);
      }
    }
    forall a: nat | ScStores(s, a, curr) ensures Plus(M, a, curr) {
      ScStoresOrdered(s, M, curr, changed, a);
    }
  }

  lemma ButCurr(s: Trace, M: Edges, curr: nat)
    requires OwnSettled(s, M, {})
    ensures OwnSettled(s, M, {curr})
  {
    hide Coherent;
  }

  /** The last action, a read, has taken its value from `w`. */
  lemma TakeLawful(s: Trace, M: Edges, M': Edges, curr: nat, w: nat, changed: set<nat>, late: set<nat>, threads: nat)
    requires Lawful(s, M, {curr}, changed, late) && ReadsKnown(s, {curr}) && curr + 1 == |s| && s[curr].rf.None?
    requires s[curr].kind.IsRead() && !s[curr].kind.IsWrite() && w < curr && s[w].kind.IsWrite()
    requires s[w].loc == s[curr].loc && OwnSettled(s, M', {curr}) && UninitOnce(s) && WellClocked(s) && Plain(s)
    requires ThreadsBelow(s, threads) && ReadOrdered(s, M', curr, w, threads) && NewForRead(s, M, M', curr, w, false)
    ensures Lawful(SetRf(s, curr, w), M', {}, changed, late)
  {
    hide OwnSettled, WellClocked, Plain, ReadOrdered, Overtaken, Reach, BeforeFence, FencedBefore, BothFenced,
         RulesSeen, AllForced, AskedRead, LastScFence, ReadsKnown;
    var s' := SetRf(s, curr, w);
    TakeEvolves(s, curr, w);
    LawfulEvolves(s, s', M, {curr}, {curr}, changed, changed, late);
    RulesMono(s', M, M', {curr}, changed);
    forall a: nat | MustSee(s', changed, a, curr) ensures Reach(M', a, w) {
      RulesBack(s, s', changed, changed, a, curr);
      ReadRule(s, M', curr, w, threads, a);
    }
    RulesAll(s', M', curr, changed);
    TakeForced(s, M, M', curr, w, changed, changed + late);
  }

  lemma TakeEvolves(s: Trace, curr: nat, w: nat)
    requires curr + 1 == |s| && s[curr].rf.None? && !s[curr].kind.IsWrite() && UninitOnce(s)
    ensures var s' := SetRf(s, curr, w);
            Evolved(s, s') && UninitOnce(s') && Settles(s, s', {curr}, {curr}) && !Overtaken(s, curr)
  {
    var s' := SetRf(s, curr, w);
    assert forall a: nat, b: nat :: SameLocation(s', a, b) <==> SameLocation(s, a, b);
  }

  lemma TakeForced(s: Trace, M: Edges, M': Edges, curr: nat, w: nat, changed: set<nat>, strays: set<nat>)
    requires curr + 1 == |s| && s[curr].kind.IsRead() && !s[curr].kind.IsWrite() && s[curr].rf.None? && w < curr
    requires s[w].kind.IsWrite() && s[w].loc == s[curr].loc && UninitOnce(s) && WellClocked(s) && changed <= strays
    requires AllForced(SetRf(s, curr, w), M, changed, strays) && NewForRead(s, M, M', curr, w, false)
    ensures AllForced(SetRf(s, curr, w), M', changed, strays)
  {
    hide WellClocked, AskedRead, Forced, TouchedBy;
    var s' := SetRf(s, curr, w);
    forall a: nat, b: nat | (a, b) in M' && (a, b) !in M
      ensures Forced(s', changed, a, b) || TouchedBy(s', strays, b)
    {
      TakeEvolves(s, curr, w);
      AskedReadEvolves(s, s', a, curr, w);
      AskedIsForced(s', changed, strays, a, b, curr);
    }
  }

  lemma AskedReadEvolves(s: Trace, s': Trace, a: nat, curr: nat, rf: nat)
    requires Evolved(s, s') && WellClocked(s) && UninitOnce(s) && AskedRead(s, a, curr, rf) && s[curr].kind.IsAtomic()
    requires s'[curr].order == s[curr].order && s'[curr].kind.IsAtomic()
    ensures AskedRead(s', a, curr, rf)
  {
    hide WellClocked, HasPrecedent, BeforeFence, FencedBefore, BothFenced, UninitOnce;
    assert Kept(s[a], s'[a]) && Kept(s[curr], s'[curr]);
    if HasPrecedent(s, curr, a) {
      HasPrecedentEvolves(s, s', curr, a);
    } else {
      assert MustSee(s, {}, a, curr);
      RulesForth(s, s', {}, {}, a, curr);
    }
  }

  /** The second half names another order than the first. */
  function Switched(s: Trace, curr: nat, order: MemoryOrder): set<nat>
    requires curr < |s|
  {
    if s[curr].order == order then {} else {curr}
  }

  /** Closing a read-modify-write, the last action, of which the writing half is still to be processed. */
  lemma CloseLawful(s: Trace, M: Edges, curr: nat, order: MemoryOrder, succeeded: bool, changed: set<nat>,
                    late: set<nat>)
    requires Lawful(s, M, {}, changed, late) && ReadsKnown(s, {}) && UninitOnce(s) && WellClocked(s)
    requires curr + 1 == |s| && s[curr].kind.Rmwr?
    ensures ReadKnown(s, curr)
    ensures var s', changed' := CloseRmw(s, curr, order, succeeded), changed + Switched(s, curr, order);
            var M' := if succeeded then M + {(s[curr].rf.value, curr)} else M;
            Lawful(s', M', if succeeded then {curr} else {}, changed', late) && ReadRules(s', M', changed', curr)
  {
    assert ReadKnown(s, curr);
    hide ReadsKnown, WellClocked, RulesSeen, AllForced, Overtaken, ReadRules, WriteRules, Reach;
    var s', changed' := CloseRmw(s, curr, order, succeeded), changed + Switched(s, curr, order);
    var except := if succeeded then {curr} else {};
    CloseFrame(s, curr, order, succeeded);
    LawfulEvolves(s, s', M, {}, except, changed, changed', late);
    RulesAt(s, M, changed, curr);
    ReadRulesEvolve(s, s', M, changed, changed', curr);
    if succeeded {
      var M' := M + {(s[curr].rf.value, curr)};
      RulesMono(s', M, M', except, changed');
      RulesMonoAt(s', M, M', changed', curr);
      ClosedForced(s', M, curr, changed', changed' + late);
    }
  }

  lemma RulesAt(s: Trace, M: Edges, changed: set<nat>, b: nat)
    requires RulesSeen(s, M, {}, changed) && b < |s|
    ensures ReadRules(s, M, changed, b) && WriteRules(s, M, b)
  {
    hide ReadRules, WriteRules;
  }

  lemma ClosedForced(s: Trace, M: Edges, curr: nat, changed: set<nat>, strays: set<nat>)
    requires AllForced(s, M, changed, strays) && curr < |s| && s[curr].kind.Rmw? && ReadKnown(s, curr)
    ensures AllForced(s, M + {(s[curr].rf.value, curr)}, changed, strays)
  {
    hide ForcedByWrite, ForcedByRead, TouchedBy;
    assert Forced(s, changed, s[curr].rf.value, curr);
  }

  lemma CloseFrame(s: Trace, curr: nat, order: MemoryOrder, succeeded: bool)
    requires curr + 1 == |s| && s[curr].kind.Rmwr? && ReadKnown(s, curr) && UninitOnce(s)
    ensures var s' := CloseRmw(s, curr, order, succeeded);
            && Evolved(s, s') && UninitOnce(s') && ReadKnown(s', curr)
            && Settles(s, s', {}, if succeeded then {curr} else {})
            && forall b: nat :: b < |s| && b != curr ==> s'[b] == s[b]
  {
    var s' := CloseRmw(s, curr, order, succeeded);
    assert forall a: nat, b: nat :: SameLocation(s', a, b) <==> SameLocation(s, a, b);
  }
}
