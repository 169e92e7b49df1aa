/**
 The analysis of finished traces for sequential consistency, in its slow version:
 clock vectors take in every order that is forced, to a fixpoint. What they say
 holds in every sequentially consistent order, so a cycle refutes all of them.
 */
module ScAnalyses {
  import opened Digraph
  import opened Optional
  import opened Clocks
  import opened Actions
  import opened HappensBefore
  import opened ScBranches
  import opened ScChecks
  import opened ScChoices
  import opened ScFixpoints
  import opened ScOrders
  import opened ScRuns
  import opened ScSearches
  import opened ScTurns

  class ScAnalysis {
    const p: Program
    var cvs: seq<Clock>
    var cyclic: bool
    var allowNonSC: bool
    var cvChanged: bool
    var threadLists: seq<seq<nat>>

    /** The actions taken so far, in order. */
    ghost var emitted: seq<nat>

    ghost predicate Valid()
      reads this
    {
      Proper(p) && |cvs| == |p.s| && Bounded(p, cvs) && Sound() && Traced() && Remaining()
    }

    /** Every order that begins as chosen agrees with the clocks; there is none once a cycle was found. */
    ghost predicate Sound()
      reads this`cvs, this`emitted, this`cyclic
    {
      |cvs| == |p.s| && forall pos :: Allowed(p, emitted, pos) ==> Holds(p, cvs, pos) && !cyclic
    }

    /** Without a cycle, placeholders know nothing, and what is known of remaining actions is known along edges. */
    ghost predicate Traced()
      reads this`cvs, this`emitted, this`cyclic
    {
      |cvs| == |p.s| && (cyclic || (Blank(p, cvs) && Grounded(p, cvs, emitted)))
    }

    /** The lists hold what has not been taken. */
    ghost predicate Remaining()
      reads this`threadLists, this`emitted
    {
      && |threadLists| == p.threads
      && (forall t: nat, i: nat :: t < p.threads && i < |threadLists[t]| ==> IsRemaining(threadLists[t][i], t))
      && (forall t: nat, i: nat, j: nat :: t < p.threads && i < j < |threadLists[t]| ==>
          threadLists[t][i] < threadLists[t][j])
    }

    ghost predicate IsRemaining(a: nat, t: nat)
      reads this`emitted
    {
      a < |p.s| && p.s[a].tid == t && a !in emitted
    }

    constructor (program: Program)
      requires Proper(program)
      ensures Valid() && p == program && !cyclic && emitted == [] && Complete(p, threadLists, emitted)
      ensures cvs == InitialClocks(p)
    {
      p := program;
      cvs, cyclic, allowNonSC, cvChanged := InitialClocks(program), false, false, false;
      threadLists := seq(program.threads, t => []);
      emitted := [];
      new;
      Starts();
      BuildVectors();
    }

    lemma Starts()
      requires Proper(p) && cvs == InitialClocks(p) && !cyclic && emitted == []
      ensures |cvs| == |p.s| && Bounded(p, cvs) && Sound() && Traced()
    {
      hide Proper, Bounded, Holds, Blank, Grounded, Allowed;
      StartsSound(p, cvs);
      StartsTraced(p, cvs);
    }

    /** buildVectorsSlow: the actions by thread. */
    method BuildVectors()
      requires Valid() && emitted == [] && forall t :: 0 <= t < p.threads ==> threadLists[t] == []
      modifies this`threadLists
      ensures Valid()
      ensures Complete(p, threadLists, emitted)
    {
      hide Bounded, Sound, Traced;
      var a := 0;
      while a < |p.s|
        invariant a <= |p.s| && Remaining()
        invariant forall b: nat :: b < a ==> b in threadLists[p.s[b].tid]
        invariant forall t: nat, i: nat :: t < p.threads && i < |threadLists[t]| ==> threadLists[t][i] < a
      {
        var tid := p.s[a].tid;
        threadLists := threadLists[tid := threadLists[tid] + [a]];
        a := a + 1;
      }
    }

    /**
     What `act2` knows may be merged into `act`, in all orders still allowed. Without a cycle,
     this is along an edge, or `act2` knows only of what has been taken.
     */
    ghost predicate Justified(act2: nat, act: nat)
      requires |cvs| == |p.s| && act < |p.s| && act2 < |p.s|
      reads this`cvs, this`emitted, this`cyclic
    {
      && (forall pos :: Allowed(p, emitted, pos) ==> Mergeable(p, cvs, pos, act2, act))
      && (cyclic || Ordered(p, cvs, act2, act) || OnlyTaken(p, cvs, emitted, act2))
      && (cyclic || (p.s[act].kind.Uninit? ==> p.s[act2].kind.Uninit?))
    }

    /** ClockVector::merge on the clock of `act`, telling whether an entry rose. */
    method MergeClock(act: nat, act2: nat) returns (merged: bool)
      requires Valid() && act < |p.s| && act2 < |p.s| && Justified(act2, act)
      modifies this`cvs
      ensures Valid() && |cvs| == |old(cvs)|
      ensures if merged then Slack(p, cvs) < Slack(p, old(cvs)) else Slack(p, cvs) <= Slack(p, old(cvs))
      ensures cvs == old(cvs)[act := Join(old(cvs)[act], old(cvs)[act2])]
      ensures !merged ==> SameClocks(old(cvs), cvs) && Covers(cvs, act, act2)
      ensures merged <==> Rises(old(cvs)[act], old(cvs)[act2])
    {
      hide Slack, Bounded, Holds, Mergeable, Proper, StartsWith, Ordered, OnlyTaken, Grounded;
      merged := exists t | 0 <= t < |cvs[act2]| :: cvs[act2][t] > At(cvs[act], t);
      MergeSlack(p, cvs, act2, act);
      RaisedIsEntry(cvs[act], cvs[act2]);
      if !cyclic {
        MergeGrounded(p, cvs, emitted, act2, act);
      }
      forall pos | Allowed(p, emitted, pos) ensures Holds(p, cvs[act := Join(cvs[act], cvs[act2])], pos) {
        MergeHolds(p, cvs, pos, act2, act);
      }
      if !merged {
        assert Covers(cvs, act, act2);
        JoinSame(cvs, act2, act);
        CoversSame(cvs, cvs[act := Join(cvs[act], cvs[act2])]);
      }
      cvs := cvs[act := Join(cvs[act], cvs[act2])];
    }

    /** As long as any edge may be added when it is over, nothing was merged. */
    twostate predicate Quiet()
      reads this
    {
      && |cvs| == |old(cvs)| == |p.s|
      && (old(cyclic) ==> cyclic)
      && (allowNonSC ==> old(allowNonSC) && SameClocks(old(cvs), cvs))
    }

    /** The clocks above with nothing left to take in are still the same; a cycle was found only if there are none. */
    twostate predicate Tight()
      reads this
    {
      && (old(cyclic) ==> cyclic)
      && (old(cyclic) || (if cyclic then Bounds(p, old(cvs)) == iset{} else Bounds(p, cvs) == Bounds(p, old(cvs))))
    }

    /** SCAnalysis::merge in the slow version. */
    method Merge(act: nat, act2: nat) returns (merged: bool)
      requires Valid() && act < |p.s| && act2 < |p.s| && Justified(act2, act)
      modifies this`cvs, this`cyclic, this`allowNonSC, this`cvChanged
      ensures Valid() && Slack(p, cvs) <= Slack(p, old(cvs))
      ensures merged ==> Slack(p, cvs) < Slack(p, old(cvs))
      ensures Slack(p, cvs) == Slack(p, old(cvs)) ==> allowNonSC == old(allowNonSC)
      ensures Quiet() && allowNonSC == (old(allowNonSC) && !merged)
      ensures merged <==> MayMerge(p, old(cvs), old(allowNonSC), act, act2) && Rises(old(cvs)[act], old(cvs)[act2])
      ensures cyclic <==> old(cyclic) || (p.s[act].now != 0 && At(old(cvs)[act2], p.s[act].tid) >= p.s[act].now)
      ensures cvs == if MayMerge(p, old(cvs), old(allowNonSC), act, act2)
              then old(cvs)[act := Join(old(cvs)[act], old(cvs)[act2])]
                     else old(cvs)
      ensures allowNonSC && !cyclic ==> Covers(cvs, act, act2) && !Knows(p, cvs, act2, act)
      ensures old(cyclic || Ordered(p, cvs, act2, act)) ==> Tight()
    {
      hide Slack, Bounded, Allowed, Holds, Mergeable, Covers, Ordered, OnlyTaken, Grounded, Bounds;
      if !cyclic && Ordered(p, cvs, act2, act) {
        MergeBounds(p, cvs, act2, act);
      }
      if At(cvs[act2], p.s[act].tid) >= p.s[act].now && p.s[act].now != 0 {
        KnownIsCycle(act2, act);
        if !cyclic && Ordered(p, cvs, act2, act) {
          CloseBounds(p, cvs, act2, act);
        }
        cyclic := true;
        return false;
      }
      if allowNonSC {
        KnowsSame(p, cvs, cvs);
        merged := MergeClock(act, act2);
        if merged {
          allowNonSC, cvChanged := false, true;
        } else {
          KnowsSame(p, old(cvs), cvs);
        }
      } else if HB(p.s, act2, act) ||
                (p.s[act].order.SeqCst? && p.s[act2].order.SeqCst? && p.s[act2].now < p.s[act].now) {
        merged := MergeClock(act, act2);
      } else {
        merged := false;
      }
    }

    /** When the merge would close a cycle, no order is left. */
    lemma KnownIsCycle(act2: nat, act: nat)
      requires Valid() && act < |p.s| && act2 < |p.s| && Justified(act2, act)
      requires At(cvs[act2], p.s[act].tid) >= p.s[act].now && p.s[act].now != 0
      ensures forall pos :: !Allowed(p, emitted, pos)
    {
      forall pos ensures !Allowed(p, emitted, pos) {
        if Allowed(p, emitted, pos) {
          MergeHolds(p, cvs, pos, act2, act);
        }
      }
    }

    lemma ForcedJustified(act2: nat, act: nat)
      requires Valid() && Forced(p, act2, act) && Numbered(p.s, act) && Numbered(p.s, act2)
      ensures Justified(act2, act) && Ordered(p, cvs, act2, act)
    {
      forall pos | Allowed(p, emitted, pos) ensures Mergeable(p, cvs, pos, act2, act) {
        EarlierMergeable(p, cvs, pos, act2, act);
      }
    }

    /** Placeholders know nothing: merging one changes nothing that matters. */
    lemma PlaceholderJustified(act2: nat, act: nat)
      requires Valid() && act < |p.s| && act2 < |p.s| && p.s[act2].kind.Uninit?
      ensures Justified(act2, act) && Ordered(p, cvs, act2, act)
    {
      forall pos | Allowed(p, emitted, pos) ensures Mergeable(p, cvs, pos, act2, act) {
        PlaceholderMergeable(p, cvs, pos, act2, act);
      }
    }

    lemma ReadFirstJustified(read: nat, write2: nat)
      requires Valid() && Rival(p, write2, read) && Knows(p, cvs, write2, p.s[read].rf.value)
      ensures Justified(read, write2) && (cyclic || Ordered(p, cvs, read, write2))
    {
      if !cyclic {
        BlankKnows(p, cvs, write2, p.s[read].rf.value);
      }
      forall pos | Allowed(p, emitted, pos) ensures Mergeable(p, cvs, pos, read, write2) {
        ReadFirst(p, cvs, pos, read, write2);
        EarlierMergeable(p, cvs, pos, read, write2);
      }
    }

    lemma WriteFirstJustified(read: nat, write2: nat)
      requires Valid() && Rival(p, write2, read) && Since(cvs[read], p.s[write2].tid, p.s[write2].now)
      ensures Justified(write2, p.s[read].rf.value) && Ordered(p, cvs, write2, p.s[read].rf.value)
    {
      var write := p.s[read].rf.value;
      forall pos | Allowed(p, emitted, pos) ensures Mergeable(p, cvs, pos, write2, write) {
        WriteFirst(p, cvs, pos, read, write2);
        EarlierMergeable(p, cvs, pos, write2, write);
      }
    }

    // ----------------------------------------------------------------
    // Reads
    // ----------------------------------------------------------------

    /** How the steps of an analysis report progress: `changed` only when a clock has grown. */
    twostate predicate Progress(changed: bool)
      reads this
    {
      && |cvs| == |old(cvs)| == |p.s|
      && Slack(p, cvs) <= Slack(p, old(cvs))
      && (changed ==> Slack(p, cvs) < Slack(p, old(cvs)))
      && (Slack(p, cvs) == Slack(p, old(cvs)) ==> allowNonSC == old(allowNonSC))
      && Tight()
    }

    /** processReadSlow for one write of another thread; `stop` when no earlier one needs a look. */
    method ProcessWrite(read: nat, write2: nat, future: bool) returns (changed: bool, updateFuture: bool, stop: bool)
      requires Valid() && Rival(p, write2, read)
      modifies this`cvs, this`cyclic, this`allowNonSC, this`cvChanged
      ensures Valid() && Progress(changed) && Quiet()
      ensures allowNonSC && !future ==> !updateFuture
      ensures allowNonSC && !future && !cyclic && Numbered(p.s, write2) ==>
                && Rules(p, cvs, write2, read)
                && (stop ==> Knows(p, cvs, read, write2) && !Knows(p, cvs, write2, p.s[read].rf.value))
    {
      hide Slack, Bounded, Sound, Traced, Remaining, Bounds, Ordered, Justified, Covers;
      changed, updateFuture, stop := false, future, false;
      var write := p.s[read].rf.value;
      if Since(cvs[write2], p.s[write].tid, p.s[write].now) {
        if p.s[read].now < p.s[write2].now || !updateFuture {
          ReadFirstJustified(read, write2);
          var status := Merge(write2, read);
          FollowSame(old(cvs), cvs, allowNonSC);
          changed := changed || status;
          updateFuture := updateFuture || (status && p.s[write2].now < p.s[read].now);
        }
      }
      if Since(cvs[read], p.s[write2].tid, p.s[write2].now) {
        if p.s[write2].now < p.s[write].now || !updateFuture {
          WriteFirstJustified(read, write2);
          ghost var middle := cvs;
          var status := Merge(write, write2);
          FollowSame(middle, cvs, allowNonSC);
          changed := changed || status;
          updateFuture := updateFuture || (status && p.s[write].now < p.s[write2].now);
        }
        stop := true;
      }
    }

    /** processReadSlow. */
    method ProcessReadSlow(read: nat, future: bool) returns (changed: bool, updateFuture: bool)
      requires Valid() && read < |p.s| && p.s[read].kind.IsRead() && Reads(p.s, read)
      modifies this`cvs, this`cyclic, this`allowNonSC, this`cvChanged
      ensures Valid() && Progress(changed) && Quiet()
      ensures allowNonSC && !future ==> !updateFuture && (cyclic || ReadScanned(p, cvs, read))
    {
      hide Slack, Bounded, Sound, Traced, Remaining, Bounds, Ordered, Justified, SameClocks, Covers, ThreadScanned,
        ReadScanned, Rival, Knows, Proper;
      changed, updateFuture := false, future;
      ghost var c0 := cvs;
      SameRefl(cvs);
      var write := p.s[read].rf.value;
      if p.s[write].now < p.s[read].now || !updateFuture {
        ForcedJustified(write, read);
        var merged := Merge(read, write);
        updateFuture := merged && p.s[read].now < p.s[write].now;
        changed := updateFuture;
        TakesBack(p, c0, cvs, allowNonSC, read, write);
      }
      var i := 0;
      while i < p.threads
        invariant i <= p.threads && Valid() && Progress(changed) && Quiet() && (allowNonSC && !future ==> !updateFuture)
        invariant allowNonSC && !future && !cyclic ==>
                    Takes(p, c0, read, write) && forall t: nat :: t < i && t != p.s[read].tid ==>
                          ThreadScanned(p, c0, read, t, 0)
      {
        if i != p.s[read].tid {
          var more;
          more, updateFuture := ScanThread(read, i, updateFuture, c0, future);
          changed := changed || more;
        }
        i := i + 1;
      }
      if allowNonSC && !future && !cyclic {
        ScannedAll(p, c0, read);
        ReadScannedSame(p, c0, cvs, read);
      }
    }

    /** The inner loop of processReadSlow for one write; `stop` is its break. */
    method ScanWrite(read: nat, i: nat, write2: nat, future: bool, ghost c0: seq<Clock>, ghost future0: bool)
      returns (changed: bool, updateFuture: bool, stop: bool)
      requires Valid() && read < |p.s| && p.s[read].kind.IsRead() && Reads(p.s, read) && i < p.threads &&
               i != p.s[read].tid
      requires write2 < |p.s| && p.s[write2].tid == i && Rival(p, write2, read)
      requires |c0| == |p.s| && (allowNonSC ==> SameClocks(c0, cvs)) && (allowNonSC && !future0 ==> !future)
      requires allowNonSC && !future0 && !cyclic ==> ThreadScanned(p, c0, read, i, write2 + 1)
      modifies this`cvs, this`cyclic, this`allowNonSC, this`cvChanged
      ensures Valid() && Progress(changed) && Quiet()
      ensures allowNonSC && !future0 ==>
                !updateFuture && (cyclic || ThreadScanned(p, c0, read, i, if stop then 0 else write2))
      ensures allowNonSC ==> SameClocks(c0, cvs)
    {
      hide Slack, Bounded, Sound, Traced, Remaining, Bounds, Ordered, Justified, SameClocks, Rules, ThreadScanned,
        Rival, Knows, Reads;
      RivalReads(p, write2, read);
      ghost var c1 := cvs;
      SameRefl(cvs);
      changed, updateFuture, stop := ProcessWrite(read, write2, future);
      QuietTrans(c1, c0, c1, cvs, allowNonSC);
      if allowNonSC && !future0 && !cyclic {
        RulesBack(p, c0, cvs, write2, read);
        if stop {
          ThreadStop(p, c0, read, i, write2 + 1);
        } else {
          ThreadStep(p, c0, read, i, write2 + 1);
        }
      }
    }

    /** The inner loop of processReadSlow: the writes of thread `i`, latest first. */
    method ScanThread(read: nat, i: nat, future: bool, ghost c0: seq<Clock>, ghost future0: bool)
      returns (changed: bool, updateFuture: bool)
      requires Valid() && read < |p.s| && p.s[read].kind.IsRead() && Reads(p.s, read) && i < p.threads &&
               i != p.s[read].tid
      requires |c0| == |p.s| && (allowNonSC ==> SameClocks(c0, cvs)) && (allowNonSC && !future0 ==> !future)
      modifies this`cvs, this`cyclic, this`allowNonSC, this`cvChanged
      ensures Valid() && Progress(changed) && Quiet()
      ensures allowNonSC && !future0 ==> !updateFuture && (cyclic || ThreadScanned(p, c0, read, i, 0))
      ensures allowNonSC ==> SameClocks(c0, cvs)
    {
      hide Slack, Bounded, Sound, Traced, Remaining, Bounds, Ordered, Justified, SameClocks, Rules, ThreadScanned,
        Rival, Reads, Proper;
      changed, updateFuture := false, future;
      SameRefl(cvs);
      ThreadStart(p, c0, read, i);
      RivalIs(p, read, read);
      var write := p.s[read].rf.value;
      var k: nat := |p.s|;
      while k > 0
        invariant k <= |p.s| && Valid() && Progress(changed) && Quiet() && (allowNonSC && !future0 ==> !updateFuture)
        invariant allowNonSC && !future0 && !cyclic ==> ThreadScanned(p, c0, read, i, k)
        invariant allowNonSC ==> SameClocks(c0, cvs)
      {
        var write2 := k - 1;
        if p.s[write2].tid == i {
          RivalIs(p, write2, read);
        }
        if p.s[write2].loc == p.s[read].loc && p.s[write2].tid == i && p.s[write2].kind.IsWrite() && write2 != write {
          ghost var c1 := cvs;
          var status, stop;
          status, updateFuture, stop := ScanWrite(read, i, write2, updateFuture, c0, future0);
          changed := changed || status;
          QuietTrans(old(cvs), old(cvs), c1, cvs, allowNonSC);
          if stop {
            break;
          }
        } else if allowNonSC && !future0 && !cyclic {
          ThreadSkip(p, c0, read, i, k);
        }
        k := k - 1;
      }
    }

    // ----------------------------------------------------------------
    // The fixpoint
    // ----------------------------------------------------------------

    /** The array of last actions: after an action of a thread was visited, its latest before `k`. */
    ghost predicate Latest(lastAct: seq<Option<nat>>, k: nat)
    {
      && |lastAct| == p.threads
      && (forall t: nat :: t < p.threads && lastAct[t].Some? ==>
          lastAct[t].value < |p.s| && p.s[lastAct[t].value].tid == t)
      && (forall b: nat :: b < k && b < |p.s| && p.s[b].tid < p.threads ==>
            lastAct[p.s[b].tid].Some? && b <= lastAct[p.s[b].tid].value < k)
    }

    /** The body of the loop of computeCVSlow for one action. */
    method Visit(act: nat, lastAct: seq<Option<nat>>, future: bool) returns (changed: bool, updateFuture: bool)
      requires Valid() && act < |p.s| && Latest(lastAct, act)
      modifies this`cvs, this`cyclic, this`allowNonSC, this`cvChanged
      ensures Valid() && Progress(changed) && Quiet()
      ensures allowNonSC && !future ==> !updateFuture && (cyclic || Settled(p, cvs, act))
    {
      hide Slack, Bounded, Sound, Traced, Remaining, Bounds, Ordered, Justified, SameClocks, Covers, ReadScanned,
        HasPrevious;
      updateFuture := future;
      ghost var c0 := cvs;
      changed := VisitEdges(act, lastAct);
      ghost var c1 := cvs;
      if p.s[act].kind.IsRead() {
        assert Reads(p.s, act);
        var more;
        more, updateFuture := ProcessReadSlow(act, updateFuture);
        changed := changed || more;
        QuietTrans(c0, c1, c1, cvs, allowNonSC) by {
          SameRefl(c1);
        }
      }
      if allowNonSC && !future && !cyclic {
        SameRefl(c1);
        EdgesSettled(act, lastAct, c1);
      }
    }

    /** The edges from the previous action of the thread, its creator and the thread joined. */
    method VisitEdges(act: nat, lastAct: seq<Option<nat>>) returns (changed: bool)
      requires Valid() && act < |p.s| && Latest(lastAct, act)
      modifies this`cvs, this`cyclic, this`allowNonSC, this`cvChanged
      ensures Valid() && Progress(changed) && Quiet()
      ensures allowNonSC && !cyclic ==> EdgesIn(act, lastAct, cvs)
    {
      hide Slack, Bounded, Sound, Traced, Remaining, Bounds, Ordered, Justified, SameClocks, Covers, HasPrevious,
        Latest;
      changed := false;
      ghost var c0 := cvs;
      SameRefl(cvs);
      LatestLength(lastAct, act);
      var last := if act in p.starts then p.starts[act] else lastAct[p.s[act].tid];
      if last.Some? {
        PreviousJustified(act, lastAct, last.value);
        var _ := Merge(act, last.value);
      }
      ghost var c1 := cvs;
      if act in p.joins {
        ForcedJustified(p.joins[act], act);
        changed := Merge(act, p.joins[act]);
        QuietTrans(c0, c1, c1, cvs, allowNonSC) by {
          SameRefl(c1);
        }
        FollowCovers(c1, cvs, allowNonSC);
      }
    }

    ghost predicate EdgesIn(act: nat, lastAct: seq<Option<nat>>, c: seq<Clock>) {
      && |c| == |p.s| && act < |p.s| && |lastAct| == p.threads && p.s[act].tid < p.threads
      && (var last := if act in p.starts then p.starts[act] else lastAct[p.s[act].tid];
          last.Some? ==> last.value < |p.s| && Takes(p, c, act, last.value))
      && (act in p.joins ==> p.joins[act] < |p.s| && Takes(p, c, act, p.joins[act]))
    }

    /** The array after a pass will do for the next. */
    lemma LatestStale(lastAct: seq<Option<nat>>, k: nat)
      requires Latest(lastAct, k)
      ensures Latest(lastAct, 0)
    {
    }

    lemma LatestNext(lastAct: seq<Option<nat>>, k: nat)
      requires Latest(lastAct, k) && k < |p.s| && p.s[k].tid < p.threads
      ensures |lastAct| == p.threads && Latest(lastAct[p.s[k].tid := Some(k)], k + 1)
    {
    }

    lemma LatestLength(lastAct: seq<Option<nat>>, k: nat)
      requires Latest(lastAct, k)
      ensures |lastAct| == p.threads
    {
    }

    /** The edges that were merged are all that a pass asks for. */
    lemma EdgesSettled(act: nat, lastAct: seq<Option<nat>>, c: seq<Clock>)
      requires Valid() && act < |p.s| && Latest(lastAct, act) && EdgesIn(act, lastAct, c) && SameClocks(c, cvs)
      requires p.s[act].kind.IsRead() ==> Reads(p.s, act) && ReadScanned(p, cvs, act)
      ensures Settled(p, cvs, act)
    {
      hide Slack, Bounded, Sound, Traced, Remaining, Bounds, Ordered, Covers, ReadScanned, SameClocks;
      CoversSame(c, cvs);
      KnowsSame(p, c, cvs);
      forall b: nat | Numbered(p.s, act) && IsPrevious(p, b, act) ensures Takes(p, cvs, act, b) {
        assert lastAct[p.s[b].tid] == Some(b);
        assert HasPrevious(p.s, act);
      }
    }

    /** Even when the array of last actions was not reset, what it holds for an action is harmless. */
    lemma PreviousJustified(act: nat, lastAct: seq<Option<nat>>, last: nat)
      requires Valid() && act < |p.s| && Latest(lastAct, act)
      requires (if act in p.starts then p.starts[act] else lastAct[p.s[act].tid]) == Some(last)
      ensures last < |p.s| && Justified(last, act) && Ordered(p, cvs, last, act)
    {
      hide Slack, Bounded, Sound, Traced, Remaining, Bounds, Ordered, Justified;
      if act in p.starts {
        ForcedJustified(last, act);
      } else if p.s[act].kind.Uninit? {
        assert p.s[last].kind.Uninit?;
        PlaceholderJustified(last, act);
      } else {
        assert Numbered(p.s, act) && HasPrevious(p.s, act);
        var b: nat :| b < act && p.s[b].tid == p.s[act].tid;
        assert last < act;
        ForcedJustified(last, act);
      }
    }

    /**
     computeCVSlow. The array of last actions is not reset when the analysis starts to
     add edges that are not from happens-before. Every pass either lets clocks grow, or
     switches to adding such edges, or is the last.
     */
    method ComputeCVSlow()
      requires Valid()
      modifies this`cvs, this`cyclic, this`allowNonSC, this`cvChanged
      ensures Valid() && allowNonSC && |cvs| == |p.s| && (old(cyclic) ==> cyclic)
      ensures !cyclic ==> Saturated(p, cvs) && Least(p, old(cvs), cvs)
      ensures !old(cyclic) ==> (cyclic <==> Bounds(p, old(cvs)) == iset{})
    {
      hide Slack, Bounded, Sound, Traced, Remaining, Bounds, Ordered, Justified, Saturated, Settled;
      var changed, firstTime := true, true;
      var lastAct: seq<Option<nat>> := seq(p.threads, t => None);
      while changed
        invariant changed && Valid() && Latest(lastAct, 0) && Tight()
        decreases Slack(p, cvs), if allowNonSC then 0 else 1, firstTime
      {
        changed := changed && firstTime;
        firstTime := false;
        var more;
        more, lastAct := Pass(lastAct);
        changed := changed || more;
        if changed {
          lastAct := seq(p.threads, t => None);
        } else if !allowNonSC {
          allowNonSC := true;
          changed := true;
        } else {
          if !cyclic {
            SettledSaturated(p, cvs);
            if !old(cyclic) {
              SaturatedLeast(p, old(cvs), cvs);
            }
          }
          break;
        }
      }
    }

    /** One pass over the trace. */
    method Pass(before: seq<Option<nat>>) returns (changed: bool, lastAct: seq<Option<nat>>)
      requires Valid() && Latest(before, 0)
      modifies this`cvs, this`cyclic, this`allowNonSC, this`cvChanged
      ensures Valid() && Latest(lastAct, 0) && Progress(changed)
      ensures allowNonSC && !cyclic ==> forall a: nat :: a < |p.s| ==> Settled(p, cvs, a)
    {
      hide Slack, Bounded, Sound, Traced, Remaining, Bounds, Ordered, Justified, SameClocks, Settled, Latest;
      changed, lastAct := false, before;
      var updateFuture := false;
      SameRefl(cvs);
      ghost var c0 := cvs;
      var it := 0;
      while it < |p.s|
        invariant it <= |p.s| && Valid() && Latest(lastAct, it) && Progress(changed) && Quiet()
        invariant allowNonSC ==> !updateFuture
        invariant allowNonSC && !cyclic ==> forall a: nat :: a < it ==> Settled(p, c0, a)
      {
        var more;
        ghost var c1 := cvs;
        more, updateFuture := Visit(it, lastAct, updateFuture);
        changed := changed || more;
        QuietTrans(c0, c0, c1, cvs, allowNonSC);
        if allowNonSC && !cyclic {
          SameBack(c0, cvs);
          SettledSame(p, cvs, c0, it);
        }
        LatestNext(lastAct, it);
        lastAct := lastAct[p.s[it].tid := Some(it)];
        it := it + 1;
      }
      LatestStale(lastAct, it);
      if allowNonSC && !cyclic {
        forall a: nat | a < |p.s| ensures Settled(p, cvs, a) {
          SettledSame(p, c0, cvs, a);
        }
      }
    }

    /** reset, buildVectorsSlow and computeCV, as a rollback calls them. */
    method Restart()
      requires Proper(p)
      modifies this
      ensures Valid() && emitted == [] && Complete(p, threadLists, emitted) && allowNonSC && |cvs| == |p.s|
      ensures cyclic <==> Bounds(p, InitialClocks(p)) == iset{}
      ensures !cyclic ==> Saturated(p, cvs) && Least(p, InitialClocks(p), cvs)
    {
      hide Proper, Bounded, Sound, Traced, Bounds, Saturated, Least, InitialClocks;
      threadLists := seq(p.threads, t => []);
      emitted, cyclic, cvs := [], false, InitialClocks(p);
      Starts();
      BuildVectors();
      ComputeCVSlow();
    }

    // ----------------------------------------------------------------
    // Choices
    // ----------------------------------------------------------------

    lemma ListsInTrace()
      requires Valid()
      ensures |cvs| == |p.s| && Listed(p, threadLists, emitted)
      ensures forall t: nat :: t < p.threads ==> InTrace(p, threadLists[t])
      ensures forall t: nat, i: nat :: t < p.threads && i < |threadLists[t]| ==>
                p.s[threadLists[t][i]].tid == t && threadLists[t][i] !in emitted
    {
      forall t: nat, i: nat | t < p.threads && i < |threadLists[t]| ensures IsRemaining(threadLists[t][i], t) {
      }
    }

    /** The inner loop of updateConstraints. */
    method FindNextWrite(act: nat, list: seq<nat>) returns (w: Option<nat>)
      requires |cvs| == |p.s| && act < |p.s| && InTrace(p, list)
      ensures w == NextWrite(p, cvs, act, list)
    {
      var k := 0;
      while k < |list|
        invariant 0 <= k <= |list| && InTrace(p, list[k..]) &&
                  NextWrite(p, cvs, act, list) == NextWrite(p, cvs, act, list[k..])
      {
        var write := list[k];
        assert list[k..][1..] == list[k + 1..];
        if p.s[write].kind.IsWrite() {
          if Since(cvs[write], p.s[act].tid, p.s[act].now) {
            return None;
          }
          if p.s[write].loc == p.s[act].loc {
            return Some(write);
          }
        }
        k := k + 1;
      }
      w := None;
    }

    /** The turn of updateConstraints for thread `i`. */
    method ConstrainThread(act: nat, i: nat) returns (changed: bool)
      requires Valid() && act < |p.s| && act in emitted && i < p.threads && i != p.s[act].tid
      requires cyclic || Ripe(p, cvs, emitted, act)
      requires |threadLists| == p.threads && InTrace(p, threadLists[i])
      modifies this`cvs, this`cyclic, this`allowNonSC, this`cvChanged
      ensures Valid() && |cvs| == |old(cvs)| == |p.s|
      ensures var w := NextWrite(p, old(cvs), act, threadLists[i]);
              && (changed <==> w.Some?)
              && cvs == (if w.Some? && MayMerge(p, old(cvs), old(allowNonSC), w.value, act)
                         then old(cvs)[w.value := Join(old(cvs)[w.value], old(cvs)[act])] else old(cvs))
              && allowNonSC == (old(allowNonSC) && (w.Some? ==> Closes(p, old(cvs), act, w.value)))
              && cyclic == (old(cyclic) || (w.Some? && Closes(p, old(cvs), act, w.value)))
    {
      hide Slack, Sound, Traced, Bounds, Justified, Proper, NextWrite, Covers, Rises;
      ListsInTrace();
      NextWriteIs(p, cvs, act, threadLists[i]);
      var next := FindNextWrite(act, threadLists[i]);
      if next.Some? {
        TakenJustified(act, next.value);
        NewsRises(p, cvs, act, next.value);
        hide Bounded;
        var _ := Merge(next.value, act);
      }
      changed := next.Some?;
    }

    /**
     updateConstraints: which clocks change, and how. In each other thread it is only that of
     the next write to the location of `act`, which takes in what `act` knows exactly when
     that is permitted at its turn: once one write has taken it in because any edge could be
     added, the writes of later threads need happens-before or sequentially consistent actions.
     */
    method UpdateConstraints(act: nat) returns (changed: bool)
      requires Valid() && act < |p.s| && act in emitted && (cyclic || Ripe(p, cvs, emitted, act))
      modifies this`cvs, this`cyclic, this`allowNonSC, this`cvChanged
      ensures Valid() && |cvs| == |old(cvs)| == |p.s| && Listed(p, threadLists, emitted)
      ensures forall t: nat :: t < p.threads ==> InTrace(p, threadLists[t])
      ensures changed <==> Nexts(p, old(cvs), act, threadLists, p.threads) != {}
      ensures Constrained(p, old(cvs), old(allowNonSC), act, threadLists, p.threads, cvs)
      ensures allowNonSC == StillAny(p, old(cvs), old(allowNonSC), act, threadLists, p.threads)
      ensures cyclic == old(cyclic)
    {
      hide Valid, Ripe, NextWrite, MayMerge, Closes, Constrained, StillAny, SomeCloses, Nexts;
      ListsInTrace();
      changed := false;
      var i := 0;
      ghost var c0, lists, any0 := cvs, threadLists, allowNonSC;
      ConstrainedNone(p, c0, any0, act, lists);
      UpdateClosesNone(act);
      while i < p.threads
        invariant i <= p.threads && Valid() && |cvs| == |c0| && threadLists == lists
        invariant changed <==> Nexts(p, c0, act, lists, i) != {}
        invariant Constrained(p, c0, any0, act, lists, i, cvs)
        invariant allowNonSC == StillAny(p, c0, any0, act, lists, i)
        invariant cyclic == (old(cyclic) || SomeCloses(p, c0, act, lists, i)) && emitted == old(emitted)
      {
        NextsStep(p, c0, act, lists, i);
        ghost var c1 := cvs;
        ConstrainedFrame(p, c0, any0, act, lists, emitted, i, c1);
        RipeSame(p, c0, cvs, emitted, act);
        if i != p.s[act].tid {
          NextWriteSame(p, c0, cvs, act, threadLists[i]);
          var more := ConstrainThread(act, i);
          changed := changed || more;
        }
        FlagsStep(p, c0, any0, act, lists, i, c1);
        ConstrainedStep(p, c0, any0, act, lists, emitted, i, c1, cvs);
        i := i + 1;
      }
    }

    lemma UpdateClosesNone(act: nat)
      requires Valid() && act < |p.s| && |threadLists| == p.threads
      requires forall t: nat :: t < p.threads ==> InTrace(p, threadLists[t])
      ensures |cvs| == |p.s|
      ensures !cyclic && Ripe(p, cvs, emitted, act) ==>
                forall n: nat :: n <= p.threads ==> !SomeCloses(p, cvs, act, threadLists, n)
    {
      hide Ripe, SomeCloses;
      ListsInTrace();
      if !cyclic && Ripe(p, cvs, emitted, act) {
        forall n: nat | n <= p.threads ensures !SomeCloses(p, cvs, act, threadLists, n) {
          NoneCloses(p, cvs, act, threadLists, emitted, n);
        }
      }
    }

    // ----------------------------------------------------------------
    // Choosing
    // ----------------------------------------------------------------

    /** The loop that getNextActions runs on the inferred clocks, and again on those of happens-before. */
    method FreeActions(clocks: seq<Clock>) returns (next: seq<nat>)
      requires Valid() && |clocks| == |p.s|
      ensures AllInTrace(p, threadLists)
      ensures next == FreeSeq(p, clocks, threadLists, |threadLists|)
    {
      hide Bounded, Sound, Traced, Proper;
      ListsInTrace();
      next := [];
      var t := 0;
      while t < |threadLists|
        invariant 0 <= t <= |threadLists|
        invariant next == FreeSeq(p, clocks, threadLists, t)
      {
        if threadLists[t] != [] {
          var free := IsFree(clocks, t);
          if free {
            next := next + [threadLists[t][0]];
          }
        }
        t := t + 1;
      }
    }

    method IsFree(clocks: seq<Clock>, t: nat) returns (free: bool)
      requires |clocks| == |p.s| && AllInTrace(p, threadLists) && t < |threadLists| && threadLists[t] != []
      ensures free <==> Free(p, clocks, threadLists, t)
    {
      var i := 0;
      while i < |threadLists|
        invariant 0 <= i <= |threadLists|
        invariant forall u: nat :: u < i && u != t && threadLists[u] != [] ==>
                    !Since(clocks[threadLists[t][0]], p.s[threadLists[u][0]].tid, p.s[threadLists[u][0]].now)
      {
        if i != t && threadLists[i] != [] &&
            Since(clocks[threadLists[t][0]], p.s[threadLists[i][0]].tid, p.s[threadLists[i][0]].now) {
          return false;
        }
        i := i + 1;
      }
      free := true;
    }

    /**
     getNextActions. Without a cycle some action is free as long as one is left. When the inferred
     clocks leave none free although some are left, no sequentially consistent order goes on as
     chosen, and those of happens-before are used.
     */
    method GetNextActions() returns (next: seq<nat>)
      requires Valid()
      ensures AllInTrace(p, threadLists) && |cvs| == |p.s| && |threadLists| == p.threads
      ensures next == FreeSeq(p, if AnyFree(p, cvs, threadLists) then cvs else OwnClocks(p), threadLists, p.threads)
      ensures !cyclic && Saturated(p, cvs) ==> (AnyFree(p, cvs, threadLists) <==> Left(threadLists))
      ensures !AnyFree(p, cvs, threadLists) && Left(threadLists) ==> forall pos :: !Allowed(p, emitted, pos)
      ensures ForwardClocks(p) ==> (next != [] <==> Left(threadLists))
    {
      hide Free, Allowed, ForwardClocks, AnyFree, Left, FreeSeq, Saturated, Bounded, Sound, Grounded, Blank, Remaining;
      SomeFree();
      ListsInTrace();
      next := FreeActions(cvs);
      NoneFree(p, cvs, threadLists, next);
      if !cyclic && Saturated(p, cvs) && Left(threadLists) {
        SomeFront(p, cvs, threadLists, emitted);
      }
      if next == [] {
        next := FreeActions(OwnClocks(p));
        NoneFree(p, OwnClocks(p), threadLists, next);
        SomeFreeByTrace();
      }
    }

    lemma SomeFree()
      requires Valid()
      ensures AllInTrace(p, threadLists) && |cvs| == |p.s|
      ensures Left(threadLists) && !AnyFree(p, cvs, threadLists) ==> forall pos :: !Allowed(p, emitted, pos)
    {
      hide Free, Bounded, Traced, Proper;
      ListsInTrace();
      forall pos, t0: nat | t0 < p.threads && threadLists[t0] != [] && Allowed(p, emitted, pos)
        ensures AnyFree(p, cvs, threadLists)
      {
        HeldFollows(p, cvs, pos);
        var t := EarliestFree(p, cvs, threadLists, emitted, pos, t0);
      }
    }

    lemma SomeFreeByTrace()
      requires Valid()
      ensures AllInTrace(p, threadLists)
      ensures ForwardClocks(p) && Left(threadLists) ==> AnyFree(p, OwnClocks(p), threadLists)
    {
      hide Free, Bounded, Traced, Proper, Sound;
      ListsInTrace();
      if ForwardClocks(p) {
        if t0: nat :| t0 < p.threads && threadLists[t0] != [] {
          TraceFollows(p);
          var t := EarliestFree(p, OwnClocks(p), threadLists, emitted, TraceOrder(p), t0);
        }
      }
    }

    method PruneArray(next: seq<nat>) returns (act: Option<nat>)
      requires Valid() && InTrace(p, next) && next != []
      ensures |cvs| == |p.s| && |threadLists| == p.threads
      ensures forall t: nat :: t < p.threads ==> InTrace(p, threadLists[t])
      ensures Pruned(p, cvs, threadLists, next, act)
    {
      hide Bounded, Sound, Traced, Proper, Conflicts;
      ListsInTrace();
      if |next| == 1 {
        return Some(next[0]);
      }
      act := None;
      var i := 0;
      while i < |next|
        invariant 0 <= i <= |next|
        invariant act.None? ==> forall k :: 0 <= k < i ==> p.s[next[k]].kind.IsWrite()
        invariant act.Some? ==> act.value in next && act.value < |p.s| && !p.s[act.value].kind.IsWrite()
        invariant act.Some? ==>
                    forall k :: 0 <= k < i && !p.s[next[k]].kind.IsWrite() ==> p.s[act.value].now <= p.s[next[k]].now
      {
        if !p.s[next[i]].kind.IsWrite() && (act.None? || p.s[act.value].now > p.s[next[i]].now) {
          act := Some(next[i]);
        }
        i := i + 1;
      }
      if act.None? {
        act := FirstWithoutConflict(next);
      }
    }

    /** The second loop of pruneArray. */
    method FirstWithoutConflict(next: seq<nat>) returns (act: Option<nat>)
      requires |cvs| == |p.s| && InTrace(p, next) && |threadLists| == p.threads
      requires forall t: nat :: t < p.threads ==> InTrace(p, threadLists[t])
      ensures act.None? ==> forall a :: a in next ==> Conflicts(p, cvs, threadLists, a)
      ensures act.Some? ==> act.value in next && !Conflicts(p, cvs, threadLists, act.value)
      ensures act.Some? ==>
                forall a :: a in next && !Conflicts(p, cvs, threadLists, a) ==> p.s[act.value].now <= p.s[a].now
    {
      hide Conflicts;
      act := None;
      var i := 0;
      while i < |next|
        invariant 0 <= i <= |next|
        invariant act.None? ==> forall k :: 0 <= k < i ==> Conflicts(p, cvs, threadLists, next[k])
        invariant act.Some? ==> act.value in next && !Conflicts(p, cvs, threadLists, act.value)
        invariant act.Some? ==>
                    forall k :: 0 <= k < i && !Conflicts(p, cvs, threadLists, next[k]) ==>
                        p.s[act.value].now <= p.s[next[k]].now
      {
        var conflict := HasConflict(next[i]);
        if !conflict && (act.None? || p.s[act.value].now > p.s[next[i]].now) {
          act := Some(next[i]);
        }
        i := i + 1;
      }
    }

    method HasConflict(act: nat) returns (conflict: bool)
      requires |cvs| == |p.s| && act < |p.s| && |threadLists| == p.threads && forall t: nat :: t < p.threads ==>
                 InTrace(p, threadLists[t])
      ensures conflict <==> Conflicts(p, cvs, threadLists, act)
    {
      hide NextWrite;
      var i := 0;
      while i < p.threads
        invariant 0 <= i <= p.threads
        invariant Nexts(p, cvs, act, threadLists, i) == {}
      {
        NextsStep(p, cvs, act, threadLists, i);
        if i != p.s[act].tid {
          var next := FindNextWrite(act, threadLists[i]);
          if next.Some? {
            NextsMember(p, cvs, act, threadLists, i);
            return true;
          }
        }
        i := i + 1;
      }
      conflict := false;
    }

    /** What was taken comes before what remains. */
    lemma TakenJustified(act: nat, write: nat)
      requires Valid() && act in emitted && act < |p.s| && write < |p.s| && write !in emitted
      requires cyclic || Ripe(p, cvs, emitted, act)
      ensures Justified(act, write)
    {
      hide OnlyTaken, Grounded, Ordered, Bounded, Proper, Remaining;
      var i: nat :| i < |emitted| && emitted[i] == act;
      forall pos | Allowed(p, emitted, pos) ensures Mergeable(p, cvs, pos, act, write) {
        FrontOnly(emitted, i + 1, write);
        StartsAt(p, pos, emitted, i, write);
        EarlierMergeable(p, cvs, pos, act, write);
      }
    }

    /**
     One turn of the loop of generateSC: the first remaining action of a thread is taken next.
     `rollback` tells that the inference found the first cycle; updateConstraints never does.
     */
    method Take(tid: nat) returns (act: nat, rollback: bool)
      requires Valid() && tid < p.threads && threadLists[tid] != [] && Complete(p, threadLists, emitted)
      requires |cvs| == |p.s| && AllInTrace(p, threadLists)
      requires cyclic || (Saturated(p, cvs) && Free(p, cvs, threadLists, tid))
      modifies this
      ensures Valid() && act == old(threadLists)[tid][0] && emitted == old(emitted) + [act]
      ensures threadLists == old(threadLists)[tid := old(threadLists)[tid][1..]] && Complete(p, threadLists, emitted)
      ensures |old(cvs)| == |cvs| == |p.s| && act < |p.s| && |threadLists| == p.threads
      ensures forall t: nat :: t < p.threads ==> InTrace(p, threadLists[t])
      ensures old(cyclic) ==> cyclic
      ensures rollback <==> cyclic && !old(cyclic)
      ensures !cyclic ==> Saturated(p, cvs) && Ripe(p, old(cvs), emitted, act)
      ensures old(!cyclic && allowNonSC) && !cyclic ==> allowNonSC && Stepped(p, old(cvs), threadLists, act, cvs)
      ensures old(!cyclic && allowNonSC) && cyclic ==> StepFails(p, old(cvs), threadLists, act)
    {
      hide Slack, Bounded, Justified, Proper, Holds, Free, Saturated, Ripe, Blank, Grounded, Constrained, StillAny,
        Bounds, Nexts;
      act := threadLists[tid][0];
      assert IsRemaining(threadLists[tid][0], tid);
      if !cyclic {
        FrontRipe(tid);
      }
      ghost var lists, c0, any0 := threadLists, cvs, allowNonSC;
      TakenTraced(act);
      threadLists := threadLists[tid := threadLists[tid][1..]];
      RestRemains(lists, tid);
      RestComplete(p, lists, emitted, tid);
      emitted := emitted + [act];
      var changed := UpdateConstraints(act);
      NobodyConstrained(p, c0, any0, act, threadLists, cvs);
      var before := cyclic;
      if changed {
        ComputeCVSlow();
      }
      rollback := !before && cyclic;
    }

    lemma FrontRipe(tid: nat)
      requires Valid() && !cyclic && Complete(p, threadLists, emitted) && |cvs| == |p.s| && AllInTrace(p, threadLists)
      requires Saturated(p, cvs) && Free(p, cvs, threadLists, tid)
      ensures Ripe(p, cvs, emitted + [threadLists[tid][0]], threadLists[tid][0])
    {
      hide Saturated, Free, Bounded, Blank, Ripe, Sound;
      ListsInTrace();
      FreeRipe(p, cvs, threadLists, emitted, tid);
    }

    /** Taking an action keeps what is known true and traced. */
    lemma TakenTraced(act: nat)
      requires Valid()
      ensures |cvs| == |p.s| && (cyclic || (Blank(p, cvs) && Grounded(p, cvs, emitted + [act])))
      ensures forall pos :: Allowed(p, emitted + [act], pos) ==> Holds(p, cvs, pos) && !cyclic
    {
      hide Slack, Bounded, Proper, Holds, Blank, Reach, Edge;
      forall pos | Allowed(p, emitted + [act], pos) ensures Holds(p, cvs, pos) && !cyclic {
        StartsWithLess(p, pos, emitted, act);
      }
    }

    // ----------------------------------------------------------------
    // The search
    // ----------------------------------------------------------------

    /** Without a cycle so far: what is taken next is determined by what was taken. */
    ghost predicate Searching()
      reads this
    {
      && Valid() && !cyclic && allowNonSC && Complete(p, threadLists, emitted) && NoRepeats(emitted)
      && |cvs| == |p.s| && Saturated(p, cvs) && Led(p, emitted, cvs) && InOrder(p, emitted)
    }

    lemma ListsAreRest()
      requires Valid() && Complete(p, threadLists, emitted)
      ensures threadLists == Rest(p, emitted) && Listed(p, threadLists, emitted) && |threadLists| == p.threads
      ensures forall t: nat :: t < p.threads ==> InTrace(p, threadLists[t])
    {
      hide Rest, Complete;
      ListsInTrace();
      RestIs(p, threadLists, emitted);
    }

    /** The answers of getNextActions and pruneArray depend on nothing else. */
    lemma Determined(next: seq<nat>, act: Option<nat>)
      requires Searching() && AllInTrace(p, threadLists) && next == FreeSeq(p, cvs, threadLists, |threadLists|)
      requires forall t :: 0 <= t < |threadLists| ==> InTrace(p, threadLists[t])
      requires InTrace(p, next) && Pruned(p, cvs, threadLists, next, act)
      ensures next == Next(p, emitted) && act == Pick(p, emitted)
    {
      hide Bounded, Sound, Traced, Saturated, Complete, Rest, Led, FreeSeq, Pruned, Remaining, Next, Pick;
      ListsAreRest();
      NextIs(p, emitted, cvs);
      PickIs(p, emitted, cvs, act);
    }

    /** And they lose no order, unless that is risky. */
    lemma NoneLost(next: seq<nat>, act: Option<nat>)
      requires Searching() && AllInTrace(p, threadLists) && next == FreeSeq(p, cvs, threadLists, |threadLists|)
      requires forall t :: 0 <= t < |threadLists| ==> InTrace(p, threadLists[t])
      requires InTrace(p, next) && Pruned(p, cvs, threadLists, next, act) && Left(threadLists)
      requires act.Some? ==> act.value < |p.s| && act.value in next
      ensures !Risky(p, emitted, next, act) ==> LosesNone(p, emitted)
    {
      Determined(next, act);
      hide Bounded, Saturated, Complete, Rest, Led, FreeSeq, Pruned, Traced, Next, Pick, Risky, Proper, Holds, Left,
        InOrder, NoRepeats;
      ListsAreRest();
      if pos :| Allowed(p, emitted, pos) {
        if act.None? {
          var k := SomeOption(p, cvs, threadLists, emitted, pos, next);
          assert next[k] == Next(p, emitted)[k];
        } else if !Risky(p, emitted, next, act) {
          PickLosesNone(p, cvs, threadLists, emitted, pos, next, act.value);
        }
      }
    }

    /** Nothing that is left of its thread comes before the first. */
    lemma FrontFirst(tid: nat)
      requires Valid() && Complete(p, threadLists, emitted) && tid < p.threads && threadLists[tid] != []
      ensures threadLists[tid][0] < |p.s| && p.s[threadLists[tid][0]].tid == tid && threadLists[tid][0] !in emitted
      ensures forall r: nat :: r < |p.s| && r !in emitted && r != threadLists[tid][0] && p.s[r].tid == tid ==>
                threadLists[tid][0] < r
    {
      hide Bounded, Sound, Traced, Proper;
      assert IsRemaining(threadLists[tid][0], tid);
      forall r: nat | r < |p.s| && r !in emitted && r != threadLists[tid][0] && p.s[r].tid == tid
        ensures threadLists[tid][0] < r
      {
        var i: nat :| i < |threadLists[tid]| && threadLists[tid][i] == r;
      }
    }

    /** A turn of the search, and what it keeps as long as no cycle is found. */
    method Turn(act: nat, ghost first: seq<Clock>) returns (rollback: bool)
      requires Valid() && Complete(p, threadLists, emitted) && NoRepeats(emitted) && AllInTrace(p, threadLists)
      requires act < |p.s| && p.s[act].tid < p.threads && threadLists[p.s[act].tid] != []
      requires threadLists[p.s[act].tid][0] == act
      requires cyclic || (Searching() && Free(p, cvs, threadLists, p.s[act].tid))
      modifies this
      ensures Valid() && Complete(p, threadLists, emitted) && NoRepeats(emitted) && emitted == old(emitted) + [act]
      ensures Below(|p.s|) - Taken(emitted) < Below(|p.s|) - Taken(old(emitted))
      ensures |old(cvs)| == |cvs| == |p.s|
      ensures (old(cyclic) ==> cyclic) && (rollback <==> cyclic && !old(cyclic))
      ensures threadLists == old(threadLists)[p.s[act].tid := old(threadLists)[p.s[act].tid][1..]]
      ensures |threadLists| == p.threads && forall t: nat :: t < p.threads ==> InTrace(p, threadLists[t])
      ensures !cyclic ==> Searching() && Ripe(p, old(cvs), emitted, act) && Stepped(p, old(cvs), threadLists, act, cvs)
      ensures rollback ==> StepFails(p, old(cvs), threadLists, act)
      ensures !cyclic && |first| == |p.s| && Covered(p, first) && old(Calm(p, first, cvs, emitted)) ==>
                Calm(p, first, cvs, emitted)
    {
      hide Valid, Saturated, Covered, Calm, Free, Led, InOrder, Ripe, Complete, NoRepeats, Stepped, StepFails,
        Constrained;
      ghost var c0, e := cvs, emitted;
      FrontFirst(p.s[act].tid);
      BoundedNow();
      ghost var calm := |first| == |p.s| && Covered(p, first) && Calm(p, first, cvs, emitted);
      TakenMore(emitted, act, |p.s|);
      var _, back := Take(p.s[act].tid);
      rollback := back;
      if !cyclic {
        BoundedNow();
        ListsAreRest();
        InOrderStep(p, c0, e, act);
        LedMore(p, e, c0, act, cvs);
        if calm {
          CalmStep(p, first, c0, threadLists, e, act, cvs);
        }
      }
    }

    /**
     What is taken next: what pruneArray picks, or else the recorded choice or a new one. `risky`
     tells that a choice was passed over that the search would have needed.
     */
    method Decide(next: seq<nat>, choices: seq<nat>, endChoice: nat, currChoice: nat, lastChoice: int,
                  ghost spine: seq<nat>, ghost sure: bool)
      returns (act: nat, c: seq<nat>, curr: nat, last: int, ghost risky: bool)
      requires Valid() && Complete(p, threadLists, emitted) && AllInTrace(p, threadLists) && |cvs| == |p.s|
      requires InTrace(p, next) && next != [] && Left(threadLists)
      requires |choices| == |p.s| && currChoice < |choices|
      requires if cyclic then endChoice == 0 else
               && Searching() && next == FreeSeq(p, cvs, threadLists, |threadLists|)
               && OnTrack(p, emitted, spine, choices, endChoice, currChoice, lastChoice, sure)
      ensures act in next && |c| == |choices| && curr <= currChoice + 1 && Agree(choices, c, endChoice)
      ensures !cyclic ==> OnTrack(p, emitted + [act], spine, c, endChoice, curr, last, sure && !risky)
      ensures risky ==> !cyclic && PassesOver(p, emitted, act)
    {
      hide Valid, Saturated, OnTrack, Complete, NoRepeats, Led, InOrder, FreeSeq, Pruned, LosesNone, Left, Next, Pick,
        Searching;
      var pruned := PruneArray(next);
      PickedIn(next, pruned);
      if !cyclic {
        Determined(next, pruned);
        NoneLost(next, pruned);
      }
      risky := !cyclic && Risky(p, emitted, next, pruned);
      c, curr, last := choices, currChoice, lastChoice;
      if pruned.Some? {
        act := pruned.value;
        if !cyclic {
          TrackPicked(p, emitted, spine, choices, endChoice, currChoice, lastChoice, sure, act);
          TrackSure(p, emitted + [act], spine, choices, endChoice, currChoice, lastChoice);
        }
        return;
      }
      if !cyclic {
        TrackChosen(p, emitted, spine, choices, endChoice, currChoice, lastChoice, sure);
        ChoiceIs(p, emitted, spine, choices, endChoice, currChoice, lastChoice, sure);
      }
      if currChoice < endChoice {
        act := next[choices[currChoice]];
        if choices[currChoice] + 1 < |next| {
          last := currChoice;
        }
      } else {
        act, c := next[0], choices[currChoice := 0];
        if |next| > 1 {
          last := currChoice;
        }
      }
      curr := currChoice + 1;
      if !cyclic {
        TrackSure(p, emitted + [act], spine, c, endChoice, curr, last);
      }
    }

    lemma PickedIn(next: seq<nat>, act: Option<nat>)
      requires |cvs| == |p.s| && InTrace(p, next) && forall u :: 0 <= u < |threadLists| ==> InTrace(p, threadLists[u])
      requires Pruned(p, cvs, threadLists, next, act)
      ensures act.Some? ==> act.value in next && act.value < |p.s|
    {
      hide Conflicts;
    }

    /**
     generateSC, with its rollbacks: the search ends. A cycle that remains at its end proves that the
     trace is not sequentially consistent, unless a choice was passed over; and the list of a search
     without a cycle holds every action once, in an order that respects all that is forced. When the
     clocks before any choice cover the trace, no choice is passed over, no read of the list is
     overwritten, and so the search decides whether the trace is sequentially consistent.
     */
    method Generate() returns (list: seq<nat>, ghost first: seq<Clock>, ghost guessed: bool)
      requires Valid() && emitted == [] && Complete(p, threadLists, []) && ForwardClocks(p)
      requires cvs == InitialClocks(p) && !cyclic
      modifies this
      ensures Valid() && InTrace(p, list) && NoRepeats(list) && |first| == |p.s|
      ensures Bounds(p, InitialClocks(p)) == iset{} || Least(p, InitialClocks(p), first)
      ensures !cyclic ==> (forall a: nat :: a < |p.s| ==> a in list) && InOrder(p, list)
      ensures cyclic && !guessed ==> forall pos :: !IsScOrder(p, pos)
      ensures guessed ==> exists q, x: nat :: PassesOver(p, q, x)
      ensures Covered(p, first) ==> !guessed
      ensures Covered(p, first) && !cyclic ==>
                IsFullOrder(p, Positions(p, list)) && forall i: nat :: !Misreads(p.s, list, i)
      ensures Covered(p, first) && Bounds(p, InitialClocks(p)) != iset{} ==> forall i: nat :: !Misreads(p.s, list, i)
    {
      hide Valid, Complete, ForwardClocks, Saturated, AnyFree, FreeAction, Left, NoRepeats, OnTrack, Calm, Covered,
        InOrder, Bounds, Least, FreeSeq, Searching, IsFullOrder, IsScOrder, Led, Misreads, Possible, Free, Value, Power,
        AllInTrace, Positions, InitialClocks, Proper, Dominates, Bounded, PassesOver;
      list, guessed := [], false;
      ComputeCVSlow();
      first := cvs;
      ghost var doomed := cyclic;
      StartSearch(first);
      PassesSoFar(first);
      var choices: seq<nat> := seq(|p.s|, i => 0);
      var endChoice, currChoice, lastChoice: int := 0, 0, -1;
      ghost var spine: seq<nat> := [];
      TrackStart(p, choices);
      while true
        invariant Valid() && Complete(p, threadLists, emitted) && NoRepeats(emitted) && list == emitted
        invariant InTrace(p, list)
        invariant |cvs| == |p.s| == |choices| && 0 <= endChoice && 0 <= currChoice && cyclic == doomed
        invariant guessed ==> exists q, x: nat :: PassesOver(p, q, x)
        invariant doomed ==> !Possible(p, []) && endChoice == 0 && currChoice <= |emitted| && !guessed
        invariant !doomed ==> Searching()
        invariant !doomed ==> OnTrack(p, emitted, spine, choices, endChoice, currChoice, lastChoice, !guessed)
        invariant !doomed && Covered(p, first) ==>
                    !guessed && Calm(p, first, cvs, emitted) && forall i: nat :: !Misreads(p.s, list, i)
        decreases Power(p.threads + 1, |p.s|) - Value(choices, endChoice, p.threads + 1, |p.s|),
                  Below(|p.s|) - Taken(emitted)
      {
        var next := GetNextActions();
        if next == [] {
          SearchOver(list, first);
          break;
        }
        var act, rollback;
        ghost var risky;
        act, choices, currChoice, lastChoice, rollback, risky :=
          TakeNext(next, choices, endChoice, currChoice, lastChoice, spine, !guessed, first);
        if risky {
          assert PassesOver(p, list, act);
        }
        guessed := guessed || risky;
        if !rollback {
          list := list + [act];
          PassesSoFar(first);
          continue;
        }
        if lastChoice == -1 {
          TrackEnd(p, emitted, spine, choices, endChoice, currChoice, !guessed);
          ImpossibleEnd();
          return;
        }
        TrackValue(p, emitted, spine, choices, endChoice, currChoice, lastChoice, !guessed);
        spine := TrackBack(p, emitted, spine, choices, endChoice, currChoice, lastChoice, !guessed);
        choices, endChoice := choices[lastChoice := choices[lastChoice] + 1], lastChoice + 1;
        currChoice, lastChoice := 0, -1;
        BoundedNow();
        Restart();
        list := [];
        StartSearch(first);
        PassesSoFar(first);
      }
    }

    /**
     What analyze does once the fast version has found a cycle: the search and check_rf, whose assertion
     demands that reads are misread exactly when there is a cycle. Under the condition, the answer is
     right; but when there was no cycle before any choice, the assertion holds exactly for the traces
     that are sequentially consistent. For the others no read of the incomplete list is misread.
     */
    method Analyze() returns (list: seq<nat>, badRf: map<nat, Option<nat>>, asserted: bool, ghost first: seq<Clock>)
      requires Valid() && emitted == [] && Complete(p, threadLists, []) && ForwardClocks(p)
      requires cvs == InitialClocks(p) && !cyclic
      modifies this
      ensures Valid() && |first| == |p.s|
      ensures Bounds(p, InitialClocks(p)) == iset{} || Least(p, InitialClocks(p), first)
      ensures InTrace(p, list) && forall a :: a in badRf <==> exists i: nat :: Misreads(p.s, list, i) && list[i] == a
      ensures asserted <==> ((badRf != map[]) == cyclic)
      ensures Covered(p, first) ==> (cyclic <==> forall pos :: !IsScOrder(p, pos))
      ensures Covered(p, first) && !cyclic ==> asserted
      ensures Covered(p, first) && Bounds(p, InitialClocks(p)) != iset{} ==>
                (asserted <==> exists pos :: IsScOrder(p, pos))
    {
      hide Valid, Complete, ForwardClocks, Covered, Bounds, Least, InitialClocks, IsFullOrder, IsScOrder, InOrder,
        NoRepeats, Positions, Misreads;
      ghost var guessed;
      list, first, guessed := Generate();
      badRf := CheckRf(p.s, list);
      asserted := (badRf != map[]) == cyclic;
      if Covered(p, first) && !cyclic {
        FullIsSc(p, Positions(p, list));
      }
      NoneBad(p.s, list, badRf);
    }

    /** The body of the loop up to a rollback. */
    method TakeNext(next: seq<nat>, choices: seq<nat>, endChoice: nat, currChoice: nat, lastChoice: int,
                    ghost spine: seq<nat>, ghost sure: bool, ghost first: seq<Clock>)
      returns (act: nat, c: seq<nat>, curr: nat, last: int, rollback: bool, ghost risky: bool)
      requires Valid() && Complete(p, threadLists, emitted) && NoRepeats(emitted) && InTrace(p, emitted)
      requires AllInTrace(p, threadLists) && |cvs| == |p.s| == |choices| == |first| && |threadLists| == p.threads
      requires next == FreeSeq(p, if AnyFree(p, cvs, threadLists) then cvs else OwnClocks(p), threadLists, p.threads)
      requires !cyclic && Saturated(p, cvs) ==> (AnyFree(p, cvs, threadLists) <==> Left(threadLists))
      requires next != []
      requires if cyclic then endChoice == 0 && currChoice <= |emitted| else
               Searching() && OnTrack(p, emitted, spine, choices, endChoice, currChoice, lastChoice, sure)
      modifies this
      ensures Valid() && Complete(p, threadLists, emitted) && NoRepeats(emitted) && emitted == old(emitted) + [act]
      ensures InTrace(p, emitted) && Below(|p.s|) - Taken(emitted) < Below(|p.s|) - Taken(old(emitted))
      ensures |cvs| == |p.s| == |c| && curr <= currChoice + 1
      ensures Value(c, endChoice, p.threads + 1, |p.s|) == Value(choices, endChoice, p.threads + 1, |p.s|)
      ensures (old(cyclic) ==> cyclic && !risky) && (rollback <==> cyclic && !old(cyclic))
      ensures rollback ==> !Possible(p, emitted)
      ensures !old(cyclic) ==> OnTrack(p, emitted, spine, c, endChoice, curr, last, sure && !risky) && -1 <= last < |c|
      ensures !cyclic ==> Searching()
      ensures !old(cyclic) && Covered(p, first) && old(Calm(p, first, cvs, emitted)) ==> !risky
      ensures risky ==> PassesOver(p, old(emitted), act)
      ensures !cyclic && Covered(p, first) && old(Calm(p, first, cvs, emitted)) ==> Calm(p, first, cvs, emitted)
    {
      hide Valid, Complete, Saturated, AnyFree, FreeAction, Left, NoRepeats, OnTrack, Calm, Covered, InOrder, FreeSeq,
        Searching, Led, Possible, Free, PassesOver;
      NextFree(next);
      RoomFor(p, emitted, next[0]);
      if !cyclic {
        SearchingNow();
        TrackRoom(p, emitted, spine, choices, endChoice, currChoice, lastChoice, sure);
      }
      act, c, curr, last, risky := Decide(next, choices, endChoice, currChoice, lastChoice, spine, sure);
      NotRisky(first, act, risky);
      ValueSame(choices, c, endChoice, p.threads + 1, |p.s|);
      ghost var before := emitted;
      rollback := Turn(act, first);
      CyclicImpossible();
      if !old(cyclic) {
        TrackRoom(p, before + [act], spine, c, endChoice, curr, last, sure && !risky);
      }
    }

    lemma SearchingNow()
      requires Searching()
      ensures !cyclic && |cvs| == |p.s| && Saturated(p, cvs)
    {
    }

    lemma ImpossibleEnd()
      requires Valid()
      ensures !Possible(p, []) ==> forall pos :: !IsScOrder(p, pos)
    {
      hide Bounded, Sound, Traced, Remaining, Possible, IsScOrder, Proper;
      if !Possible(p, []) {
        NoOrderLeft(p);
      }
    }

    lemma CyclicImpossible()
      requires Valid()
      ensures cyclic ==> !Possible(p, emitted)
    {
      hide Holds, Bounded, IsFullOrder;
    }

    /** How the search starts. */
    lemma StartSearch(first: seq<Clock>)
      requires Valid() && emitted == [] && Complete(p, threadLists, emitted) && allowNonSC && |cvs| == |p.s|
      requires !cyclic ==> Saturated(p, cvs) && Least(p, InitialClocks(p), cvs) && Least(p, InitialClocks(p), first)
      ensures NoRepeats([])
      ensures cyclic ==> !Possible(p, [])
      ensures !cyclic ==> Searching() && |first| == |p.s| && Calm(p, first, cvs, emitted)
    {
      hide Holds, Bounded, IsFullOrder, Saturated, Complete, Remaining, Traced, Bounds, Dominates, Calm;
      CyclicImpossible();
      if !cyclic {
        FirstDominates(p, first, cvs);
        CalmAtFirst(p, first, cvs);
      }
    }

    lemma PassesSoFar(first: seq<Clock>)
      requires Valid() && |cvs| == |p.s| == |first|
      ensures Calm(p, first, cvs, emitted) ==> InTrace(p, emitted) && forall i: nat :: !Misreads(p.s, emitted, i)
    {
      hide Calm;
      if Calm(p, first, cvs, emitted) {
        CalmPasses(p, first, cvs, emitted);
      }
    }

    /** How it ends. */
    lemma SearchOver(list: seq<nat>, first: seq<Clock>)
      requires Valid() && Complete(p, threadLists, emitted) && !Left(threadLists) && list == emitted
      requires InTrace(p, list) && NoRepeats(list) && |first| == |p.s|
      ensures forall a: nat :: a < |p.s| ==> a in list
      ensures !cyclic && Searching() ==> InOrder(p, list)
      ensures !cyclic && Searching() && (forall i: nat :: !Misreads(p.s, list, i)) ==>
                IsFullOrder(p, Positions(p, list))
      ensures !Possible(p, []) ==> forall pos :: !IsScOrder(p, pos)
    {
      hide Bounded, Sound, Traced, Remaining, InOrder, IsFullOrder, Misreads, NoRepeats, Left, Complete, Possible,
        IsScOrder, Saturated, Led, Proper;
      AllTaken(p, threadLists, emitted);
      if !cyclic && Searching() && forall i: nat :: !Misreads(p.s, list, i) {
        ListIsOrder(p, list);
      }
      if !Possible(p, []) {
        NoOrderLeft(p);
      }
    }

    /** What is free is the first of its thread. */
    lemma NextFree(next: seq<nat>)
      requires Valid() && AllInTrace(p, threadLists) && |cvs| == |p.s| && |threadLists| == p.threads && next != []
      requires next == FreeSeq(p, if AnyFree(p, cvs, threadLists) then cvs else OwnClocks(p), threadLists, p.threads)
      requires !cyclic && Saturated(p, cvs) ==> (AnyFree(p, cvs, threadLists) <==> Left(threadLists))
      ensures InTrace(p, next) && Left(threadLists)
      ensures !cyclic && Saturated(p, cvs) ==> next == FreeSeq(p, cvs, threadLists, |threadLists|)
      ensures forall a :: a in next ==>
                && a < |p.s| && p.s[a].tid < p.threads && threadLists[p.s[a].tid] != []
                && threadLists[p.s[a].tid][0] == a && a !in emitted
                && (!cyclic && Saturated(p, cvs) ==> Free(p, cvs, threadLists, p.s[a].tid))
    {
      hide Bounded, Sound, Traced, Saturated, AnyFree;
      var clocks := if AnyFree(p, cvs, threadLists) then cvs else OwnClocks(p);
      FreshInTrace(p, clocks, threadLists, p.threads);
      NoneFree(p, clocks, threadLists, next);
      ListsInTrace();
    }

    lemma NotRisky(first: seq<Clock>, act: nat, risky: bool)
      requires Valid() && Complete(p, threadLists, emitted) && AllInTrace(p, threadLists) && |cvs| == |p.s| == |first|
      requires act < |p.s| && p.s[act].tid < p.threads && threadLists[p.s[act].tid] != []
      requires threadLists[p.s[act].tid][0] == act
      requires risky ==> PassesOver(p, emitted, act)
      requires !cyclic ==> Saturated(p, cvs) && Free(p, cvs, threadLists, p.s[act].tid)
      ensures !cyclic && Covered(p, first) && Calm(p, first, cvs, emitted) ==> !risky
    {
      hide Saturated, Covered, Calm, Free, Complete, Waiting, Valid;
      if !cyclic && Covered(p, first) && Calm(p, first, cvs, emitted) && risky {
        var r: nat :| Waiting(p, emitted, act, r);
        BoundedNow();
        FrontFirst(p.s[act].tid);
        FrontRipe(p.s[act].tid);
        NothingRisky(p, first, cvs, emitted, act, r);
      }
    }

    lemma BoundedNow()
      requires Valid()
      ensures Proper(p) && Bounded(p, cvs) && |cvs| == |p.s|
    {
    }

    lemma RestRemains(lists: seq<seq<nat>>, tid: nat)
      requires |lists| == p.threads && tid < p.threads && lists[tid] != []
      requires forall t: nat, i: nat, j: nat :: t < p.threads && i < j < |lists[t]| ==> lists[t][i] < lists[t][j]
      requires lists[tid][0] < |p.s| && p.s[lists[tid][0]].tid == tid
      requires forall t: nat, i: nat :: t < p.threads && i < |lists[t]| ==> IsRemaining(lists[t][i], t)
      requires threadLists == lists[tid := lists[tid][1..]]
      ensures forall t: nat, i: nat :: t < p.threads && i < |threadLists[t]| ==>
                IsRemaining(threadLists[t][i], t) && threadLists[t][i] != lists[tid][0]
      ensures forall t: nat, i: nat, j: nat :: t < p.threads && i < j < |threadLists[t]| ==>
                threadLists[t][i] < threadLists[t][j]
    {
      forall t: nat, i: nat | t < p.threads && i < |threadLists[t]|
        ensures IsRemaining(threadLists[t][i], t) && threadLists[t][i] != lists[tid][0]
      {
        if t == tid {
          assert threadLists[t][i] == lists[t][i + 1] && lists[t][i + 1] in lists[t][1..];
        } else {
          assert IsRemaining(lists[t][i], t);
        }
      }
    }

    /** A cycle refutes every sequentially consistent order that begins as chosen. */
    lemma CycleRefutes(pos: seq<nat>)
      requires Valid() && cyclic && IsScOrder(p, pos)
      ensures !StartsWith(p, WithPlaceholders(p, pos), emitted)
    {
      hide Holds, Slack, Bounded;
      PlaceholdersFirst(p, pos);
      assert !Allowed(p, emitted, WithPlaceholders(p, pos));
    }

    /** Before any choice, it shows that the trace is not sequentially consistent. */
    lemma CycleIsNotSc()
      requires Valid() && cyclic && emitted == []
      ensures !exists pos :: IsScOrder(p, pos)
    {
      hide Valid, IsScOrder;
      forall pos ensures !IsScOrder(p, pos) {
        if IsScOrder(p, pos) {
          CycleRefutes(pos);
        }
      }
    }

    /** In a sequentially consistent order, whatever the clocks say holds. */
    lemma ClocksHold(pos: seq<nat>)
      requires Valid() && IsScOrder(p, pos) && emitted == []
      ensures !cyclic
      ensures forall a: nat, b: nat :: Numbered(p.s, a) && Knows(p, cvs, a, b) ==> pos[b] <= pos[a]
    {
      hide Slack, Bounded;
      PlaceholdersFirst(p, pos);
      assert Allowed(p, emitted, WithPlaceholders(p, pos));
    }
  }

  lemma NoOrderLeft(p: Program)
    requires Proper(p)
    ensures !Possible(p, []) ==> forall pos :: !IsScOrder(p, pos)
  {
    forall pos | IsScOrder(p, pos) ensures Possible(p, []) {
      hide IsScOrder, IsFullOrder;
      PlaceholdersFirst(p, pos);
      assert Allowed(p, [], WithPlaceholders(p, pos));
    }
  }

  lemma NoneBad(s: Trace, list: seq<nat>, badRf: map<nat, Option<nat>>)
    requires forall i :: 0 <= i < |list| ==> list[i] < |s|
    requires forall a :: a in badRf <==> exists i: nat :: Misreads(s, list, i) && list[i] == a
    ensures badRf == map[] <==> forall i: nat :: !Misreads(s, list, i)
  {
    forall i: nat | Misreads(s, list, i) ensures list[i] in badRf {
    }
  }

  lemma FullIsSc(p: Program, pos: seq<nat>)
    requires IsFullOrder(p, pos)
    ensures IsScOrder(p, pos)
  {
    hide Forced, Overwrites;
    forall a: nat, b: nat | Numbered(p.s, a) && Numbered(p.s, b) && a != b ensures pos[a] != pos[b] {
      Distinct(pos, a, b);
    }
  }

  lemma RestComplete(p: Program, lists: seq<seq<nat>>, emitted: seq<nat>, tid: nat)
    requires |lists| == p.threads && tid < p.threads && lists[tid] != []
    ensures Complete(p, lists, emitted) ==> Complete(p, lists[tid := lists[tid][1..]], emitted + [lists[tid][0]])
  {
    assert lists[tid] == [lists[tid][0]] + lists[tid][1..];
  }

  lemma StartsWithLess(p: Program, pos: seq<nat>, emitted: seq<nat>, act: nat)
    requires |pos| == |p.s| && StartsWith(p, pos, emitted + [act])
    ensures StartsWith(p, pos, emitted)
  {
    hide FirstAt;
    forall i: nat | i < |emitted| ensures FirstAt(p, pos, emitted, i) {
      assert FirstAt(p, pos, emitted + [act], i);
      FirstAtMore(p, pos, emitted, act, i);
    }
  }

  lemma RivalReads(p: Program, w: nat, r: nat)
    requires Rival(p, w, r)
    ensures r < |p.s| && p.s[r].rf.Some?
  {
  }

  lemma SameRefl(cvs: seq<Clock>)
    ensures SameClocks(cvs, cvs)
  {
  }

  lemma TakesBack(p: Program, c0: seq<Clock>, cvs: seq<Clock>, quiet: bool, b: nat, a: nat)
    requires |c0| == |p.s| == |cvs| && a < |p.s| && b < |p.s| && (quiet ==> SameClocks(c0, cvs))
    ensures quiet && Covers(cvs, b, a) && !Knows(p, cvs, a, b) ==> Takes(p, c0, b, a)
  {
    if quiet {
      SameBack(c0, cvs);
      CoversSame(cvs, c0);
      KnowsSame(p, cvs, c0);
    }
  }

  lemma FollowCovers(cvs: seq<Clock>, cvs': seq<Clock>, quiet: bool)
    requires quiet ==> SameClocks(cvs, cvs')
    ensures quiet ==> forall a: nat, b: nat :: a < |cvs| && b < |cvs| && Covers(cvs, b, a) ==>
              a < |cvs'| && b < |cvs'| && Covers(cvs', b, a)
  {
    if quiet {
      LengthSame(cvs, cvs');
      CoversSame(cvs, cvs');
    }
  }

  lemma QuietTrans(old0: seq<Clock>, c0: seq<Clock>, c1: seq<Clock>, c2: seq<Clock>, quiet: bool)
    requires quiet ==> SameClocks(old0, c1) && SameClocks(c0, c1) && SameClocks(c1, c2)
    ensures quiet ==> SameClocks(old0, c2) && SameClocks(c0, c2)
  {
    if quiet {
      SameTrans(old0, c1, c2);
      SameTrans(c0, c1, c2);
    }
  }

  lemma RulesBack(p: Program, c0: seq<Clock>, cvs: seq<Clock>, w: nat, r: nat)
    requires |c0| == |p.s| == |cvs| && SameClocks(c0, cvs) && Rival(p, w, r)
    ensures Rules(p, cvs, w, r) ==> Rules(p, c0, w, r)
    ensures Knows(p, cvs, r, w) <==> Knows(p, c0, r, w)
    ensures Knows(p, cvs, w, p.s[r].rf.value) <==> Knows(p, c0, w, p.s[r].rf.value)
  {
    SameBack(c0, cvs);
    RulesSame(p, cvs, c0, w, r);
    KnowsSame(p, cvs, c0);
  }

  lemma ScannedAll(p: Program, c0: seq<Clock>, read: nat)
    requires Proper(p) && |c0| == |p.s| && read < |p.s| && p.s[read].kind.IsRead() && Reads(p.s, read)
    requires Takes(p, c0, read, p.s[read].rf.value)
    requires forall t: nat :: t < p.threads && t != p.s[read].tid ==> ThreadScanned(p, c0, read, t, 0)
    ensures ReadScanned(p, c0, read)
  {
    hide Scanned, Covers;
    forall w: nat | Rival(p, w, read) && Numbered(p.s, w) ensures Scanned(p, c0, w, read) {
      assert ThreadScanned(p, c0, read, p.s[w].tid, 0);
    }
  }

  /** What was covered and known stays so while clocks stay the same. */
  lemma FollowSame(cvs: seq<Clock>, cvs': seq<Clock>, quiet: bool)
    requires quiet ==> SameClocks(cvs, cvs')
    ensures quiet ==> forall a: nat, b: nat :: a < |cvs| && b < |cvs| && Covers(cvs, b, a) ==> Covers(cvs', b, a)
    ensures quiet ==> forall a: nat, t: nat :: a < |cvs| ==> At(cvs'[a], t) == At(cvs[a], t)
  {
    if quiet {
      CoversSame(cvs, cvs');
    }
  }

  lemma RaisedIsEntry(c: Clock, d: Clock)
    ensures (exists t | 0 <= t < |d| :: d[t] > At(c, t)) <==> exists t: nat :: At(d, t) > At(c, t)
  {
    if t: nat :| At(d, t) > At(c, t) {
      assert d[t] > At(c, t);
    }
    if t :| 0 <= t < |d| && d[t] > At(c, t) {
      assert At(d, t) > At(c, t);
    }
  }

  /** And it is known along edges. */
  lemma StartsTraced(p: Program, cvs: seq<Clock>)
    requires Proper(p) && |cvs| == |p.s|
    requires forall a: nat :: a < |p.s| ==> cvs[a] == Tick([], p.s[a].tid, p.s[a].now)
    ensures Blank(p, cvs) && Grounded(p, cvs, [])
  {
    hide Edge, Reach;
    forall a: nat, b: nat | a < |p.s| && Knows(p, cvs, a, b) ensures Reach(EdgeSet(p, cvs), b, a) {
      assert p.s[b].tid == p.s[a].tid;
      if a == b {
        ReachRefl(EdgeSet(p, cvs), a);
      } else {
        assert b < a && Forced(p, b, a);
        ForcedEdge(p, cvs, b, a);
        ReachEdge(EdgeSet(p, cvs), b, a);
      }
    }
  }

  lemma ForcedEdge(p: Program, cvs: seq<Clock>, b: nat, a: nat)
    requires |cvs| == |p.s| && Numbered(p.s, a) && Numbered(p.s, b) && Forced(p, b, a)
    ensures (b, a) in EdgeSet(p, cvs)
  {
    assert Edge(p, cvs, b, a);
  }

  /** Own clocks only: what they say is program order. */
  lemma StartsSound(p: Program, cvs: seq<Clock>)
    requires Proper(p) && |cvs| == |p.s|
    requires forall a: nat :: a < |p.s| ==> cvs[a] == Tick([], p.s[a].tid, p.s[a].now)
    ensures Bounded(p, cvs) && forall pos :: Allowed(p, [], pos) ==> Holds(p, cvs, pos)
  {
    forall pos | Allowed(p, [], pos) ensures Holds(p, cvs, pos) {
      forall a: nat, b: nat | a < |p.s| && Knows(p, cvs, a, b) ensures pos[b] <= pos[a] {
        assert p.s[b].tid == p.s[a].tid;
        if a != b {
          assert b < a;
          assert Forced(p, b, a);
        }
      }
    }
  }
}
