/**
 Why a small record is enough: up to the first race at an address, checking an
 access against the record is checking it against every earlier access.
 */
module RaceHistory {
  import opened Digraph
  import opened Clocks
  import opened Actions
  import opened HappensBefore
  import opened DataRaces

  /** An access with the clock vector of its thread at the time. */
  datatype Access = Access(tid: nat, write: bool, cv: Clock)

  function StampOf(a: Access): Stamp { Own(a.tid, a.cv) }

  /** What the detector knows after the first `k` accesses. */
  ghost function SeenAt(h: seq<Access>, k: nat): Seen
    requires k <= |h|
  {
    if k == 0 then Seen({}, {})
    else if h[k - 1].write then AfterWrite(h[k - 1].tid, h[k - 1].cv)
    else AfterRead(SeenAt(h, k - 1), h[k - 1].tid, h[k - 1].cv)
  }

  /** The earlier accesses that the detector reports against access `k`. */
  ghost function Flagged(h: seq<Access>, k: nat): set<Stamp>
    requires k < |h|
  {
    var seen := SeenAt(h, k);
    Racing(seen.writers, h[k].tid, h[k].cv) + if h[k].write then Racing(seen.readers, h[k].tid, h[k].cv) else {}
  }

  /** Access `k` is ordered after access `i`, as far as its clock tells. */
  predicate After(h: seq<Access>, i: nat, k: nat)
    requires i < |h| && k < |h|
  {
    !MayRace(h[k].cv, h[k].tid, StampOf(h[i]))
  }

  /** Access `k` races with the earlier access `i`. */
  predicate Conflict(h: seq<Access>, i: nat, k: int) {
    i < k < |h| && (h[i].write || h[k].write) && !After(h, i, k)
  }

  ghost predicate Unordered(h: seq<Access>, k: nat) {
    exists i: nat :: Conflict(h, i, k)
  }

  /** Threads have started, and a clock includes those of all accesses that it orders before its own. */
  ghost predicate HistoryClocked(h: seq<Access>) {
    && (forall i: nat :: i < |h| ==> StampOf(h[i]).clock > 0)
    && (forall i: nat, k: nat :: i < k < |h| && After(h, i, k) ==> Includes(h[k].cv, h[i].cv))
  }

  ghost predicate Includes(later: Clock, earlier: Clock) {
    forall t: nat :: At(earlier, t) <= At(later, t)
  }

  lemma AfterTrans(h: seq<Access>, i: nat, j: nat, k: nat)
    requires HistoryClocked(h) && i < j < k < |h| && After(h, i, j) && After(h, j, k)
    ensures After(h, i, k)
  {
    assert Includes(h[j].cv, h[i].cv) && Includes(h[k].cv, h[j].cv);
    assert At(h[i].cv, h[i].tid) <= At(h[j].cv, h[i].tid) <= At(h[k].cv, h[i].tid);
  }

  /** `j` is remembered, and stands for the earlier access `i`. */
  ghost predicate StandsFor(h: seq<Access>, k: nat, j: nat, i: nat)
    requires k <= |h|
  {
    && i <= j < k && (i == j || After(h, i, j)) && (h[i].write ==> h[j].write)
    && StampOf(h[j]) in (if h[j].write then SeenAt(h, k).writers else SeenAt(h, k).readers)
  }

  ghost predicate Covered(h: seq<Access>, k: nat, i: nat)
    requires k <= |h|
  {
    exists j: nat :: StandsFor(h, k, j, i)
  }

  lemma {:induction false} SeenPrefix(h: seq<Access>, a: Access, k: nat)
    requires k <= |h|
    ensures SeenAt(h + [a], k) == SeenAt(h, k)
  {
    if k > 0 {
      SeenPrefix(h, a, k - 1);
    }
  }

  /** Only accesses are remembered. */
  lemma {:induction false} Remembered(h: seq<Access>, k: nat)
    requires k <= |h|
    ensures forall s :: s in SeenAt(h, k).writers ==> exists i :: 0 <= i < k && h[i].write && StampOf(h[i]) == s
    ensures forall s :: s in SeenAt(h, k).readers ==> exists i :: 0 <= i < k && !h[i].write && StampOf(h[i]) == s
  {
    if k > 0 {
      Remembered(h, k - 1);
      assert Live(StampOf(h[k - 1])) <= {StampOf(h[k - 1])};
      if !h[k - 1].write {
        forall s | s in SeenAt(h, k).readers ensures exists i :: 0 <= i < k && !h[i].write && StampOf(h[i]) == s {
          if s != StampOf(h[k - 1]) {
            assert s in SeenAt(h, k - 1).readers;
          }
        }
      }
    }
  }

  /** Without a race so far, every access is stood for. */
  lemma {:induction false} AllCovered(h: seq<Access>, k: nat)
    requires HistoryClocked(h) && k <= |h| && forall j: nat :: j < k ==> !Unordered(h, j)
    ensures forall i: nat :: i < k ==> Covered(h, k, i)
  {
    if k > 0 {
      AllCovered(h, k - 1);
      forall i: nat | i < k ensures Covered(h, k, i) {
        CoverStep(h, k - 1, i);
      }
    }
  }

  lemma CoverStep(h: seq<Access>, k: nat, i: nat)
    requires HistoryClocked(h) && i <= k < |h| && !Unordered(h, k)
    requires i < k ==> Covered(h, k, i)
    ensures Covered(h, k + 1, i)
  {
    assert StandsFor(h, k + 1, k, k);
    if i < k {
      assert !Conflict(h, i, k);
      var j: nat :| StandsFor(h, k, j, i);
      if h[k].write {
        assert StandsFor(h, k + 1, k, i);
      } else if h[j].write || !After(h, j, k) {
        assert StandsFor(h, k + 1, j, i);
      } else {
        if i < j {
          AfterTrans(h, i, j, k);
        }
        assert StandsFor(h, k + 1, k, i);
      }
    }
  }

  /** Until the first race, the record flags an access exactly when the history does. */
  lemma FlagsExactly(h: seq<Access>, k: nat)
    requires HistoryClocked(h) && k < |h| && forall j: nat :: j < k ==> !Unordered(h, j)
    ensures Flagged(h, k) != {} <==> Unordered(h, k)
  {
    Remembered(h, k);
    AllCovered(h, k);
    if Unordered(h, k) {
      var i: nat :| Conflict(h, i, k);
      assert Covered(h, k, i);
      var j: nat :| StandsFor(h, k, j, i);
      if After(h, j, k) && i < j {
        AfterTrans(h, i, j, k);
      }
      assert StampOf(h[j]) in Flagged(h, k);
    }
    if Flagged(h, k) != {} {
      var s :| s in Flagged(h, k);
      var i :| 0 <= i < k && StampOf(h[i]) == s && (h[i].write || h[k].write);
      assert Conflict(h, i, k);
    }
  }

  /** The detector's first report comes at the first access that races with any earlier one. */
  lemma {:induction false} FirstRace(h: seq<Access>, k: nat)
    requires HistoryClocked(h) && k <= |h|
    ensures (forall j: nat :: j < k ==> Flagged(h, j) == {}) <==> (forall j: nat :: j < k ==> !Unordered(h, j))
  {
    if k > 0 {
      FirstRace(h, k - 1);
      if forall j: nat :: j < k - 1 ==> !Unordered(h, j) {
        FlagsExactly(h, k - 1);
      }
    }
  }

  // ------------------------------------------------------------------
  // What reports name
  // ------------------------------------------------------------------

  /** The report names access `i`, what it was, and the last access, which conflicts with it. */
  predicate NamesAccess(h: seq<Access>, r: DataRace, i: nat) {
    && h != [] && Conflict(h, i, |h| - 1) && r.earlier == StampOf(h[i])
    && (r.wasWrite <==> h[i].write) && (r.isWrite <==> h[|h| - 1].write)
  }

  ghost predicate NamesConflict(h: seq<Access>, r: DataRace) {
    exists i: nat :: NamesAccess(h, r, i)
  }

  /** The report names `i`, or a later access that comes after `i`. */
  ghost predicate Represents(h: seq<Access>, r: DataRace, i: nat) {
    exists j: nat :: i <= j && NamesAccess(h, r, j) && (i == j || After(h, i, j))
  }

  /** Every conflict of the last access is reported, if only through a later access. */
  ghost predicate AllRepresented(h: seq<Access>, reports: seq<DataRace>) {
    var last: int := |h| - 1;
    forall i: nat :: Conflict(h, i, last) ==> exists r :: r in reports && Represents(h, r, i)
  }

  ghost function RacesOf(seen: Seen, a: Access, action: nat, location: nat): set<DataRace> {
    if a.write then WriteRaces(seen, a.tid, a.cv, action, location) else ReadRaces(seen, a.tid, a.cv, action, location)
  }

  /** Whatever is reported is a conflict of the history. */
  lemma ReportedConflicts(h: seq<Access>, a: Access, action: nat, location: nat, r: DataRace)
    requires r in RacesOf(SeenAt(h, |h|), a, action, location)
    ensures NamesConflict(h + [a], r) && r.newAction == action && r.address == location
  {
    var more := h + [a];
    var seen := SeenAt(h, |h|);
    Remembered(h, |h|);
    var i: nat :| i < |h| && h[i].write == r.wasWrite && StampOf(h[i]) == r.earlier;
    assert MayRace(a.cv, a.tid, r.earlier);
    assert more[i] == h[i] && more[|h|] == a;
    assert NamesAccess(more, r, i);
  }

  /** Until the first race, every conflict of the last access is reported, if only through a later access. */
  lemma ConflictsReported(h: seq<Access>, a: Access, action: nat, location: nat, i: nat)
    requires HistoryClocked(h + [a]) && forall j: nat :: j < |h| ==> !Unordered(h + [a], j)
    requires Conflict(h + [a], i, |h|)
    ensures exists r :: r in RacesOf(SeenAt(h, |h|), a, action, location) && Represents(h + [a], r, i)
  {
    var more, n := h + [a], |h|;
    SeenPrefix(h, a, n);
    AllCovered(more, n);
    assert Covered(more, n, i);
    var j: nat :| StandsFor(more, n, j, i);
    if After(more, j, n) && i < j {
      AfterTrans(more, i, j, n);
    }
    assert more[n] == a && MayRace(a.cv, a.tid, StampOf(more[j]));
    var r := DataRace(StampOf(more[j]), more[j].write, action, a.write, location);
    assert r in RacesOf(SeenAt(h, n), a, action, location);
    assert NamesAccess(more, r, j);
  }

  // ------------------------------------------------------------------
  // Histories of an execution
  // ------------------------------------------------------------------

  /**
   Accesses made during an execution: access `k` when the trace was `ss[k]`, by the
   thread of action `at[k]`, its latest then, with the clock that this action had then.
   Clocks may have grown since.
   */
  ghost predicate Recorded(ss: seq<Trace>, Gs: seq<Edges>, at: seq<nat>, h: seq<Access>) {
    && |ss| == |Gs| == |at| == |h|
    && (forall k: nat :: k < |h| ==> Clocked(ss[k], Gs[k]) && AccessOf(ss[k], at[k], h[k]))
    && (forall i: nat, k: nat :: i < k < |h| ==> Evolved(ss[i], ss[k]) && (h[i].tid == h[k].tid ==> at[i] <= at[k]))
  }

  ghost predicate AccessOf(s: Trace, a: nat, x: Access) {
    Numbered(s, a) && x.tid == s[a].tid && x.cv == s[a].cv
  }

  /** Accesses made in the states of a run, in the order of the run. */
  lemma RunRecorded(ss: seq<Trace>, Gs: seq<Edges>, when: seq<nat>, at: seq<nat>, h: seq<Access>)
    requires Trail(ss, Gs) && |when| == |at| == |h|
    requires forall k: nat :: k < |h| ==> when[k] < |ss| && AccessOf(ss[when[k]], at[k], h[k])
    requires forall i: nat, k: nat :: i < k < |h| ==>
               when[i] <= when[k] && (h[i].tid == h[k].tid ==> at[i] <= at[k])
    ensures Recorded(seq(|h|, k requires 0 <= k < |h| => ss[when[k]]), seq(|h|, k requires 0 <= k < |h| => Gs[when[k]]),
                     at, h)
  {
    hide Evolved, Clocked, RealEntries;
  }

  /** What later traces still say of an access. */
  lemma StillAccess(s: Trace, s': Trace, a: nat, x: Access)
    requires AccessOf(s, a, x) && WellClocked(s) && Evolved(s, s')
    ensures Numbered(s', a) && s'[a].tid == x.tid && s'[a].now == StampOf(x).clock == s[a].now && Le(x.cv, s'[a].cv)
  {
    assert OwnClock(s[a]);
    assert Kept(s[a], s'[a]);
  }

  /** Exact clocks give histories on which the record is enough. */
  lemma RecordedClocked(ss: seq<Trace>, Gs: seq<Edges>, at: seq<nat>, h: seq<Access>)
    requires Recorded(ss, Gs, at, h)
    ensures HistoryClocked(h)
  {
    hide Reach, Evolved;
    forall i: nat | i < |h| ensures StampOf(h[i]).clock > 0 {
      assert AccessOf(ss[i], at[i], h[i]) && OwnClock(ss[i][at[i]]);
    }
    forall i: nat, k: nat | i < k < |h| && After(h, i, k) ensures Includes(h[k].cv, h[i].cv) {
      var s := ss[k];
      assert AccessOf(ss[i], at[i], h[i]) && AccessOf(s, at[k], h[k]);
      StillAccess(ss[i], s, at[i], h[i]);
      assert OwnClock(s[at[i]]);
      if h[i].tid == h[k].tid {
        HBSameThread(s, at[i], at[k]);
      } else {
        HBIsEntry(s, at[i], at[k]);
      }
      assert Le(s[at[i]].cv, s[at[k]].cv);
    }
  }

  /** Access `i` is done before action `b` of its thread, and that happens before access `k`. */
  ghost predicate Between(ss: seq<Trace>, at: seq<nat>, h: seq<Access>, i: nat, k: nat, b: nat)
    requires |ss| == |at| == |h| && i < k < |h|
  {
    && Numbered(ss[k], b) && Numbered(ss[k], at[k]) && ss[k][b].tid == h[i].tid && at[i] < b && HB(ss[k], b, at[k])
  }

  /**
   What the test on clocks means: an access comes after an earlier one exactly when both are
   of one thread, or an action that follows the earlier one in its thread happens before it.
   */
  lemma AfterIsHB(ss: seq<Trace>, Gs: seq<Edges>, at: seq<nat>, h: seq<Access>, i: nat, k: nat)
    requires Recorded(ss, Gs, at, h) && i < k < |h| && RealEntries(ss[k])
    ensures After(h, i, k) <==> h[i].tid == h[k].tid || exists b: nat :: Between(ss, at, h, i, k, b)
  {
    hide Reach, Evolved, HappensBefore.Exact, Monotone;
    var s := ss[k];
    assert AccessOf(ss[i], at[i], h[i]) && AccessOf(s, at[k], h[k]);
    assert Clocked(ss[i], Gs[i]) && Clocked(s, Gs[k]) && Evolved(ss[i], s);
    StillAccess(ss[i], s, at[i], h[i]);
    assert OwnClock(s[at[i]]);
    if h[i].tid != h[k].tid {
      var n := At(h[k].cv, h[i].tid);
      if After(h, i, k) {
        assert IsNumber(s, h[i].tid, n);
        var b: nat :| Numbered(s, b) && s[b].tid == h[i].tid && s[b].now == n;
        HBIsEntry(s, b, at[k]);
        assert Between(ss, at, h, i, k, b);
      }
      if b: nat :| Between(ss, at, h, i, k, b) {
        HBIsEntry(s, b, at[k]);
      }
    }
  }
}
