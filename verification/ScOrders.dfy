/**
 Sequentially consistent orders of a finished trace, and when the clock vectors
 of the analysis hold in such an order.
 */
module ScOrders {
  import opened Digraph
  import opened Optional
  import opened Clocks
  import opened Actions
  import opened HappensBefore

  /** A finished trace; thread starts with what created the thread, and joins with the last action joined. */
  datatype Program = Program(s: Trace, threads: nat, starts: map<nat, Option<nat>>, joins: map<nat, nat>)

  /** No read is uninitialized, and every thread but the model's begins with its start. */
  ghost predicate Proper(p: Program) {
    && (forall a: nat :: a < |p.s| ==>
        p.s[a].tid < p.threads && (p.s[a].kind.Uninit? ==> p.s[a].tid == 0 && p.s[a].now == 0))
    && (forall a: nat :: Numbered(p.s, a) ==> p.s[a].tid >= 1 && p.s[a].now >= 1)
    && (forall a: nat, b: nat :: Numbered(p.s, a) && Numbered(p.s, b) && a < b ==> p.s[a].now < p.s[b].now)
    && (forall a: nat :: a < |p.s| && p.s[a].kind.IsRead() ==> Reads(p.s, a))
    && (forall a: nat :: a in p.starts ==>
          Numbered(p.s, a) && !HasPrevious(p.s, a) && (p.starts[a].Some? ==> Numbered(p.s, p.starts[a].value)))
    && (forall a: nat :: a in p.joins ==> Numbered(p.s, a) && Numbered(p.s, p.joins[a]))
    && (forall a: nat :: Numbered(p.s, a) ==> a in p.starts || HasPrevious(p.s, a))
  }

  ghost predicate Reads(s: Trace, a: nat)
    requires a < |s|
  {
    s[a].rf.Some? && Numbered(s, s[a].rf.value) && s[s[a].rf.value].kind.IsWrite() && s[s[a].rf.value].loc == s[a].loc
    && s[a].rf.value != a
  }

  ghost predicate HasPrevious(s: Trace, a: nat)
    requires a < |s|
  {
    exists b: nat :: b < a && s[b].tid == s[a].tid
  }

  /** Orders that no sequentially consistent execution can escape: program order, creation, joining and reading. */
  ghost predicate Forced(p: Program, a: nat, b: nat) {
    a < |p.s| && b < |p.s| &&
    (|| (p.s[a].tid == p.s[b].tid && a < b)
     || (b in p.starts && p.starts[b] == Some(a))
     || (b in p.joins && p.joins[b] == a)
     || (p.s[b].kind.IsRead() && p.s[b].rf == Some(a)))
  }

  /** `w` overwrites what `r` reads before `r` reads it. */
  ghost predicate Overwrites(p: Program, pos: seq<nat>, w: nat, r: nat)
    requires |pos| == |p.s|
  {
    && w < |p.s| && r < |p.s| && p.s[r].kind.IsRead() && p.s[r].rf.Some? && p.s[r].rf.value < |p.s|
    && p.s[w].kind.IsWrite() && p.s[w].loc == p.s[r].loc && w != r && w != p.s[r].rf.value
    && pos[p.s[r].rf.value] < pos[w] < pos[r]
  }

  /** A total order of the actions in which every read sees the last write before it. */
  ghost predicate IsScOrder(p: Program, pos: seq<nat>) {
    && |pos| == |p.s|
    && (forall a: nat, b: nat :: Numbered(p.s, a) && Numbered(p.s, b) && a != b ==> pos[a] != pos[b])
    && (forall a: nat, b: nat :: Numbered(p.s, a) && Numbered(p.s, b) && Forced(p, a, b) ==> pos[a] < pos[b])
    && (forall w: nat, r: nat :: Numbered(p.s, w) ==> !Overwrites(p, pos, w, r))
  }

  /** The same with the placeholders for initial values in front. */
  ghost predicate IsFullOrder(p: Program, pos: seq<nat>) {
    && |pos| == |p.s| && IsOrder(pos)
    && (forall a: nat, b: nat :: Forced(p, a, b) ==> pos[a] < pos[b])
    && (forall u: nat, b: nat :: u < |p.s| && p.s[u].kind.Uninit? && Numbered(p.s, b) ==> pos[u] < pos[b])
    && (forall w: nat, r: nat :: !Overwrites(p, pos, w, r))
  }

  function WithPlaceholders(p: Program, pos: seq<nat>): (full: seq<nat>)
    requires |pos| == |p.s|
    ensures |full| == |p.s|
    ensures forall a :: 0 <= a < |p.s| ==> full[a] == if p.s[a].kind.Uninit? then a else |p.s| + pos[a]
  {
    seq(|p.s|, a requires 0 <= a < |p.s| => if p.s[a].kind.Uninit? then a else |p.s| + pos[a])
  }

  /** Placeholders are forced before placeholders, and numbered actions before numbered ones. */
  lemma ForcedAlike(p: Program, a: nat, b: nat)
    requires Proper(p) && Forced(p, a, b)
    ensures p.s[a].kind.Uninit? <==> p.s[b].kind.Uninit?
    ensures p.s[a].kind.Uninit? ==> a < b
  {
    assert p.s[b].kind.IsRead() ==> Reads(p.s, b);
  }

  lemma PlaceholdersFirst(p: Program, pos: seq<nat>)
    requires Proper(p) && IsScOrder(p, pos)
    ensures IsFullOrder(p, WithPlaceholders(p, pos))
  {
    var full := WithPlaceholders(p, pos);
    forall a: nat, b: nat | Forced(p, a, b) ensures full[a] < full[b] {
      ForcedAlike(p, a, b);
    }
    forall w: nat, r: nat | w < |p.s| && r < |p.s| && p.s[r].kind.IsRead() ensures !Overwrites(p, full, w, r) {
      assert Reads(p.s, r);
      if Numbered(p.s, w) {
        assert !Overwrites(p, pos, w, r);
      }
    }
  }

  /** The order begins with the given actions. */
  ghost predicate StartsWith(p: Program, pos: seq<nat>, emitted: seq<nat>)
    requires |pos| == |p.s|
  {
    forall i: nat :: i < |emitted| ==> FirstAt(p, pos, emitted, i)
  }

  /** The `i`th of them comes before all but the ones before it. */
  ghost predicate FirstAt(p: Program, pos: seq<nat>, emitted: seq<nat>, i: nat)
    requires |pos| == |p.s| && i < |emitted|
  {
    emitted[i] < |p.s| && forall x: nat :: x < |p.s| && x !in emitted[..i + 1] ==> pos[emitted[i]] < pos[x]
  }

  ghost predicate Allowed(p: Program, emitted: seq<nat>, pos: seq<nat>) {
    IsFullOrder(p, pos) && StartsWith(p, pos, emitted)
  }

  // ------------------------------------------------------------------
  // Clock vectors that hold in an order
  // ------------------------------------------------------------------

  /** The clock of `a` says that `b` is not later. */
  predicate Knows(p: Program, cvs: seq<Clock>, a: nat, b: nat)
    requires a < |cvs|
  {
    Numbered(p.s, b) && p.s[b].now <= At(cvs[a], p.s[b].tid)
  }

  ghost predicate Holds(p: Program, cvs: seq<Clock>, pos: seq<nat>)
    requires |cvs| == |p.s| == |pos|
  {
    forall a: nat, b: nat :: a < |p.s| && Knows(p, cvs, a, b) ==> pos[b] <= pos[a]
  }

  /** `act` may take in the clock of `act2`. */
  ghost predicate Mergeable(p: Program, cvs: seq<Clock>, pos: seq<nat>, act2: nat, act: nat)
    requires |cvs| == |p.s| == |pos| && act < |p.s| && act2 < |p.s|
  {
    forall b: nat :: Knows(p, cvs, act2, b) ==> b != act && pos[b] <= pos[act]
  }

  lemma MergeHolds(p: Program, cvs: seq<Clock>, pos: seq<nat>, act2: nat, act: nat)
    requires |cvs| == |p.s| == |pos| && act < |p.s| && act2 < |p.s|
    requires Holds(p, cvs, pos) && Mergeable(p, cvs, pos, act2, act)
    ensures !Knows(p, cvs, act2, act)
    ensures Holds(p, cvs[act := Join(cvs[act], cvs[act2])], pos)
  {
    var cvs' := cvs[act := Join(cvs[act], cvs[act2])];
    forall a: nat, b: nat | a < |p.s| && Knows(p, cvs', a, b) ensures pos[b] <= pos[a] {
      if a == act {
        assert Knows(p, cvs, act, b) || Knows(p, cvs, act2, b);
      } else {
        assert Knows(p, cvs, a, b);
      }
    }
  }

  /** What comes before `act` may be merged into it. */
  lemma EarlierMergeable(p: Program, cvs: seq<Clock>, pos: seq<nat>, act2: nat, act: nat)
    requires |cvs| == |p.s| == |pos| && act < |p.s| && act2 < |p.s|
    requires Holds(p, cvs, pos) && pos[act2] < pos[act]
    ensures Mergeable(p, cvs, pos, act2, act)
  {
  }

  /** Nothing is known to a placeholder. */
  lemma PlaceholderMergeable(p: Program, cvs: seq<Clock>, pos: seq<nat>, act2: nat, act: nat)
    requires |cvs| == |p.s| && act < |p.s| && act2 < |p.s| && IsFullOrder(p, pos)
    requires Holds(p, cvs, pos) && p.s[act2].kind.Uninit?
    ensures Mergeable(p, cvs, pos, act2, act)
  {
    forall b: nat ensures !Knows(p, cvs, act2, b) {
      if Numbered(p.s, b) {
        assert pos[act2] < pos[b];
      }
    }
  }

  /** A write known to come after the one that is read comes after the read. */
  lemma ReadFirst(p: Program, cvs: seq<Clock>, pos: seq<nat>, read: nat, write2: nat)
    requires Proper(p) && |cvs| == |p.s| && IsFullOrder(p, pos) && Holds(p, cvs, pos)
    requires read < |p.s| && write2 < |p.s| && p.s[read].kind.IsRead() && Reads(p.s, read)
    requires p.s[write2].kind.IsWrite() && p.s[write2].loc == p.s[read].loc && write2 != read &&
             write2 != p.s[read].rf.value
    requires Knows(p, cvs, write2, p.s[read].rf.value)
    ensures pos[read] < pos[write2]
  {
    assert !Overwrites(p, pos, write2, read);
    assert pos[p.s[read].rf.value] <= pos[write2];
    Distinct(pos, p.s[read].rf.value, write2);
    Distinct(pos, read, write2);
  }

  /** A write known to come before the read comes before the write that is read. */
  lemma WriteFirst(p: Program, cvs: seq<Clock>, pos: seq<nat>, read: nat, write2: nat)
    requires Proper(p) && |cvs| == |p.s| && IsFullOrder(p, pos) && Holds(p, cvs, pos)
    requires read < |p.s| && write2 < |p.s| && p.s[read].kind.IsRead() && Reads(p.s, read)
    requires p.s[write2].kind.IsWrite() && p.s[write2].loc == p.s[read].loc && write2 != read &&
             write2 != p.s[read].rf.value
    requires Since(cvs[read], p.s[write2].tid, p.s[write2].now)
    ensures pos[write2] < pos[p.s[read].rf.value]
  {
    if Numbered(p.s, write2) {
      assert Knows(p, cvs, read, write2);
      assert !Overwrites(p, pos, write2, read);
      Distinct(pos, read, write2);
      Distinct(pos, p.s[read].rf.value, write2);
    }
  }

  lemma Distinct(pos: seq<nat>, a: nat, b: nat)
    requires IsOrder(pos) && a < |pos| && b < |pos| && a != b
    ensures pos[a] != pos[b]
  {
  }

  // ------------------------------------------------------------------
  // Clock vectors that have nothing left to take in
  // ------------------------------------------------------------------

  /** All that `a` knows is known to `b`. */
  ghost predicate Covers(cvs: seq<Clock>, b: nat, a: nat)
    requires a < |cvs| && b < |cvs|
  {
    forall t: nat :: At(cvs[a], t) <= At(cvs[b], t)
  }

  /** `b` has taken in all that `a` knows, and that was no cycle. */
  ghost predicate Takes(p: Program, cvs: seq<Clock>, b: nat, a: nat)
    requires a < |cvs| && b < |cvs|
  {
    Covers(cvs, b, a) && !Knows(p, cvs, a, b)
  }

  /** The same entries; a clock may have become longer. */
  ghost predicate SameClocks(cvs: seq<Clock>, cvs': seq<Clock>) {
    |cvs| == |cvs'| && forall a: nat, t: nat :: a < |cvs| ==> At(cvs'[a], t) == At(cvs[a], t)
  }

  /** A candidate for the rules on a read: another write of its location. */
  ghost predicate Rival(p: Program, w: nat, r: nat) {
    && r < |p.s| && w < |p.s| && p.s[r].kind.IsRead() && Reads(p.s, r)
    && p.s[w].kind.IsWrite() && p.s[w].loc == p.s[r].loc && w != r && w != p.s[r].rf.value && p.s[w].tid != p.s[r].tid
  }

  /**
   A write known to come after what the read reads has taken in the read; what the read
   reads has taken in a write known to come before the read.
   */
  ghost predicate Rules(p: Program, cvs: seq<Clock>, w: nat, r: nat)
    requires |cvs| == |p.s| && Rival(p, w, r)
  {
    && (Knows(p, cvs, w, p.s[r].rf.value) ==> Takes(p, cvs, w, r))
    && (Knows(p, cvs, r, w) ==> Takes(p, cvs, p.s[r].rf.value, w))
  }

  /** The same as far as the scan of one thread goes: it stops at a write known to the read. */
  ghost predicate Scanned(p: Program, cvs: seq<Clock>, w: nat, r: nat)
    requires |cvs| == |p.s| && Rival(p, w, r)
  {
    Rules(p, cvs, w, r) || exists b: nat :: StopsAt(p, cvs, b, w, r)
  }

  ghost predicate StopsAt(p: Program, cvs: seq<Clock>, b: nat, w: nat, r: nat)
    requires |cvs| == |p.s|
  {
    && Rival(p, w, r) && Rival(p, b, r) && w < b && p.s[b].tid == p.s[w].tid
    && Knows(p, cvs, r, b) && Rules(p, cvs, b, r) && !Knows(p, cvs, b, p.s[r].rf.value)
  }

  ghost predicate ReadScanned(p: Program, cvs: seq<Clock>, r: nat)
    requires |cvs| == |p.s| && r < |p.s| && p.s[r].kind.IsRead() && Reads(p.s, r)
  {
    && Takes(p, cvs, r, p.s[r].rf.value)
    && forall w: nat :: Rival(p, w, r) && Numbered(p.s, w) ==> Scanned(p, cvs, w, r)
  }

  ghost predicate IsPrevious(p: Program, b: nat, a: nat) {
    b < a < |p.s| && p.s[b].tid == p.s[a].tid && forall c: nat :: b < c < a ==> p.s[c].tid != p.s[a].tid
  }

  /** A pass left the clock of `a` as it was. */
  ghost predicate Settled(p: Program, cvs: seq<Clock>, a: nat)
    requires |cvs| == |p.s| && Proper(p) && a < |p.s|
  {
    && (a in p.starts && p.starts[a].Some? ==> Takes(p, cvs, a, p.starts[a].value))
    && (forall b: nat :: Numbered(p.s, a) && IsPrevious(p, b, a) ==> Takes(p, cvs, a, b))
    && (a in p.joins ==> Takes(p, cvs, a, p.joins[a]))
    && (p.s[a].kind.IsRead() ==> ReadScanned(p, cvs, a))
  }

  lemma SettledSame(p: Program, cvs: seq<Clock>, cvs': seq<Clock>, a: nat)
    requires Proper(p) && |cvs| == |p.s| && SameClocks(cvs, cvs') && a < |p.s| && Settled(p, cvs, a)
    ensures Settled(p, cvs', a)
  {
    hide Reads, Covers, Knows, SameClocks, ReadScanned;
    LengthSame(cvs, cvs');
    CoversSame(cvs, cvs');
    KnowsSame(p, cvs, cvs');
    if p.s[a].kind.IsRead() {
      assert Reads(p.s, a);
      ReadScannedSame(p, cvs, cvs', a);
    }
  }

  lemma CoversSame(cvs: seq<Clock>, cvs': seq<Clock>)
    requires SameClocks(cvs, cvs')
    ensures forall a: nat, b: nat :: a < |cvs| && b < |cvs| && Covers(cvs, b, a) ==> Covers(cvs', b, a)
  {
    forall a: nat, b: nat | a < |cvs| && b < |cvs| && Covers(cvs, b, a) ensures Covers(cvs', b, a) {
      forall t: nat ensures At(cvs'[a], t) <= At(cvs'[b], t) {
        assert At(cvs'[a], t) == At(cvs[a], t) && At(cvs'[b], t) == At(cvs[b], t);
      }
    }
  }

  lemma RulesSame(p: Program, cvs: seq<Clock>, cvs': seq<Clock>, w: nat, r: nat)
    requires |cvs| == |p.s| && SameClocks(cvs, cvs') && Rival(p, w, r)
    ensures Rules(p, cvs, w, r) ==> Rules(p, cvs', w, r)
  {
    CoversSame(cvs, cvs');
    KnowsSame(p, cvs, cvs');
  }

  lemma KnowsSame(p: Program, cvs: seq<Clock>, cvs': seq<Clock>)
    requires |cvs| == |p.s| && SameClocks(cvs, cvs')
    ensures forall a: nat, b: nat :: a < |p.s| ==> (Knows(p, cvs', a, b) <==> Knows(p, cvs, a, b))
  {
    forall a: nat, b: nat | a < |p.s| && b < |p.s| ensures Knows(p, cvs', a, b) <==> Knows(p, cvs, a, b) {
      assert At(cvs'[a], p.s[b].tid) == At(cvs[a], p.s[b].tid);
    }
  }

  lemma ScannedSame(p: Program, cvs: seq<Clock>, cvs': seq<Clock>, w: nat, r: nat)
    requires |cvs| == |p.s| && SameClocks(cvs, cvs') && Rival(p, w, r) && Scanned(p, cvs, w, r)
    ensures Scanned(p, cvs', w, r)
  {
    hide Rules, SameClocks, Knows;
    LengthSame(cvs, cvs');
    RulesSame(p, cvs, cvs', w, r);
    if b: nat :| StopsAt(p, cvs, b, w, r) {
      RulesSame(p, cvs, cvs', b, r);
      KnowsSame(p, cvs, cvs');
      assert StopsAt(p, cvs', b, w, r);
    }
  }

  lemma LengthSame(cvs: seq<Clock>, cvs': seq<Clock>)
    requires SameClocks(cvs, cvs')
    ensures |cvs'| == |cvs|
  {
  }

  lemma ReadScannedSame(p: Program, cvs: seq<Clock>, cvs': seq<Clock>, r: nat)
    requires |cvs| == |p.s| && SameClocks(cvs, cvs') && r < |p.s| && p.s[r].kind.IsRead() && Reads(p.s, r)
    requires ReadScanned(p, cvs, r)
    ensures ReadScanned(p, cvs', r)
  {
    CoversSame(cvs, cvs');
    KnowsSame(p, cvs, cvs');
    forall w: nat | Rival(p, w, r) && Numbered(p.s, w) ensures Scanned(p, cvs', w, r) {
      ScannedSame(p, cvs, cvs', w, r);
    }
  }

  lemma SameBack(cvs: seq<Clock>, cvs': seq<Clock>)
    requires SameClocks(cvs, cvs')
    ensures SameClocks(cvs', cvs)
  {
  }

  lemma SameTrans(a: seq<Clock>, b: seq<Clock>, c: seq<Clock>)
    requires SameClocks(a, b) && SameClocks(b, c)
    ensures SameClocks(a, c)
  {
  }

  lemma JoinSame(cvs: seq<Clock>, act2: nat, act: nat)
    requires act < |cvs| && act2 < |cvs| && Covers(cvs, act, act2)
    ensures SameClocks(cvs, cvs[act := Join(cvs[act], cvs[act2])])
  {
  }

  /** The scan of thread `i` from `k` on. */
  ghost predicate ThreadScanned(p: Program, cvs: seq<Clock>, r: nat, i: nat, k: nat)
    requires |cvs| == |p.s|
  {
    forall w: nat :: Rival(p, w, r) && Numbered(p.s, w) && p.s[w].tid == i && w >= k ==> Scanned(p, cvs, w, r)
  }

  lemma ThreadStop(p: Program, cvs: seq<Clock>, r: nat, i: nat, k: nat)
    requires |cvs| == |p.s| && 0 < k <= |p.s| && ThreadScanned(p, cvs, r, i, k) && Rival(p, k - 1, r)
    requires p.s[k - 1].tid == i
    requires Numbered(p.s, k - 1) ==>
               Rules(p, cvs, k - 1, r) && Knows(p, cvs, r, k - 1) && !Knows(p, cvs, k - 1, p.s[r].rf.value)
    requires Proper(p)
    ensures ThreadScanned(p, cvs, r, i, 0)
  {
    hide Rules, Knows;
    forall w: nat | Rival(p, w, r) && Numbered(p.s, w) && p.s[w].tid == i ensures Scanned(p, cvs, w, r) {
      if w < k - 1 {
        assert p.s[w].tid >= 1;
        assert StopsAt(p, cvs, k - 1, w, r);
      }
    }
  }

  lemma ThreadStart(p: Program, cvs: seq<Clock>, r: nat, i: nat)
    requires |cvs| == |p.s|
    ensures ThreadScanned(p, cvs, r, i, |p.s|)
  {
  }

  /** What is no write of the thread to the location is passed over. */
  lemma ThreadSkip(p: Program, cvs: seq<Clock>, r: nat, i: nat, k: nat)
    requires |cvs| == |p.s| && 0 < k <= |p.s| && ThreadScanned(p, cvs, r, i, k)
    requires p.s[k - 1].tid == i ==> !Rival(p, k - 1, r)
    ensures ThreadScanned(p, cvs, r, i, k - 1)
  {
    hide Scanned;
  }

  lemma RivalIs(p: Program, w: nat, r: nat)
    requires r < |p.s| && p.s[r].kind.IsRead() && Reads(p.s, r) && w < |p.s|
    ensures p.s[r].rf.Some?
    ensures p.s[w].tid != p.s[r].tid ==>
              (Rival(p, w, r) <==> p.s[w].kind.IsWrite() && p.s[w].loc == p.s[r].loc && w != p.s[r].rf.value)
  {
  }

  /** The scan goes on behind a write for which the rules hold. */
  lemma ThreadStep(p: Program, cvs: seq<Clock>, r: nat, i: nat, k: nat)
    requires |cvs| == |p.s| && 0 < k <= |p.s| && ThreadScanned(p, cvs, r, i, k) && Rival(p, k - 1, r)
    requires Numbered(p.s, k - 1) ==> Rules(p, cvs, k - 1, r)
    ensures ThreadScanned(p, cvs, r, i, k - 1)
  {
    hide Rules, StopsAt;
  }

  /** Nothing is left to take in: every forced order is known, and both rules hold for every read and write. */
  ghost predicate Saturated(p: Program, cvs: seq<Clock>)
    requires |cvs| == |p.s|
  {
    && (forall a: nat, b: nat :: Numbered(p.s, a) && Numbered(p.s, b) && Forced(p, a, b) ==> Takes(p, cvs, b, a))
    && (forall w: nat, r: nat :: Rival(p, w, r) && Numbered(p.s, w) ==> Rules(p, cvs, w, r))
  }

  lemma PreviousTakes(p: Program, cvs: seq<Clock>, k: nat, b: nat)
    requires Proper(p) && |cvs| == |p.s| && b < |p.s| && Settled(p, cvs, b) && Numbered(p.s, b) && IsPrevious(p, k, b)
    ensures Takes(p, cvs, b, k) && Numbered(p.s, k)
  {
    hide ReadScanned, Takes;
    assert p.s[b].tid >= 1;
  }

  lemma {:induction false} ThreadCovers(p: Program, cvs: seq<Clock>, a: nat, b: nat)
    requires Proper(p) && |cvs| == |p.s| && forall c: nat :: c < |p.s| ==> Settled(p, cvs, c)
    requires a <= b < |p.s| && Numbered(p.s, b) && p.s[a].tid == p.s[b].tid
    ensures Covers(cvs, b, a) && (a < b ==> !Knows(p, cvs, a, b))
    decreases b
  {
    hide Settled, Proper;
    if a < b {
      var k: nat := b - 1;
      while p.s[k].tid != p.s[b].tid
        invariant a <= k < b && forall c: nat :: k < c < b ==> p.s[c].tid != p.s[b].tid
        decreases k
      {
        k := k - 1;
      }
      PreviousTakes(p, cvs, k, b);
      ThreadCovers(p, cvs, a, k);
      KnowsUp(p, cvs, a, k, b);
    }
  }

  /** When a pass settles every action, the clocks are saturated. */
  lemma SettledSaturated(p: Program, cvs: seq<Clock>)
    requires Proper(p) && |cvs| == |p.s| && forall c: nat :: c < |p.s| ==> Settled(p, cvs, c)
    ensures Saturated(p, cvs)
  {
    hide Rules, Scanned, Knows;
    forall a: nat, b: nat | Numbered(p.s, a) && Numbered(p.s, b) && Forced(p, a, b) ensures Takes(p, cvs, b, a) {
      assert Settled(p, cvs, b);
      if p.s[a].tid == p.s[b].tid && a < b {
        ThreadCovers(p, cvs, a, b);
      }
    }
    forall w: nat, r: nat | Rival(p, w, r) && Numbered(p.s, w) ensures Rules(p, cvs, w, r) {
      assert Settled(p, cvs, r);
      assert Scanned(p, cvs, w, r);
      ScannedRules(p, cvs, w, r);
    }
  }

  lemma ScannedRules(p: Program, cvs: seq<Clock>, w: nat, r: nat)
    requires Proper(p) && |cvs| == |p.s| && forall c: nat :: c < |p.s| ==> Settled(p, cvs, c)
    requires Rival(p, w, r) && Numbered(p.s, w) && Scanned(p, cvs, w, r)
    ensures Rules(p, cvs, w, r)
  {
    hide Settled;
    if b: nat :| StopsAt(p, cvs, b, w, r) {
      assert p.s[w].tid >= 1;
      assert Numbered(p.s, b);
      ThreadCovers(p, cvs, w, b);
      KnowsUp(p, cvs, w, b, p.s[r].rf.value);
    }
  }

  lemma KnowsUp(p: Program, cvs: seq<Clock>, a: nat, b: nat, x: nat)
    requires a < |cvs| && b < |cvs| && Covers(cvs, b, a)
    ensures Knows(p, cvs, a, x) ==> Knows(p, cvs, b, x)
  {
  }

  // ------------------------------------------------------------------
  // Room for clocks to grow
  // ------------------------------------------------------------------

  function Limit(s: Trace): (n: nat)
    ensures forall a: nat :: a < |s| ==> s[a].now <= n
  {
    if s == [] then 0 else Max(Limit(s[..|s| - 1]), s[|s| - 1].now)
  }

  /** Every clock knows its own action; entries are numbers of actions. */
  ghost predicate Bounded(p: Program, cvs: seq<Clock>) {
    && |cvs| == |p.s|
    && (forall a: nat :: a < |p.s| ==> p.s[a].tid < |cvs[a]| && p.s[a].now <= At(cvs[a], p.s[a].tid))
    && forall a: nat :: a < |p.s| ==> |cvs[a]| <= p.threads && forall t: nat :: At(cvs[a], t) <= Limit(p.s)
  }

  /** The values that entries have not reached. */
  ghost function Slack(p: Program, cvs: seq<Clock>): set<(nat, nat, nat)>
    requires |cvs| == |p.s|
  {
    set a, t, n | a in Below(|p.s|) && t in Below(p.threads) && n in Below(Limit(p.s) + 1) &&
        At(cvs[a], t) < n :: (a, t, n)
  }

  lemma MergeSlack(p: Program, cvs: seq<Clock>, act2: nat, act: nat)
    requires Bounded(p, cvs) && act < |p.s| && act2 < |p.s|
    ensures var cvs' := cvs[act := Join(cvs[act], cvs[act2])];
            && Bounded(p, cvs') && Slack(p, cvs') <= Slack(p, cvs)
            && ((exists t: nat :: At(cvs[act2], t) > At(cvs[act], t)) ==> Slack(p, cvs') < Slack(p, cvs))
  {
    var cvs' := cvs[act := Join(cvs[act], cvs[act2])];
    assert forall a: nat, t: nat :: a < |p.s| ==> At(cvs[a], t) <= At(cvs'[a], t);
    if t: nat :| At(cvs[act2], t) > At(cvs[act], t) {
      var x := (act, t, At(cvs[act2], t));
      assert x in Slack(p, cvs) && x !in Slack(p, cvs');
    }
  }
}
