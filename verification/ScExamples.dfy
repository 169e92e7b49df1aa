/**
 A trace on which updateConstraints passes over a write, and a trace for which the analysis
 finds the right answer only to stop at its own assertion.
 */
module ScExamples {
  import opened Digraph
  import opened Optional
  import opened Clocks
  import opened Actions
  import opened HappensBefore
  import opened ScFixpoints
  import opened ScOrders
  import opened ScChoices
  import opened ScChecks
  import opened ScAnalyses
  import opened ScRuns

  // ------------------------------------------------------------------
  // Small traces
  // ------------------------------------------------------------------

  function Access(kind: Kind, tid: nat, now: nat, loc: nat, rf: Option<nat>): Action {
    Action.Action(kind, Relaxed, tid, now, loc, rf, None, Tick([], tid, now))
  }

  /** What all traces here have in common: relaxed accesses, threads without creators or joins, own clocks. */
  ghost predicate Plain(p: Program) {
    && p.joins == map[] && (forall a: nat :: a in p.starts ==> a < |p.s| && !HasPrevious(p.s, a) && p.starts[a].None?)
    && (forall a: nat :: a < |p.s| && !HasPrevious(p.s, a) ==> a in p.starts)
    && forall a: nat :: a < |p.s| ==>
                          && 1 <= p.s[a].tid < p.threads && p.s[a].now == a + 1 && !p.s[a].kind.Uninit?
                          && p.s[a].order.Relaxed? && p.s[a].cv == Tick([], p.s[a].tid, a + 1)
                          && (p.s[a].kind.IsRead() ==> Reads(p.s, a))
  }

  lemma PlainProper(p: Program)
    requires Plain(p)
    ensures Proper(p) && ForwardClocks(p)
  {
    hide HasPrevious, Reads;
    forall a: nat, b: nat | a < |p.s| && Numbered(p.s, b) && HB(p.s, b, a) ensures Numbered(p.s, a) && b <= a {
      assert At(p.s[a].cv, p.s[b].tid) >= b + 1;
    }
  }

  lemma PlainClocks(p: Program)
    requires Plain(p)
    ensures Bounded(p, InitialClocks(p))
  {
    hide Plain;
    PlainProper(p);
    StartsSound(p, InitialClocks(p));
  }

  // ------------------------------------------------------------------
  // Three threads that each store to one location
  // ------------------------------------------------------------------

  /** Relaxed stores to location 0, one by each of the threads from 1 on. */
  function Stores(n: nat): (p: Program)
    ensures p.threads == n + 1 && p.joins == map[] && |p.s| == n
    ensures forall a: nat :: a in p.starts <==> a < n
    ensures forall a: nat :: a < n ==> p.starts[a] == None && p.s[a] == Access(Write, a + 1, a + 1, 0, None)
  {
    Program(seq(n, a requires 0 <= a => Access(Write, a + 1, a + 1, 0, None)), n + 1, map a | a in Below(n) :: None,
            map[])
  }

  lemma StoresPlain(n: nat)
    ensures Plain(Stores(n))
  {
    hide Stores;
    forall a: nat | a < n ensures !HasPrevious(Stores(n).s, a) {
    }
    hide HasPrevious;
  }

  /**
   With three such stores the first is taken while any edge may be added. The store of thread 2 takes it
   in; that of thread 3, which is the next write to the location as well, does not, and nothing that the
   analysis does later makes up for it.
   */
  lemma SecondWriteMissed(lists: Lists, c: seq<Clock>)
    requires lists == [[], [], [1], [2]] && |c| == 3
    requires Constrained(Stores(3), InitialClocks(Stores(3)), true, 0, lists, 4, c)
    ensures Proper(Stores(3)) && Bounded(Stores(3), InitialClocks(Stores(3))) && Listed(Stores(3), lists, [0])
    ensures Nexts(Stores(3), InitialClocks(Stores(3)), 0, lists, 4) == {1, 2}
    ensures Covers(c, 1, 0) && !Covers(c, 2, 0) && Saturated(Stores(3), c)
  {
    hide *;
    StoresPlain(3);
    PlainProper(Stores(3));
    PlainClocks(Stores(3));
    StoresSaturated(3, c);
    NextsOfThree(Stores(3), InitialClocks(Stores(3)), lists);
    ThreeStores(Stores(3));
    OnlyFirst(Stores(3), InitialClocks(Stores(3)), lists, c);
  }

  lemma OnlyFirst(p: Program, c0: seq<Clock>, lists: Lists, c: seq<Clock>)
    requires lists == [[], [], [1], [2]] && Proper(p) && Bounded(p, c0) && Listed(p, lists, [0]) && |p.s| == 3 &&
             p.s[0].tid == 1
    requires Constrained(p, c0, true, 0, lists, 4, c) && !SomeCloses(p, c0, 0, lists, 4)
    requires NextWrite(p, c0, 0, lists[0]).None? && NextWrite(p, c0, 0, lists[2]) == Some(1) &&
             NextWrite(p, c0, 0, lists[3]) == Some(2)
    requires !HB(p.s, 0, 2) && p.s[2].order.Relaxed?
    ensures Covers(c, 1, 0) && !Covers(c, 2, 0)
  {
    hide NextWrite, Proper, Bounded, SomeCloses, HB, Covers, Constrained;
    WhoIsConstrained(p, c0, 0, lists, [0], c, 2);
    WhoIsConstrained(p, c0, 0, lists, [0], c, 3);
  }

  /** Nothing orders the stores. */
  lemma ThreeStores(p: Program)
    requires p == Stores(3)
    ensures !HB(p.s, 0, 1) && !HB(p.s, 0, 2) && p.s[1].order.Relaxed? && p.s[2].order.Relaxed? && p.s[0].tid == 1
  {
    hide Stores;
  }

  /** Without reads there is nothing for the analysis to find. */
  lemma StoresSaturated(n: nat, c: seq<Clock>)
    requires |c| == n
    ensures Saturated(Stores(n), c)
  {
    hide Stores;
  }

  lemma NextsOfThree(p: Program, c0: seq<Clock>, lists: Lists)
    requires p == Stores(3) && c0 == InitialClocks(p) && lists == [[], [], [1], [2]]
    ensures |p.s| == 3 && Listed(p, lists, [0]) && NextWrite(p, c0, 0, lists[0]).None? &&
            NextWrite(p, c0, 0, lists[1]).None?
    ensures NextWrite(p, c0, 0, lists[2]) == Some(1) && NextWrite(p, c0, 0, lists[3]) == Some(2)
    ensures !SomeCloses(p, c0, 0, lists, 4) && Nexts(p, c0, 0, lists, 4) == {1, 2}
  {
    hide Stores, InitialClocks;
  }

  // ------------------------------------------------------------------
  // A trace that has no order, although nothing forced shows it
  // ------------------------------------------------------------------

  /**
   Four threads with three actions each. Threads 1 and 3 store to location 0, and threads 2 and 4 read
   what they stored. Threads 1 and 2 begin with stores to location 1 that threads 4 and 3 read last, and
   threads 3 and 4 with stores to location 2 that threads 2 and 1 read last. Whichever store to location 0
   comes first, the last reads of two threads disagree.
   */
  function CrossedAction(a: nat): Action {
    Access(if a < 4 || a == 4 || a == 6 then Write else Read, a % 4 + 1, a + 1,
           if a < 2 || a >= 10 then 1 else if a < 4 || a >= 8 then 2 else 0,
           if 8 <= a < 12 then Some(11 - a) else if a == 5 || a == 7 then Some(a - 1) else None)
  }

  function Crossed(): (p: Program)
    ensures p.threads == 5 && p.joins == map[] && |p.s| == 12
    ensures forall a: nat :: a in p.starts <==> a < 4
    ensures forall a: nat :: a < 4 ==> p.starts[a] == None
    ensures forall a: nat :: a < 12 ==> p.s[a] == CrossedAction(a)
  {
    Program(seq(12, a requires 0 <= a => CrossedAction(a)), 5, map a | a in Below(4) :: None, map[])
  }

  lemma CrossedPlain()
    ensures Plain(Crossed())
  {
    hide Crossed;
    var p := Crossed();
    forall a: nat | a < 12 ensures HasPrevious(p.s, a) <==> a >= 4 {
      CrossedPrevious(p, a);
    }
    forall a: nat | a < 12 && p.s[a].kind.IsRead() ensures Reads(p.s, a) {
      CrossedReading(p, a);
    }
    hide HasPrevious, Reads;
  }

  lemma CrossedPrevious(p: Program, a: nat)
    requires p == Crossed() && a < 12
    ensures HasPrevious(p.s, a) <==> a >= 4
  {
    hide Crossed;
    if a >= 4 {
      assert p.s[a - 4].tid == p.s[a].tid;
    }
  }

  lemma CrossedReading(p: Program, a: nat)
    requires p == Crossed() && a < 12 && p.s[a].kind.IsRead()
    ensures Reads(p.s, a)
  {
    hide Crossed;
  }

  /** No order is sequentially consistent. */
  lemma CrossedHasNone(pos: seq<nat>)
    ensures !IsScOrder(Crossed(), pos)
  {
    hide Crossed;
    if IsScOrder(Crossed(), pos) {
      CrossedForced(Crossed(), pos);
      CrossedReads(Crossed(), pos);
    }
  }

  lemma CrossedForced(p: Program, pos: seq<nat>)
    requires p == Crossed() && IsScOrder(p, pos)
    ensures forall a: nat :: a < 8 ==> pos[a] < pos[a + 4]
    ensures pos[4] < pos[5] && pos[6] < pos[7] && pos[4] != pos[6] && pos[0] != pos[1] && pos[2] != pos[3]
  {
    CrossedReadsFrom(p);
    hide Crossed, CrossedAction, Overwrites;
    forall a: nat | a < 12 ensures Numbered(p.s, a) && p.s[a].tid == a % 4 + 1 {
      CrossedTid(p, a);
    }
    forall a: nat | a < 8 ensures pos[a] < pos[a + 4] {
      assert Forced(p, a, a + 4);
    }
    assert Forced(p, 4, 5) && Forced(p, 6, 7);
  }

  lemma CrossedReadsFrom(p: Program)
    requires p == Crossed()
    ensures p.s[5].kind.IsRead() && p.s[5].rf == Some(4) && p.s[7].kind.IsRead() && p.s[7].rf == Some(6)
  {
    hide Crossed;
  }

  lemma CrossedReads(p: Program, pos: seq<nat>)
    requires p == Crossed() && IsScOrder(p, pos)
    ensures !(pos[4] < pos[6] < pos[5]) && !(pos[6] < pos[4] < pos[7])
    ensures !(pos[1] < pos[0] < pos[10]) && !(pos[0] < pos[1] < pos[11])
    ensures !(pos[3] < pos[2] < pos[8]) && !(pos[2] < pos[3] < pos[9])
  {
    hide Crossed;
    assert !Overwrites(p, pos, 6, 5) && !Overwrites(p, pos, 4, 7);
    assert !Overwrites(p, pos, 0, 10) && !Overwrites(p, pos, 1, 11);
    assert !Overwrites(p, pos, 2, 8) && !Overwrites(p, pos, 3, 9);
  }

  /** So every list of all actions in program order misreads something. */
  lemma CrossedMisread(p: Program, list: seq<nat>, pos: seq<nat>)
    requires p == Crossed() && ListsAll(p.s, list, pos)
    requires forall a: nat, b: nat :: a < b < 12 && p.s[a].tid == p.s[b].tid ==> pos[a] < pos[b]
    ensures exists i: nat :: Misreads(p.s, list, i)
  {
    hide Crossed, Plain, Misreads, IsFullOrder, IsScOrder, Proper;
    CrossedPlain();
    PlainProper(p);
    CrossedProgramOrder(p);
    if forall i: nat :: !Misreads(p.s, list, i) {
      hide CrossedAction, Forced;
      PassesIsSc(p, list, pos);
      FullIsSc(p, pos);
      CrossedHasNone(pos);
    }
  }

  lemma CrossedProgramOrder(p: Program)
    requires p == Crossed()
    ensures forall a: nat, b: nat :: Forced(p, a, b) && !(p.s[b].kind.IsRead() && p.s[b].rf == Some(a)) ==>
              a < b < 12 && p.s[a].tid == p.s[b].tid
    ensures forall a: nat :: a < 12 ==> Numbered(p.s, a)
  {
    hide Crossed, CrossedAction;
    forall a: nat | a < 12 ensures Numbered(p.s, a) {
      CrossedTid(p, a);
    }
  }

  /** What is forced: program order and reading. */
  function CrossedClock(a: nat): (c: Clock)
    ensures |c| <= 5
  {
    if a == 0 then [0, 1]
    else if a == 1 then [0, 0, 2]
    else if a == 2 then [0, 0, 0, 3]
    else if a == 3 then [0, 0, 0, 0, 4]
    else if a == 4 then [0, 5]
    else if a == 5 then [0, 5, 6]
    else if a == 6 then [0, 0, 0, 7]
    else if a == 7 then [0, 0, 0, 7, 8]
    else if a == 8 then [0, 9, 0, 0, 4]
    else if a == 9 then [0, 5, 10, 3]
    else if a == 10 then [0, 0, 2, 11]
    else [0, 1, 0, 7, 12]
  }

  function CrossedClocks(): (c: seq<Clock>)
    ensures |c| == 12 && forall a: nat :: a < 12 ==> c[a] == CrossedClock(a)
  {
    seq(12, a requires 0 <= a => CrossedClock(a))
  }

  /** These clocks have nothing left to take in, so that no cycle is found before the first choice. */
  lemma CrossedSaturated(p: Program, c: seq<Clock>)
    requires p == Crossed() && c == CrossedClocks()
    ensures Saturated(p, c) && Dominates(InitialClocks(p), c)
  {
    hide Crossed, CrossedClocks, CrossedAction, CrossedClock, Forced, Takes, Rival, Rules;
    forall a: nat, b: nat | Numbered(p.s, a) && Numbered(p.s, b) && Forced(p, a, b) ensures Takes(p, c, b, a) {
      CrossedTakes(p, c, a, b);
    }
    forall w: nat, r: nat | Rival(p, w, r) && Numbered(p.s, w) ensures Rules(p, c, w, r) {
      CrossedRules(p, c, w, r);
    }
    forall a: nat, t: nat | a < 12 ensures At(InitialClocks(p)[a], t) <= At(c[a], t) {
      CrossedTid(p, a);
      CrossedOwn(a);
    }
  }

  lemma CrossedOwn(a: nat)
    requires a < 12
    ensures At(CrossedClock(a), a % 4 + 1) == a + 1
  {
  }

  lemma CrossedTakes(p: Program, c: seq<Clock>, a: nat, b: nat)
    requires p == Crossed() && c == CrossedClocks() && Forced(p, a, b)
    ensures a < 12 && b < 12 && Takes(p, c, b, a)
  {
    CrossedEdges(p, a, b);
    hide Crossed, CrossedClocks, CrossedAction, Forced;
    CrossedTid(p, b);
    CrossedCovers(a, b);
    assert c[a] == CrossedClock(a) && c[b] == CrossedClock(b);
    hide CrossedClock;
  }

  lemma CrossedEdges(p: Program, a: nat, b: nat)
    requires p == Crossed() && Forced(p, a, b)
    ensures a < 12 && b < 12
    ensures b == a + 4 || b == a + 8 || (b >= 8 && a == 11 - b) || (a == 4 && b == 5) || (a == 6 && b == 7)
  {
    hide Crossed;
  }

  lemma CrossedTid(p: Program, a: nat)
    requires p == Crossed() && a < 12
    ensures p.s[a].tid == a % 4 + 1 && p.s[a].now == a + 1 && Numbered(p.s, a)
  {
    hide Crossed;
  }

  lemma CrossedCovers(a: nat, b: nat)
    requires a < 12 && b < 12
    requires b == a + 4 || b == a + 8 || (b >= 8 && a == 11 - b) || (a == 4 && b == 5) || (a == 6 && b == 7)
    ensures forall t: nat :: At(CrossedClock(a), t) <= At(CrossedClock(b), t)
    ensures At(CrossedClock(a), b % 4 + 1) < b + 1
  {
  }

  lemma CrossedRules(p: Program, c: seq<Clock>, w: nat, r: nat)
    requires p == Crossed() && c == CrossedClocks() && Rival(p, w, r)
    ensures Rules(p, c, w, r)
  {
    CrossedRivals(p, w, r);
    hide Crossed, CrossedClocks, CrossedAction, Rival;
    var f := p.s[r].rf.value;
    CrossedTid(p, w);
    CrossedTid(p, f);
    CrossedApart(w, r, f);
    assert c[w] == CrossedClock(w) && c[r] == CrossedClock(r);
    hide CrossedClock;
  }

  lemma CrossedRivals(p: Program, w: nat, r: nat)
    requires p == Crossed() && Rival(p, w, r)
    ensures w < 12 && r < 12 && p.s[r].rf.Some? && IsPair(w, r, p.s[r].rf.value)
  {
    hide Crossed;
  }

  predicate IsPair(w: nat, r: nat, f: nat) {
    (w, r, f) in {(6, 5, 4), (4, 7, 6), (2, 8, 3), (3, 9, 2), (0, 10, 1), (1, 11, 0)}
  }

  lemma CrossedApart(w: nat, r: nat, f: nat)
    requires IsPair(w, r, f)
    ensures w < 12 && r < 12 && f < 12
    ensures At(CrossedClock(w), f % 4 + 1) < f + 1 && At(CrossedClock(r), w % 4 + 1) < w + 1
  {
  }

  /** Each location has two stores only, and no thread stores where it reads later. */
  lemma CrossedCovered(p: Program, c: seq<Clock>)
    requires p == Crossed() && |c| == |p.s|
    ensures Covered(p, c)
  {
    hide Crossed, CrossedAction, Apart, OwnStore;
    forall w: nat, r: nat ensures !OwnStore(p, w, r) {
      CrossedOwnStore(p, w, r);
    }
    forall w: nat, v: nat, r: nat | Apart(p, c, w, r) && Apart(p, c, v, r) ensures w == v && w < |p.s| {
      CrossedOther(p, c, w, r);
      CrossedOther(p, c, v, r);
    }
  }

  lemma CrossedOwnStore(p: Program, w: nat, r: nat)
    requires p == Crossed()
    ensures !OwnStore(p, w, r)
  {
    hide Crossed;
  }

  lemma CrossedOther(p: Program, c: seq<Clock>, w: nat, r: nat)
    requires p == Crossed() && |c| == |p.s| && Apart(p, c, w, r)
    ensures w < |p.s| && IsPair(w, r, p.s[r].rf.value)
  {
    hide Crossed, Knows;
  }

  /**
   The analysis finds that this trace is not sequentially consistent, but only after a choice. The list
   that it stops with misreads nothing, so that check_rf's assertion fails.
   */
  method CrossedRun() returns (cyclic: bool, asserted: bool)
    ensures cyclic && !asserted
  {
    hide Crossed, Plain, Proper, ForwardClocks, Covered, Saturated, Dominates, InitialClocks, IsScOrder, Complete;
    CrossedPlain();
    PlainProper(Crossed());
    var a := new ScAnalysis(Crossed());
    var list, badRf;
    ghost var first;
    list, badRf, asserted, first := a.Analyze();
    cyclic := a.cyclic;
    CrossedCovered(Crossed(), first);
    CrossedSaturated(Crossed(), CrossedClocks());
    assert CrossedClocks() in Bounds(Crossed(), InitialClocks(Crossed()));
    forall pos ensures !IsScOrder(Crossed(), pos) {
      CrossedHasNone(pos);
    }
  }
}
