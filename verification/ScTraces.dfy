/**
 Runs of the search on two traces that are sequentially consistent and whose list misreads
 nevertheless: each fails one half of the condition under which that cannot happen.
 */
module ScTraces {
  import opened Digraph
  import opened Optional
  import opened Clocks
  import opened Actions
  import opened HappensBefore
  import opened ScFixpoints
  import opened ScOrders
  import opened ScChoices
  import opened ScChecks
  import opened ScSearches
  import opened ScTurns
  import opened ScRuns
  import opened ScAnalyses
  import opened ScExamples

  // ------------------------------------------------------------------
  // Turns that take the first option
  // ------------------------------------------------------------------

  /** What is taken: the pick, or the first option. */
  ghost predicate TakesFirst(p: Program, c: seq<Clock>, lists: Lists, act: nat)
    requires |c| == |p.s| && AllInTrace(p, lists)
  {
    var next := FreeSeq(p, c, lists, |lists|);
    && InTrace(p, next) && (forall u :: 0 <= u < |lists| ==> InTrace(p, lists[u]))
    && (Pruned(p, c, lists, next, Some(act)) || (Pruned(p, c, lists, next, None) && next != [] && act == next[0]))
  }

  /** The body of the loop of generateSC, without recorded choices. */
  method FirstTurn(a: ScAnalysis) returns (act: nat)
    requires a.Searching() && AllInTrace(a.p, a.threadLists) && Left(a.threadLists)
    modifies a
    ensures a.Valid() && act < |a.p.s| && |old(a.cvs)| == |a.cvs| == |a.p.s|
    ensures TakesFirst(a.p, old(a.cvs), old(a.threadLists), act)
    ensures a.p.s[act].tid < |old(a.threadLists)| && old(a.threadLists)[a.p.s[act].tid] != []
    ensures old(a.threadLists)[a.p.s[act].tid][0] == act && a.emitted == old(a.emitted) + [act]
    ensures a.threadLists == old(a.threadLists)[a.p.s[act].tid := old(a.threadLists)[a.p.s[act].tid][1..]]
    ensures AllInTrace(a.p, a.threadLists) && forall t: nat :: t < |a.threadLists| ==> InTrace(a.p, a.threadLists[t])
    ensures !a.cyclic ==> a.Searching() && Ripe(a.p, old(a.cvs), a.emitted, act) &&
                          Stepped(a.p, old(a.cvs), a.threadLists, act, a.cvs)
    ensures a.cyclic ==> StepFails(a.p, old(a.cvs), a.threadLists, act)
  {
    hide Saturated, Led, Complete, NoRepeats, InOrder, FreeSeq, Pruned, Left, AnyFree, Ripe, Stepped, StepFails,
      Bounded, Proper;
    a.SearchingNow();
    var next := a.GetNextActions();
    NoneFree(a.p, a.cvs, a.threadLists, next);
    a.NextFree(next);
    var pruned := a.PruneArray(next);
    a.PickedIn(next, pruned);
    act := if pruned.Some? then pruned.value else next[0];
    var _ := a.Turn(act, []);
  }

  // ------------------------------------------------------------------
  // What the first option is
  // ------------------------------------------------------------------

  /** The clock of `a` in `d`, and so in all clocks below, does not say that `b` is not later. */
  predicate Unaware(p: Program, d: seq<Clock>, a: nat, b: nat) {
    a < |d| && b < |p.s| && At(d[a], p.s[b].tid) < p.s[b].now
  }

  lemma UnawareBelow(p: Program, c: seq<Clock>, d: seq<Clock>, a: nat, b: nat)
    requires Dominates(c, d) && Unaware(p, d, a, b)
    ensures a < |c| && !Since(c[a], p.s[b].tid, p.s[b].now)
  {
    assert At(c[a], p.s[b].tid) <= At(d[a], p.s[b].tid);
  }

  /** Thread `t` is free by clocks above. */
  ghost predicate FreeBelow(p: Program, d: seq<Clock>, lists: Lists, t: nat) {
    && t < |lists| && lists[t] != []
    && forall u: nat :: u < |lists| && u != t && lists[u] != [] ==> Unaware(p, d, lists[t][0], lists[u][0])
  }

  lemma FreeByBound(p: Program, c: seq<Clock>, d: seq<Clock>, lists: Lists, t: nat)
    requires |c| == |p.s| && AllInTrace(p, lists) && Dominates(c, d) && FreeBelow(p, d, lists, t)
    ensures Free(p, c, lists, t)
  {
    forall u: nat | u < |lists| && u != t && lists[u] != []
      ensures !Since(c[lists[t][0]], p.s[lists[u][0]].tid, p.s[lists[u][0]].now)
    {
      UnawareBelow(p, c, d, lists[t][0], lists[u][0]);
    }
  }

  /** The first write of another thread to the same location is no later, by clocks above. */
  ghost predicate ConflictsBelow(p: Program, d: seq<Clock>, lists: Lists, a: nat, t: nat) {
    && a < |p.s| && t < |lists| && t != p.s[a].tid && lists[t] != [] && lists[t][0] < |p.s|
    && p.s[lists[t][0]].kind.IsWrite() && p.s[lists[t][0]].loc == p.s[a].loc && Unaware(p, d, lists[t][0], a)
  }

  lemma ConflictByBound(p: Program, c: seq<Clock>, d: seq<Clock>, lists: Lists, a: nat, t: nat)
    requires |c| == |p.s| && Dominates(c, d) && ConflictsBelow(p, d, lists, a, t)
    requires forall u :: 0 <= u < |lists| ==> InTrace(p, lists[u])
    ensures NextWrite(p, c, a, lists[t]) == Some(lists[t][0]) && Conflicts(p, c, lists, a)
  {
    UnawareBelow(p, c, d, lists[t][0], a);
    NextsMember(p, c, a, lists, t);
  }

  lemma {:induction false} NoneBelow(p: Program, c: seq<Clock>, lists: Lists, n: nat)
    requires |c| == |p.s| && AllInTrace(p, lists) && n <= |lists| && forall u: nat :: u < n ==> !Free(p, c, lists, u)
    ensures FreeSeq(p, c, lists, n) == []
    decreases n
  {
    hide Free;
    if n > 0 {
      NoneBelow(p, c, lists, n - 1);
    }
  }

  lemma {:induction false} FirstFree(p: Program, c: seq<Clock>, lists: Lists, n: nat, t: nat)
    requires |c| == |p.s| && AllInTrace(p, lists) && t < n <= |lists| && Free(p, c, lists, t)
    requires forall u: nat :: u < t ==> !Free(p, c, lists, u)
    ensures FreeSeq(p, c, lists, n) != [] && FreeSeq(p, c, lists, n)[0] == lists[t][0]
    decreases n
  {
    hide Free;
    if n == t + 1 {
      NoneBelow(p, c, lists, t);
    } else {
      FirstFree(p, c, lists, n - 1, t);
    }
  }

  /** When all free actions are writes with conflicts, and more than one is free, that of the first thread is taken. */
  lemma ChoiceTurn(p: Program, c: seq<Clock>, lists: Lists, act: nat, t: nat, u: nat)
    requires |c| == |p.s| && AllInTrace(p, lists) && TakesFirst(p, c, lists, act)
    requires Free(p, c, lists, t) && Free(p, c, lists, u) && t < u && lists[t][0] != lists[u][0]
    requires forall v: nat :: v < t ==> !Free(p, c, lists, v)
    requires forall v: nat :: Free(p, c, lists, v) ==>
               p.s[lists[v][0]].kind.IsWrite() && Conflicts(p, c, lists, lists[v][0])
    ensures act == lists[t][0]
  {
    assert u < |lists| && lists[t] != [] && lists[u] != [];
    hide Free, Conflicts;
    var next := FreeSeq(p, c, lists, |lists|);
    FirstFree(p, c, lists, |lists|, t);
    assert lists[t][0] in next && lists[u][0] in next;
    if |next| == 1 {
      OneMember(next, lists[t][0], lists[u][0]);
    }
    forall a | a in next ensures p.s[a].kind.IsWrite() && Conflicts(p, c, lists, a) {
      var v: nat :| v < |lists| && Free(p, c, lists, v) && lists[v][0] == a;
    }
    hide FreeSeq;
    NonePicked(p, c, lists, next, act);
  }

  lemma NonePicked(p: Program, c: seq<Clock>, lists: Lists, next: seq<nat>, act: nat)
    requires |c| == |p.s| && InTrace(p, next) && |next| != 1 && forall u :: 0 <= u < |lists| ==> InTrace(p, lists[u])
    requires forall a :: a in next ==> p.s[a].kind.IsWrite() && Conflicts(p, c, lists, a)
    ensures !Pruned(p, c, lists, next, Some(act))
  {
    hide Conflicts;
  }

  /** The only free action that does not write is taken. */
  lemma ReadTurn(p: Program, c: seq<Clock>, lists: Lists, act: nat, t: nat)
    requires |c| == |p.s| && AllInTrace(p, lists) && TakesFirst(p, c, lists, act)
    requires Free(p, c, lists, t) && !p.s[lists[t][0]].kind.IsWrite()
    requires forall v: nat :: v != t && Free(p, c, lists, v) ==> p.s[lists[v][0]].kind.IsWrite()
    ensures act == lists[t][0]
  {
    assert t < |lists| && lists[t] != [];
    hide Free, Conflicts;
    var next := FreeSeq(p, c, lists, |lists|);
    assert lists[t][0] in next;
    forall a | a in next && !p.s[a].kind.IsWrite() ensures a == lists[t][0] {
      var v: nat :| v < |lists| && Free(p, c, lists, v) && lists[v][0] == a;
    }
  }

  /** What is taken is the first action of some thread. */
  lemma TakenIsFront(p: Program, c: seq<Clock>, lists: Lists, act: nat) returns (t: nat)
    requires |c| == |p.s| && AllInTrace(p, lists) && TakesFirst(p, c, lists, act)
    ensures Free(p, c, lists, t) && lists[t][0] == act
  {
    hide Conflicts;
    assert act in FreeSeq(p, c, lists, |lists|);
    t :| t < |lists| && Free(p, c, lists, t) && lists[t][0] == act;
  }

  /** The clocks stay below `d`, and no cycle is found. */
  lemma StepBelow(p: Program, c0: seq<Clock>, lists: Lists, act: nat, d: seq<Clock>)
    requires |c0| == |p.s| == |d| && act < |p.s| && (forall u :: 0 <= u < |lists| ==> InTrace(p, lists[u]))
    requires Saturated(p, d) && Dominates(c0, d)
    requires forall t: nat :: t < |lists| && t != p.s[act].tid && NextWrite(p, c0, act, lists[t]).Some? ==>
               MergesBelow(p, c0, lists, act, d, t)
    ensures !StepFails(p, c0, lists, act)
    ensures forall c :: Stepped(p, c0, lists, act, c) ==> Dominates(c, d)
  {
    hide Saturated, Constrained, NextWrite, MergesBelow;
    forall c1 | Constrained(p, c0, true, act, lists, |lists|, c1) ensures d in Bounds(p, c1) {
      ConstrainedBelow(p, c0, lists, act, d, c1);
    }
  }

  /** The merge into the write of thread `t` is refused or stays below `d`. */
  ghost predicate MergesBelow(p: Program, c0: seq<Clock>, lists: Lists, act: nat, d: seq<Clock>, t: nat)
    requires |c0| == |p.s| == |d| && act < |p.s| && t < |lists| && forall u :: 0 <= u < |lists| ==> InTrace(p, lists[u])
    requires NextWrite(p, c0, act, lists[t]).Some?
  {
    var w := NextWrite(p, c0, act, lists[t]).value;
    Covers(d, w, act) || !MayMerge(p, c0, StillAny(p, c0, true, act, lists, t), w, act)
  }

  lemma ConstrainedBelow(p: Program, c0: seq<Clock>, lists: Lists, act: nat, d: seq<Clock>, c1: seq<Clock>)
    requires |c0| == |p.s| == |d| && act < |p.s| && (forall u :: 0 <= u < |lists| ==> InTrace(p, lists[u]))
    requires Dominates(c0, d) && Constrained(p, c0, true, act, lists, |lists|, c1)
    requires forall t: nat :: t < |lists| && t != p.s[act].tid && NextWrite(p, c0, act, lists[t]).Some? ==>
               MergesBelow(p, c0, lists, act, d, t)
    ensures Dominates(c1, d)
  {
    hide NextWrite, MayMerge, StillAny;
    forall a: nat, x: nat | a < |p.s| ensures At(c1[a], x) <= At(d[a], x) {
      assert At(c0[a], x) <= At(d[a], x) && At(c0[act], x) <= At(d[act], x);
      if a in Nexts(p, c0, act, lists, |lists|) {
        var t: nat :| t < |lists| && t != p.s[act].tid && NextWrite(p, c0, act, lists[t]) == Some(a);
        assert ConstrainedAt(p, c0, true, act, lists, t, c1) && MergesBelow(p, c0, lists, act, d, t);
      }
    }
  }

  method Begin(p: Program) returns (a: ScAnalysis)
    requires Plain(p)
    ensures fresh(a) && a.Valid() && a.p == p && a.emitted == [] && a.threadLists == Rest(p, []) && |a.cvs| == |p.s|
    ensures a.cyclic ==> Bounds(p, InitialClocks(p)) == iset{}
    ensures !a.cyclic ==> a.Searching() && Least(p, InitialClocks(p), a.cvs)
  {
    hide Plain, Proper, ForwardClocks, Complete, Bounds, Least, InitialClocks, Saturated, Rest;
    PlainProper(p);
    a := new ScAnalysis(p);
    a.ComputeCVSlow();
    a.StartSearch(a.cvs);
    a.ListsAreRest();
  }

  /** check_rf on a list with a misread at `i`. */
  method FoundBad(s: Trace, list: seq<nat>, ghost i: nat) returns (badRf: map<nat, Option<nat>>)
    requires (forall k :: 0 <= k < |list| ==> list[k] < |s|) && Misreads(s, list, i)
    ensures i < |list| && list[i] in badRf
  {
    badRf := CheckRf(s, list);
  }

  /** Clocks above with nothing left to take in: there is no cycle, and the first clocks are below. */
  lemma BeginBelow(p: Program, c: seq<Clock>, d: seq<Clock>)
    requires |d| == |p.s| && Saturated(p, d) && Dominates(InitialClocks(p), d)
    ensures Bounds(p, InitialClocks(p)) != iset{}
    ensures Least(p, InitialClocks(p), c) ==> Dominates(c, d)
  {
    hide Saturated, InitialClocks;
    assert d in Bounds(p, InitialClocks(p));
  }

  /** The lists without the first action of thread `t`. */
  lemma Popped(lists: Lists, t: nat, rest: Lists)
    requires t < |lists| == |rest| && lists[t] != [] && rest[t] == lists[t][1..]
    requires forall u :: 0 <= u < |lists| && u != t ==> rest[u] == lists[u]
    ensures lists[t := lists[t][1..]] == rest
  {
  }

  lemma ListIs(p: Program, t: nat, x: seq<nat>)
    requires Ascending(x) && forall a: nat :: a in x <==> a < |p.s| && p.s[a].tid == t
    ensures RestOf(p, [], t, |p.s|) == x
  {
    hide Ascending;
    SortedSame(RestOf(p, [], t, |p.s|), x);
  }

  // ------------------------------------------------------------------
  // A store before a load in the same thread
  // ------------------------------------------------------------------

  /** Thread 1 stores; thread 2 stores too, and then reads what thread 1 stored. */
  function ReadBack(): (p: Program)
    ensures IsReadBack(p)
  {
    Program([Access(Write, 1, 1, 0, None), Access(Write, 2, 2, 0, None), Access(Read, 2, 3, 0, Some(0))], 3,
            map[0 := None, 1 := None], map[])
  }

  ghost predicate IsReadBack(p: Program) {
    && |p.s| == 3 && p.threads == 3 && p.joins == map[] && p.starts == map[0 := None, 1 := None]
    && p.s[0] == Access(Write, 1, 1, 0, None) && p.s[1] == Access(Write, 2, 2, 0, None)
    && p.s[2] == Access(Read, 2, 3, 0, Some(0))
  }

  lemma BackPlain(p: Program)
    requires IsReadBack(p)
    ensures Plain(p)
  {
    assert p.s[1].tid == p.s[2].tid;
    assert HasPrevious(p.s, 2) && !HasPrevious(p.s, 0) && !HasPrevious(p.s, 1);
  }

  /** Thread 2 first is sequentially consistent. */
  lemma BackIsSc(p: Program, pos: seq<nat>)
    requires IsReadBack(p) && pos == [1, 0, 2]
    ensures IsFullOrder(p, pos)
  {
    forall a: nat, b: nat | Forced(p, a, b) ensures a < 3 && b < 3 && pos[a] < pos[b] {
      BackEdges(p, a, b);
    }
    forall w: nat, r: nat ensures !Overwrites(p, pos, w, r) {
      BackKeeps(p, pos, w, r);
    }
    hide Forced, Overwrites;
  }

  lemma BackKeeps(p: Program, pos: seq<nat>, w: nat, r: nat)
    requires IsReadBack(p) && pos == [1, 0, 2]
    ensures !Overwrites(p, pos, w, r)
  {
  }

  /** The clocks at first, and once the store of thread 1 was put before that of thread 2. */
  function BackClocks(put: bool): (d: seq<Clock>)
    ensures |d| == 3
  {
    if put then [[0, 1], [0, 1, 2], [0, 1, 3]] else [[0, 1], [0, 0, 2], [0, 1, 3]]
  }

  /** What is left after `k` turns. */
  function BackLeft(k: nat): (lists: Lists)
    ensures |lists| == 3
  {
    if k == 0 then [[], [0], [1, 2]]
    else if k == 1 then [[], [], [1, 2]]
    else if k == 2 then [[], [], [2]]
    else [[], [], []]
  }

  lemma BackSaturated(p: Program, put: bool)
    requires IsReadBack(p)
    ensures Saturated(p, BackClocks(put)) && Dominates(InitialClocks(p), BackClocks(put))
  {
    var d := BackClocks(put);
    forall a: nat, b: nat | Numbered(p.s, a) && Numbered(p.s, b) && Forced(p, a, b) ensures Takes(p, d, b, a) {
      BackEdges(p, a, b);
      BackCovers(p, put, a, b);
    }
    forall w: nat, r: nat ensures !Rival(p, w, r) {
      BackRivals(p, w, r);
    }
  }

  lemma BackEdges(p: Program, a: nat, b: nat)
    requires IsReadBack(p) && Forced(p, a, b)
    ensures a < 2 && b == 2
  {
  }

  lemma BackCovers(p: Program, put: bool, a: nat, b: nat)
    requires IsReadBack(p) && a < 2 && b == 2
    ensures Takes(p, BackClocks(put), b, a)
  {
  }

  lemma BackRivals(p: Program, w: nat, r: nat)
    requires IsReadBack(p)
    ensures !Rival(p, w, r)
  {
  }

  lemma BackLists(p: Program)
    requires IsReadBack(p)
    ensures Rest(p, []) == BackLeft(0)
  {
    hide RestOf;
    ListIs(p, 0, []);
    ListIs(p, 1, [0]);
    ListIs(p, 2, [1, 2]);
  }

  lemma BackPopped(k: nat)
    requires k < 3
    ensures var t := if k == 0 then 1 else 2;
            && BackLeft(k)[t] != [] && BackLeft(k)[t][0] == k
            && BackLeft(k)[t := BackLeft(k)[t][1..]] == BackLeft(k + 1)
  {
    var t := if k == 0 then 1 else 2;
    Popped(BackLeft(k), t, BackLeft(k + 1));
  }

  /** The first turn: both stores are free and conflict, so that thread 1 goes first. */
  lemma BackFirst(p: Program, c: seq<Clock>, lists: Lists, act: nat)
    requires IsReadBack(p) && lists == BackLeft(0) && |c| == |p.s| && Dominates(c, BackClocks(false))
    requires AllInTrace(p, lists) && TakesFirst(p, c, lists, act)
    ensures act == 0
  {
    var d := BackClocks(false);
    FreeByBound(p, c, d, lists, 1);
    FreeByBound(p, c, d, lists, 2);
    ConflictByBound(p, c, d, lists, 0, 2);
    ConflictByBound(p, c, d, lists, 1, 1);
    hide Conflicts, TakesFirst, Dominates;
    ChoiceTurn(p, c, lists, act, 1, 2);
  }

  /** The store of thread 2 takes it in, and no cycle is found. */
  lemma BackSecond(p: Program, c: seq<Clock>, lists: Lists)
    requires IsReadBack(p) && lists == BackLeft(1) && |c| == |p.s| && Dominates(c, BackClocks(false))
    requires forall u :: 0 <= u < |lists| ==> InTrace(p, lists[u])
    ensures !StepFails(p, c, lists, 0)
  {
    var d, d' := BackClocks(false), BackClocks(true);
    BackSaturated(p, true);
    assert Dominates(d, d');
    DominatesTrans(c, d, d');
    ConflictByBound(p, c, d, lists, 0, 2);
    hide Dominates, StepFails, Stepped;
    StepBelow(p, c, lists, 0, d');
  }

  /** What is left is thread 2, and nothing is left to constrain. */
  lemma BackAlone(p: Program, c: seq<Clock>, k: nat, act: nat)
    requires IsReadBack(p) && (k == 1 || k == 2) && |c| == |p.s|
    requires AllInTrace(p, BackLeft(k)) && TakesFirst(p, c, BackLeft(k), act)
    ensures act == k
  {
    hide TakesFirst;
    var t := TakenIsFront(p, c, BackLeft(k), act);
  }

  lemma BackQuiet(p: Program, c: seq<Clock>, k: nat, act: nat)
    requires IsReadBack(p) && (k == 2 || k == 3) && |c| == |p.s| && Saturated(p, c)
    requires forall u :: 0 <= u < 3 ==> InTrace(p, BackLeft(k)[u])
    requires act == 1 || act == 2
    ensures !StepFails(p, c, BackLeft(k), act)
  {
    var lists := BackLeft(k);
    assert forall t: nat :: t < 3 && t != 2 ==> NextWrite(p, c, act, lists[t]).None?;
    assert Nexts(p, c, act, lists, |lists|) == {};
    QuietStep(p, c, lists, act);
  }

  lemma QuietStep(p: Program, c: seq<Clock>, lists: Lists, act: nat)
    requires |c| == |p.s| && Saturated(p, c) && act < |p.s| && forall u :: 0 <= u < |lists| ==> InTrace(p, lists[u])
    requires !Conflicts(p, c, lists, act)
    ensures !StepFails(p, c, lists, act)
  {
    hide Saturated, Constrained, Conflicts;
    forall c1 | Constrained(p, c, true, act, lists, |lists|, c1) ensures c in Bounds(p, c1) {
      NobodyConstrained(p, c, true, act, lists, c1);
    }
  }

  method BackFirstTurn(a: ScAnalysis) returns (act: nat)
    requires IsReadBack(a.p) && a.Searching() && a.threadLists == BackLeft(0) && |a.cvs| == |a.p.s|
    requires Dominates(a.cvs, BackClocks(false))
    modifies a
    ensures act == 0 && a.Searching() && a.threadLists == BackLeft(1)
  {
    BackThreads(a.p);
    BackPopped(0);
    hide IsReadBack, Saturated, Dominates, TakesFirst, Stepped, StepFails, Ripe, ScAnalysis.Searching, ScAnalysis.Valid,
      BackLeft, BackClocks;
    ghost var c0 := a.cvs;
    assert a.threadLists[1] != [];
    act := FirstTurn(a);
    BackFirst(a.p, c0, BackLeft(0), act);
    BackSecond(a.p, c0, a.threadLists);
  }

  method BackNextTurn(a: ScAnalysis, ghost k: nat) returns (act: nat)
    requires IsReadBack(a.p) && a.Searching() && (k == 1 || k == 2) && a.threadLists == BackLeft(k)
    modifies a
    ensures act == k && a.Searching() && a.threadLists == BackLeft(k + 1)
  {
    BackThreads(a.p);
    BackPopped(k);
    a.SearchingNow();
    hide IsReadBack, Saturated, TakesFirst, Stepped, StepFails, Ripe, ScAnalysis.Searching, ScAnalysis.Valid, BackLeft;
    ghost var c0 := a.cvs;
    assert a.threadLists[2] != [];
    act := FirstTurn(a);
    BackAlone(a.p, c0, k, act);
    BackQuiet(a.p, c0, k + 1, act);
  }

  /**
   The order 1, 0, 2 is sequentially consistent. The search takes the store of thread 1 first, as nothing
   forbids, and the rule for reads passes over the stores of the reader's own thread. No cycle is found,
   and the read sees the store of its own thread.
   */
  method ReadBackRun() returns (list: seq<nat>, cyclic: bool, badRf: map<nat, Option<nat>>)
    ensures list == [0, 1, 2] && !cyclic && 2 in badRf
    ensures IsFullOrder(ReadBack(), [1, 0, 2])
  {
    BackStart();
    hide Plain, ReadBack, Saturated, Dominates, InitialClocks, Rest, IsFullOrder, BackLeft, BackClocks, IsReadBack,
      ScAnalysis.Searching, ScAnalysis.Valid, Misreads;
    var a := BackBegin();
    var first := BackFirstTurn(a);
    var second := BackNextTurn(a, 1);
    var third := BackNextTurn(a, 2);
    a.SearchingNow();
    list, cyclic := [first, second, third], a.cyclic;
    badRf := FoundBad(a.p.s, list, 2);
  }

  method BackBegin() returns (a: ScAnalysis)
    ensures fresh(a) && a.p == ReadBack() && IsReadBack(a.p) && a.Searching() && a.threadLists == BackLeft(0)
    ensures |a.cvs| == |a.p.s| && Dominates(a.cvs, BackClocks(false))
  {
    BackStart();
    hide Plain, ReadBack, Saturated, Dominates, InitialClocks, Rest, IsFullOrder, BackLeft, BackClocks, IsReadBack,
      ScAnalysis.Searching, ScAnalysis.Valid, Misreads, Least, Bounds;
    a := Begin(ReadBack());
    BeginBelow(a.p, a.cvs, BackClocks(false));
  }

  /** The half of the condition that is about other threads holds for any clocks. */
  lemma BackOneThread(p: Program)
    requires IsReadBack(p)
    ensures forall c: seq<Clock> :: |c| == |p.s| ==> OneThreadOpen(p, c)
  {
    forall c: seq<Clock>, w: nat, v: nat, r: nat | |c| == 3 && Apart(p, c, w, r) && Apart(p, c, v, r) ensures w == v {
      BackOther(p, c, w, r);
      BackOther(p, c, v, r);
    }
  }

  lemma BackOther(p: Program, c: seq<Clock>, w: nat, r: nat)
    requires IsReadBack(p) && |c| == 3 && Apart(p, c, w, r)
    ensures w == 1
  {
    hide Knows;
  }

  lemma BackStart()
    ensures Plain(ReadBack()) && IsReadBack(ReadBack()) && Rest(ReadBack(), []) == BackLeft(0) && |ReadBack().s| == 3
    ensures Saturated(ReadBack(), BackClocks(false)) && Dominates(InitialClocks(ReadBack()), BackClocks(false))
    ensures Misreads(ReadBack().s, [0, 1, 2], 2) && IsFullOrder(ReadBack(), [1, 0, 2])
  {
    hide ReadBack, BackClocks, Saturated, IsFullOrder;
    BackPlain(ReadBack());
    BackLists(ReadBack());
    BackSaturated(ReadBack(), false);
    BackMisread(ReadBack(), [0, 1, 2]);
    BackIsSc(ReadBack(), [1, 0, 2]);
  }

  lemma BackMisread(p: Program, list: seq<nat>)
    requires IsReadBack(p) && list == [0, 1, 2]
    ensures Misreads(p.s, list, 2) && list[2] == 2
  {
    assert LastWrite(p.s, list, 2, 0) == Some(1);
  }

  lemma BackThreads(p: Program)
    requires IsReadBack(p)
    ensures |p.s| == 3 && p.threads == 3 && p.s[0].tid == 1 && p.s[1].tid == p.s[2].tid == 2
  {
  }

  // ------------------------------------------------------------------
  // Three threads that store what a fourth reads
  // ------------------------------------------------------------------

  /**
   Threads 1 to 3 store to location 0. Thread 4 stores to location 1 and then reads what thread 1 stored;
   thread 5 stores to location 1, so that the store of thread 4 has a conflict and its read must wait.
   */
  function TripleAction(a: nat): Action {
    Access(if a == 4 then Read else Write, if a <= 3 then a + 1 else a, a + 1, if a == 3 || a == 5 then 1 else 0,
           if a == 4 then Some(0) else None)
  }

  function Triple(): (p: Program)
    ensures p.threads == 6 && p.joins == map[] && |p.s| == 6
    ensures forall a: nat :: a in p.starts <==> a < 6 && a != 4
    ensures forall a: nat :: a in p.starts ==> p.starts[a] == None
    ensures forall a: nat :: a < 6 ==> p.s[a] == TripleAction(a)
  {
    Program(seq(6, a requires 0 <= a => TripleAction(a)), 6, map a | a in Below(6) - {4} :: None, map[])
  }

  lemma TriplePlain(p: Program)
    requires p == Triple()
    ensures Plain(p)
  {
    hide Triple;
    assert p.s[3].tid == p.s[4].tid;
    assert HasPrevious(p.s, 4);
    forall a: nat | a < 6 && a != 4 ensures !HasPrevious(p.s, a) {
    }
    hide HasPrevious;
  }

  /** The store of thread 1 and the read last is sequentially consistent. */
  lemma TripleIsSc(p: Program, pos: seq<nat>)
    requires p == Triple() && pos == [4, 1, 2, 0, 5, 3]
    ensures IsFullOrder(p, pos)
  {
    hide Triple;
    forall a: nat, b: nat | Forced(p, a, b) ensures a < 6 && b < 6 && pos[a] < pos[b] {
      TripleEdges(p, a, b);
    }
    forall w: nat, r: nat ensures !Overwrites(p, pos, w, r) {
    }
  }

  lemma TripleEdges(p: Program, a: nat, b: nat)
    requires p == Triple() && Forced(p, a, b)
    ensures b == 4 && (a == 0 || a == 3)
  {
    hide Triple;
  }

  /** Clocks above those of the search after `k` turns. */
  function TripleClock(k: nat, a: nat): (c: Clock)
  {
    if a == 0 then [0, 1]
    else if a == 1 then (if k == 0 then [0, 0, 2] else if k == 1 then [0, 1, 2, 0, 5] else [0, 1, 2, 3, 5])
    else if a == 2 then [0, 0, 0, 3]
    else if a == 3 then [0, 0, 0, 0, 4]
    else if a == 4 then [0, 1, 0, 0, 5]
    else if k <= 2 then [0, 0, 0, 0, 0, 6] else [0, 0, 0, 0, 4, 6]
  }

  function TripleClocks(k: nat): (c: seq<Clock>)
    ensures |c| == 6 && forall a: nat :: a < 6 ==> c[a] == TripleClock(k, a)
  {
    seq(6, a requires 0 <= a => TripleClock(k, a))
  }

  lemma TripleSaturated(p: Program, k: nat)
    requires p == Triple()
    ensures Saturated(p, TripleClocks(k)) && Dominates(InitialClocks(p), TripleClocks(k))
  {
    var d := TripleClocks(k);
    hide Triple, TripleClocks, TripleClock, TripleAction, Rules, Takes, Rival, Forced;
    forall a: nat, b: nat | Numbered(p.s, a) && Numbered(p.s, b) && Forced(p, a, b) ensures Takes(p, d, b, a) {
      TripleEdges(p, a, b);
      TripleTakes(p, k, a);
    }
    forall w: nat, r: nat | Rival(p, w, r) && Numbered(p.s, w) ensures Rules(p, d, w, r) {
      TripleRivals(p, w, r);
      TripleRules(p, k, w);
    }
    TripleOwn(p, k);
  }

  lemma TripleTakes(p: Program, k: nat, a: nat)
    requires p == Triple() && (a == 0 || a == 3)
    ensures Takes(p, TripleClocks(k), 4, a)
  {
    hide Triple, TripleClocks;
  }

  lemma TripleOwn(p: Program, k: nat)
    requires p == Triple()
    ensures Dominates(InitialClocks(p), TripleClocks(k))
  {
    hide Triple, TripleClocks;
  }

  lemma TripleGrows(k: nat)
    ensures Dominates(TripleClocks(k), TripleClocks(k + 1))
  {
    hide TripleClocks;
  }

  lemma TripleRivals(p: Program, w: nat, r: nat)
    requires p == Triple() && Rival(p, w, r)
    ensures r == 4 && (w == 1 || w == 2)
  {
    hide Triple;
  }

  lemma TripleRules(p: Program, k: nat, w: nat)
    requires p == Triple() && (w == 1 || w == 2) && Rival(p, w, 4)
    ensures Rules(p, TripleClocks(k), w, 4)
  {
    hide Triple, TripleClocks;
  }

  /** What is left after `k` turns. */
  function TripleLeft(k: nat): (lists: Lists)
    ensures |lists| == 6 && lists[0] == []
  {
    [[],
     if k == 0 then [0] else [],
     if k <= 4 then [1] else [],
     if k <= 1 then [2] else [],
     if k <= 2 then [3, 4] else if k == 3 then [4] else [],
     if k <= 5 then [5] else []]
  }

  /** Which thread has its turn after `k` turns, and what it does. */
  function TripleTurn(k: nat): (t: nat)
    requires k < 6
    ensures t < 6
  {
    if k == 0 then 1 else if k == 1 then 3 else if k <= 3 then 4 else if k == 4 then 2 else 5
  }

  function TripleTaken(k: nat): nat
    requires k < 6
  {
    if k == 0 then 0 else if k <= 3 then k + 1 else if k == 4 then 1 else 5
  }

  lemma TriplePopped(k: nat)
    requires k < 6
    ensures var t := TripleTurn(k);
            && TripleLeft(k)[t] != [] && TripleLeft(k)[t][0] == TripleTaken(k)
            && TripleLeft(k)[t := TripleLeft(k)[t][1..]] == TripleLeft(k + 1)
  {
    Popped(TripleLeft(k), TripleTurn(k), TripleLeft(k + 1));
  }

  lemma TripleLists(p: Program)
    requires p == Triple()
    ensures Rest(p, []) == TripleLeft(0)
  {
    hide RestOf, Triple;
    ListIs(p, 0, []);
    ListIs(p, 1, [0]);
    ListIs(p, 2, [1]);
    ListIs(p, 3, [2]);
    ListIs(p, 4, [3, 4]);
    ListIs(p, 5, [5]);
  }

  // ------------------------------------------------------------------
  // Its turns
  // ------------------------------------------------------------------

  /** Thread `t` is free after `k` turns. */
  lemma TripleFree(p: Program, k: nat, t: nat)
    requires p == Triple() && k < 6 && t < 6 && TripleLeft(k)[t] != []
    requires t != 2 || k >= 4
    requires t != 4 || k <= 3
    requires k <= 2 || t != 5
    ensures FreeBelow(p, TripleClocks(k), TripleLeft(k), t)
  {
    hide Triple, TripleClocks;
  }

  /** The first write of thread `t` conflicts with `a` after `k` turns. */
  lemma TripleConflict(p: Program, k: nat, a: nat, t: nat)
    requires p == Triple()
    requires (k == 0 && ((a < 3 && a > 0 && t == 1) || (a == 0 && t == 3))) || (k <= 1 && a == 2 && t == 2) ||
             (k <= 2 && ((a == 3 && t == 5) || (a == 5 && t == 4)))
    ensures ConflictsBelow(p, TripleClocks(k), TripleLeft(k), a, t)
  {
    hide Triple, TripleClocks;
  }

  /** What thread 2 learnt from the first turn: its store comes after the read, and so after all of thread 4. */
  ghost predicate Learnt(p: Program, c: seq<Clock>, k: nat) {
    && |c| == |p.s| == 6 && Dominates(c, TripleClocks(k)) && (k >= 1 ==> Knows(p, c, 1, 3) && Knows(p, c, 1, 4))
  }

  /** As long as thread 4 has something left, thread 2 is not free. */
  lemma TripleBlocked(p: Program, c: seq<Clock>, k: nat)
    requires p == Triple() && 1 <= k <= 3 && Learnt(p, c, k)
    ensures AllInTrace(p, TripleLeft(k)) && !Free(p, c, TripleLeft(k), 2)
  {
    hide Triple, TripleClocks, Dominates;
    var lists := TripleLeft(k);
    assert lists[2] == [1] && lists[4] != [] && (lists[4][0] == 3 || lists[4][0] == 4);
    assert Since(c[1], p.s[lists[4][0]].tid, p.s[lists[4][0]].now);
  }

  /** The first three turns: only writes with conflicts are free. */
  lemma TripleChoice(p: Program, c: seq<Clock>, k: nat, act: nat)
    requires p == Triple() && k <= 2 && Learnt(p, c, k) && AllInTrace(p, TripleLeft(k))
    requires TakesFirst(p, c, TripleLeft(k), act)
    ensures act == TripleTaken(k)
  {
    var d, lists, t := TripleClocks(k), TripleLeft(k), TripleTurn(k);
    var u := if k == 0 then 3 else if k == 1 then 4 else 5;
    TriplePopped(k);
    TripleFree(p, k, t);
    TripleFree(p, k, u);
    FreeByBound(p, c, d, lists, t);
    FreeByBound(p, c, d, lists, u);
    forall v: nat | Free(p, c, lists, v)
      ensures v >= t && p.s[lists[v][0]].kind.IsWrite() && Conflicts(p, c, lists, lists[v][0])
    {
      TripleOther(p, c, k, v);
    }
    hide Free, Conflicts, TakesFirst, Triple, TripleClocks, Dominates;
    ChoiceTurn(p, c, lists, act, t, u);
  }

  lemma TripleOther(p: Program, c: seq<Clock>, k: nat, v: nat)
    requires p == Triple() && k <= 2 && Learnt(p, c, k) && AllInTrace(p, TripleLeft(k)) && Free(p, c, TripleLeft(k), v)
    requires forall u :: 0 <= u < 6 ==> InTrace(p, TripleLeft(k)[u])
    ensures var a := TripleLeft(k)[v][0];
            v >= TripleTurn(k) && p.s[a].kind.IsWrite() && Conflicts(p, c, TripleLeft(k), a)
  {
    hide Triple, TripleClocks, Dominates, Conflicts;
    var a := TripleLeft(k)[v][0];
    if k >= 1 {
      TripleBlocked(p, c, k);
    }
    hide Free;
    var t := if k == 0 && (v == 2 || v == 3) then 1
             else if v == 1 then 3
             else if v == 3 then 2
             else if v == 4 then 5
             else 4;
    TripleConflict(p, k, a, t);
    ConflictByBound(p, c, TripleClocks(k), TripleLeft(k), a, t);
  }

  /** The fourth turn: the read is the only free action that does not write. */
  lemma TripleRead(p: Program, c: seq<Clock>, act: nat)
    requires p == Triple() && Learnt(p, c, 3) && AllInTrace(p, TripleLeft(3)) && TakesFirst(p, c, TripleLeft(3), act)
    ensures act == 4
  {
    TripleFree(p, 3, 4);
    FreeByBound(p, c, TripleClocks(3), TripleLeft(3), 4);
    hide Triple, TripleClocks, Dominates, TakesFirst;
    ReadTurn(p, c, TripleLeft(3), act, 4);
  }

  /** The fifth: two stores to different locations are left, and the earlier one is picked. */
  lemma TripleApart(p: Program, c: seq<Clock>, act: nat)
    requires p == Triple() && Learnt(p, c, 4) && AllInTrace(p, TripleLeft(4)) && TakesFirst(p, c, TripleLeft(4), act)
    ensures act == 1
  {
    var lists := TripleLeft(4);
    TripleFree(p, 4, 2);
    FreeByBound(p, c, TripleClocks(4), lists, 2);
    hide Triple, TripleClocks, Dominates;
    assert forall u :: 0 <= u < 6 ==> InTrace(p, lists[u]);
    NoConflictLeft(p, c);
    hide Free, Conflicts, TripleLeft;
    EarliestTurn(p, c, lists, act, 2);
  }

  lemma NoConflictLeft(p: Program, c: seq<Clock>)
    requires p == Triple() && |c| == |p.s| == 6 && forall u :: 0 <= u < 6 ==> InTrace(p, TripleLeft(4)[u])
    ensures var lists := TripleLeft(4);
            !Conflicts(p, c, lists, 1) && forall v: nat :: Free(p, c, lists, v) ==> lists[v] == [1] || lists[v] == [5]
  {
    hide Triple;
    var lists := TripleLeft(4);
    forall t: nat | t < 6 && t != 2 ensures NextWrite(p, c, 1, lists[t]).None? {
      if t == 5 {
        assert lists[5][1..] == [];
      }
    }
    assert Nexts(p, c, 1, lists, |lists|) == {};
  }

  /** Without reads and conflicts, the earliest free write is picked. */
  lemma EarliestTurn(p: Program, c: seq<Clock>, lists: Lists, act: nat, t: nat)
    requires |c| == |p.s| && AllInTrace(p, lists) && TakesFirst(p, c, lists, act) && Free(p, c, lists, t)
    requires forall u :: 0 <= u < |lists| ==> InTrace(p, lists[u])
    requires t < |lists| && lists[t] != [] && !Conflicts(p, c, lists, lists[t][0])
    requires forall v: nat :: v < |lists| && Free(p, c, lists, v) ==>
               p.s[lists[v][0]].kind.IsWrite() &&
               (lists[v][0] == lists[t][0] || p.s[lists[t][0]].now < p.s[lists[v][0]].now)
    ensures act == lists[t][0]
  {
    hide Conflicts;
    var next := FreeSeq(p, c, lists, |lists|);
    assert lists[t][0] in next;
    forall a | a in next
      ensures p.s[a].kind.IsWrite() && (a == lists[t][0] || p.s[lists[t][0]].now < p.s[a].now)
    {
      var v: nat :| v < |lists| && Free(p, c, lists, v) && lists[v][0] == a;
    }
  }

  /** The last: only thread 5 is left. */
  lemma TripleLast(p: Program, c: seq<Clock>, act: nat)
    requires p == Triple() && |c| == |p.s| && AllInTrace(p, TripleLeft(5)) && TakesFirst(p, c, TripleLeft(5), act)
    ensures act == 5
  {
    hide Triple, TakesFirst;
    var t := TakenIsFront(p, c, TripleLeft(5), act);
  }

  lemma TriplePick(p: Program, c: seq<Clock>, k: nat, act: nat)
    requires p == Triple() && k < 6 && Learnt(p, c, k) && AllInTrace(p, TripleLeft(k))
    requires TakesFirst(p, c, TripleLeft(k), act)
    ensures act == TripleTaken(k)
  {
    hide Triple, TakesFirst, TripleLeft, Learnt;
    if k <= 2 {
      TripleChoice(p, c, k, act);
    } else if k == 3 {
      TripleRead(p, c, act);
    } else if k == 4 {
      TripleApart(p, c, act);
    } else {
      LearntBelow(p, c, k);
      TripleLast(p, c, act);
    }
  }

  // ------------------------------------------------------------------
  // What its turns constrain
  // ------------------------------------------------------------------

  /** The only writes that a turn finds. */
  lemma TripleNext(p: Program, c: seq<Clock>, k: nat, t: nat)
    requires p == Triple() && k < 6 && |c| == |p.s| && t < 6 && t != TripleTurn(k)
    requires InTrace(p, TripleLeft(k + 1)[t]) && NextWrite(p, c, TripleTaken(k), TripleLeft(k + 1)[t]).Some?
    ensures var w := NextWrite(p, c, TripleTaken(k), TripleLeft(k + 1)[t]).value;
            (k <= 3 && k != 2 && t == 2 && w == 1) || (k == 0 && t == 3 && w == 2) || (k == 2 && t == 5 && w == 5)
  {
    NextWriteIs(p, c, TripleTaken(k), TripleLeft(k + 1)[t]);
    hide Triple, NextWrite;
  }

  /** The store of thread 3 is refused: that of thread 2 was put after the store of thread 1 already. */
  lemma TripleRefused(p: Program, c: seq<Clock>)
    requires p == Triple() && Learnt(p, c, 0) && forall u :: 0 <= u < 6 ==> InTrace(p, TripleLeft(1)[u])
    ensures !MayMerge(p, c, StillAny(p, c, true, 0, TripleLeft(1), 3), 2, 0)
  {
    TripleUnaware(p);
    hide Triple, TripleClocks, TripleAction, TripleClock;
    var d, lists := TripleClocks(0), TripleLeft(1);
    ConflictByBound(p, c, d, lists, 0, 2);
    assert At(c[0], 2) <= At(d[0], 2);
    hide Dominates, NextWrite, HB;
    assert !Closes(p, c, 0, 1);
  }

  lemma TripleMerges(p: Program, c: seq<Clock>, k: nat, lists: Lists, act: nat, t: nat)
    requires p == Triple() && k < 6 && Learnt(p, c, k) && t < 6 && t != TripleTurn(k)
    requires lists == TripleLeft(k + 1) && act == TripleTaken(k) && forall u :: 0 <= u < 6 ==> InTrace(p, lists[u])
    requires NextWrite(p, c, act, lists[t]).Some?
    ensures act < |p.s| && MergesBelow(p, c, lists, act, TripleClocks(k + 1), t)
  {
    TripleNext(p, c, k, t);
    if k == 0 && t == 3 {
      TripleRefused(p, c);
    } else {
      TripleCovers(k);
    }
    hide Triple, TripleClocks, NextWrite, Dominates, MayMerge, StillAny;
  }

  lemma TripleCovers(k: nat)
    requires k <= 3
    ensures var d := TripleClocks(k + 1);
            if k == 2 then Covers(d, 5, 3) else Covers(d, 1, TripleTaken(k))
  {
    hide TripleClocks;
  }

  lemma TripleStep(p: Program, c: seq<Clock>, k: nat, lists: Lists, act: nat, d: seq<Clock>)
    requires p == Triple() && k < 6 && Learnt(p, c, k) && lists == TripleLeft(k + 1) && act == TripleTaken(k)
    requires d == TripleClocks(k + 1) && forall u :: 0 <= u < 6 ==> InTrace(p, lists[u])
    ensures |c| == |p.s| && act < |p.s|
    ensures !StepFails(p, c, lists, act)
    ensures forall c' :: Stepped(p, c, lists, act, c') ==> Dominates(c', d)
  {
    hide Triple, TripleClocks, TripleLeft, TripleTaken, TripleTurn, TripleAction, Saturated, Dominates, MergesBelow,
      NextWrite, Stepped, StepFails, Learnt, InTrace, InitialClocks;
    TripleSaturated(p, k + 1);
    TripleGrows(k);
    TripleTid(p, k);
    LearntBelow(p, c, k);
    DominatesTrans(c, TripleClocks(k), d);
    forall t: nat | t < 6 && t != TripleTurn(k) && NextWrite(p, c, act, lists[t]).Some?
      ensures MergesBelow(p, c, lists, act, d, t)
    {
      TripleMerges(p, c, k, lists, act, t);
    }
    StepBelow(p, c, lists, act, d);
  }

  lemma TripleTid(p: Program, k: nat)
    requires p == Triple() && k < 6
    ensures TripleTaken(k) < |p.s| == 6 && p.s[TripleTaken(k)].tid == TripleTurn(k)
  {
    hide Triple;
  }

  lemma LearntBelow(p: Program, c: seq<Clock>, k: nat)
    requires Learnt(p, c, k)
    ensures |c| == |p.s| && Dominates(c, TripleClocks(k))
  {
  }

  /** After the first turn the store of thread 2 knows of thread 4: its read must come before. */
  lemma TripleLearns(p: Program, c: seq<Clock>, c': seq<Clock>)
    requires p == Triple() && Learnt(p, c, 0) && Bounded(p, c) && |c'| == |p.s| && Bounded(p, c') && Saturated(p, c')
    requires forall u :: 0 <= u < 6 ==> InTrace(p, TripleLeft(1)[u])
    requires Stepped(p, c, TripleLeft(1), 0, c')
    ensures Knows(p, c', 1, 3) && Knows(p, c', 1, 4)
  {
    TripleConstrained(p, c);
    hide Stepped, NextWrite, StillAny, Closes, TripleClocks, Learnt;
    TripleFacts(p);
    NextKnown(p, c, TripleLeft(1), 0, c', 2);
    hide TripleLeft, Triple, TripleAction;
    RuleKnown(p, c', 1, 4);
    ForcedCovers(p, c', 3, 4);
    SelfKnown(p, c', 3);
    SelfKnown(p, c', 4);
    KnowsUp(p, c', 3, 4, 3);
    RuleCovers(p, c', 1, 4);
    KnowsUp(p, c', 4, 1, 3);
  }

  lemma RuleCovers(p: Program, c: seq<Clock>, w: nat, r: nat)
    requires |c| == |p.s| && Saturated(p, c) && Rival(p, w, r) && Numbered(p.s, w) && Knows(p, c, w, p.s[r].rf.value)
    ensures r < |p.s| && w < |p.s| && Covers(c, w, r)
  {
    assert Rules(p, c, w, r);
  }

  lemma TripleFacts(p: Program)
    requires p == Triple()
    ensures |p.s| == 6 && p.threads == 6 && p.s[0].tid == 1 && p.s[4].rf == Some(0)
    ensures Rival(p, 1, 4) && Forced(p, 3, 4) && forall a: nat :: a < 6 ==> Numbered(p.s, a)
    ensures forall k: nat :: k < 6 ==> p.s[TripleTaken(k)].tid == TripleTurn(k)
  {
    hide Triple;
  }

  lemma TripleConstrained(p: Program, c: seq<Clock>)
    requires p == Triple() && Learnt(p, c, 0) && forall u :: 0 <= u < 6 ==> InTrace(p, TripleLeft(1)[u])
    ensures NextWrite(p, c, 0, TripleLeft(1)[2]) == Some(1) && StillAny(p, c, true, 0, TripleLeft(1), 2)
    ensures !Closes(p, c, 0, 1)
  {
    TripleUnaware(p);
    hide Triple, TripleClocks, TripleAction, TripleClock;
    var d, lists := TripleClocks(0), TripleLeft(1);
    ConflictByBound(p, c, d, lists, 0, 2);
    assert At(c[0], 2) <= At(d[0], 2);
    hide Dominates;
  }

  lemma TripleUnaware(p: Program)
    requires p == Triple()
    ensures ConflictsBelow(p, TripleClocks(0), TripleLeft(1), 0, 2) && Unaware(p, TripleClocks(0), 0, 1)
    ensures p.s[0].tid == 1 && p.s[1].tid == 2 && p.s[1].now == 2 && !HB(p.s, 0, 2) && p.s[2].order.Relaxed?
  {
    hide Triple, TripleClocks;
  }

  /** One turn. */
  method TripleNextTurn(a: ScAnalysis, ghost k: nat) returns (act: nat)
    requires a.p == Triple() && a.Searching() && k < 6 && a.threadLists == TripleLeft(k) && Learnt(a.p, a.cvs, k)
    modifies a
    ensures act == TripleTaken(k) && a.Searching() && a.threadLists == TripleLeft(k + 1) && Learnt(a.p, a.cvs, k + 1)
  {
    TripleFacts(a.p);
    TriplePopped(k);
    a.SearchingNow();
    a.BoundedNow();
    LearntBelow(a.p, a.cvs, k);
    hide Triple, Saturated, TakesFirst, Stepped, StepFails, Ripe, ScAnalysis.Searching, ScAnalysis.Valid, TripleLeft,
      TripleTaken, TripleTurn, Learnt, Bounded, Proper, Rival, Forced, TripleClocks, Dominates;
    ghost var c0 := a.cvs;
    assert a.threadLists[TripleTurn(k)] != [];
    act := FirstTurn(a);
    TriplePick(a.p, c0, k, act);
    TripleStep(a.p, c0, k, a.threadLists, act, TripleClocks(k + 1));
    a.SearchingNow();
    a.BoundedNow();
    TripleLearnt(a.p, c0, a.cvs, k, a.threadLists, act);
  }

  lemma TripleLearnt(p: Program, c: seq<Clock>, c': seq<Clock>, k: nat, lists: Lists, act: nat)
    requires p == Triple() && k < 6 && Learnt(p, c, k) && Bounded(p, c) && |c| == |c'| == |p.s| && Bounded(p, c')
    requires Saturated(p, c') && Dominates(c', TripleClocks(k + 1)) && act < |p.s|
    requires lists == TripleLeft(k + 1) && act == TripleTaken(k) && forall u :: 0 <= u < 6 ==> InTrace(p, lists[u])
    requires Stepped(p, c, lists, act, c')
    ensures Learnt(p, c', k + 1)
  {
    hide Triple, Saturated, Stepped, TripleClocks, TripleLeft;
    if k == 0 {
      TripleLearns(p, c, c');
    } else {
      SteppedMore(p, c, lists, act, c');
      DominatesKnows(p, c, c', 1, 3);
      DominatesKnows(p, c, c', 1, 4);
    }
  }

  function TripleList(): (list: seq<nat>)
    ensures |list| == 6 && forall i :: 0 <= i < 6 ==> list[i] < 6
  {
    [0, 2, 3, 4, 1, 5]
  }

  method TripleTurns(a: ScAnalysis) returns (list: seq<nat>)
    requires a.p == Triple() && a.Searching() && a.threadLists == TripleLeft(0) && Learnt(a.p, a.cvs, 0)
    modifies a
    ensures a.Searching() && list == TripleList()
  {
    hide Triple, TripleLeft, ScAnalysis.Searching, ScAnalysis.Valid, Learnt;
    list := [];
    var k := 0;
    while k < 6
      invariant k <= 6 && a.p == Triple() && a.Searching() && a.threadLists == TripleLeft(k) && Learnt(a.p, a.cvs, k)
      invariant |list| == k && forall i :: 0 <= i < k ==> list[i] == TripleTaken(i)
    {
      var act := TripleNextTurn(a, k);
      list := list + [act];
      k := k + 1;
    }
  }

  /**
   The order with the store of thread 1 and its read at the end is sequentially consistent. The search
   takes that store first; that of thread 2 is put after it, and that of thread 3 is not, and is taken
   before the read. No cycle is found, and the read sees the store of thread 3. The reader's thread has
   no store to the location.
   */
  method TripleRun() returns (list: seq<nat>, cyclic: bool, badRf: map<nat, Option<nat>>)
    ensures list == TripleList() && !cyclic && 4 in badRf
    ensures IsFullOrder(Triple(), [4, 1, 2, 0, 5, 3])
  {
    TripleStart();
    hide Plain, Triple, Saturated, Dominates, InitialClocks, Rest, IsFullOrder, TripleLeft, TripleClocks, Misreads,
      ScAnalysis.Searching, ScAnalysis.Valid, Learnt, TripleList;
    var a := TripleBegin();
    list := TripleTurns(a);
    a.SearchingNow();
    cyclic := a.cyclic;
    badRf := FoundBad(a.p.s, list, 3);
  }

  method TripleBegin() returns (a: ScAnalysis)
    ensures fresh(a) && a.p == Triple() && a.Searching() && a.threadLists == TripleLeft(0) && Learnt(a.p, a.cvs, 0)
  {
    TripleStart();
    hide Plain, Triple, Saturated, Dominates, InitialClocks, Rest, IsFullOrder, TripleLeft, TripleClocks, Misreads,
      ScAnalysis.Searching, ScAnalysis.Valid, Learnt, TripleList, Least, Bounds;
    a := Begin(Triple());
    BeginBelow(a.p, a.cvs, TripleClocks(0));
    NothingLearnt(a.p, a.cvs);
  }

  /** The half of the condition that is about the reader's own thread holds for any clocks. */
  lemma TripleNoOwnStore(p: Program)
    requires p == Triple()
    ensures forall c: seq<Clock> :: |c| == |p.s| ==> OwnStoresKnown(p, c)
  {
    hide Triple;
    assert forall w: nat, r: nat :: !OwnStore(p, w, r);
  }

  lemma NothingLearnt(p: Program, c: seq<Clock>)
    requires |c| == |p.s| == 6 && Dominates(c, TripleClocks(0))
    ensures Learnt(p, c, 0)
  {
  }

  lemma TripleStart()
    ensures Plain(Triple()) && Rest(Triple(), []) == TripleLeft(0) && |Triple().s| == 6
    ensures Saturated(Triple(), TripleClocks(0)) && Dominates(InitialClocks(Triple()), TripleClocks(0))
    ensures Misreads(Triple().s, TripleList(), 3) && TripleList()[3] == 4 && IsFullOrder(Triple(), [4, 1, 2, 0, 5, 3])
  {
    hide Triple, TripleClocks, TripleLeft, Saturated, IsFullOrder, Plain, Misreads;
    TriplePlain(Triple());
    TripleLists(Triple());
    TripleSaturated(Triple(), 0);
    TripleMisread(Triple(), TripleList());
    TripleIsSc(Triple(), [4, 1, 2, 0, 5, 3]);
  }

  lemma TripleMisread(p: Program, list: seq<nat>)
    requires p == Triple() && list == TripleList()
    ensures Misreads(p.s, list, 3)
  {
    hide Triple;
    assert LastWrite(p.s, list, 2, 0) == Some(2);
    assert LastWrite(p.s, list, 3, 0) == Some(2);
  }
}
