/**
 The search of generateSC depends on nothing but the actions taken so far: after a rollback
 the same choices lead to the same point. So the choices that were tried before are all there
 are, and when they run out no sequentially consistent order is left.
 */
module ScTurns {
  import opened Digraph
  import opened Optional
  import opened Clocks
  import opened Actions
  import opened HappensBefore
  import opened ScOrders
  import opened ScFixpoints
  import opened ScChoices
  import opened ScSearches

  // ------------------------------------------------------------------
  // Equal entries, equal answers
  // ------------------------------------------------------------------

  /** The same entries in clocks that know at least their own action. */
  ghost predicate Alike(p: Program, c: seq<Clock>, d: seq<Clock>) {
    Bounded(p, c) && Bounded(p, d) && SameClocks(c, d)
  }

  lemma SinceAlike(p: Program, c: seq<Clock>, d: seq<Clock>, a: nat, b: nat)
    requires Proper(p) && Alike(p, c, d) && a < |p.s| && b < |p.s|
    ensures Since(c[a], p.s[b].tid, p.s[b].now) <==> Since(d[a], p.s[b].tid, p.s[b].now)
  {
    assert At(d[a], p.s[b].tid) == At(c[a], p.s[b].tid);
    assert p.s[a].tid < |c[a]| && p.s[a].tid < |d[a]|;
  }

  lemma FreeAlike(p: Program, c: seq<Clock>, d: seq<Clock>, lists: Lists, t: nat)
    requires Proper(p) && Alike(p, c, d) && AllInTrace(p, lists) && Free(p, c, lists, t)
    ensures |d| == |p.s| && Free(p, d, lists, t)
  {
    forall u: nat | u < |lists| && u != t && lists[u] != []
      ensures !Since(d[lists[t][0]], p.s[lists[u][0]].tid, p.s[lists[u][0]].now)
    {
      SinceAlike(p, c, d, lists[t][0], lists[u][0]);
    }
  }

  lemma {:induction false} FreeSeqAlike(p: Program, c: seq<Clock>, d: seq<Clock>, lists: Lists, n: nat)
    requires Proper(p) && Alike(p, c, d) && AllInTrace(p, lists) && n <= |lists|
    ensures |c| == |d| == |p.s| && FreeSeq(p, c, lists, n) == FreeSeq(p, d, lists, n)
  {
    hide Proper, Bounded, Free;
    AlikeBack(p, c, d);
    if n > 0 {
      FreeSeqAlike(p, c, d, lists, n - 1);
      if Free(p, c, lists, n - 1) {
        FreeAlike(p, c, d, lists, n - 1);
      }
      if Free(p, d, lists, n - 1) {
        FreeAlike(p, d, c, lists, n - 1);
      }
    }
  }

  lemma AlikeBack(p: Program, c: seq<Clock>, d: seq<Clock>)
    requires Alike(p, c, d)
    ensures Alike(p, d, c) && |c| == |d| == |p.s|
  {
    SameBack(c, d);
  }

  lemma {:induction false} NextWriteAlike(p: Program, c: seq<Clock>, d: seq<Clock>, act: nat, list: seq<nat>)
    requires Proper(p) && Alike(p, c, d) && act < |p.s| && InTrace(p, list)
    ensures |c| == |d| == |p.s| && NextWrite(p, c, act, list) == NextWrite(p, d, act, list)
    decreases |list|
  {
    hide Proper, Bounded, SameClocks;
    AlikeBack(p, c, d);
    if list != [] {
      SinceAlike(p, c, d, list[0], act);
      NextWriteAlike(p, c, d, act, list[1..]);
    }
  }

  lemma NextsAlike(p: Program, c: seq<Clock>, d: seq<Clock>, act: nat, lists: Lists, n: nat)
    requires Proper(p) && Alike(p, c, d) && act < |p.s| && n <= |lists|
    requires forall t :: 0 <= t < |lists| ==> InTrace(p, lists[t])
    ensures |c| == |d| == |p.s| && Nexts(p, c, act, lists, n) == Nexts(p, d, act, lists, n)
  {
    AlikeBack(p, c, d);
    forall t: nat | t < n ensures NextWrite(p, c, act, lists[t]) == NextWrite(p, d, act, lists[t]) {
      NextWriteAlike(p, c, d, act, lists[t]);
    }
    hide NextWrite;
  }

  lemma ClosesAlike(p: Program, c: seq<Clock>, d: seq<Clock>, act: nat, w: nat)
    requires Alike(p, c, d) && act < |p.s| && w < |p.s|
    ensures Closes(p, c, act, w) <==> Closes(p, d, act, w)
  {
    assert At(d[act], p.s[w].tid) == At(c[act], p.s[w].tid);
  }

  lemma StillAnyAlike(p: Program, c: seq<Clock>, d: seq<Clock>, act: nat, lists: Lists, n: nat)
    requires Proper(p) && Alike(p, c, d) && act < |p.s| && n <= |lists|
    requires forall t :: 0 <= t < |lists| ==> InTrace(p, lists[t])
    ensures |c| == |d| == |p.s| && StillAny(p, c, true, act, lists, n) == StillAny(p, d, true, act, lists, n)
  {
    AlikeBack(p, c, d);
    forall t: nat | t < n
      ensures NextWrite(p, c, act, lists[t]) == NextWrite(p, d, act, lists[t])
      ensures NextWrite(p, c, act, lists[t]).Some? ==>
                (Closes(p, c, act, NextWrite(p, c, act, lists[t]).value) <==>
                 Closes(p, d, act, NextWrite(p, c, act, lists[t]).value))
    {
      NextWriteAlike(p, c, d, act, lists[t]);
      if NextWrite(p, c, act, lists[t]).Some? {
        ClosesAlike(p, c, d, act, NextWrite(p, c, act, lists[t]).value);
      }
    }
    hide NextWrite, Closes;
  }

  lemma ConstrainedAlike(p: Program, c: seq<Clock>, d: seq<Clock>, act: nat, lists: Lists, c1: seq<Clock>,
                         d1: seq<Clock>)
    requires Proper(p) && Alike(p, c, d) && act < |p.s| && forall t :: 0 <= t < |lists| ==> InTrace(p, lists[t])
    requires Constrained(p, c, true, act, lists, |lists|, c1) && Constrained(p, d, true, act, lists, |lists|, d1)
    ensures SameClocks(c1, d1)
  {
    AlikeBack(p, c, d);
    NextsAlike(p, c, d, act, lists, |lists|);
    hide NextWrite, HB, Proper, Bounded, ConstrainedAt;
    forall a: nat, x: nat | a < |p.s| ensures At(d1[a], x) == At(c1[a], x) {
      assert At(d[a], x) == At(c[a], x);
      if a in Nexts(p, c, act, lists, |lists|) {
        var t: nat :| t < |lists| && t != p.s[act].tid && NextWrite(p, c, act, lists[t]) == Some(a);
        EntryAlike(p, c, d, act, lists, c1, d1, t, x);
      }
    }
  }

  lemma EntryAlike(p: Program, c: seq<Clock>, d: seq<Clock>, act: nat, lists: Lists, c1: seq<Clock>, d1: seq<Clock>,
                   t: nat, x: nat)
    requires Proper(p) && Alike(p, c, d) && |c| == |d| == |p.s| == |c1| == |d1| && act < |p.s| && t < |lists|
    requires forall t :: 0 <= t < |lists| ==> InTrace(p, lists[t])
    requires t != p.s[act].tid && NextWrite(p, c, act, lists[t]).Some?
    requires ConstrainedAt(p, c, true, act, lists, t, c1) && ConstrainedAt(p, d, true, act, lists, t, d1)
    ensures var a := NextWrite(p, c, act, lists[t]).value; At(d1[a], x) == At(c1[a], x)
  {
    var a := NextWrite(p, c, act, lists[t]).value;
    assert At(d[a], x) == At(c[a], x) && At(d[act], x) == At(c[act], x);
    NextWriteAlike(p, c, d, act, lists[t]);
    StillAnyAlike(p, c, d, act, lists, t);
    ClosesAlike(p, c, d, act, a);
    hide NextWrite, StillAny, Closes, HB, SameClocks, Alike, Proper;
  }

  lemma PrunedAlike(p: Program, c: seq<Clock>, d: seq<Clock>, lists: Lists, next: seq<nat>, x: Option<nat>,
                    y: Option<nat>)
    requires Proper(p) && Alike(p, c, d) && |c| == |d| == |p.s| && InTrace(p, next)
    requires forall t :: 0 <= t < |lists| ==> InTrace(p, lists[t])
    requires forall a, b :: a in next && b in next && a != b ==> p.s[a].now != p.s[b].now
    requires Pruned(p, c, lists, next, x) && Pruned(p, d, lists, next, y)
    ensures x == y
  {
    forall a | a in next ensures Conflicts(p, c, lists, a) <==> Conflicts(p, d, lists, a) {
      NextsAlike(p, c, d, a, lists, |lists|);
    }
    hide Conflicts, Alike, Proper;
  }

  // ------------------------------------------------------------------
  // What is left
  // ------------------------------------------------------------------

  ghost predicate Ascending(x: seq<nat>) {
    forall i, j :: 0 <= i < j < |x| ==> x[i] < x[j]
  }

  /** The actions below `n` of thread `t` that have not been taken. */
  function RestOf(p: Program, e: seq<nat>, t: nat, n: nat): (list: seq<nat>)
    requires n <= |p.s|
    ensures forall a: nat :: a in list <==> a < n && p.s[a].tid == t && a !in e
    ensures Ascending(list) && forall i :: 0 <= i < |list| ==> list[i] < n
  {
    if n == 0 then []
    else RestOf(p, e, t, n - 1) + if p.s[n - 1].tid == t && n - 1 !in e then [n - 1] else []
  }

  function Rest(p: Program, e: seq<nat>): (lists: Lists)
    ensures |lists| == p.threads && forall t: nat :: t < p.threads ==> lists[t] == RestOf(p, e, t, |p.s|)
    ensures forall t: nat :: t < p.threads ==> InTrace(p, lists[t])
    ensures AllInTrace(p, lists)
  {
    var lists := seq(p.threads, t requires 0 <= t => RestOf(p, e, t, |p.s|));
    assert forall t, i :: 0 <= t < |lists| && 0 <= i < |lists[t]| ==> lists[t][i] in lists[t];
    lists
  }

  /** Lists that hold in order what is left, and nothing else, are these. */
  lemma RestIs(p: Program, lists: Lists, e: seq<nat>)
    requires Listed(p, lists, e) && Complete(p, lists, e)
    ensures lists == Rest(p, e)
  {
    forall t: nat | t < p.threads ensures lists[t] == RestOf(p, e, t, |p.s|) {
      var list := lists[t];
      forall a ensures a in list <==> a in RestOf(p, e, t, |p.s|) {
      }
      SortedSame(list, RestOf(p, e, t, |p.s|));
    }
  }

  lemma {:induction false} SortedSame(x: seq<nat>, y: seq<nat>)
    requires Ascending(x) && Ascending(y) && forall a: nat :: a in x <==> a in y
    ensures x == y
  {
    if x == [] {
      if y != [] {
        HasMember(y);
      }
    } else {
      var a := x[|x| - 1];
      assert a in y;
      LastIsMost(x);
      LastIsMost(y);
      hide Ascending;
      var b := y[|y| - 1];
      assert b in x;
      assert a == b;
      var x', y' := x[..|x| - 1], y[..|y| - 1];
      forall z: nat ensures z in x' <==> z in y' {
        assert z in x' <==> z in x && z != a;
        assert z in y' <==> z in y && z != b;
      }
      SortedSame(x', y');
      assert x == x' + [a] && y == y' + [b];
    }
  }

  lemma HasMember(x: seq<nat>)
    requires x != []
    ensures x[0] in x
  {
  }

  lemma LastIsMost(x: seq<nat>)
    requires Ascending(x) && x != []
    ensures Ascending(x[..|x| - 1])
    ensures forall a: nat :: a in x ==> a <= x[|x| - 1]
    ensures forall a: nat :: a in x[..|x| - 1] <==> a in x && a != x[|x| - 1]
  {
    forall a: nat ensures a in x[..|x| - 1] <==> a in x && a != x[|x| - 1] {
      if a in x && a != x[|x| - 1] {
        var i :| 0 <= i < |x| && x[i] == a;
        assert x[..|x| - 1][i] == a;
      }
    }
  }

  // ------------------------------------------------------------------
  // The clocks after what has been taken
  // ------------------------------------------------------------------

  function Front(e: seq<nat>): seq<nat>
    requires e != []
  {
    e[..|e| - 1]
  }

  function Last(e: seq<nat>): nat
    requires e != []
  {
    e[|e| - 1]
  }

  /** The clocks once these actions were taken, without a cycle. */
  ghost predicate Led(p: Program, e: seq<nat>, c: seq<Clock>)
    decreases |e|
  {
    && |c| == |p.s| && Bounded(p, c)
    && if e == [] then Least(p, InitialClocks(p), c)
       else exists c0: seq<Clock> ::
              |c0| == |p.s| && Led(p, Front(e), c0) && Last(e) < |p.s| && Stepped(p, c0, Rest(p, e), Last(e), c)
  }

  lemma LedMore(p: Program, e: seq<nat>, c0: seq<Clock>, act: nat, c: seq<Clock>)
    requires |c0| == |p.s| && Led(p, e, c0) && act < |p.s| && |c| == |p.s| && Bounded(p, c)
    requires Stepped(p, c0, Rest(p, e + [act]), act, c)
    ensures Led(p, e + [act], c)
  {
    hide Stepped, Rest;
    assert Front(e + [act]) == e && Last(e + [act]) == act;
  }

  /** They are unique, up to entries that are zero. */
  lemma {:induction false} LedAlike(p: Program, e: seq<nat>, c: seq<Clock>, d: seq<Clock>)
    requires Proper(p) && Led(p, e, c) && Led(p, e, d)
    ensures Alike(p, c, d)
    decreases |e|
  {
    hide Bounded, Least, Proper, Stepped;
    if e == [] {
      LeastUnique(p, InitialClocks(p), InitialClocks(p), c, d);
    } else {
      var c0 :| |c0| == |p.s| && Led(p, Front(e), c0) && Last(e) < |p.s| && Stepped(p, c0, Rest(p, e), Last(e), c);
      var d0 :| |d0| == |p.s| && Led(p, Front(e), d0) && Last(e) < |p.s| && Stepped(p, d0, Rest(p, e), Last(e), d);
      LedAlike(p, Front(e), c0, d0);
      SteppedSame(p, c0, d0, Rest(p, e), Last(e), c, d);
    }
  }

  lemma SteppedSame(p: Program, c0: seq<Clock>, d0: seq<Clock>, lists: Lists, act: nat, c: seq<Clock>, d: seq<Clock>)
    requires Proper(p) && Alike(p, c0, d0) && |c0| == |d0| == |p.s| && act < |p.s|
    requires forall t :: 0 <= t < |lists| ==> InTrace(p, lists[t])
    requires Stepped(p, c0, lists, act, c) && Stepped(p, d0, lists, act, d)
    ensures SameClocks(c, d)
  {
    hide Bounded, Constrained, Least, Proper, Nexts;
    NextsAlike(p, c0, d0, act, lists, |lists|);
    if Conflicts(p, c0, lists, act) {
      var c1 :| Constrained(p, c0, true, act, lists, |lists|, c1) && Least(p, c1, c);
      var d1 :| Constrained(p, d0, true, act, lists, |lists|, d1) && Least(p, d1, d);
      ConstrainedAlike(p, c0, d0, act, lists, c1, d1);
      LeastUnique(p, c1, d1, c, d);
    }
  }

  ghost predicate Reached(p: Program, e: seq<nat>) {
    exists c :: Led(p, e, c)
  }

  /** What getNextActions answers then. */
  ghost function Next(p: Program, e: seq<nat>): (next: seq<nat>)
    ensures InTrace(p, next) && |next| <= p.threads
  {
    if Reached(p, e) then
      var c :| Led(p, e, c);
      var next := FreeSeq(p, c, Rest(p, e), p.threads);
      FreshInTrace(p, c, Rest(p, e), p.threads);
      next
    else []
  }

  lemma FreshInTrace(p: Program, c: seq<Clock>, lists: Lists, n: nat)
    requires |c| == |p.s| && AllInTrace(p, lists) && n <= |lists|
    ensures InTrace(p, FreeSeq(p, c, lists, n))
  {
    forall i | 0 <= i < |FreeSeq(p, c, lists, n)| ensures FreeSeq(p, c, lists, n)[i] < |p.s| {
      assert FreeSeq(p, c, lists, n)[i] in FreeSeq(p, c, lists, n);
    }
  }

  lemma NextIs(p: Program, e: seq<nat>, c: seq<Clock>)
    requires Proper(p) && Led(p, e, c)
    ensures |c| == |p.s| && Next(p, e) == FreeSeq(p, c, Rest(p, e), p.threads)
  {
    hide FreeSeq, Proper;
    var d :| Led(p, e, d) && Next(p, e) == FreeSeq(p, d, Rest(p, e), p.threads);
    LedAlike(p, e, c, d);
    FreeSeqAlike(p, c, d, Rest(p, e), p.threads);
  }

  /** What pruneArray answers then. */
  ghost predicate Picks(p: Program, e: seq<nat>, act: Option<nat>) {
    exists c :: Led(p, e, c) && Pruned(p, c, Rest(p, e), Next(p, e), act)
  }

  ghost function Pick(p: Program, e: seq<nat>): Option<nat> {
    if exists act :: Picks(p, e, act) then
      var act :| Picks(p, e, act);
      act
    else None
  }

  /** The first actions of different threads have different numbers. */
  lemma NextDistinct(p: Program, c: seq<Clock>, e: seq<nat>, a: nat, b: nat)
    requires Proper(p) && |c| == |p.s|
    requires a in FreeSeq(p, c, Rest(p, e), p.threads) && b in FreeSeq(p, c, Rest(p, e), p.threads) && a != b
    ensures a < |p.s| && b < |p.s| && p.s[a].now != p.s[b].now
  {
    hide Rest, FreeSeq, Proper;
    var t := FreeFrom(p, c, Rest(p, e), p.threads, a);
    var u := FreeFrom(p, c, Rest(p, e), p.threads, b);
    FrontTid(p, e, t);
    FrontTid(p, e, u);
    DistinctNumbers(p, a, b);
  }

  lemma FreeFrom(p: Program, c: seq<Clock>, lists: Lists, n: nat, a: nat) returns (t: nat)
    requires |c| == |p.s| && AllInTrace(p, lists) && n <= |lists| && a in FreeSeq(p, c, lists, n)
    ensures t < n && lists[t] != [] && lists[t][0] == a
  {
    t :| t < n && Free(p, c, lists, t) && lists[t][0] == a;
  }

  lemma FrontTid(p: Program, e: seq<nat>, t: nat)
    requires t < p.threads && Rest(p, e)[t] != []
    ensures Rest(p, e)[t][0] < |p.s| && p.s[Rest(p, e)[t][0]].tid == t
  {
    assert Rest(p, e)[t][0] in RestOf(p, e, t, |p.s|);
  }

  lemma DistinctNumbers(p: Program, a: nat, b: nat)
    requires Proper(p) && a < |p.s| && b < |p.s| && p.s[a].tid != p.s[b].tid
    ensures p.s[a].now != p.s[b].now
  {
    assert Numbered(p.s, a) || Numbered(p.s, b);
  }

  lemma PickIs(p: Program, e: seq<nat>, c: seq<Clock>, act: Option<nat>)
    requires Proper(p) && Led(p, e, c) && |c| == |p.s| && Pruned(p, c, Rest(p, e), Next(p, e), act)
    ensures Pick(p, e) == act
  {
    hide Pruned, FreeSeq, Proper;
    assert Picks(p, e, act);
    var x := Pick(p, e);
    assert Picks(p, e, x);
    var d :| Led(p, e, d) && Pruned(p, d, Rest(p, e), Next(p, e), x);
    LedAlike(p, e, c, d);
    NextIs(p, e, c);
    forall a, b | a in Next(p, e) && b in Next(p, e) && a != b
      ensures a < |p.s| && b < |p.s| && p.s[a].now != p.s[b].now
    {
      NextDistinct(p, c, e, a, b);
    }
    PrunedAlike(p, c, d, Rest(p, e), Next(p, e), act, x);
  }
}
