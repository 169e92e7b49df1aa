/**
 The choices of generateSC: which remaining actions may come next, and which of them
 need no branching.
 */
module ScChoices {
  import opened Digraph
  import opened Optional
  import opened Clocks
  import opened Actions
  import opened HappensBefore
  import opened ScOrders

  type Lists = seq<seq<nat>>

  predicate InTrace(p: Program, list: seq<nat>) {
    forall i :: 0 <= i < |list| ==> list[i] < |p.s|
  }

  predicate AllInTrace(p: Program, lists: Lists) {
    forall t, i :: 0 <= t < |lists| && 0 <= i < |lists[t]| ==> lists[t][i] < |p.s|
  }

  /** The actions that are left, by thread and in order. */
  ghost predicate Listed(p: Program, lists: Lists, emitted: seq<nat>) {
    && |lists| == p.threads
    && AllInTrace(p, lists)
    && (forall t: nat, i: nat :: t < p.threads && i < |lists[t]| ==>
        p.s[lists[t][i]].tid == t && lists[t][i] !in emitted)
    && (forall t: nat, i: nat, j: nat :: t < p.threads && i < j < |lists[t]| ==> lists[t][i] < lists[t][j])
  }

  /** Nothing is missing. */
  ghost predicate Complete(p: Program, lists: Lists, emitted: seq<nat>) {
    |lists| == p.threads && forall a: nat :: a < |p.s| ==>
          a in emitted || (p.s[a].tid < p.threads && a in lists[p.s[a].tid])
  }

  // ------------------------------------------------------------------
  // What may come next
  // ------------------------------------------------------------------

  /** The first action of thread `t` does not know of the first action of any other thread. */
  predicate Free(p: Program, clocks: seq<Clock>, lists: Lists, t: nat)
    requires |clocks| == |p.s| && AllInTrace(p, lists)
  {
    && t < |lists| && lists[t] != []
    && forall u: nat :: u < |lists| && u != t && lists[u] != [] ==>
         !Since(clocks[lists[t][0]], p.s[lists[u][0]].tid, p.s[lists[u][0]].now)
  }

  ghost predicate AnyFree(p: Program, clocks: seq<Clock>, lists: Lists)
    requires |clocks| == |p.s| && AllInTrace(p, lists)
  {
    exists t: nat :: Free(p, clocks, lists, t)
  }

  ghost predicate FreeAction(p: Program, clocks: seq<Clock>, lists: Lists, a: nat)
    requires |clocks| == |p.s| && AllInTrace(p, lists)
  {
    exists t: nat :: Free(p, clocks, lists, t) && lists[t][0] == a
  }

  /** The free actions of the threads below `n`, by thread. */
  ghost function FreeSeq(p: Program, clocks: seq<Clock>, lists: Lists, n: nat): (next: seq<nat>)
    requires |clocks| == |p.s| && AllInTrace(p, lists) && n <= |lists|
    ensures forall a :: a in next <==> exists t: nat :: t < n && Free(p, clocks, lists, t) && lists[t][0] == a
    ensures |next| <= n
  {
    if n == 0 then []
    else FreeSeq(p, clocks, lists, n - 1) + if Free(p, clocks, lists, n - 1) then [lists[n - 1][0]] else []
  }

  /** Some actions have not been taken. */
  ghost predicate Left(lists: Lists) {
    exists t: nat :: t < |lists| && lists[t] != []
  }

  lemma NoneFree(p: Program, clocks: seq<Clock>, lists: Lists, next: seq<nat>)
    requires |clocks| == |p.s| && AllInTrace(p, lists) && next == FreeSeq(p, clocks, lists, |lists|)
    ensures next != [] <==> AnyFree(p, clocks, lists)
    ensures AnyFree(p, clocks, lists) ==> Left(lists)
    ensures forall a :: a in next <==> FreeAction(p, clocks, lists, a)
  {
    if next != [] {
      assert next[0] in next;
    }
    if t: nat :| Free(p, clocks, lists, t) {
      assert lists[t][0] in next;
    }
  }

  /** The clocks are not later than the order. */
  ghost predicate Follow(p: Program, clocks: seq<Clock>, pos: seq<nat>) {
    && |clocks| == |p.s| == |pos| && IsOrder(pos)
    && (forall a: nat, b: nat :: a < |p.s| && Numbered(p.s, b) && Since(clocks[a], p.s[b].tid, p.s[b].now) ==>
        pos[b] <= pos[a])
    && (forall u: nat, b: nat :: u < |p.s| && p.s[u].kind.Uninit? && Numbered(p.s, b) ==> pos[u] < pos[b])
  }

  /** As long as an action is left, the earliest first action is free. */
  lemma EarliestFree(p: Program, clocks: seq<Clock>, lists: Lists, emitted: seq<nat>, pos: seq<nat>, t0: nat)
    returns (t: nat)
    requires Proper(p) && Follow(p, clocks, pos) && Listed(p, lists, emitted) && t0 < p.threads && lists[t0] != []
    ensures Free(p, clocks, lists, t)
  {
    t := EarliestFront(p, lists, emitted, pos, p.threads, t0);
    FrontFree(p, clocks, lists, emitted, pos, t);
  }

  lemma FrontFree(p: Program, clocks: seq<Clock>, lists: Lists, emitted: seq<nat>, pos: seq<nat>, t: nat)
    requires Proper(p) && Follow(p, clocks, pos) && Listed(p, lists, emitted) && t < p.threads && lists[t] != []
    requires forall u: nat :: u < p.threads && u != t && lists[u] != [] ==> pos[lists[t][0]] < pos[lists[u][0]]
    ensures Free(p, clocks, lists, t)
  {
    var f := lists[t][0];
    forall u: nat | u < |lists| && u != t && lists[u] != []
      ensures !Since(clocks[f], p.s[lists[u][0]].tid, p.s[lists[u][0]].now)
    {
      var g := lists[u][0];
      assert f != g && pos[f] < pos[g];
      assert p.s[g].tid == u && p.s[f].tid == t;
    }
  }

  lemma {:induction false} EarliestFront(p: Program, lists: Lists, emitted: seq<nat>, pos: seq<nat>, n: nat, t0: nat)
    returns (t: nat)
    requires Listed(p, lists, emitted) && |pos| == |p.s| && IsOrder(pos) && t0 < n <= p.threads && lists[t0] != []
    ensures t < n && lists[t] != []
    ensures forall u: nat :: u < n && u != t && lists[u] != [] ==> pos[lists[t][0]] < pos[lists[u][0]]
    decreases n
  {
    var last: nat := n - 1;
    if forall u: nat :: u < last ==> lists[u] == [] {
      t := last;
    } else {
      var v: nat :| v < last && lists[v] != [];
      t := EarliestFront(p, lists, emitted, pos, last, v);
      if lists[last] != [] {
        assert p.s[lists[last][0]].tid == last && p.s[lists[t][0]].tid == t;
        Distinct(pos, lists[last][0], lists[t][0]);
        if pos[lists[last][0]] < pos[lists[t][0]] {
          t := last;
        }
      }
    }
  }

  /** Happens-before goes forward in the trace, and placeholders know of nothing. */
  ghost predicate ForwardClocks(p: Program) {
    forall a: nat, b: nat :: a < |p.s| && Numbered(p.s, b) && HB(p.s, b, a) ==> Numbered(p.s, a) && b <= a
  }

  function OwnClocks(p: Program): (clocks: seq<Clock>)
    ensures |clocks| == |p.s| && forall a :: 0 <= a < |p.s| ==> clocks[a] == p.s[a].cv
  {
    seq(|p.s|, a requires 0 <= a < |p.s| => p.s[a].cv)
  }

  /** The order of the trace, placeholders first. */
  function TraceOrder(p: Program): (pos: seq<nat>)
    ensures |pos| == |p.s| && forall a :: 0 <= a < |p.s| ==> pos[a] == if p.s[a].kind.Uninit? then a else |p.s| + a
  {
    seq(|p.s|, a requires 0 <= a < |p.s| => if p.s[a].kind.Uninit? then a else |p.s| + a)
  }

  lemma TraceFollows(p: Program)
    requires ForwardClocks(p)
    ensures Follow(p, OwnClocks(p), TraceOrder(p))
  {
    var clocks := OwnClocks(p);
    forall a: nat, b: nat | a < |p.s| && Numbered(p.s, b) && Since(clocks[a], p.s[b].tid, p.s[b].now)
      ensures TraceOrder(p)[b] <= TraceOrder(p)[a]
    {
      assert HB(p.s, b, a);
    }
  }

  lemma HeldFollows(p: Program, cvs: seq<Clock>, pos: seq<nat>)
    requires |cvs| == |p.s| && IsFullOrder(p, pos) && Holds(p, cvs, pos)
    ensures Follow(p, cvs, pos)
  {
    forall a: nat, b: nat | a < |p.s| && Numbered(p.s, b) && Since(cvs[a], p.s[b].tid, p.s[b].now)
      ensures pos[b] <= pos[a]
    {
      assert Knows(p, cvs, a, b);
    }
  }

  // ------------------------------------------------------------------
  // What updateConstraints looks for
  // ------------------------------------------------------------------

  /** The write of a thread's remaining actions that updateConstraints puts after `act`. */
  function NextWrite(p: Program, cvs: seq<Clock>, act: nat, list: seq<nat>): (w: Option<nat>)
    requires |cvs| == |p.s| && act < |p.s| && InTrace(p, list)
    ensures w.Some? ==> w.value < |p.s|
  {
    if list == [] then None
    else if !p.s[list[0]].kind.IsWrite() then NextWrite(p, cvs, act, list[1..])
    else if Since(cvs[list[0]], p.s[act].tid, p.s[act].now) then None
    else if p.s[list[0]].loc == p.s[act].loc then Some(list[0])
    else NextWrite(p, cvs, act, list[1..])
  }

  /** It is the first write to the location, and no write before it knows of `act`. */
  lemma {:induction false} NextWriteIs(p: Program, cvs: seq<Clock>, act: nat, list: seq<nat>)
    requires |cvs| == |p.s| && act < |p.s| && InTrace(p, list)
    ensures var w := NextWrite(p, cvs, act, list);
            && (w.Some? ==> w.value in list && p.s[w.value].kind.IsWrite() && p.s[w.value].loc == p.s[act].loc &&
                            !Since(cvs[w.value], p.s[act].tid, p.s[act].now))
            && (w.None? ==>
                  forall i :: 0 <= i < |list| && p.s[list[i]].kind.IsWrite() && p.s[list[i]].loc == p.s[act].loc ==>
                                exists j :: 0 <= j <= i && p.s[list[j]].kind.IsWrite() &&
                                            Since(cvs[list[j]], p.s[act].tid, p.s[act].now))
    decreases |list|
  {
    if list != [] {
      var rest := list[1..];
      NextWriteIs(p, cvs, act, rest);
      if NextWrite(p, cvs, act, list).None? {
        forall i | 0 <= i < |list| && p.s[list[i]].kind.IsWrite() && p.s[list[i]].loc == p.s[act].loc
          ensures exists j :: 0 <= j <= i && p.s[list[j]].kind.IsWrite() &&
                              Since(cvs[list[j]], p.s[act].tid, p.s[act].now)
        {
          if !(p.s[list[0]].kind.IsWrite() && Since(cvs[list[0]], p.s[act].tid, p.s[act].now)) {
            assert i > 0 && list[i] == rest[i - 1];
            var j :| 0 <= j <= i - 1 && p.s[rest[j]].kind.IsWrite() && Since(cvs[rest[j]], p.s[act].tid, p.s[act].now);
            assert list[j + 1] == rest[j];
          }
        }
      }
    }
  }

  lemma {:induction false} NextWriteSame(p: Program, cvs: seq<Clock>, cvs': seq<Clock>, act: nat, list: seq<nat>)
    requires |cvs| == |p.s| == |cvs'| && act < |p.s| && InTrace(p, list)
    requires forall i :: 0 <= i < |list| ==> cvs'[list[i]] == cvs[list[i]]
    ensures NextWrite(p, cvs', act, list) == NextWrite(p, cvs, act, list)
    decreases |list|
  {
    if list != [] {
      assert cvs'[list[0]] == cvs[list[0]];
      NextWriteSame(p, cvs, cvs', act, list[1..]);
    }
  }

  /** The writes of the threads below `n`, other than that of `act`, that updateConstraints puts after `act`. */
  ghost function Nexts(p: Program, cvs: seq<Clock>, act: nat, lists: seq<seq<nat>>, n: nat): (S: set<nat>)
    requires |cvs| == |p.s| && act < |p.s| && n <= |lists| && forall t :: 0 <= t < |lists| ==> InTrace(p, lists[t])
    ensures forall w :: w in S <==>
                          exists t: nat :: t < n && t != p.s[act].tid && NextWrite(p, cvs, act, lists[t]) == Some(w)
  {
    set t: nat | t < n && t != p.s[act].tid &&
        NextWrite(p, cvs, act, lists[t]).Some? :: NextWrite(p, cvs, act, lists[t]).value
  }

  lemma NextsStep(p: Program, cvs: seq<Clock>, act: nat, lists: seq<seq<nat>>, n: nat)
    requires |cvs| == |p.s| && act < |p.s| && n < |lists| && forall t :: 0 <= t < |lists| ==> InTrace(p, lists[t])
    ensures Nexts(p, cvs, act, lists, n + 1) == Nexts(p, cvs, act, lists, n) +
            (if n != p.s[act].tid && NextWrite(p, cvs, act, lists[n]).Some?
                then {NextWrite(p, cvs, act, lists[n]).value} else {})
  {
    hide NextWrite;
    assert n == p.s[act].tid || NextWrite(p, cvs, act, lists[n]).None? ||
        NextWrite(p, cvs, act, lists[n]).value in Nexts(p, cvs, act, lists, n + 1);
  }

  lemma NextsMember(p: Program, cvs: seq<Clock>, act: nat, lists: Lists, t: nat)
    requires |cvs| == |p.s| && act < |p.s| && t < |lists| && forall u :: 0 <= u < |lists| ==> InTrace(p, lists[u])
    requires t != p.s[act].tid && NextWrite(p, cvs, act, lists[t]).Some?
    ensures Nexts(p, cvs, act, lists, |lists|) != {}
  {
    assert NextWrite(p, cvs, act, lists[t]).value in Nexts(p, cvs, act, lists, |lists|);
  }

  /** Taking in `act` at the write `w` would close a cycle. */
  predicate Closes(p: Program, cvs: seq<Clock>, act: nat, w: nat)
    requires |cvs| == |p.s| && act < |p.s| && w < |p.s|
  {
    p.s[w].now != 0 && At(cvs[act], p.s[w].tid) >= p.s[w].now
  }

  /**
   `w` may take in what `act` knows: it closes no cycle, and until any edge may be added it is
   from happens-before or the order of sequentially consistent actions.
   */
  predicate MayMerge(p: Program, cvs: seq<Clock>, any: bool, w: nat, act: nat)
    requires |cvs| == |p.s| && act < |p.s| && w < |p.s|
  {
    && !Closes(p, cvs, act, w)
    && (any || HB(p.s, act, w) || (p.s[w].order.SeqCst? && p.s[act].order.SeqCst? && p.s[act].now < p.s[w].now))
  }

  /** Some entry of `c` is below that of `d`. */
  ghost predicate Rises(c: Clock, d: Clock) {
    exists t: nat :: At(d, t) > At(c, t)
  }

  /** A write that does not know of `act` learns something from it. */
  lemma NewsRises(p: Program, cvs: seq<Clock>, act: nat, w: nat)
    requires Bounded(p, cvs) && Proper(p) && act < |p.s| && w < |p.s| && !Since(cvs[w], p.s[act].tid, p.s[act].now)
    ensures Rises(cvs[w], cvs[act])
  {
    assert At(cvs[act], p.s[act].tid) >= p.s[act].now;
    assert p.s[w].tid < |cvs[w]|;
  }

  /** No write of a thread before `n` has taken in `act` so far because any edge could be added. */
  ghost predicate StillAny(p: Program, cvs: seq<Clock>, any: bool, act: nat, lists: Lists, n: nat)
    requires |cvs| == |p.s| && act < |p.s| && n <= |lists| && forall t :: 0 <= t < |lists| ==> InTrace(p, lists[t])
  {
    any && forall t: nat :: t < n && t != p.s[act].tid && NextWrite(p, cvs, act, lists[t]).Some? ==>
                              Closes(p, cvs, act, NextWrite(p, cvs, act, lists[t]).value)
  }

  ghost predicate SomeCloses(p: Program, cvs: seq<Clock>, act: nat, lists: Lists, n: nat)
    requires |cvs| == |p.s| && act < |p.s| && n <= |lists| && forall t :: 0 <= t < |lists| ==> InTrace(p, lists[t])
  {
    exists t: nat :: t < n && t != p.s[act].tid && NextWrite(p, cvs, act, lists[t]).Some? &&
                     Closes(p, cvs, act, NextWrite(p, cvs, act, lists[t]).value)
  }

  /** What became of the next write of thread `t`. */
  ghost predicate ConstrainedAt(p: Program, c0: seq<Clock>, any: bool, act: nat, lists: Lists, t: nat, c: seq<Clock>)
    requires |c0| == |p.s| == |c| && act < |p.s| && t < |lists| && forall u :: 0 <= u < |lists| ==> InTrace(p, lists[u])
  {
    t != p.s[act].tid && NextWrite(p, c0, act, lists[t]).Some? ==>
      var w := NextWrite(p, c0, act, lists[t]).value;
      c[w] == if MayMerge(p, c0, StillAny(p, c0, any, act, lists, t), w, act) then Join(c0[w], c0[act]) else c0[w]
  }

  /** What became of all clocks once the threads before `n` had their turn. */
  ghost predicate Constrained(p: Program, c0: seq<Clock>, any: bool, act: nat, lists: Lists, n: nat, c: seq<Clock>)
    requires |c0| == |p.s| && act < |p.s| && n <= |lists| && forall u :: 0 <= u < |lists| ==> InTrace(p, lists[u])
  {
    && |c| == |p.s|
    && (forall t: nat :: t < n ==> ConstrainedAt(p, c0, any, act, lists, t, c))
    && (forall a: nat :: a < |p.s| && a !in Nexts(p, c0, act, lists, n) ==> c[a] == c0[a])
  }

  lemma ConstrainedNone(p: Program, c0: seq<Clock>, any: bool, act: nat, lists: Lists)
    requires |c0| == |p.s| && act < |p.s| && forall u :: 0 <= u < |lists| ==> InTrace(p, lists[u])
    ensures Constrained(p, c0, any, act, lists, 0, c0) && Nexts(p, c0, act, lists, 0) == {}
    ensures StillAny(p, c0, any, act, lists, 0) == any && !SomeCloses(p, c0, act, lists, 0)
  {
  }

  /** Actions of threads that have not had their turn, and `act` itself, have their clocks still. */
  lemma ConstrainedFrame(p: Program, c0: seq<Clock>, any: bool, act: nat, lists: Lists, emitted: seq<nat>, n: nat,
                         c: seq<Clock>)
    requires Listed(p, lists, emitted) && act < |p.s| && n <= |lists| && forall u :: 0 <= u < |lists| ==>
               InTrace(p, lists[u])
    requires |c0| == |p.s| && Constrained(p, c0, any, act, lists, n, c)
    ensures c[act] == c0[act] && forall a: nat :: a < |p.s| && p.s[a].tid >= n ==> c[a] == c0[a]
    ensures forall w :: w in Nexts(p, c0, act, lists, n) ==> w < |p.s| && p.s[w].tid < n
  {
    forall w | w in Nexts(p, c0, act, lists, n) ensures w < |p.s| && p.s[w].tid < n && p.s[w].tid != p.s[act].tid {
      var t: nat :| t < n && t != p.s[act].tid && NextWrite(p, c0, act, lists[t]) == Some(w);
      NextWriteIs(p, c0, act, lists[t]);
    }
  }

  /** The turn of thread `n`. */
  lemma ConstrainedStep(p: Program, c0: seq<Clock>, any: bool, act: nat, lists: Lists, emitted: seq<nat>, n: nat,
                        c: seq<Clock>, c': seq<Clock>)
    requires Listed(p, lists, emitted) && act < |p.s| && n < |lists| && forall u :: 0 <= u < |lists| ==>
               InTrace(p, lists[u])
    requires |c0| == |p.s| && Constrained(p, c0, any, act, lists, n, c)
    requires var w := NextWrite(p, c0, act, lists[n]);
             c' == if n != p.s[act].tid && w.Some? && MayMerge(p, c, StillAny(p, c0, any, act, lists, n), w.value, act)
                   then c[w.value := Join(c[w.value], c[act])] else c
    ensures Constrained(p, c0, any, act, lists, n + 1, c')
  {
    hide NextWrite, Listed, AllInTrace, InTrace, StillAny, MayMerge, ConstrainedAt, Nexts, HB, Join;
    ConstrainedFrame(p, c0, any, act, lists, emitted, n, c);
    NextTid(p, c0, act, lists, emitted, n);
    ConstrainedNow(p, c0, any, act, lists, n, c, c');
    ConstrainedBefore(p, c0, any, act, lists, n, c, c');
    ConstrainedOthers(p, c0, act, lists, n, c, c');
  }

  lemma NextTid(p: Program, c0: seq<Clock>, act: nat, lists: Lists, emitted: seq<nat>, n: nat)
    requires Listed(p, lists, emitted) && |c0| == |p.s| && act < |p.s| && n < |lists| && InTrace(p, lists[n])
    ensures var w := NextWrite(p, c0, act, lists[n]); w.Some? ==> w.value < |p.s| && p.s[w.value].tid == n
  {
    NextWriteIs(p, c0, act, lists[n]);
  }

  lemma ConstrainedOthers(p: Program, c0: seq<Clock>, act: nat, lists: Lists, n: nat, c: seq<Clock>, c': seq<Clock>)
    requires |c0| == |p.s| == |c| == |c'| && act < |p.s| && n < |lists| && forall u :: 0 <= u < |lists| ==>
               InTrace(p, lists[u])
    requires forall a: nat :: a < |p.s| && a !in Nexts(p, c0, act, lists, n) ==> c[a] == c0[a]
    requires var w := NextWrite(p, c0, act, lists[n]);
             forall a: nat :: a < |p.s| && (n == p.s[act].tid || w != Some(a)) ==> c'[a] == c[a]
    ensures forall a: nat :: a < |p.s| && a !in Nexts(p, c0, act, lists, n + 1) ==> c'[a] == c0[a]
  {
    NextsStep(p, c0, act, lists, n);
    hide NextWrite, Nexts;
  }

  lemma ConstrainedBefore(p: Program, c0: seq<Clock>, any: bool, act: nat, lists: Lists, n: nat, c: seq<Clock>,
                          c': seq<Clock>)
    requires |c0| == |p.s| == |c'| && act < |p.s| && n <= |lists| && forall u :: 0 <= u < |lists| ==>
               InTrace(p, lists[u])
    requires Constrained(p, c0, any, act, lists, n, c)
    requires forall w :: w in Nexts(p, c0, act, lists, n) ==> w < |p.s| && c'[w] == c[w]
    ensures forall t: nat :: t < n ==> ConstrainedAt(p, c0, any, act, lists, t, c')
  {
    hide NextWrite, StillAny, MayMerge, ConstrainedAt;
    forall t: nat | t < n ensures ConstrainedAt(p, c0, any, act, lists, t, c') {
      var v := NextWrite(p, c0, act, lists[t]);
      assert t != p.s[act].tid && v.Some? ==> v.value in Nexts(p, c0, act, lists, n);
      ConstrainedKept(p, c0, any, act, lists, t, c, c');
    }
  }

  lemma ConstrainedNow(p: Program, c0: seq<Clock>, any: bool, act: nat, lists: Lists, n: nat, c: seq<Clock>,
                       c': seq<Clock>)
    requires |c0| == |p.s| == |c| && act < |p.s| && n < |lists| && forall u :: 0 <= u < |lists| ==> InTrace(p, lists[u])
    requires var w := NextWrite(p, c0, act, lists[n]);
             && c[act] == c0[act] && (w.Some? ==> c[w.value] == c0[w.value])
             && c' == if n != p.s[act].tid && w.Some? &&
                MayMerge(p, c, StillAny(p, c0, any, act, lists, n), w.value, act)
                      then c[w.value := Join(c[w.value], c[act])] else c
    ensures ConstrainedAt(p, c0, any, act, lists, n, c')
  {
    hide NextWrite, StillAny;
  }

  lemma ConstrainedKept(p: Program, c0: seq<Clock>, any: bool, act: nat, lists: Lists, t: nat, c: seq<Clock>,
                        c': seq<Clock>)
    requires |c0| == |p.s| == |c| == |c'| && act < |p.s| && t < |lists| && forall u :: 0 <= u < |lists| ==>
               InTrace(p, lists[u])
    requires ConstrainedAt(p, c0, any, act, lists, t, c)
    requires var v := NextWrite(p, c0, act, lists[t]); t != p.s[act].tid && v.Some? ==> c'[v.value] == c[v.value]
    ensures ConstrainedAt(p, c0, any, act, lists, t, c')
  {
  }

  /** What the turn of thread `n` does to the flags. */
  lemma FlagsStep(p: Program, c0: seq<Clock>, any: bool, act: nat, lists: Lists, n: nat, c: seq<Clock>)
    requires |c| == |p.s| == |c0| && act < |p.s| && n < |lists| && forall u :: 0 <= u < |lists| ==> InTrace(p, lists[u])
    requires c[act] == c0[act]
    ensures var w := NextWrite(p, c0, act, lists[n]);
            && StillAny(p, c0, any, act, lists, n + 1) ==
               (StillAny(p, c0, any, act, lists, n) && (n != p.s[act].tid && w.Some? ==> Closes(p, c, act, w.value)))
            && SomeCloses(p, c0, act, lists, n + 1) ==
               (SomeCloses(p, c0, act, lists, n) || (n != p.s[act].tid && w.Some? && Closes(p, c, act, w.value)))
  {
    hide NextWrite;
  }

  /** A write that must be put before another, so that updateConstraints would constrain something for it. */
  ghost predicate Conflicts(p: Program, cvs: seq<Clock>, lists: Lists, act: nat)
    requires |cvs| == |p.s| && act < |p.s| && forall u :: 0 <= u < |lists| ==> InTrace(p, lists[u])
  {
    Nexts(p, cvs, act, lists, |lists|) != {}
  }

  /**
   What pruneArray answers: the only action; or else the earliest that does not write; or else
   the earliest write without a conflict. It gives up when all are writes with conflicts.
   */
  ghost predicate Pruned(p: Program, cvs: seq<Clock>, lists: Lists, next: seq<nat>, act: Option<nat>)
    requires |cvs| == |p.s| && InTrace(p, next) && forall u :: 0 <= u < |lists| ==> InTrace(p, lists[u])
  {
    if |next| == 1 then act == Some(next[0])
    else if exists a :: a in next && !p.s[a].kind.IsWrite() then
      && act.Some? && act.value in next && !p.s[act.value].kind.IsWrite()
      && forall a :: a in next && !p.s[a].kind.IsWrite() ==> p.s[act.value].now <= p.s[a].now
    else
      match act
      case None => forall a :: a in next ==> Conflicts(p, cvs, lists, a)
      case Some(x) =>
        && x in next && !Conflicts(p, cvs, lists, x)
        && forall a :: a in next && !Conflicts(p, cvs, lists, a) ==> p.s[x].now <= p.s[a].now
  }

  /**
   Exactly who is constrained when any edge may be added and no cycle is closed: the next write
   of the first thread that has one, and of the others those that happens-before or sequentially
   consistent actions put after `act` already.
   */
  lemma WhoIsConstrained(p: Program, c0: seq<Clock>, act: nat, lists: Lists, emitted: seq<nat>, c: seq<Clock>, t: nat)
    requires act < |p.s| && t < |lists| && t != p.s[act].tid && forall u :: 0 <= u < |lists| ==> InTrace(p, lists[u])
    requires Proper(p) && Bounded(p, c0) && Listed(p, lists, emitted) &&
             Constrained(p, c0, true, act, lists, |lists|, c)
    requires !SomeCloses(p, c0, act, lists, |lists|) && NextWrite(p, c0, act, lists[t]).Some?
    ensures var w := NextWrite(p, c0, act, lists[t]).value;
            Covers(c, w, act) <==>
            || (forall u: nat :: u < t && u != p.s[act].tid ==> NextWrite(p, c0, act, lists[u]).None?)
            || HB(p.s, act, w)
            || (p.s[w].order.SeqCst? && p.s[act].order.SeqCst? && p.s[act].now < p.s[w].now)
  {
    NextWriteIs(p, c0, act, lists[t]);
    ConstrainedFrame(p, c0, true, act, lists, emitted, |lists|, c);
    hide NextWrite, Listed;
    var w := NextWrite(p, c0, act, lists[t]).value;
    NewsRises(p, c0, act, w);
    assert ConstrainedAt(p, c0, true, act, lists, t, c);
  }

  // ------------------------------------------------------------------
  // What needs no choice
  // ------------------------------------------------------------------

  /** The order with `act` moved to right after what was emitted. */
  function Hurried(p: Program, pos: seq<nat>, emitted: seq<nat>, act: nat): (pos': seq<nat>)
    requires |pos| == |p.s| && act < |p.s|
    ensures |pos'| == |p.s|
    ensures forall a :: 0 <= a < |p.s| ==>
              pos'[a] == if a in emitted then pos[a] else if a == act then pos[act] else pos[act] + 1 + pos[a]
  {
    seq(|p.s|, a requires 0 <= a < |p.s| => if a in emitted then pos[a] else if a == act then pos[act]
        else pos[act] + 1 + pos[a])
  }

  /** Everything that must come before a free action has been emitted. */
  lemma NothingBefore(p: Program, cvs: seq<Clock>, lists: Lists, emitted: seq<nat>, pos: seq<nat>, t: nat, a: nat)
    requires Proper(p) && Bounded(p, cvs) && Saturated(p, cvs) && Allowed(p, emitted, pos)
    requires Listed(p, lists, emitted) && Complete(p, lists, emitted) && Free(p, cvs, lists, t) &&
             Numbered(p.s, lists[t][0])
    requires a < |p.s| && (Forced(p, a, lists[t][0]) || p.s[a].kind.Uninit?)
    ensures a in emitted
  {
    var act := lists[t][0];
    if a !in emitted {
      var u := p.s[a].tid;
      var i :| 0 <= i < |lists[u]| && lists[u][i] == a;
      NotBeforeFirst(p, pos, act, a);
      FrontKnown(p, cvs, lists[u][0], a, act);
    }
  }

  /** An action of the same thread that is not earlier cannot be forced to come before. */
  lemma NotBeforeFirst(p: Program, pos: seq<nat>, act: nat, a: nat)
    requires Proper(p) && IsFullOrder(p, pos) && act < |p.s| && a < |p.s| && Numbered(p.s, act)
    ensures p.s[a].tid == p.s[act].tid && act <= a ==> !Forced(p, a, act) && !p.s[a].kind.Uninit?
  {
    assert p.s[a].tid == p.s[act].tid && act < a ==> Forced(p, act, a);
  }

  /** Whoever must come after `a` knows of the actions of its thread up to `a`. */
  lemma FrontKnown(p: Program, cvs: seq<Clock>, g: nat, a: nat, act: nat)
    requires Proper(p) && Bounded(p, cvs) && Saturated(p, cvs) && g <= a < |p.s| && act < |p.s| && Numbered(p.s, act)
    requires p.s[g].tid == p.s[a].tid && (Forced(p, a, act) || p.s[a].kind.Uninit?)
    ensures Since(cvs[act], p.s[g].tid, p.s[g].now)
  {
    if Numbered(p.s, a) {
      ForcedCovers(p, cvs, a, act);
      assert Numbered(p.s, g) && p.s[g].now >= 1;
      if g < a {
        ForcedCovers(p, cvs, g, a);
      }
      hide Saturated, Proper, Forced;
      assert p.s[g].now <= At(cvs[g], p.s[g].tid) <= At(cvs[a], p.s[g].tid) <= At(cvs[act], p.s[g].tid);
    }
  }

  lemma ForcedCovers(p: Program, cvs: seq<Clock>, a: nat, b: nat)
    requires |cvs| == |p.s| && Saturated(p, cvs) && Numbered(p.s, a) && Numbered(p.s, b) && Forced(p, a, b)
    ensures Covers(cvs, b, a)
  {
    assert Takes(p, cvs, b, a);
  }

  /**
   An action that does not write, and that is free once the clocks have taken in all that is
   forced, can be taken without branching: if any order was possible, one that goes on with it is.
   */
  lemma ReadsNeedNoChoice(p: Program, cvs: seq<Clock>, lists: Lists, emitted: seq<nat>, pos: seq<nat>, t: nat)
    requires Proper(p) && Bounded(p, cvs) && Saturated(p, cvs) && Allowed(p, emitted, pos)
    requires Listed(p, lists, emitted) && Complete(p, lists, emitted)
    requires Free(p, cvs, lists, t) && !p.s[lists[t][0]].kind.IsWrite()
    ensures Allowed(p, emitted + [lists[t][0]], Hurried(p, pos, emitted, lists[t][0]))
  {
    var act := lists[t][0];
    var pos' := Hurried(p, pos, emitted, act);
    assert Numbered(p.s, act);
    EmittedFirst(p, pos, emitted);
    forall a: nat | a < |p.s| && (Forced(p, a, act) || p.s[a].kind.Uninit?) ensures a in emitted {
      NothingBefore(p, cvs, lists, emitted, pos, t, a);
    }
    hide Saturated, Bounded, Listed, Complete, Free, StartsWith;
    HurriedReads(p, pos, emitted, act);
    HurriedOrder(p, pos, emitted, act);
    HurriedStarts(p, pos, emitted, act);
  }

  /** What was emitted comes before all else. */
  lemma EmittedFirst(p: Program, pos: seq<nat>, emitted: seq<nat>)
    requires |pos| == |p.s| && StartsWith(p, pos, emitted)
    ensures forall a: nat, b: nat :: a < |p.s| && b < |p.s| && a in emitted && b !in emitted ==> pos[a] < pos[b]
  {
    hide StartsWith;
    forall a: nat, b: nat | a < |p.s| && b < |p.s| && a in emitted && b !in emitted ensures pos[a] < pos[b] {
      var i: nat :| i < |emitted| && emitted[i] == a;
      FrontOnly(emitted, i + 1, b);
      StartsAt(p, pos, emitted, i, b);
    }
  }

  lemma HurriedOrder(p: Program, pos: seq<nat>, emitted: seq<nat>, act: nat)
    requires Proper(p) && IsFullOrder(p, pos) && act < |p.s| && act !in emitted
    requires forall a: nat, b: nat :: a < |p.s| && b < |p.s| && a in emitted && b !in emitted ==> pos[a] < pos[b]
    requires forall a: nat :: a < |p.s| && (Forced(p, a, act) || p.s[a].kind.Uninit?) ==> a in emitted
    requires forall w: nat, r: nat :: !Overwrites(p, Hurried(p, pos, emitted, act), w, r)
    ensures IsFullOrder(p, Hurried(p, pos, emitted, act))
  {
    var pos' := Hurried(p, pos, emitted, act);
    hide Proper, Overwrites;
    forall i, j | 0 <= i < j < |pos'| ensures pos'[i] != pos'[j] {
      assert pos[i] != pos[j];
    }
    forall a: nat, b: nat | Forced(p, a, b) ensures pos'[a] < pos'[b] {
      assert pos[a] < pos[b];
    }
  }

  lemma HurriedReads(p: Program, pos: seq<nat>, emitted: seq<nat>, act: nat)
    requires Proper(p) && IsFullOrder(p, pos) && act < |p.s| && act !in emitted && !p.s[act].kind.IsWrite()
    requires forall a: nat, b: nat :: a < |p.s| && b < |p.s| && a in emitted && b !in emitted ==> pos[a] < pos[b]
    requires forall a: nat :: a < |p.s| && (Forced(p, a, act) || p.s[a].kind.Uninit?) ==> a in emitted
    ensures forall w: nat, r: nat :: !Overwrites(p, Hurried(p, pos, emitted, act), w, r)
  {
    var pos' := Hurried(p, pos, emitted, act);
    hide Proper;
    forall w: nat, r: nat ensures !Overwrites(p, pos', w, r) {
      if Overwrites(p, pos', w, r) {
        assert !Overwrites(p, pos, w, r);
        ReadIsWritten(p, r);
      }
    }
  }

  lemma ReadIsWritten(p: Program, r: nat)
    requires Proper(p) && r < |p.s| && p.s[r].kind.IsRead()
    ensures p.s[r].rf.Some? && p.s[r].rf.value < |p.s| && p.s[p.s[r].rf.value].kind.IsWrite() &&
            Forced(p, p.s[r].rf.value, r)
  {
    assert Reads(p.s, r);
  }

  lemma HurriedStarts(p: Program, pos: seq<nat>, emitted: seq<nat>, act: nat)
    requires |pos| == |p.s| && act < |p.s| && act !in emitted && StartsWith(p, pos, emitted)
    ensures StartsWith(p, Hurried(p, pos, emitted, act), emitted + [act])
  {
    hide FirstAt;
    var pos', more := Hurried(p, pos, emitted, act), emitted + [act];
    forall i: nat | i < |more| ensures FirstAt(p, pos', more, i) {
      if i < |emitted| {
        HurriedFirst(p, pos, emitted, act, i);
        FirstAtMore(p, pos', emitted, act, i);
      } else {
        HurriedLast(p, pos, emitted, act);
      }
    }
  }

  lemma HurriedFirst(p: Program, pos: seq<nat>, emitted: seq<nat>, act: nat, i: nat)
    requires |pos| == |p.s| && act < |p.s| && act !in emitted && StartsWith(p, pos, emitted) && i < |emitted|
    ensures FirstAt(p, Hurried(p, pos, emitted, act), emitted, i)
  {
    hide StartsWith, Hurried;
    StartsInTrace(p, pos, emitted, i);
    forall x: nat | x < |p.s| && x !in emitted[..i + 1]
      ensures Hurried(p, pos, emitted, act)[emitted[i]] < Hurried(p, pos, emitted, act)[x]
    {
      HurriedBefore(p, pos, emitted, act, i, x);
    }
  }

  lemma HurriedLast(p: Program, pos: seq<nat>, emitted: seq<nat>, act: nat)
    requires |pos| == |p.s| && act < |p.s| && act !in emitted
    ensures FirstAt(p, Hurried(p, pos, emitted, act), emitted + [act], |emitted|)
  {
    var more := emitted + [act];
    assert more[..|emitted| + 1] == more && more[|emitted|] == act;
    forall x: nat | x < |p.s| && x !in more
      ensures Hurried(p, pos, emitted, act)[act] < Hurried(p, pos, emitted, act)[x]
    {
      NotAdded(emitted, act, x);
    }
  }

  lemma FirstAtMore(p: Program, pos: seq<nat>, emitted: seq<nat>, act: nat, i: nat)
    requires |pos| == |p.s| && i < |emitted|
    ensures FirstAt(p, pos, emitted + [act], i) <==> FirstAt(p, pos, emitted, i)
  {
    FrontSame(emitted, act, i);
  }

  lemma HurriedBefore(p: Program, pos: seq<nat>, emitted: seq<nat>, act: nat, i: nat, x: nat)
    requires |pos| == |p.s| && act < |p.s| && act !in emitted && StartsWith(p, pos, emitted)
    requires i < |emitted| && x < |p.s| && x !in emitted[..i + 1]
    ensures emitted[i] < |p.s|
    ensures Hurried(p, pos, emitted, act)[emitted[i]] < Hurried(p, pos, emitted, act)[x]
  {
    hide Hurried, StartsWith;
    StartsAt(p, pos, emitted, i, x);
    FrontOnly(emitted, i + 1, act);
    StartsAt(p, pos, emitted, i, act);
    HurriedEntry(p, pos, emitted, act, emitted[i]);
    HurriedEntry(p, pos, emitted, act, x);
    MemberAt(emitted, i);
  }

  lemma HurriedEntry(p: Program, pos: seq<nat>, emitted: seq<nat>, act: nat, a: nat)
    requires |pos| == |p.s| && act < |p.s| && a < |p.s|
    ensures Hurried(p, pos, emitted, act)[a] ==
            if a in emitted then pos[a] else if a == act then pos[act] else pos[act] + 1 + pos[a]
  {
  }

  lemma FrontOnly(e: seq<nat>, n: nat, a: nat)
    requires n <= |e| && a !in e
    ensures a !in e[..n]
  {
  }

  lemma MemberAt(e: seq<nat>, i: nat)
    requires i < |e|
    ensures e[i] in e
  {
  }

  /** A read that is left waits for a write that was taken to the location of `act`. */
  ghost predicate Waiting(p: Program, emitted: seq<nat>, act: nat, r: nat) {
    && act < |p.s| && r < |p.s| && r != act && r !in emitted && p.s[r].kind.IsRead() && p.s[r].loc == p.s[act].loc
    && p.s[r].rf.Some? && p.s[r].rf.value in emitted
  }

  /** Where updateConstraints finds nothing in a thread, all its writes to the location know of `act`. */
  lemma NextNoneKnown(p: Program, cvs: seq<Clock>, act: nat, list: seq<nat>, w: nat)
    requires Proper(p) && |cvs| == |p.s| && Saturated(p, cvs) && act < |p.s| && InTrace(p, list) && Numbered(p.s, act)
    requires forall i, j :: 0 <= i < j < |list| ==> list[i] < list[j] && p.s[list[i]].tid == p.s[list[j]].tid
    requires NextWrite(p, cvs, act, list).None? && w in list && Numbered(p.s, w) && p.s[w].kind.IsWrite()
    requires p.s[w].loc == p.s[act].loc
    ensures Knows(p, cvs, w, act)
  {
    NextWriteIs(p, cvs, act, list);
    hide NextWrite, Saturated, Proper, Covers;
    var i :| 0 <= i < |list| && list[i] == w;
    var j :| 0 <= j <= i && p.s[list[j]].kind.IsWrite() && Since(cvs[list[j]], p.s[act].tid, p.s[act].now);
    var v := list[j];
    assert Knows(p, cvs, v, act);
    if j < i {
      assert v < w && p.s[v].tid == p.s[w].tid;
      NotPlaceholder(p, v, w);
      ForcedCovers(p, cvs, v, w);
      KnowsUp(p, cvs, v, w, act);
    }
  }

  lemma NotPlaceholder(p: Program, v: nat, w: nat)
    requires Proper(p) && v < |p.s| && Numbered(p.s, w) && p.s[v].tid == p.s[w].tid
    ensures Numbered(p.s, v) && (v < w ==> Forced(p, v, w))
  {
  }

  /** A write without a conflict is known to all others to its location. */
  lemma NoConflictKnown(p: Program, cvs: seq<Clock>, lists: Lists, emitted: seq<nat>, t: nat, w: nat)
    requires Proper(p) && Bounded(p, cvs) && Saturated(p, cvs) && Listed(p, lists, emitted) &&
             Complete(p, lists, emitted)
    requires t < |lists| && lists[t] != [] && forall u :: 0 <= u < |lists| ==> InTrace(p, lists[u])
    requires Numbered(p.s, lists[t][0]) && !Conflicts(p, cvs, lists, lists[t][0])
    requires Numbered(p.s, w) && w !in emitted && p.s[w].kind.IsWrite() && p.s[w].loc == p.s[lists[t][0]].loc
    ensures Knows(p, cvs, w, lists[t][0])
  {
    assert |cvs| == |p.s|;
    hide Bounded, Saturated, NextWrite;
    var act, u := lists[t][0], p.s[w].tid;
    var i :| 0 <= i < |lists[u]| && lists[u][i] == w;
    assert p.s[act].tid == t;
    if u == t {
      SelfKnown(p, cvs, act);
      if i > 0 {
        assert Forced(p, act, w);
        ForcedCovers(p, cvs, act, w);
        KnowsUp(p, cvs, act, w, act);
      }
    } else {
      if NextWrite(p, cvs, act, lists[u]).Some? {
        NextsMember(p, cvs, act, lists, u);
      }
      NextNoneKnown(p, cvs, act, lists[u], w);
    }
  }

  lemma SelfKnown(p: Program, cvs: seq<Clock>, a: nat)
    requires Bounded(p, cvs) && Numbered(p.s, a)
    ensures Knows(p, cvs, a, a)
  {
  }

  lemma HurriedWrites(p: Program, pos: seq<nat>, emitted: seq<nat>, act: nat)
    requires Proper(p) && IsFullOrder(p, pos) && act < |p.s| && act !in emitted
    requires forall a: nat, b: nat :: a < |p.s| && b < |p.s| && a in emitted && b !in emitted ==> pos[a] < pos[b]
    requires forall r: nat :: !Waiting(p, emitted, act, r)
    requires forall w: nat ::
               w < |p.s| && w !in emitted && w != act && p.s[w].kind.IsWrite() && p.s[w].loc == p.s[act].loc ==>
               pos[act] < pos[w]
    ensures forall w: nat, r: nat :: !Overwrites(p, Hurried(p, pos, emitted, act), w, r)
  {
    var pos' := Hurried(p, pos, emitted, act);
    forall w: nat, r: nat ensures !Overwrites(p, pos', w, r) {
      if Overwrites(p, pos', w, r) {
        assert !Overwrites(p, pos, w, r);
        assert !Waiting(p, emitted, act, r);
        ReadIsWritten(p, r);
        hide Proper, IsFullOrder;
      }
    }
  }

  /**
   A write without a conflict needs no branching either, as long as no read to its location waits
   for another write that was taken: that is the case in which pruneArray does not record a choice
   although there is one.
   */
  lemma WritesNeedNoChoice(p: Program, cvs: seq<Clock>, lists: Lists, emitted: seq<nat>, pos: seq<nat>, t: nat)
    requires Proper(p) && Bounded(p, cvs) && Saturated(p, cvs) && Allowed(p, emitted, pos) && Holds(p, cvs, pos)
    requires Listed(p, lists, emitted) && Complete(p, lists, emitted) && Free(p, cvs, lists, t)
    requires forall u :: 0 <= u < |lists| ==> InTrace(p, lists[u])
    requires Numbered(p.s, lists[t][0]) && !Conflicts(p, cvs, lists, lists[t][0])
    requires forall r: nat :: !Waiting(p, emitted, lists[t][0], r)
    ensures Allowed(p, emitted + [lists[t][0]], Hurried(p, pos, emitted, lists[t][0]))
  {
    var act := lists[t][0];
    EmittedFirst(p, pos, emitted);
    forall a: nat | a < |p.s| && (Forced(p, a, act) || p.s[a].kind.Uninit?) ensures a in emitted {
      NothingBefore(p, cvs, lists, emitted, pos, t, a);
    }
    forall w: nat | w < |p.s| && w !in emitted && w != act && p.s[w].kind.IsWrite() && p.s[w].loc == p.s[act].loc
      ensures pos[act] < pos[w]
    {
      assert Numbered(p.s, w);
      NoConflictKnown(p, cvs, lists, emitted, t, w);
      Distinct(pos, act, w);
    }
    hide Saturated, Bounded, Listed, Complete, Free, StartsWith, Conflicts;
    HurriedWrites(p, pos, emitted, act);
    HurriedOrder(p, pos, emitted, act);
    HurriedStarts(p, pos, emitted, act);
  }

  /** Some sequentially consistent order begins as chosen. */
  ghost predicate Possible(p: Program, emitted: seq<nat>) {
    exists pos :: Allowed(p, emitted, pos)
  }

  /** But when a read waits, no order goes on with the write. */
  lemma WaitingBlocks(p: Program, emitted: seq<nat>, pos: seq<nat>, act: nat, r: nat)
    requires Proper(p) && Waiting(p, emitted, act, r) && p.s[act].kind.IsWrite() && act !in emitted
    ensures !Allowed(p, emitted + [act], pos)
  {
    if Allowed(p, emitted + [act], pos) {
      ReadIsWritten(p, r);
      Overtakes(p, emitted, pos, act, r);
    }
  }

  lemma Overtakes(p: Program, emitted: seq<nat>, pos: seq<nat>, act: nat, r: nat)
    requires |pos| == |p.s| && StartsWith(p, pos, emitted + [act]) && Waiting(p, emitted, act, r)
    requires p.s[act].kind.IsWrite() && act !in emitted && p.s[r].rf.value < |p.s|
    ensures Overwrites(p, pos, act, r)
  {
    hide StartsWith;
    var more, f := emitted + [act], p.s[r].rf.value;
    var i: nat :| i < |emitted| && emitted[i] == f;
    assert more[..i + 1] == emitted[..i + 1];
    StartsAt(p, pos, more, i, act);
    assert more[..|emitted| + 1] == more;
    StartsAt(p, pos, more, |emitted|, r);
  }

  lemma StartsAt(p: Program, pos: seq<nat>, emitted: seq<nat>, i: nat, x: nat)
    requires |pos| == |p.s| && StartsWith(p, pos, emitted) && i < |emitted| && x < |p.s| && x !in emitted[..i + 1]
    ensures emitted[i] < |p.s| && pos[emitted[i]] < pos[x]
  {
    assert FirstAt(p, pos, emitted, i);
  }

  /**
   Exactly when pruneArray may take a write without a conflict and record no choice: some order goes
   on with it if and only if no read to its location waits.
   */
  lemma WriteWithoutChoice(p: Program, cvs: seq<Clock>, lists: Lists, emitted: seq<nat>, t: nat)
    requires Proper(p) && Bounded(p, cvs) && Saturated(p, cvs) && Listed(p, lists, emitted) &&
             Complete(p, lists, emitted)
    requires Free(p, cvs, lists, t) && forall u :: 0 <= u < |lists| ==> InTrace(p, lists[u])
    requires Numbered(p.s, lists[t][0]) && p.s[lists[t][0]].kind.IsWrite() && !Conflicts(p, cvs, lists, lists[t][0])
    requires Possible(p, emitted) && forall pos :: Allowed(p, emitted, pos) ==> Holds(p, cvs, pos)
    ensures Possible(p, emitted + [lists[t][0]]) <==> forall r: nat :: !Waiting(p, emitted, lists[t][0], r)
  {
    hide Saturated, Bounded, Complete, Conflicts, IsFullOrder, StartsWith, Holds, Waiting;
    var act := lists[t][0];
    assert act !in emitted;
    hide Listed;
    if forall r: nat :: !Waiting(p, emitted, act, r) {
      var pos :| Allowed(p, emitted, pos);
      WritesNeedNoChoice(p, cvs, lists, emitted, pos, t);
    } else {
      var r: nat :| Waiting(p, emitted, act, r);
      forall pos ensures !Allowed(p, emitted + [act], pos) {
        WaitingBlocks(p, emitted, pos, act, r);
      }
    }
  }

  /** Every order goes on with some free action. */
  lemma GoesOn(p: Program, cvs: seq<Clock>, lists: Lists, emitted: seq<nat>, pos: seq<nat>, t0: nat) returns (t: nat)
    requires Proper(p) && |cvs| == |p.s| && Allowed(p, emitted, pos) && Holds(p, cvs, pos)
    requires Listed(p, lists, emitted) && Complete(p, lists, emitted) && t0 < |lists| && lists[t0] != []
    ensures Free(p, cvs, lists, t) && Allowed(p, emitted + [lists[t][0]], pos)
  {
    HeldFollows(p, cvs, pos);
    t := EarliestFront(p, lists, emitted, pos, p.threads, t0);
    FrontFree(p, cvs, lists, emitted, pos, t);
    EarliestOfAll(p, cvs, lists, emitted, pos, t);
    hide Complete, Listed, IsFullOrder, Holds, Free;
    StartsWithMore(p, pos, emitted, lists[t][0]);
  }

  /** `act` comes before all else that was not emitted. */
  ghost predicate Earliest(p: Program, pos: seq<nat>, emitted: seq<nat>, act: nat)
    requires |pos| == |p.s| && act < |p.s|
  {
    forall x: nat :: x < |p.s| && x !in emitted && x != act ==> pos[act] < pos[x]
  }

  lemma StartsWithMore(p: Program, pos: seq<nat>, emitted: seq<nat>, act: nat)
    requires |pos| == |p.s| && StartsWith(p, pos, emitted) && act < |p.s| && Earliest(p, pos, emitted, act)
    ensures StartsWith(p, pos, emitted + [act])
  {
    hide FirstAt, Earliest;
    var more := emitted + [act];
    forall i: nat | i < |more| ensures FirstAt(p, pos, more, i) {
      if i < |emitted| {
        FirstAtMore(p, pos, emitted, act, i);
      } else {
        EarliestFirst(p, pos, emitted, act);
      }
    }
  }

  lemma EarliestFirst(p: Program, pos: seq<nat>, emitted: seq<nat>, act: nat)
    requires |pos| == |p.s| && act < |p.s| && Earliest(p, pos, emitted, act)
    ensures FirstAt(p, pos, emitted + [act], |emitted|)
  {
    var more := emitted + [act];
    assert more[..|emitted| + 1] == more && more[|emitted|] == act;
    forall x: nat | x < |p.s| && x !in more ensures pos[act] < pos[x] {
      NotAdded(emitted, act, x);
    }
  }

  lemma StartsInTrace(p: Program, pos: seq<nat>, emitted: seq<nat>, i: nat)
    requires |pos| == |p.s| && StartsWith(p, pos, emitted) && i < |emitted|
    ensures emitted[i] < |p.s|
  {
    assert FirstAt(p, pos, emitted, i);
  }

  lemma FrontSame(e: seq<nat>, a: nat, i: nat)
    requires i < |e|
    ensures (e + [a])[..i + 1] == e[..i + 1] && (e + [a])[i] == e[i]
  {
  }

  lemma NotAdded(e: seq<nat>, a: nat, x: nat)
    requires x !in e + [a]
    ensures x !in e && x != a
  {
    assert (e + [a])[|e|] == a;
    assert x in e ==> x in e + [a];
  }

  /** With only one free action, every order goes on with it. */
  lemma OnlyChoice(p: Program, cvs: seq<Clock>, lists: Lists, emitted: seq<nat>, pos: seq<nat>, t: nat)
    requires Proper(p) && |cvs| == |p.s| && Allowed(p, emitted, pos) && Holds(p, cvs, pos)
    requires Listed(p, lists, emitted) && Complete(p, lists, emitted) && Free(p, cvs, lists, t)
    requires forall u: nat :: Free(p, cvs, lists, u) ==> u == t
    ensures Allowed(p, emitted + [lists[t][0]], pos)
  {
    hide Complete, Listed, IsFullOrder, Holds, StartsWith;
    var u := GoesOn(p, cvs, lists, emitted, pos, t);
  }

  lemma EarliestOfAll(p: Program, cvs: seq<Clock>, lists: Lists, emitted: seq<nat>, pos: seq<nat>, t: nat)
    requires Proper(p) && Allowed(p, emitted, pos)
    requires Listed(p, lists, emitted) && Complete(p, lists, emitted) && t < |lists| && lists[t] != []
    requires forall u: nat :: u < p.threads && u != t && lists[u] != [] ==> pos[lists[t][0]] < pos[lists[u][0]]
    ensures forall x: nat :: x < |p.s| && x !in emitted && x != lists[t][0] ==> pos[lists[t][0]] < pos[x]
  {
    forall x: nat | x < |p.s| && x !in emitted && x != lists[t][0] ensures pos[lists[t][0]] < pos[x] {
      var u := p.s[x].tid;
      var i :| 0 <= i < |lists[u]| && lists[u][i] == x;
      if i > 0 {
        assert Forced(p, lists[u][0], x);
      }
    }
  }

  ghost predicate NoRepeats(emitted: seq<nat>) {
    forall i, j :: 0 <= i < j < |emitted| ==> emitted[i] != emitted[j]
  }

  ghost function Taken(emitted: seq<nat>): set<nat> {
    set a | a in emitted
  }

  lemma TakenMore(emitted: seq<nat>, act: nat, n: nat)
    requires act < n && act !in emitted
    ensures Below(n) - Taken(emitted + [act]) < Below(n) - Taken(emitted)
    ensures NoRepeats(emitted) ==> NoRepeats(emitted + [act])
  {
    assert act in Below(n) - Taken(emitted) && act in emitted + [act];
    assert forall a :: a in emitted ==> a in emitted + [act];
  }

  lemma AllTaken(p: Program, lists: Lists, emitted: seq<nat>)
    requires Complete(p, lists, emitted) && !Left(lists)
    ensures forall a: nat :: a < |p.s| ==> a in emitted
  {
  }
}
