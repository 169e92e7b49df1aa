/**
 The search of generateSC: what its turns depend on, what the actions taken so far know,
 and when every list that it completes without a cycle is a sequentially consistent order.
 */
module ScSearches {
  import opened Digraph
  import opened Optional
  import opened Clocks
  import opened Actions
  import opened HappensBefore
  import opened ScOrders
  import opened ScFixpoints
  import opened ScChoices

  // ------------------------------------------------------------------
  // First actions
  // ------------------------------------------------------------------

  /** Whoever knows of an action that is left knows of the first one left in its thread. */
  lemma FrontOf(p: Program, cvs: seq<Clock>, lists: Lists, emitted: seq<nat>, a: nat, b: nat)
    requires Proper(p) && |cvs| == |p.s| && Listed(p, lists, emitted) && Complete(p, lists, emitted) && a < |p.s|
    requires Knows(p, cvs, a, b) && b !in emitted
    ensures p.s[b].tid < |lists| && lists[p.s[b].tid] != []
    ensures var g := lists[p.s[b].tid][0]; g <= b && g !in emitted && p.s[g].tid == p.s[b].tid && Knows(p, cvs, a, g)
  {
    var u := p.s[b].tid;
    var i: nat :| i < |lists[u]| && lists[u][i] == b;
    var g := lists[u][0];
    assert p.s[g].tid == u >= 1;
    assert i > 0 ==> g < b && p.s[g].now < p.s[b].now;
  }

  /** A free action knows only of itself and of what has been taken. */
  lemma FreeKnowsTaken(p: Program, cvs: seq<Clock>, lists: Lists, emitted: seq<nat>, t: nat)
    requires Proper(p) && Bounded(p, cvs) && Blank(p, cvs) && Saturated(p, cvs)
    requires Listed(p, lists, emitted) && Complete(p, lists, emitted) && Free(p, cvs, lists, t)
    ensures OnlyTaken(p, cvs, emitted + [lists[t][0]], lists[t][0])
  {
    var f := lists[t][0];
    forall b: nat | Knows(p, cvs, f, b) && b !in emitted ensures b == f {
      FrontOf(p, cvs, lists, emitted, f, b);
      hide Bounded, Listed, Complete, Blank, Saturated;
      BlankKnows(p, cvs, f, b);
      if p.s[b].tid == t && b != f {
        LaterUnknown(p, cvs, f, b);
      }
    }
  }

  lemma LaterUnknown(p: Program, cvs: seq<Clock>, a: nat, b: nat)
    requires |cvs| == |p.s| && Saturated(p, cvs) && Numbered(p.s, a) && Numbered(p.s, b)
    requires p.s[a].tid == p.s[b].tid && a < b
    ensures !Knows(p, cvs, a, b)
  {
    assert Forced(p, a, b);
  }

  lemma BlankKnows(p: Program, cvs: seq<Clock>, a: nat, b: nat)
    requires Proper(p) && |cvs| == |p.s| && Blank(p, cvs) && a < |p.s| && Knows(p, cvs, a, b)
    ensures Numbered(p.s, a)
  {
    assert p.s[b].now >= 1;
  }

  /** Among the first actions of the threads below `n` there is one that knows of no other. */
  lemma {:induction false} MinimalFront(p: Program, cvs: seq<Clock>, lists: Lists, emitted: seq<nat>, n: nat, t0: nat)
    returns (t: nat)
    requires |cvs| == |p.s| && Saturated(p, cvs) && Grounded(p, cvs, emitted) && Listed(p, lists, emitted)
    requires t0 < n <= p.threads && lists[t0] != []
    ensures t < n && lists[t] != []
    ensures forall u: nat :: u < n && u != t && lists[u] != [] ==> !Knows(p, cvs, lists[t][0], lists[u][0])
    decreases n
  {
    hide Saturated, Grounded, Knows, Covers;
    var last: nat := n - 1;
    if forall u: nat :: u < last ==> lists[u] == [] {
      t := last;
    } else {
      var v: nat :| v < last && lists[v] != [];
      t := MinimalFront(p, cvs, lists, emitted, last, v);
      var f := lists[t][0];
      if lists[last] != [] && Knows(p, cvs, f, lists[last][0]) {
        var g := lists[last][0];
        assert p.s[f].tid == t && p.s[g].tid == last;
        KnownTakes(p, cvs, emitted, f, g);
        forall u: nat | u < last && lists[u] != [] ensures !Knows(p, cvs, g, lists[u][0]) {
          if Knows(p, cvs, g, lists[u][0]) {
            KnowsUp(p, cvs, g, f, lists[u][0]);
          }
        }
        t := last;
      }
    }
  }

  /** Without a cycle some first action is free, as the assertion at the end of getNextActions says. */
  lemma SomeFront(p: Program, cvs: seq<Clock>, lists: Lists, emitted: seq<nat>)
    requires Proper(p) && |cvs| == |p.s| && Blank(p, cvs) && Saturated(p, cvs) && Grounded(p, cvs, emitted)
    requires Listed(p, lists, emitted) && Left(lists)
    ensures AnyFree(p, cvs, lists)
  {
    hide Saturated, Grounded;
    if lists != [] && lists[0] != [] {
      var f := lists[0][0];
      assert p.s[f].tid == 0 && p.s[f].kind.Uninit?;
      forall u: nat | u < |lists| && u != 0 && lists[u] != []
        ensures !Since(cvs[f], p.s[lists[u][0]].tid, p.s[lists[u][0]].now)
      {
        assert p.s[lists[u][0]].tid == u >= 1;
        assert At(cvs[f], u) == 0;
      }
      assert Free(p, cvs, lists, 0);
    } else {
      var t0: nat :| t0 < |lists| && lists[t0] != [];
      var t := MinimalFront(p, cvs, lists, emitted, p.threads, t0);
      forall u: nat | u < |lists| && u != t && lists[u] != []
        ensures !Since(cvs[lists[t][0]], p.s[lists[u][0]].tid, p.s[lists[u][0]].now)
      {
        assert p.s[lists[u][0]].tid == u >= 1;
        assert !Knows(p, cvs, lists[t][0], lists[u][0]);
      }
      assert Free(p, cvs, lists, t);
    }
  }

  /** An action fit to be taken: it knows only of what has been taken, and placeholders come first. */
  ghost predicate Ripe(p: Program, cvs: seq<Clock>, emitted: seq<nat>, act: nat) {
    && act < |cvs| && OnlyTaken(p, cvs, emitted, act)
    && (Numbered(p.s, act) ==> forall u: nat :: u < |p.s| && p.s[u].kind.Uninit? ==> u in emitted)
  }

  lemma FreeRipe(p: Program, cvs: seq<Clock>, lists: Lists, emitted: seq<nat>, t: nat)
    requires Proper(p) && Bounded(p, cvs) && Blank(p, cvs) && Saturated(p, cvs)
    requires Listed(p, lists, emitted) && Complete(p, lists, emitted) && Free(p, cvs, lists, t)
    ensures Ripe(p, cvs, emitted + [lists[t][0]], lists[t][0])
  {
    FreeKnowsTaken(p, cvs, lists, emitted, t);
    if lists[0] != [] {
      ZeroFirst(p, cvs, lists, emitted, t);
    }
  }

  /** As long as a placeholder is left, only placeholders are free. */
  lemma ZeroFirst(p: Program, cvs: seq<Clock>, lists: Lists, emitted: seq<nat>, t: nat)
    requires Proper(p) && Bounded(p, cvs) && Listed(p, lists, emitted) && Free(p, cvs, lists, t) && lists[0] != []
    ensures !Numbered(p.s, lists[t][0])
  {
    assert p.s[lists[0][0]].tid == 0;
  }

  lemma RipeSame(p: Program, c: seq<Clock>, d: seq<Clock>, emitted: seq<nat>, act: nat)
    requires |c| == |d| && act < |c| && c[act] == d[act]
    ensures Ripe(p, c, emitted, act) ==> Ripe(p, d, emitted, act)
  {
    if Ripe(p, c, emitted, act) {
      forall b: nat | Knows(p, d, act, b) ensures b in emitted {
        assert Knows(p, c, act, b);
      }
    }
  }

  /** updateConstraints itself closes no cycle for it: a cycle after a choice comes from the inference that follows. */
  lemma NoneCloses(p: Program, cvs: seq<Clock>, act: nat, lists: Lists, emitted: seq<nat>, n: nat)
    requires |cvs| == |p.s| && Proper(p) && Ripe(p, cvs, emitted, act) && Listed(p, lists, emitted) && n <= |lists|
    requires forall t :: 0 <= t < |lists| ==> InTrace(p, lists[t])
    ensures !SomeCloses(p, cvs, act, lists, n)
  {
    forall t: nat | t < n && NextWrite(p, cvs, act, lists[t]).Some?
      ensures !Closes(p, cvs, act, NextWrite(p, cvs, act, lists[t]).value)
    {
      NextWriteIs(p, cvs, act, lists[t]);
      var w := NextWrite(p, cvs, act, lists[t]).value;
      var i :| 0 <= i < |lists[t]| && lists[t][i] == w;
      hide NextWrite;
      assert w !in emitted;
      assert !Knows(p, cvs, act, w);
    }
  }

  /** updateConstraints and the inference after it, from the state in which `act` was taken from its list. */
  ghost predicate Stepped(p: Program, c0: seq<Clock>, lists: Lists, act: nat, c: seq<Clock>)
    requires |c0| == |p.s| && act < |p.s| && forall u :: 0 <= u < |lists| ==> InTrace(p, lists[u])
  {
    if Conflicts(p, c0, lists, act)
    then exists c1 :: Constrained(p, c0, true, act, lists, |lists|, c1) && Least(p, c1, c)
    else c == c0
  }

  /** An action without a conflict constrains nothing. */
  lemma NobodyConstrained(p: Program, c0: seq<Clock>, any: bool, act: nat, lists: Lists, c: seq<Clock>)
    requires |c0| == |p.s| && act < |p.s| && forall u :: 0 <= u < |lists| ==> InTrace(p, lists[u])
    requires Constrained(p, c0, any, act, lists, |lists|, c)
    ensures !Conflicts(p, c0, lists, act) ==> c == c0 && StillAny(p, c0, any, act, lists, |lists|) == any
  {
    hide NextWrite, ConstrainedAt;
    if !Conflicts(p, c0, lists, act) {
      forall t: nat | t < |lists| && t != p.s[act].tid ensures NextWrite(p, c0, act, lists[t]).None? {
        if NextWrite(p, c0, act, lists[t]).Some? {
          NextsMember(p, c0, act, lists, t);
        }
      }
    }
  }

  /** The inference finds a cycle. */
  ghost predicate StepFails(p: Program, c0: seq<Clock>, lists: Lists, act: nat)
    requires |c0| == |p.s| && act < |p.s| && forall u :: 0 <= u < |lists| ==> InTrace(p, lists[u])
  {
    exists c1 :: Constrained(p, c0, true, act, lists, |lists|, c1) && Bounds(p, c1) == iset{}
  }

  // ------------------------------------------------------------------
  // What pruneArray may pass over
  // ------------------------------------------------------------------

  /** A write is picked without recording a choice although a read waits for another write to its location. */
  ghost predicate Risky(p: Program, emitted: seq<nat>, next: seq<nat>, act: Option<nat>)
    requires InTrace(p, next) && (act.Some? ==> act.value < |p.s|)
  {
    act.Some? && |next| > 1 && p.s[act.value].kind.IsWrite() && exists r: nat :: Waiting(p, emitted, act.value, r)
  }

  /** What pruneArray picks loses no order, unless that is risky. */
  lemma PickLosesNone(p: Program, cvs: seq<Clock>, lists: Lists, emitted: seq<nat>, pos: seq<nat>, next: seq<nat>,
                      x: nat)
    requires Proper(p) && Bounded(p, cvs) && Saturated(p, cvs) && Allowed(p, emitted, pos) && Holds(p, cvs, pos)
    requires Listed(p, lists, emitted) && Complete(p, lists, emitted)
    requires forall u :: 0 <= u < |lists| ==> InTrace(p, lists[u])
    requires InTrace(p, next) && next == FreeSeq(p, cvs, lists, |lists|)
    requires x < |p.s| && x in next && Pruned(p, cvs, lists, next, Some(x)) && !Risky(p, emitted, next, Some(x))
    ensures Possible(p, emitted + [x])
  {
    assert |cvs| == |p.s| && AllInTrace(p, lists);
    hide Saturated, Bounded, Complete, Holds, Conflicts, IsFullOrder, StartsWith, Proper, Listed;
    var t: nat :| t < |lists| && Free(p, cvs, lists, t) && lists[t][0] == x;
    hide FreeSeq;
    assert lists[t] != [];
    hide Free;
    if |next| == 1 || p.s[x].kind.Uninit? {
      PickOnly(p, cvs, lists, emitted, pos, next, t);
    } else if !p.s[x].kind.IsWrite() {
      hide Pruned;
      ReadsNeedNoChoice(p, cvs, lists, emitted, pos, t);
    } else {
      PickedWrite(p, cvs, lists, emitted, next, x);
      hide Pruned;
      WritesNeedNoChoice(p, cvs, lists, emitted, pos, t);
    }
  }

  lemma PickOnly(p: Program, cvs: seq<Clock>, lists: Lists, emitted: seq<nat>, pos: seq<nat>, next: seq<nat>, t: nat)
    requires Proper(p) && Bounded(p, cvs) && Allowed(p, emitted, pos) && Holds(p, cvs, pos)
    requires Listed(p, lists, emitted) && Complete(p, lists, emitted) && Free(p, cvs, lists, t)
    requires next == FreeSeq(p, cvs, lists, |lists|) && (|next| == 1 || p.s[lists[t][0]].kind.Uninit?)
    ensures Possible(p, emitted + [lists[t][0]])
  {
    assert |cvs| == |p.s| && AllInTrace(p, lists);
    hide Bounded, Complete, Holds, FreeSeq, IsFullOrder, StartsWith, Proper, Free, Listed;
    forall u: nat | Free(p, cvs, lists, u) ensures u == t {
      OnlyFree(p, cvs, lists, emitted, next, t, u);
    }
    OnlyChoice(p, cvs, lists, emitted, pos, t);
  }

  lemma PickedWrite(p: Program, cvs: seq<Clock>, lists: Lists, emitted: seq<nat>, next: seq<nat>, x: nat)
    requires |cvs| == |p.s| && InTrace(p, next) && x in next && x < |p.s| && |next| != 1
    requires (forall u :: 0 <= u < |lists| ==> InTrace(p, lists[u])) && Pruned(p, cvs, lists, next, Some(x))
    requires !Risky(p, emitted, next, Some(x)) && p.s[x].kind.IsWrite()
    ensures !Conflicts(p, cvs, lists, x) && forall r: nat :: !Waiting(p, emitted, x, r)
  {
    hide Conflicts, Waiting;
  }

  lemma OnlyFree(p: Program, cvs: seq<Clock>, lists: Lists, emitted: seq<nat>, next: seq<nat>, t: nat, u: nat)
    requires Proper(p) && Bounded(p, cvs) && Listed(p, lists, emitted)
    requires next == FreeSeq(p, cvs, lists, |lists|) && Free(p, cvs, lists, t) && Free(p, cvs, lists, u)
    requires |next| == 1 || p.s[lists[t][0]].kind.Uninit?
    ensures u == t
  {
    assert p.s[lists[t][0]].tid == t && p.s[lists[u][0]].tid == u;
    if |next| == 1 {
      hide Proper, Bounded, Listed;
      assert lists[t][0] in next && lists[u][0] in next;
      OneMember(next, lists[t][0], lists[u][0]);
    } else {
      var f := lists[t][0];
      PlaceholderTid(p, f);
      hide FreeSeq;
      ZeroFirst(p, cvs, lists, emitted, u);
      PlaceholderTid(p, lists[u][0]);
    }
  }

  lemma OneMember(next: seq<nat>, a: nat, b: nat)
    requires |next| == 1 && a in next && b in next
    ensures a == b
  {
  }

  lemma PlaceholderTid(p: Program, a: nat)
    requires Proper(p) && a < |p.s|
    ensures p.s[a].kind.Uninit? <==> p.s[a].tid == 0
  {
    assert Numbered(p.s, a) ==> p.s[a].tid >= 1;
  }

  /** Where pruneArray gives up, every order goes on with one of the options. */
  lemma SomeOption(p: Program, cvs: seq<Clock>, lists: Lists, emitted: seq<nat>, pos: seq<nat>, next: seq<nat>)
    returns (k: nat)
    requires Proper(p) && |cvs| == |p.s| && Allowed(p, emitted, pos) && Holds(p, cvs, pos)
    requires Listed(p, lists, emitted) && Complete(p, lists, emitted) && Left(lists)
    requires next == FreeSeq(p, cvs, lists, |lists|)
    ensures k < |next| && Possible(p, emitted + [next[k]])
  {
    hide Complete, Holds, FreeSeq, IsFullOrder, StartsWith, Proper;
    var t0: nat :| t0 < |lists| && lists[t0] != [];
    var t := GoesOn(p, cvs, lists, emitted, pos, t0);
    assert lists[t][0] in next;
    k :| 0 <= k < |next| && next[k] == lists[t][0];
  }
}
