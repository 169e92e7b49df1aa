/**
 When the list that the search makes is a sequentially consistent order: a condition on the
 trace and the clocks before any choice, and what every turn keeps under it.
 */
module ScRuns {
  import opened Digraph
  import opened Optional
  import opened Clocks
  import opened Actions
  import opened HappensBefore
  import opened ScOrders
  import opened ScFixpoints
  import opened ScChoices
  import opened ScSearches
  import opened ScChecks

  // ------------------------------------------------------------------
  // The condition
  // ------------------------------------------------------------------

  /** `w` is an earlier store of the reader's own thread, other than the one that is read. */
  ghost predicate OwnStore(p: Program, w: nat, r: nat) {
    && r < |p.s| && p.s[r].kind.IsRead() && p.s[r].rf.Some? && w < r && p.s[w].tid == p.s[r].tid
    && p.s[w].kind.IsWrite() && p.s[w].loc == p.s[r].loc && w != p.s[r].rf.value
  }

  /** The clocks leave open whether `w` or what `r` reads is the earlier store. */
  ghost predicate Apart(p: Program, c: seq<Clock>, w: nat, r: nat)
    requires |c| == |p.s|
  {
    && r < |p.s| && p.s[r].kind.IsRead() && Reads(p.s, r)
    && Numbered(p.s, w) && p.s[w].kind.IsWrite() && p.s[w].loc == p.s[r].loc && w != p.s[r].rf.value
    && !Knows(p, c, w, p.s[r].rf.value) && !Knows(p, c, p.s[r].rf.value, w)
  }

  /**
   What the rules and updateConstraints need to reach everything: what is read knows of the earlier
   stores of the reader's own thread, which the rules pass over; and the stores that the clocks do
   not order with what is read are all of one thread, as updateConstraints puts one of them after it.
   */
  ghost predicate Covered(p: Program, c: seq<Clock>)
    requires |c| == |p.s|
  {
    OwnStoresKnown(p, c) && OneThreadOpen(p, c)
  }

  ghost predicate OwnStoresKnown(p: Program, c: seq<Clock>)
    requires |c| == |p.s|
  {
    forall w: nat, r: nat :: OwnStore(p, w, r) ==> p.s[r].rf.value < |p.s| && Knows(p, c, p.s[r].rf.value, w)
  }

  ghost predicate OneThreadOpen(p: Program, c: seq<Clock>)
    requires |c| == |p.s|
  {
    forall w: nat, v: nat, r: nat :: Apart(p, c, w, r) && Apart(p, c, v, r) ==> p.s[w].tid == p.s[v].tid
  }

  // ------------------------------------------------------------------
  // What every turn keeps
  // ------------------------------------------------------------------

  /** `r` is left, what it reads has been taken. */
  ghost predicate Pending(p: Program, e: seq<nat>, r: nat) {
    && r < |p.s| && r !in e && p.s[r].kind.IsRead() && Reads(p.s, r) && p.s[r].rf.value in e
  }

  /** A store of another thread that would overwrite what `r` reads. */
  ghost predicate Rivals(p: Program, e: seq<nat>, w: nat, r: nat) {
    Rival(p, w, r) && Numbered(p.s, w) && w !in e
  }

  ghost predicate Calm(p: Program, first: seq<Clock>, c: seq<Clock>, e: seq<nat>)
    requires |first| == |c| == |p.s|
  {
    && Dominates(first, c) && InTrace(p, e)
    && (forall a :: a in e ==> a < |p.s| && OnlyTaken(p, first, e, a))
    && (forall a, u: nat :: a in e && Numbered(p.s, a) && u < |p.s| && p.s[u].kind.Uninit? ==> u in e)
    && (forall w: nat, r: nat :: Pending(p, e, r) && Rivals(p, e, w, r) ==> Knows(p, c, w, p.s[r].rf.value))
    && (forall i: nat :: !Misreads(p.s, e, i))
    && (forall r: nat :: Pending(p, e, r) ==> LastWrite(p.s, e, |e|, p.s[r].loc) == p.s[r].rf)
  }

  lemma CalmPasses(p: Program, first: seq<Clock>, c: seq<Clock>, e: seq<nat>)
    requires |first| == |c| == |p.s| && Calm(p, first, c, e)
    ensures InTrace(p, e) && forall i: nat :: !Misreads(p.s, e, i)
  {
  }

  lemma CalmAtFirst(p: Program, first: seq<Clock>, c: seq<Clock>)
    requires |first| == |c| == |p.s| && Dominates(first, c)
    ensures Calm(p, first, c, [])
  {
  }

  lemma SteppedMore(p: Program, c0: seq<Clock>, lists: Lists, act: nat, c: seq<Clock>)
    requires |c0| == |p.s| && act < |p.s| && forall u :: 0 <= u < |lists| ==> InTrace(p, lists[u])
    requires Stepped(p, c0, lists, act, c)
    ensures Dominates(c0, c)
  {
    hide Constrained, Saturated, Nexts;
    if Conflicts(p, c0, lists, act) {
      var c1 :| Constrained(p, c0, true, act, lists, |lists|, c1) && Least(p, c1, c);
      ConstrainedMore(p, c0, act, lists, c1);
      DominatesTrans(c0, c1, c);
    }
  }

  lemma ConstrainedMore(p: Program, c0: seq<Clock>, act: nat, lists: Lists, c1: seq<Clock>)
    requires |c0| == |p.s| && act < |p.s| && forall u :: 0 <= u < |lists| ==> InTrace(p, lists[u])
    requires Constrained(p, c0, true, act, lists, |lists|, c1)
    ensures Dominates(c0, c1)
  {
    hide NextWrite, MayMerge, StillAny;
    forall a: nat, x: nat | a < |p.s| ensures At(c0[a], x) <= At(c1[a], x) {
      if a in Nexts(p, c0, act, lists, |lists|) {
        var t: nat :| t < |lists| && t != p.s[act].tid && NextWrite(p, c0, act, lists[t]) == Some(a);
        assert ConstrainedAt(p, c0, true, act, lists, t, c1);
      }
    }
  }

  /** The write that updateConstraints finds comes before all others of its thread to the location. */
  lemma {:induction false} NextWriteFirst(p: Program, cvs: seq<Clock>, act: nat, list: seq<nat>, w: nat)
    requires |cvs| == |p.s| && act < |p.s| && InTrace(p, list) && NextWrite(p, cvs, act, list).Some?
    requires forall i, j :: 0 <= i < j < |list| ==> list[i] < list[j]
    requires w in list && p.s[w].kind.IsWrite() && p.s[w].loc == p.s[act].loc
    ensures NextWrite(p, cvs, act, list).value <= w
    decreases |list|
  {
    var rest := list[1..];
    if w in rest {
      if NextWrite(p, cvs, act, list) != Some(list[0]) {
        NextWriteFirst(p, cvs, act, rest, w);
      }
    } else {
      assert list == [list[0]] + rest;
    }
  }

  /** When what `r` reads is taken, updateConstraints reaches the one thread whose stores are left open. */
  lemma OnlyThread(p: Program, first: seq<Clock>, c0: seq<Clock>, lists: Lists, e: seq<nat>, r: nat, u: nat)
    requires Proper(p) && |first| == |p.s| && Covered(p, first) && Bounded(p, c0) && Dominates(first, c0)
    requires r < |p.s| && p.s[r].kind.IsRead() && Reads(p.s, r)
    requires Listed(p, lists, e) && forall t :: 0 <= t < |lists| ==> InTrace(p, lists[t])
    requires Ripe(p, c0, e, p.s[r].rf.value) && p.s[r].rf.value in e
    requires u < |lists| && u != p.s[p.s[r].rf.value].tid
    requires NextWrite(p, c0, p.s[r].rf.value, lists[u]).Some?
    ensures StillAny(p, c0, true, p.s[r].rf.value, lists, u)
    ensures !Closes(p, c0, p.s[r].rf.value, NextWrite(p, c0, p.s[r].rf.value, lists[u]).value)
  {
    var f := p.s[r].rf.value;
    NextApart(p, first, c0, lists, e, r, u);
    NoneCloses(p, c0, f, lists, e, |lists|);
    hide NextWrite, Bounded, Listed, Apart, Closes, Ripe, Proper;
    forall t: nat | t < u && t != p.s[f].tid ensures NextWrite(p, c0, f, lists[t]).None? {
      if NextWrite(p, c0, f, lists[t]).Some? {
        NextApart(p, first, c0, lists, e, r, t);
      }
    }
  }

  lemma NextApart(p: Program, first: seq<Clock>, c0: seq<Clock>, lists: Lists, e: seq<nat>, r: nat, u: nat)
    requires Proper(p) && |first| == |p.s| == |c0| && Dominates(first, c0)
    requires r < |p.s| && p.s[r].kind.IsRead() && Reads(p.s, r)
    requires Listed(p, lists, e) && Ripe(p, c0, e, p.s[r].rf.value) && u < |lists| && InTrace(p, lists[u])
    requires p.s[r].rf.value in e
    requires NextWrite(p, c0, p.s[r].rf.value, lists[u]).Some?
    ensures var v := NextWrite(p, c0, p.s[r].rf.value, lists[u]).value; Apart(p, first, v, r) && p.s[v].tid == u
  {
    var f := p.s[r].rf.value;
    NextWriteIs(p, c0, f, lists[u]);
    var v := NextWrite(p, c0, f, lists[u]).value;
    var i :| 0 <= i < |lists[u]| && lists[u][i] == v;
    hide NextWrite;
    assert v !in e && p.s[v].tid == u;
    assert !Knows(p, c0, v, f) && !Knows(p, c0, f, v);
    assert Numbered(p.s, v) by {
      assert p.s[v].kind.Uninit? ==> v in e;
    }
    NotKnownBefore(p, first, c0, v, f);
    NotKnownBefore(p, first, c0, f, v);
  }

  lemma NotKnownBefore(p: Program, first: seq<Clock>, c0: seq<Clock>, a: nat, b: nat)
    requires Dominates(first, c0) && a < |c0| && !Knows(p, c0, a, b)
    ensures a < |first| && !Knows(p, first, a, b)
  {
  }

  /** Once what `r` reads is taken, every store that could overwrite it is known to come later. */
  lemma FreshKnown(p: Program, first: seq<Clock>, c0: seq<Clock>, lists: Lists, e: seq<nat>, c: seq<Clock>, w: nat,
                   r: nat)
    requires Proper(p) && |first| == |p.s| == |c0| == |c| && Covered(p, first) && Bounded(p, c0) && Dominates(first, c0)
    requires Saturated(p, c0) && Saturated(p, c) && Listed(p, lists, e) && Complete(p, lists, e)
    requires Pending(p, e, r) && Rivals(p, e, w, r)
    requires Ripe(p, c0, e, p.s[r].rf.value) && Stepped(p, c0, lists, p.s[r].rf.value, c)
    ensures Knows(p, c, w, p.s[r].rf.value)
  {
    hide NextWrite, Saturated, Stepped, Covered, StillAny, Bounded, Ripe, Closes, Knows, Dominates;
    var f, u := p.s[r].rf.value, p.s[w].tid;
    SteppedMore(p, c0, lists, f, c);
    if u == p.s[f].tid {
      OwnLater(p, c0, e, f, w);
      DominatesKnows(p, c0, c, w, f);
    } else if NextWrite(p, c0, f, lists[u]).None? {
      NextNoneKnown(p, c0, f, lists[u], w);
      DominatesKnows(p, c0, c, w, f);
    } else {
      OnlyThread(p, first, c0, lists, e, r, u);
      NextKnown(p, c0, lists, f, c, u);
      LaterKnown(p, c0, lists, f, c, u, w);
    }
  }

  lemma LaterKnown(p: Program, c0: seq<Clock>, lists: Lists, f: nat, c: seq<Clock>, u: nat, w: nat)
    requires Proper(p) && |c0| == |p.s| == |c| && Saturated(p, c) && f < |p.s| && u < |lists| && InTrace(p, lists[u])
    requires forall i, j :: 0 <= i < j < |lists[u]| ==> lists[u][i] < lists[u][j]
    requires forall i :: 0 <= i < |lists[u]| ==> p.s[lists[u][i]].tid == u
    requires NextWrite(p, c0, f, lists[u]).Some? && Knows(p, c, NextWrite(p, c0, f, lists[u]).value, f)
    requires w in lists[u] && Numbered(p.s, w) && p.s[w].kind.IsWrite() && p.s[w].loc == p.s[f].loc
    ensures Knows(p, c, w, f)
  {
    NextWriteIs(p, c0, f, lists[u]);
    NextWriteFirst(p, c0, f, lists[u], w);
    hide NextWrite, Saturated, Proper;
    var v := NextWrite(p, c0, f, lists[u]).value;
    if v < w {
      NotPlaceholder(p, v, w);
      ForcedCovers(p, c, v, w);
      KnowsUp(p, c, v, w, f);
    }
  }

  /** What is left of the thread of an action that was taken from its front comes later. */
  lemma OwnLater(p: Program, c0: seq<Clock>, e: seq<nat>, f: nat, w: nat)
    requires Proper(p) && |c0| == |p.s| && Saturated(p, c0) && Bounded(p, c0) && Ripe(p, c0, e, f)
    requires Numbered(p.s, f) && Numbered(p.s, w) && w !in e && f in e && p.s[w].tid == p.s[f].tid
    ensures Knows(p, c0, w, f)
  {
    SelfKnown(p, c0, f);
    RipeFront(p, c0, e, f, w);
    hide Bounded, Saturated, Ripe, Proper;
    NotPlaceholder(p, f, w);
    ForcedCovers(p, c0, f, w);
    KnowsUp(p, c0, f, w, f);
  }

  lemma RipeFront(p: Program, c0: seq<Clock>, e: seq<nat>, f: nat, w: nat)
    requires Proper(p) && Ripe(p, c0, e, f) && f < |c0| && Knows(p, c0, f, f)
    requires Numbered(p.s, f) && Numbered(p.s, w) && w !in e && f in e && p.s[w].tid == p.s[f].tid
    ensures f < w
  {
    hide Proper;
    if w < f {
      EarlierKnown(p, c0, f, w);
    }
  }

  lemma EarlierKnown(p: Program, c: seq<Clock>, f: nat, w: nat)
    requires Proper(p) && f < |c| && Knows(p, c, f, f) && w < f
    requires Numbered(p.s, f) && Numbered(p.s, w) && p.s[w].tid == p.s[f].tid
    ensures Knows(p, c, f, w)
  {
  }

  /** A write that updateConstraints constrains knows of the action afterwards. */
  lemma NextKnown(p: Program, c0: seq<Clock>, lists: Lists, f: nat, c: seq<Clock>, u: nat)
    requires |c0| == |p.s| == |c| && Bounded(p, c0) && Numbered(p.s, f) && u < |lists| && u != p.s[f].tid
    requires forall t :: 0 <= t < |lists| ==> InTrace(p, lists[t])
    requires Stepped(p, c0, lists, f, c) && NextWrite(p, c0, f, lists[u]).Some?
    requires StillAny(p, c0, true, f, lists, u) && !Closes(p, c0, f, NextWrite(p, c0, f, lists[u]).value)
    ensures Knows(p, c, NextWrite(p, c0, f, lists[u]).value, f)
  {
    SelfKnown(p, c0, f);
    NextsMember(p, c0, f, lists, u);
    hide NextWrite, Nexts, Saturated, Bounded, StillAny, Closes;
    var c1 :| Constrained(p, c0, true, f, lists, |lists|, c1) && Least(p, c1, c);
    var v := NextWrite(p, c0, f, lists[u]).value;
    assert ConstrainedAt(p, c0, true, f, lists, u, c1);
    assert Knows(p, c1, v, f);
    DominatesKnows(p, c1, c, v, f);
  }

  /** Nothing overwrites what a pending read reads. */
  lemma NotOverwritten(p: Program, first: seq<Clock>, c0: seq<Clock>, e: seq<nat>, act: nat, r: nat)
    requires Proper(p) && |first| == |c0| == |p.s| && Covered(p, first) && Saturated(p, c0) && Bounded(p, c0)
    requires Calm(p, first, c0, e) && Pending(p, e, r) && act < |p.s| && act !in e && r != act
    requires Ripe(p, c0, e + [act], act) && (p.s[act].tid == p.s[r].tid ==> act < r)
    ensures !(p.s[act].kind.IsWrite() && p.s[act].loc == p.s[r].loc)
  {
    var f := p.s[r].rf.value;
    assert OnlyTaken(p, first, e, f) && Numbered(p.s, f);
    if p.s[act].kind.IsWrite() && p.s[act].loc == p.s[r].loc {
      if p.s[act].tid == p.s[r].tid {
        OwnStoreKnown(p, first, act, r);
      } else {
        assert Rivals(p, e, act, r);
        RuleKnown(p, c0, act, r);
      }
    }
  }

  /** No write that is picked passes over a choice. */
  lemma NothingRisky(p: Program, first: seq<Clock>, c0: seq<Clock>, e: seq<nat>, act: nat, r: nat)
    requires Proper(p) && |first| == |c0| == |p.s| && Covered(p, first) && Saturated(p, c0) && Bounded(p, c0)
    requires Calm(p, first, c0, e) && act < |p.s| && act !in e && Ripe(p, c0, e + [act], act)
    requires forall x: nat :: x < |p.s| && x !in e && x != act && p.s[x].tid == p.s[act].tid ==> act < x
    requires p.s[act].kind.IsWrite()
    ensures !Waiting(p, e, act, r)
  {
    if Waiting(p, e, act, r) {
      ReadIsWritten(p, r);
      assert Reads(p.s, r) && Pending(p, e, r);
      hide Proper;
      NotOverwritten(p, first, c0, e, act, r);
    }
  }

  lemma OwnStoreKnown(p: Program, c: seq<Clock>, w: nat, r: nat)
    requires |c| == |p.s| && Covered(p, c) && OwnStore(p, w, r)
    ensures p.s[r].rf.value < |p.s| && Knows(p, c, p.s[r].rf.value, w)
  {
  }

  lemma RuleKnown(p: Program, c: seq<Clock>, w: nat, r: nat)
    requires |c| == |p.s| && Saturated(p, c) && Bounded(p, c) && Rival(p, w, r) && Numbered(p.s, w)
    requires Knows(p, c, w, p.s[r].rf.value)
    ensures Knows(p, c, w, r)
  {
    assert Rules(p, c, w, r);
    SelfKnown(p, c, r);
  }

  lemma {:induction false} LastWriteMore(s: Trace, e: seq<nat>, act: nat, k: nat, loc: nat)
    requires k <= |e| && act < |s| && forall i :: 0 <= i < |e| ==> e[i] < |s|
    ensures LastWrite(s, e + [act], k, loc) == LastWrite(s, e, k, loc)
    decreases k
  {
    if k > 0 {
      LastWriteMore(s, e, act, k - 1, loc);
      assert (e + [act])[k - 1] == e[k - 1];
    }
  }

  lemma MisreadsMore(s: Trace, e: seq<nat>, act: nat, i: nat)
    requires act < |s| && forall i :: 0 <= i < |e| ==> e[i] < |s|
    requires !Misreads(s, e, i)
    requires s[act].kind.IsRead() ==> LastWrite(s, e, |e|, s[act].loc) == s[act].rf
    ensures !Misreads(s, e + [act], i)
  {
    if i <= |e| {
      var more := e + [act];
      assert i < |e| ==> more[i] == e[i];
      assert i == |e| ==> more[i] == act;
      LastWriteMore(s, e, act, i, s[more[i]].loc);
    }
  }

  /** What a read that is taken reads was taken before. */
  lemma ReadAfterWrite(p: Program, c0: seq<Clock>, e: seq<nat>, act: nat)
    requires Proper(p) && |c0| == |p.s| && Saturated(p, c0) && Bounded(p, c0) && act < |p.s| && act !in e
    requires Ripe(p, c0, e + [act], act) && p.s[act].kind.IsRead()
    ensures Pending(p, e, act)
  {
    ReadIsWritten(p, act);
    var f := p.s[act].rf.value;
    assert Reads(p.s, act);
    ForcedTaken(p, c0, e, act, f);
  }

  /** Whatever is forced to come before an action was taken before it. */
  lemma ForcedTaken(p: Program, c0: seq<Clock>, e: seq<nat>, act: nat, a: nat)
    requires |c0| == |p.s| && Saturated(p, c0) && Bounded(p, c0) && Ripe(p, c0, e + [act], act)
    requires Numbered(p.s, a) && Numbered(p.s, act) && Forced(p, a, act)
    ensures a in e
  {
    assert Takes(p, c0, act, a);
    SelfKnown(p, c0, a);
    SelfKnown(p, c0, act);
    hide Saturated, Bounded, Forced;
    KnowsUp(p, c0, a, act, a);
  }

  /** One turn of the search keeps all this. */
  lemma CalmStep(p: Program, first: seq<Clock>, c0: seq<Clock>, lists: Lists, e: seq<nat>, act: nat, c: seq<Clock>)
    requires Proper(p) && |first| == |c0| == |p.s| == |c| && Covered(p, first) && Saturated(p, c0) && Bounded(p, c0)
    requires Calm(p, first, c0, e) && act < |p.s| && act !in e && Ripe(p, c0, e + [act], act)
    requires Listed(p, lists, e + [act]) && Complete(p, lists, e + [act]) && Saturated(p, c)
    requires forall r: nat :: r < |p.s| && r !in e && r != act && p.s[r].tid == p.s[act].tid ==> act < r
    requires forall t :: 0 <= t < |lists| ==> InTrace(p, lists[t])
    requires Stepped(p, c0, lists, act, c)
    ensures Calm(p, first, c, e + [act])
  {
    var e' := e + [act];
    SteppedMore(p, c0, lists, act, c);
    DominatesTrans(first, c0, c);
    CalmTaken(p, first, c0, e, act);
    CalmKnown(p, first, c0, lists, e, act, c);
    CalmReads(p, first, c0, e, act);
  }

  lemma CalmTaken(p: Program, first: seq<Clock>, c0: seq<Clock>, e: seq<nat>, act: nat)
    requires |first| == |c0| == |p.s| && act < |p.s| && Calm(p, first, c0, e) && Ripe(p, c0, e + [act], act)
    requires act !in e
    ensures forall a :: a in e + [act] ==> a < |p.s| && OnlyTaken(p, first, e + [act], a)
    ensures forall a, u: nat :: a in e + [act] && Numbered(p.s, a) && u < |p.s| && p.s[u].kind.Uninit? ==>
              u in e + [act]
  {
    forall a, b: nat | a in e + [act] && a < |p.s| && Knows(p, first, a, b) ensures b in e + [act] {
      if a == act {
        DominatesKnows(p, first, c0, act, b);
      } else {
        assert OnlyTaken(p, first, e, a);
      }
    }
  }

  lemma CalmKnown(p: Program, first: seq<Clock>, c0: seq<Clock>, lists: Lists, e: seq<nat>, act: nat, c: seq<Clock>)
    requires Proper(p) && |first| == |c0| == |p.s| == |c| && Covered(p, first) && Saturated(p, c0) && Bounded(p, c0)
    requires Calm(p, first, c0, e) && act < |p.s| && act !in e && Ripe(p, c0, e + [act], act)
    requires Listed(p, lists, e + [act]) && Complete(p, lists, e + [act]) && Saturated(p, c)
    requires forall t :: 0 <= t < |lists| ==> InTrace(p, lists[t])
    requires Stepped(p, c0, lists, act, c)
    ensures forall w: nat, r: nat :: Pending(p, e + [act], r) && Rivals(p, e + [act], w, r) ==>
              Knows(p, c, w, p.s[r].rf.value)
  {
    SteppedMore(p, c0, lists, act, c);
    hide Saturated, Covered, Bounded, Stepped, Ripe, Listed, Complete, Rival, Reads;
    forall w: nat, r: nat | Pending(p, e + [act], r) && Rivals(p, e + [act], w, r)
      ensures Knows(p, c, w, p.s[r].rf.value)
    {
      if p.s[r].rf.value == act {
        FreshKnown(p, first, c0, lists, e + [act], c, w, r);
      } else {
        assert Pending(p, e, r) && Rivals(p, e, w, r);
        RivalIn(p, w, r);
        DominatesKnows(p, c0, c, w, p.s[r].rf.value);
      }
    }
  }

  lemma RivalIn(p: Program, w: nat, r: nat)
    requires Rival(p, w, r)
    ensures w < |p.s|
  {
  }

  lemma CalmReads(p: Program, first: seq<Clock>, c0: seq<Clock>, e: seq<nat>, act: nat)
    requires Proper(p) && |first| == |c0| == |p.s| && Covered(p, first) && Saturated(p, c0) && Bounded(p, c0)
    requires Calm(p, first, c0, e) && act < |p.s| && act !in e && Ripe(p, c0, e + [act], act)
    requires forall r: nat :: r < |p.s| && r !in e && r != act && p.s[r].tid == p.s[act].tid ==> act < r
    ensures InTrace(p, e + [act])
    ensures forall i: nat :: !Misreads(p.s, e + [act], i)
    ensures forall r: nat :: Pending(p, e + [act], r) ==>
              LastWrite(p.s, e + [act], |e + [act]|, p.s[r].loc) == p.s[r].rf
  {
    var e' := e + [act];
    if p.s[act].kind.IsRead() {
      ReadAfterWrite(p, c0, e, act);
    }
    forall i: nat ensures !Misreads(p.s, e', i) {
      MisreadsMore(p.s, e, act, i);
    }
    forall r: nat | Pending(p, e', r) ensures LastWrite(p.s, e', |e'|, p.s[r].loc) == p.s[r].rf {
      LastWriteMore(p.s, e, act, |e|, p.s[r].loc);
      assert e'[|e'| - 1] == act;
      if p.s[r].rf.value != act {
        assert Pending(p, e, r);
        NotOverwritten(p, first, c0, e, act, r);
      }
    }
  }

  // ------------------------------------------------------------------
  // The list as an order
  // ------------------------------------------------------------------

  /** Every action comes after all that is forced to come before it, and after the placeholders. */
  ghost predicate InOrder(p: Program, e: seq<nat>) {
    forall i, a: nat :: 0 <= i < |e| && a < |p.s| && Before(p, a, e[i]) ==> a in e[..i]
  }

  ghost predicate Before(p: Program, a: nat, b: nat) {
    Forced(p, a, b) || (a < |p.s| && p.s[a].kind.Uninit? && Numbered(p.s, b))
  }

  lemma InOrderStep(p: Program, c0: seq<Clock>, e: seq<nat>, act: nat)
    requires Proper(p) && |c0| == |p.s| && Saturated(p, c0) && Bounded(p, c0) && act < |p.s| && act !in e
    requires Ripe(p, c0, e + [act], act) && InOrder(p, e)
    requires forall r: nat :: r < |p.s| && r !in e && r != act && p.s[r].tid == p.s[act].tid ==> act < r
    ensures InOrder(p, e + [act])
  {
    var e' := e + [act];
    forall i, a: nat | 0 <= i < |e'| && a < |p.s| && Before(p, a, e'[i]) ensures a in e'[..i] {
      if i < |e| {
        assert e'[..i] == e[..i] && e'[i] == e[i];
      } else {
        assert e'[..i] == e && e'[i] == act;
        TakenBefore(p, c0, e, act, a);
      }
    }
  }

  lemma TakenBefore(p: Program, c0: seq<Clock>, e: seq<nat>, act: nat, a: nat)
    requires Proper(p) && |c0| == |p.s| && Saturated(p, c0) && Bounded(p, c0) && act < |p.s| && act !in e
    requires Ripe(p, c0, e + [act], act) && a < |p.s| && Before(p, a, act)
    requires forall r: nat :: r < |p.s| && r !in e && r != act && p.s[r].tid == p.s[act].tid ==> act < r
    ensures a in e
  {
    if Numbered(p.s, a) && Numbered(p.s, act) {
      ForcedTaken(p, c0, e, act, a);
    }
  }

  function IndexOf(e: seq<nat>, a: nat): (i: nat)
    requires a in e
    ensures i < |e| && e[i] == a
  {
    if e[0] == a then 0 else 1 + IndexOf(e[1..], a)
  }

  /** Where each action is in a list of all. */
  function Positions(p: Program, e: seq<nat>): (pos: seq<nat>)
    requires forall a: nat :: a < |p.s| ==> a in e
    ensures |pos| == |p.s| && forall a :: 0 <= a < |p.s| ==> pos[a] < |e| && e[pos[a]] == a
  {
    seq(|p.s|, a requires 0 <= a < |p.s| => IndexOf(e, a))
  }

  lemma {:induction false} CountTaken(e: seq<nat>)
    requires NoRepeats(e)
    ensures |Taken(e)| == |e|
  {
    if e != [] {
      var front, a := e[..|e| - 1], e[|e| - 1];
      CountTaken(front);
      assert e == front + [a];
      assert Taken(e) == Taken(front) + {a};
    }
  }

  lemma {:induction false} CountBelow(n: nat)
    ensures |Below(n)| == n
  {
    hide Below;
    if n > 0 {
      var m: nat := n - 1;
      CountBelow(m);
      BelowMore(m);
      AddOne(Below(m), m);
    } else {
      BelowNone();
    }
  }

  lemma BelowNone()
    ensures Below(0) == {}
  {
  }

  lemma BelowMore(n: nat)
    ensures Below(n + 1) == Below(n) + {n} && n !in Below(n)
  {
    forall x: nat ensures x in Below(n + 1) <==> x in Below(n) + {n} {
    }
  }

  lemma AddOne(S: set<nat>, m: nat)
    requires m !in S
    ensures |S + {m}| == |S| + 1
  {
  }

  lemma AllListed(p: Program, e: seq<nat>)
    requires InTrace(p, e) && NoRepeats(e) && forall a: nat :: a < |p.s| ==> a in e
    ensures ListsAll(p.s, e, Positions(p, e))
  {
    CountTaken(e);
    CountBelow(|p.s|);
    assert Taken(e) == Below(|p.s|);
    var pos := Positions(p, e);
    forall i | 0 <= i < |e| ensures pos[e[i]] == i {
      assert e[pos[e[i]]] == e[i];
    }
  }

  /** As long as an action is left, the list is shorter than the trace. */
  lemma RoomFor(p: Program, e: seq<nat>, act: nat)
    requires InTrace(p, e) && NoRepeats(e) && act < |p.s| && act !in e
    ensures |e| < |p.s|
  {
    CountTaken(e);
    CountBelow(|p.s|);
    SubsetCardinality(Taken(e) + {act}, Below(|p.s|));
  }

  /** A list of all actions that is in order and passes check_rf is a sequentially consistent order. */
  lemma ListIsOrder(p: Program, e: seq<nat>)
    requires Proper(p) && InTrace(p, e) && NoRepeats(e) && forall a: nat :: a < |p.s| ==> a in e
    requires InOrder(p, e) && forall i: nat :: !Misreads(p.s, e, i)
    ensures IsFullOrder(p, Positions(p, e))
  {
    hide NoRepeats, InOrder, Forced, Before, Proper, ListsAll, Misreads, IsFullOrder, Taken;
    AllListed(p, e);
    AllPlaced(p, e);
    PassesIsSc(p, e, Positions(p, e));
  }

  lemma AllPlaced(p: Program, e: seq<nat>)
    requires NoRepeats(e) && InTrace(p, e) && (forall x: nat :: x < |p.s| ==> x in e) && InOrder(p, e)
    ensures var pos := Positions(p, e);
            && (forall a: nat, b: nat :: Forced(p, a, b) ==> a < |p.s| && b < |p.s| && pos[a] < pos[b])
            && forall u: nat, b: nat :: u < |p.s| && p.s[u].kind.Uninit? && Numbered(p.s, b) ==> pos[u] < pos[b]
  {
    hide NoRepeats, InOrder;
    var pos := Positions(p, e);
    forall a: nat, b: nat | Forced(p, a, b) ensures a < |p.s| && b < |p.s| && pos[a] < pos[b] {
      ForcedInTrace(p, a, b);
      hide Forced;
      PlacedBefore(p, e, a, b);
    }
    forall u: nat, b: nat | u < |p.s| && p.s[u].kind.Uninit? && Numbered(p.s, b) ensures pos[u] < pos[b] {
      hide Forced;
      PlacedBefore(p, e, u, b);
    }
  }

  lemma ForcedInTrace(p: Program, a: nat, b: nat)
    requires Forced(p, a, b)
    ensures a < |p.s| && b < |p.s|
  {
  }

  lemma PlacedBefore(p: Program, e: seq<nat>, a: nat, b: nat)
    requires NoRepeats(e) && InTrace(p, e) && (forall x: nat :: x < |p.s| ==> x in e) && InOrder(p, e)
    requires a < |p.s| && b < |p.s| && Before(p, a, b)
    ensures Positions(p, e)[a] < Positions(p, e)[b]
  {
    hide Before;
    var pos := Positions(p, e);
    assert e[pos[b]] == b;
    var i :| 0 <= i < pos[b] && e[..pos[b]][i] == a;
    assert e[i] == a && pos[a] == i;
  }
}
