/**
 The round-robin scheduler: which threads are enabled, and how the next one is
 picked. With yield fairness alone some enabled thread can always be picked.
 */
module Schedulers {
  import opened Arithmetic
  import opened Digraph
  import opened Optional
  import opened YieldPriorities

  /** enabled_type. */
  datatype Status = ThreadDisabled | ThreadEnabled | ThreadSleepSet

  /** The thread looked at in turn `i`, counting on from `start`. */
  function Turn(start: nat, i: nat, n: nat): (t: nat)
    requires n > 0
    ensures t < n
  {
    (start + i + 1) % n
  }

  /** All threads get a turn. */
  lemma EveryoneComes(start: nat, n: nat, t: nat) returns (i: nat)
    requires t < n
    ensures i < n && Turn(start, i, n) == t
  {
    var x := t - start - 1;
    i := x % n;
    assert x == n * (x / n) + i;
    assert n * -(x / n) == -(n * (x / n));
    Quotient(start + i + 1, n, -(x / n), t);
  }

  lemma TurnBelow(start: nat, i: nat, n: nat)
    requires n > 0
    ensures Turn(start, i, n) < n
  {
  }

  /** The threads after `start` come first, then those from 0 on. */
  lemma TurnIs(start: nat, i: nat, n: nat)
    requires start < n && i < n
    ensures Turn(start, i, n) == if start + i + 1 < n then start + i + 1 else start + i + 1 - n
  {
    if start + i + 1 < n {
      Quotient(start + i + 1, n, 0, start + i + 1);
    } else {
      Quotient(start + i + 1, n, 1, start + i + 1 - n);
    }
  }

  class Scheduler {
    var enabled: seq<Status>
    var currThreadIndex: nat

    constructor ()
      ensures enabled == [] && currThreadIndex == 0
    {
      enabled, currThreadIndex := [], 0;
    }

    /** Scheduler::set_enabled: the array grows with disabled threads as needed. */
    method SetEnabled(t: nat, status: Status)
      modifies this`enabled
      ensures t < |enabled| && StatusOf(t) == status && |enabled| >= |old(enabled)|
      ensures forall u: nat :: u != t ==> StatusOf(u) == old(StatusOf(u))
    {
      if t >= |enabled| {
        var grown := enabled + seq(t + 1 - |enabled|, i => ThreadDisabled);
        enabled := grown;
      }
      enabled := enabled[t := status];
    }

    function StatusOf(t: nat): (s: Status)
      reads this`enabled
    {
      if t < |enabled| then enabled[t] else ThreadDisabled
    }

    /** Scheduler::is_enabled: includes threads in the sleep set. */
    predicate IsEnabled(t: nat)
      reads this`enabled
    {
      !StatusOf(t).ThreadDisabled?
    }

    /** Scheduler::all_threads_sleeping. */
    method AllThreadsSleeping() returns (sleeping: bool)
      ensures sleeping <==>
                (forall t: nat :: !StatusOf(t).ThreadEnabled?) && exists t: nat :: StatusOf(t).ThreadSleepSet?
    {
      sleeping := false;
      var i := 0;
      while i < |enabled|
        invariant 0 <= i <= |enabled|
        invariant forall t: nat :: t < i ==> !StatusOf(t).ThreadEnabled?
        invariant sleeping <==> exists t: nat :: t < i && StatusOf(t).ThreadSleepSet?
      {
        if enabled[i] == ThreadEnabled {
          assert StatusOf(i).ThreadEnabled?;
          return false;
        } else if enabled[i] == ThreadSleepSet {
          assert StatusOf(i).ThreadSleepSet?;
          sleeping := true;
        }
        i := i + 1;
      }
    }

    /** Scheduler::update_sleep_set. */
    method UpdateSleepSet(nodeEnabled: seq<Status>)
      requires |enabled| <= |nodeEnabled|
      modifies this`enabled
      ensures |enabled| == |old(enabled)|
      ensures forall i :: 0 <= i < |enabled| ==>
                enabled[i] == if nodeEnabled[i] == ThreadSleepSet then ThreadSleepSet else old(enabled)[i]
    {
      var i := 0;
      while i < |enabled|
        invariant 0 <= i <= |enabled| == |old(enabled)|
        invariant forall j :: 0 <= j < i ==>
                    enabled[j] == if nodeEnabled[j] == ThreadSleepSet then ThreadSleepSet else old(enabled)[j]
        invariant forall j :: i <= j < |enabled| ==> enabled[j] == old(enabled)[j]
      {
        if nodeEnabled[i] == ThreadSleepSet {
          enabled := enabled[i := ThreadSleepSet];
        }
        i := i + 1;
      }
    }

    /** The thread has yielded to one that is not disabled. */
    ghost predicate Outranked(n: YieldNode, t: nat)
      requires n.Valid()
      reads this`enabled, n, n.yieldData
    {
      exists j: nat :: Outranks(n, t, j)
    }

    ghost predicate Outranks(n: YieldNode, t: nat, j: nat)
      requires n.Valid()
      reads this`enabled, n, n.yieldData
    {
      j < |enabled| && IsEnabled(j) && n.HasPriorityOver(t, j)
    }

    /** A thread with priority by the fairness window is not disabled. */
    ghost predicate SomePriority(fair: Option<seq<bool>>)
      reads this`enabled
    {
      fair.Some? && exists i :: 0 <= i < |enabled| && i < |fair.value| && fair.value[i] && IsEnabled(i)
    }

    /** The thread may be picked. */
    ghost predicate Eligible(n: YieldNode, yieldOn: bool, fair: Option<seq<bool>>, t: nat)
      requires n.Valid() && (fair.Some? ==> |fair.value| >= |enabled|)
      reads this`enabled, n, n.yieldData
    {
      && t < |enabled| && enabled[t] == ThreadEnabled
      && (yieldOn ==> !Outranked(n, t))
      && (SomePriority(fair) ==> fair.value[t])
    }

    /** The thread of turn `i` is eligible, none of an earlier turn is. */
    ghost predicate IsFirst(n: YieldNode, yieldOn: bool, fair: Option<seq<bool>>, start: nat, i: nat, t: nat)
      requires n.Valid() && (fair.Some? ==> |fair.value| >= |enabled|)
      reads this`enabled, n, n.yieldData
    {
      && i < |enabled| && Turn(start, i, |enabled|) == t && Eligible(n, yieldOn, fair, t)
      && forall j: nat :: j < i ==> !Eligible(n, yieldOn, fair, Turn(start, j, |enabled|))
    }

    /** `t` is the eligible thread that comes next after `start`, round the end. */
    ghost predicate ComesNext(n: YieldNode, yieldOn: bool, fair: Option<seq<bool>>, start: nat, t: nat)
      requires n.Valid() && (fair.Some? ==> |fair.value| >= |enabled|)
      reads this`enabled, n, n.yieldData
    {
      && Eligible(n, yieldOn, fair, t)
      && (t > start ==> forall u: nat :: start < u < t ==> !Eligible(n, yieldOn, fair, u))
      && (t <= start ==> forall u: nat :: u > start || u < t ==> !Eligible(n, yieldOn, fair, u))
    }

    /** Taking turns is going round the threads, from the one after `start`. */
    lemma TurnsGoRound(n: YieldNode, yieldOn: bool, fair: Option<seq<bool>>, start: nat, i: nat, t: nat)
      requires n.Valid() && (fair.Some? ==> |fair.value| >= |enabled|) && start < |enabled|
      requires IsFirst(n, yieldOn, fair, start, i, t)
      ensures ComesNext(n, yieldOn, fair, start, t)
    {
      hide Eligible;
      assert t < |enabled| by {
        TurnBelow(start, i, |enabled|);
      }
      TurnIs(start, i, |enabled|);
      forall u: nat | Eligible(n, yieldOn, fair, u) && u != t
        ensures t > start ==> u <= start || u > t
        ensures t <= start ==> t < u <= start
      {
        EligibleBelow(n, yieldOn, fair, u);
        var j: nat := if u > start then u - start - 1 else u + |enabled| - start - 1;
        TurnIs(start, j, |enabled|);
      }
    }

    lemma EligibleBelow(n: YieldNode, yieldOn: bool, fair: Option<seq<bool>>, t: nat)
      requires n.Valid() && (fair.Some? ==> |fair.value| >= |enabled|) && Eligible(n, yieldOn, fair, t)
      ensures t < |enabled|
    {
    }

    /**
     Scheduler::select_next_thread: the first eligible thread, counting on from the last
     one picked. `fair` holds the priorities of the fairness window, if there is one.
     */
    method SelectNextThread(n: YieldNode, yieldOn: bool, fair: Option<seq<bool>>) returns (next: Option<nat>)
      requires n.Valid() && (fair.Some? ==> |fair.value| >= |enabled|)
      modifies this`currThreadIndex
      ensures next.Some? ==> Eligible(n, yieldOn, fair, next.value) && currThreadIndex == next.value
      ensures next.None? ==> forall t: nat :: !Eligible(n, yieldOn, fair, t)
      ensures next.Some? ==> exists i: nat :: IsFirst(n, yieldOn, fair, old(currThreadIndex), i, next.value)
      ensures next.Some? && old(currThreadIndex) < |enabled| ==>
                ComesNext(n, yieldOn, fair, old(currThreadIndex), next.value)
    {
      hide Turn, Outranked, SomePriority;
      var oldIndex := currThreadIndex;
      var havePriority := HavePriority(fair);
      var i: nat := 0;
      while i < |enabled|
        invariant i <= |enabled|
        invariant forall j: nat :: j < i ==> !Eligible(n, yieldOn, fair, Turn(oldIndex, j, |enabled|))
      {
        currThreadIndex := Turn(oldIndex, i, |enabled|);
        var bad := false;
        if yieldOn {
          bad := IsOutranked(n, currThreadIndex);
        }
        if !bad && enabled[currThreadIndex] == ThreadEnabled && (!havePriority || fair.value[currThreadIndex]) {
          assert IsFirst(n, yieldOn, fair, oldIndex, i, currThreadIndex);
          if oldIndex < |enabled| {
            TurnsGoRound(n, yieldOn, fair, oldIndex, i, currThreadIndex);
          }
          return Some(currThreadIndex);
        }
        i := i + 1;
      }
      forall t: nat ensures !Eligible(n, yieldOn, fair, t) {
        if t < |enabled| {
          var j := EveryoneComes(oldIndex, |enabled|, t);
        }
      }
      next := None;
    }

    /**
     Who is eligible, in terms of the run: an enabled thread, when no thread that is enabled or asleep is
     to go before it, and when no such thread has the priority of the fairness window that it lacks.
     */
    lemma EligibleMeans(n: YieldNode, yieldOn: bool, fair: Option<seq<bool>>, t: nat)
      requires n.Computed() && (fair.Some? ==> |fair.value| >= |enabled|)
      ensures Eligible(n, yieldOn, fair, t) <==>
              && StatusOf(t).ThreadEnabled?
              && (yieldOn ==> forall j: nat :: !StatusOf(j).ThreadDisabled? ==> (j, t) !in Before(n.run, |n.run| - 1))
              && (fair.Some? && !fair.value[t] ==>
                    forall j: nat :: j < |enabled| && fair.value[j] ==> StatusOf(j).ThreadDisabled?)
    {
      var k := |n.run| - 1;
      forall j: nat ensures n.HasPriorityOver(t, j) <==> (j, t) in Before(n.run, k) {
        assert n.GetYieldData(t, j) == YieldAt(n.run, k, t, j);
      }
      if yieldOn && Outranked(n, t) {
        var j: nat :| Outranks(n, t, j);
        assert !StatusOf(j).ThreadDisabled?;
      }
      forall j: nat | !StatusOf(j).ThreadDisabled? && (j, t) in Before(n.run, k) ensures Outranks(n, t, j) {
      }
    }

    method HavePriority(fair: Option<seq<bool>>) returns (have: bool)
      requires fair.Some? ==> |fair.value| >= |enabled|
      ensures have <==> SomePriority(fair)
      ensures have ==> fair.Some?
    {
      have := false;
      if fair.Some? {
        var i := 0;
        while i < |enabled|
          invariant 0 <= i <= |enabled|
          invariant have <==> exists j :: 0 <= j < i && fair.value[j] && IsEnabled(j)
        {
          if fair.value[i] && enabled[i] != ThreadDisabled {
            have := true;
          }
          i := i + 1;
        }
      }
    }

    method IsOutranked(n: YieldNode, t: nat) returns (bad: bool)
      requires n.Valid()
      ensures bad <==> Outranked(n, t)
    {
      bad := false;
      var j: nat := 0;
      while j < |enabled|
        invariant j <= |enabled|
        invariant forall k: nat :: k < j ==> !Outranks(n, t, k)
      {
        if enabled[j] != ThreadDisabled && n.HasPriorityOver(t, j) {
          assert Outranks(n, t, j);
          return true;
        }
        j := j + 1;
      }
    }

    /**
     With no fairness window and no sleeping thread, an enabled thread is eligible whenever
     there is one: priorities by yields have no cycle.
     */
    lemma SomeoneRuns(n: YieldNode, yieldOn: bool, t: nat) returns (next: nat)
      requires n.Computed() && StatusOf(t).ThreadEnabled? && forall u: nat :: !StatusOf(u).ThreadSleepSet?
      requires forall i :: 1 <= i < |n.run| ==> n.run[i - 1].threads <= n.run[i].threads
      ensures Eligible(n, yieldOn, None, next)
    {
      var k := |n.run| - 1;
      PrioritiesAcyclic(n.run, k);
      var S := set u: nat | u in Below(|enabled|) && enabled[u] == ThreadEnabled;
      assert t in S;
      next := MinimalMember(Before(n.run, k), S);
      forall j: nat ensures !Outranks(n, next, j) {
        if j < |enabled| && IsEnabled(j) {
          assert j in S;
          if n.HasPriorityOver(next, j) {
            EdgePlus(Before(n.run, k), j, next);
          }
        }
      }
    }
  }
}
