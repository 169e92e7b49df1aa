/**
 Clock vectors: as values, with the join that synchronization performs, and as
 the growing array that the program updates.
 */
module Clocks {

  /** The clock of each thread; threads beyond the end have clock 0. */
  type Clock = seq<nat>

  function At(c: Clock, t: nat): nat {
    if t < |c| then c[t] else 0
  }

  function Max(a: nat, b: nat): (m: nat)
    ensures m >= a && m >= b && (m == a || m == b)
  {
    if a < b then b else a
  }

  /** Pointwise maximum, as long as the longer of the two. */
  function Join(c: Clock, d: Clock): (j: Clock)
    ensures |j| == Max(|c|, |d|)
    ensures forall t: nat :: At(j, t) == Max(At(c, t), At(d, t))
  {
    seq(Max(|c|, |d|), t requires 0 <= t < Max(|c|, |d|) => Max(At(c, t), At(d, t)))
  }

  /** The clock of a new action: its parent's, with its own thread's entry set. */
  function Tick(parent: Clock, tid: nat, now: nat): (c: Clock)
    ensures tid < |c| && c[tid] == now
    ensures forall t: nat :: t != tid ==> At(c, t) == At(parent, t)
  {
    var n := Max(tid + 1, |parent|);
    seq(n, t requires 0 <= t < n => if t == tid then now else At(parent, t))
  }

  /** ClockVector::synchronized_since. */
  predicate Since(c: Clock, tid: nat, now: nat) {
    tid < |c| && now <= c[tid]
  }

  /** Everything known to `c` is known to `d`. */
  ghost predicate Le(c: Clock, d: Clock) {
    |c| <= |d| && forall t: nat :: At(c, t) <= At(d, t)
  }

  lemma JoinLe(c: Clock, d: Clock)
    requires Le(d, c)
    ensures Join(c, d) == c
  {
    assert forall t :: 0 <= t < |c| ==> Join(c, d)[t] == At(Join(c, d), t) && c[t] == At(c, t);
  }

  lemma JoinAssociates(a: Clock, b: Clock, c: Clock)
    ensures Join(Join(a, b), c) == Join(a, Join(b, c))
  {
    var l, r := Join(Join(a, b), c), Join(a, Join(b, c));
    assert forall t :: 0 <= t < |l| ==> l[t] == At(l, t) && r[t] == At(r, t);
  }

  /** The clock vector object. */
  class ClockVector {
    var clock: array<nat>

    constructor (parent: ClockVector?, tid: nat, now: nat)
      ensures fresh(clock)
      ensures clock[..] == Tick(if parent == null then [] else parent.clock[..], tid, now)
    {
      var n := tid + 1;
      if parent != null && parent.clock.Length > n {
        n := parent.clock.Length;
      }
      var c := new nat[n](i => 0);
      if parent != null {
        var i := 0;
        while i < parent.clock.Length
          invariant 0 <= i <= parent.clock.Length <= c.Length
          invariant forall k :: 0 <= k < i ==> c[k] == parent.clock[k]
          invariant forall k :: i <= k < c.Length ==> c[k] == 0
        {
          c[i] := parent.clock[i];
          i := i + 1;
        }
      }
      c[tid] := now;
      clock := c;
    }

    /** ClockVector::merge: this vector becomes the join; the answer tells whether an entry rose. */
    method Merge(cv: ClockVector) returns (changed: bool)
      modifies this, clock
      ensures fresh(clock) || clock == old(clock)
      ensures clock[..] == Join(old(clock[..]), old(cv.clock[..]))
      ensures changed <==> exists t: nat :: At(old(cv.clock[..]), t) > At(old(clock[..]), t)
    {
      ghost var mine, theirs := clock[..], cv.clock[..];
      var source := cv.clock;
      changed := false;
      if source.Length > clock.Length {
        var grown := new nat[source.Length](i => 0);
        var j := 0;
        while j < clock.Length
          invariant 0 <= j <= clock.Length < grown.Length
          invariant forall k :: 0 <= k < j ==> grown[k] == clock[k]
          invariant forall k :: j <= k < grown.Length ==> grown[k] == 0
          invariant clock[..] == mine && source[..] == theirs
        {
          grown[j] := clock[j];
          j := j + 1;
        }
        clock := grown;
      }
      assert forall t: nat :: At(clock[..], t) == At(mine, t);
      var i := 0;
      while i < source.Length
        invariant 0 <= i <= source.Length <= clock.Length == Max(|mine|, |theirs|)
        invariant clock == old(clock) || fresh(clock)
        invariant clock != source || mine == theirs
        invariant source[..] == theirs
        invariant forall k :: 0 <= k < i ==> clock[k] == Max(At(mine, k), At(theirs, k))
        invariant forall k :: i <= k < clock.Length ==> clock[k] == At(mine, k)
        invariant changed <==> exists t: nat :: t < i && At(theirs, t) > At(mine, t)
      {
        if source[i] > clock[i] {
          clock[i] := source[i];
          changed := true;
          assert At(theirs, i) > At(mine, i);
        }
        i := i + 1;
      }
      assert clock[..] == Join(mine, theirs);
    }

    /** ClockVector::getClock. */
    function GetClock(tid: nat): (c: nat)
      reads this, clock
      ensures c == At(clock[..], tid)
    {
      if tid < clock.Length then clock[tid] else 0
    }

    /** ClockVector::synchronized_since for an action of thread `tid` at time `now`. */
    predicate SynchronizedSince(tid: nat, now: nat)
      reads this, clock
      ensures SynchronizedSince(tid, now) <==> Since(clock[..], tid, now)
    {
      if tid < clock.Length then now <= clock[tid] else false
    }
  }
}
