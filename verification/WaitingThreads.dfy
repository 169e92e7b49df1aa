/**
 Deadlock detection: which thread waits on which, and why testing only the thread
 that has just stashed its next action finds every circular wait.
 */
module WaitingThreads {
  import opened Digraph
  import opened Optional

  /** The next action of a thread, as far as it can block. */
  datatype Pending = Join(thread: nat) | Lock(mutex: nat) | Unblocked

  /** Thread::waiting_on for a thread with this next action. */
  function Target(p: Pending, locked: map<nat, nat>): Option<nat> {
    match p
    case Join(t) => Some(t)
    case Lock(m) => if m in locked then Some(locked[m]) else None
    case Unblocked => None
  }

  /** `t` cannot go on before `u` does: it joins `u`, or locks a mutex that `u` holds. */
  ghost predicate Blocked(pending: map<nat, Pending>, locked: map<nat, nat>, t: nat, u: nat) {
    && t in pending
    && (pending[t] == Join(u) || exists m :: pending[t] == Lock(m) && m in locked && locked[m] == u)
  }

  /** The threads of `ring` wait on each other in turn, the last one on the first. */
  ghost predicate IsRing(pending: map<nat, Pending>, locked: map<nat, nat>, ring: seq<nat>) {
    && ring != []
    && forall i :: 0 <= i < |ring| ==> Blocked(pending, locked, ring[i], ring[if i + 1 < |ring| then i + 1 else 0])
  }

  /** The wait graph. */
  ghost function Waits(pending: map<nat, Pending>, locked: map<nat, nat>): (E: Edges)
    ensures forall t, u :: (t, u) in E <==> t in pending && Target(pending[t], locked) == Some(u)
  {
    set t | t in pending && Target(pending[t], locked).Some? :: (t, Target(pending[t], locked).value)
  }

  /** Each thread waits on whom it is blocked by. */
  lemma WaitsMeans(pending: map<nat, Pending>, locked: map<nat, nat>, t: nat, u: nat)
    ensures (t, u) in Waits(pending, locked) <==> Blocked(pending, locked, t, u)
  {
  }

  /** The wait graph has a cycle exactly when some threads wait on each other in a ring. */
  lemma RingIsCycle(pending: map<nat, Pending>, locked: map<nat, nat>)
    ensures !Acyclic(Waits(pending, locked)) <==> exists ring :: IsRing(pending, locked, ring)
  {
    hide Blocked;
    var E := Waits(pending, locked);
    if !Acyclic(E) {
      var a: nat :| Plus(E, a, a);
      var b :| (a, b) in E && Reach(E, b, a);
      var p :| PathFromTo(E, p, b, a);
      forall i | 0 <= i < |p| ensures Blocked(pending, locked, p[i], p[if i + 1 < |p| then i + 1 else 0]) {
        WaitsMeans(pending, locked, p[i], p[if i + 1 < |p| then i + 1 else 0]);
      }
      assert IsRing(pending, locked, p);
    }
    if ring :| IsRing(pending, locked, ring) {
      forall i | 0 <= i < |ring| ensures (ring[i], ring[if i + 1 < |ring| then i + 1 else 0]) in E {
        WaitsMeans(pending, locked, ring[i], ring[if i + 1 < |ring| then i + 1 else 0]);
      }
      var last := ring[|ring| - 1];
      assert PathFromTo(E, ring, ring[0], last);
      assert (last, ring[0]) in E;
      assert Plus(E, last, last);
    }
  }

  ghost function EndPoints(E: Edges): set<nat> {
    (set e | e in E :: e.0) + set e | e in E :: e.1
  }

  ghost function Ahead(E: Edges, t: nat): set<nat> {
    set u | u in EndPoints(E) && Reach(E, t, u)
  }

  /** Following an edge of an acyclic graph leaves less ahead. */
  lemma AheadShrinks(E: Edges, t: nat, u: nat)
    requires Acyclic(E) && (t, u) in E
    ensures Ahead(E, u) < Ahead(E, t)
  {
    ReachEdge(E, t, u);
    forall x | x in Ahead(E, u) ensures x in Ahead(E, t) {
      ReachTrans(E, t, u, x);
    }
    ReachRefl(E, t);
    assert (t, u).0 in EndPoints(E);
    assert t in Ahead(E, t);
    assert Reach(E, u, t) ==> Plus(E, t, t);
  }

  /** With one edge out of `t` at most, what is reached from `t` is `t` or reached from its target. */
  lemma OnlyThrough(E: Edges, t: nat, u: Option<nat>, x: nat)
    requires forall v :: (t, v) in E <==> u == Some(v)
    ensures Plus(E, t, x) <==> u.Some? && Reach(E, u.value, x)
    ensures t != x ==> (Reach(E, t, x) <==> Plus(E, t, x))
  {
    if t != x && Reach(E, t, x) {
      ReachCases(E, t, x);
    }
    if Plus(E, t, x) {
      PlusReach(E, t, x);
    }
  }

  /** The graph without the edges out of `t`. */
  ghost function Without(E: Edges, t: nat): Edges {
    set e | e in E && e.0 != t
  }

  /** A new edge out of `t` closes a cycle exactly when there is a way from `t` back to it. */
  lemma CycleThrough(E: Edges, t: nat)
    requires Acyclic(Without(E, t))
    ensures Acyclic(E) <==> !Plus(E, t, t)
  {
    if !Plus(E, t, t) {
      forall a: nat ensures !Plus(E, a, a) {
        if Plus(E, a, a) {
          AvoidsThread(E, t, a);
        }
      }
    }
  }

  lemma AvoidsThread(E: Edges, t: nat, a: nat)
    requires Plus(E, a, a) && !Plus(E, t, t)
    ensures Plus(Without(E, t), a, a)
  {
    var b :| (a, b) in E && Reach(E, b, a);
    var p :| PathFromTo(E, p, b, a);
    if t in p {
      var i :| 0 <= i < |p| && p[i] == t;
      SubPath(E, p, i);
      ReachThenPlus(E, t, a, b) by {
        EdgePlus(E, a, b);
      }
      PlusThenReach(E, t, b, t);
    } else {
      assert p[|p| - 1] == a;
      assert PathFromTo(Without(E, t), p, b, a);
    }
  }

  lemma SubPath(E: Edges, p: seq<nat>, i: nat)
    requires IsPath(E, p) && i < |p|
    ensures Reach(E, p[0], p[i]) && Reach(E, p[i], p[|p| - 1])
  {
    assert PathFromTo(E, p[..i + 1], p[0], p[i]);
    assert PathFromTo(E, p[i..], p[i], p[|p| - 1]);
  }

  /** The threads of one execution between steps. */
  class WaitTable {
    /** The stashed next actions. */
    var pending: map<nat, Pending>
    /** The holder of each locked mutex. */
    var locked: map<nat, nat>
    var deadlock: bool

    ghost function Graph(): Edges
      reads this
    {
      Waits(pending, locked)
    }

    /** As long as no deadlock was reported there is no circular wait. */
    ghost predicate Valid()
      reads this
    {
      !deadlock ==> Acyclic(Graph())
    }

    constructor ()
      ensures Valid() && !deadlock && pending == map[] && locked == map[]
    {
      pending, locked, deadlock := map[], map[], false;
      new;
      forall a: nat ensures !Plus(Graph(), a, a) {
      }
    }

    /** Thread::waiting_on. */
    function WaitingOn(t: nat): (u: Option<nat>)
      reads this
      ensures forall v :: u == Some(v) <==> (t, v) in Graph()
      ensures forall v: nat :: u == Some(v) <==> Blocked(pending, locked, t, v)
      ensures u.None? <==> t !in pending || pending[t].Unblocked? ||
                           (pending[t].Lock? && pending[t].mutex !in locked)
    {
      if t in pending then Target(pending[t], locked) else None
    }

    /**
     Thread::is_waiting_on: follows the chain of waiting threads. It ends when every circular
     wait goes through `t`.
     */
    method IsWaitingOn(from: nat, t: nat) returns (waiting: bool)
      requires Acyclic(Without(Graph(), t))
      ensures waiting <==> Plus(Graph(), from, t)
    {
      hide Plus, Reach, Acyclic;
      ghost var E := Graph();
      var wait := WaitingOn(from);
      OnlyThrough(E, from, wait, t);
      while wait.Some?
        invariant Plus(E, from, t) <==> wait.Some? && Reach(E, wait.value, t)
        decreases if wait.Some? then 1 else 0, if wait.Some? then Ahead(Without(E, t), wait.value) else {}
      {
        if wait.value == t {
          ReachRefl(E, t);
          return true;
        }
        var next := WaitingOn(wait.value);
        OnlyThrough(E, wait.value, next, t);
        if next.Some? {
          AheadShrinks(Without(E, t), wait.value, next.value);
        }
        wait := next;
      }
      waiting := false;
    }

    /**
     The part of ModelChecker::run that stashes the next action of a thread and tests it.
     A deadlock is reported exactly when the action closes a circular wait.
     */
    method Stash(t: nat, p: Pending)
      requires Valid() && t !in pending && !deadlock
      modifies this`pending, this`deadlock
      ensures Valid() && pending == old(pending)[t := p]
      ensures deadlock <==> exists ring :: IsRing(pending, locked, ring)
    {
      hide Plus, Reach, Acyclic, IsRing;
      ghost var E := Graph();
      pending := pending[t := p];
      assert Without(Graph(), t) == E;
      CycleThrough(Graph(), t);
      var waiting := IsWaitingOn(t, t);
      if waiting {
        deadlock := true;
      }
      RingIsCycle(pending, locked);
    }

    /** A thread takes its step: what it was about to do is no longer pending. */
    method TakeStep(t: nat) returns (p: Pending)
      requires Valid() && t in pending
      modifies this`pending
      ensures Valid() && pending == old(pending) - {t} && p == old(pending)[t]
    {
      ghost var E := Graph();
      p := pending[t];
      pending := pending - {t};
      assert Graph() <= E;
      if !deadlock {
        AcyclicMono(Graph(), E);
      }
    }

    /** A lock, or a successful trylock, of a thread that has just stepped: all that want the mutex now wait on it. */
    method Acquire(t: nat, m: nat)
      requires Valid() && t !in pending
      modifies this`locked
      ensures Valid() && locked == old(locked)[m := t]
    {
      ghost var E := Graph();
      locked := locked[m := t];
      if !deadlock {
        AcyclicIntoSink(E, Graph(), t);
      }
    }

    /** An unlock or the start of a wait on a condition. */
    method Release(m: nat)
      requires Valid()
      modifies this`locked
      ensures Valid() && locked == old(locked) - {m}
    {
      ghost var E := Graph();
      locked := locked - {m};
      assert Graph() <= E;
      if !deadlock {
        AcyclicMono(Graph(), E);
      }
    }

    /** While no deadlock was reported, no threads wait on each other in a ring. */
    lemma NoCircularWait()
      requires Valid() && !deadlock
      ensures forall ring :: !IsRing(pending, locked, ring)
    {
      RingIsCycle(pending, locked);
    }
  }
}
