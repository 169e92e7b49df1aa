/**
 How a trace's ordering constraints sit in the modification-order graph, and
 what a solution of the graph's constraints means for the trace: a coherent
 modification order.
 */
module MoConstraints {
  import opened Digraph
  import opened Optional
  import opened OrderConstraints
  import opened Clocks
  import opened Actions
  import opened HappensBefore
  import opened Coherence
  import opened TraceInvariant

  /** Only writes have nodes, and every requested pair is a constraint on their nodes. */
  ghost predicate Linked(s: Trace, M: Edges, t: map<nat, nat>, log: set<Constraint>) {
    && (forall k :: k in t ==> k < |s| && s[k].kind.IsWrite())
    && (forall a, b :: (a, b) in M ==>
        a in t && b in t && (Before(t[a], t[b]) in log || Constraint.Rmw(t[a], t[b]) in log))
  }

  /** The constraint is between the nodes of a requested pair, of a read-modify-write when it is one of those. */
  ghost predicate Source(s: Trace, M: Edges, t: map<nat, nat>, c: Constraint, a: nat, b: nat) {
    && (a, b) in M && a in t && b in t
    && match c
       case Before(i, j) => t[a] == i && t[b] == j
       case Rmw(i, j) => t[a] == i && t[b] == j && b < |s| && s[b].kind.Rmw? && s[b].rf == Some(a)
  }

  /** Nothing else was asked for. */
  ghost predicate Sourced(s: Trace, M: Edges, t: map<nat, nat>, log: set<Constraint>) {
    forall c :: c in log ==> exists a: nat, b: nat :: Source(s, M, t, c, a, b)
  }

  /** Every read-modify-write is constrained to follow what it reads at once. */
  ghost predicate RmwConstrained(s: Trace, t: map<nat, nat>, log: set<Constraint>) {
    forall a: nat :: a < |s| && s[a].kind.Rmw? && s[a].rf.Some? ==>
      s[a].rf.value in t && a in t && Constraint.Rmw(t[s[a].rf.value], t[a]) in log
  }

  /** The order of the nodes puts write `a` before write `b`. */
  ghost predicate Earlier(t: map<nat, nat>, pos: seq<nat>, a: nat, b: nat) {
    a in t && b in t && t[a] < |pos| && t[b] < |pos| && pos[t[a]] < pos[t[b]]
  }

  /**
   The order is coherent with happens-before (1.10 paragraphs 15 to 18 of ISO C++11):
   write-write, write-read, read-read and read-write.
   */
  ghost predicate CoherentOrder(s: Trace, t: map<nat, nat>, pos: seq<nat>) {
    forall a: nat, b: nat :: SameLocation(s, a, b) && HB(s, a, b) && Known(s, a) && Known(s, b) ==>
      && (s[b].kind.IsRead() ==> Stands(s, a) == s[b].rf.value || Earlier(t, pos, Stands(s, a), s[b].rf.value))
      && (s[b].kind.IsWrite() ==> Earlier(t, pos, Stands(s, a), b))
  }

  /** Every read-modify-write comes right after the write it reads from. */
  ghost predicate AtomicOrder(s: Trace, t: map<nat, nat>, pos: seq<nat>) {
    forall a: nat :: a < |s| && s[a].kind.Rmw? && s[a].rf.Some? ==>
      s[a].rf.value in t && a in t && Adjacent(pos, t[s[a].rf.value], t[a])
  }

  lemma SolutionEdge(s: Trace, M: Edges, t: map<nat, nat>, log: set<Constraint>, n: nat, pos: seq<nat>, a: nat, b: nat)
    requires Linked(s, M, t, log) && Solves(pos, n, log) && (a, b) in M
    ensures Earlier(t, pos, a, b)
  {
    if Before(t[a], t[b]) in log {
      assert Meets(pos, Before(t[a], t[b]));
    } else {
      assert Meets(pos, Constraint.Rmw(t[a], t[b]));
    }
  }

  lemma {:induction false} SolutionReach(s: Trace, M: Edges, t: map<nat, nat>, log: set<Constraint>, n: nat,
                                         pos: seq<nat>, a: nat, b: nat)
    requires Linked(s, M, t, log) && Solves(pos, n, log) && Reach(M, a, b)
    ensures a == b || Earlier(t, pos, a, b)
  {
    var p :| PathFromTo(M, p, a, b);
    var i := 0;
    while i < |p| - 1
      invariant 0 <= i <= |p| - 1
      invariant (i == 0 && p[i] == a) || Earlier(t, pos, a, p[i])
    {
      assert (p[i], p[i + 1]) in M;
      SolutionEdge(s, M, t, log, n, pos, p[i], p[i + 1]);
      i := i + 1;
    }
  }

  lemma SolutionPlus(s: Trace, M: Edges, t: map<nat, nat>, log: set<Constraint>, n: nat, pos: seq<nat>, a: nat, b: nat)
    requires Linked(s, M, t, log) && Solves(pos, n, log) && Plus(M, a, b)
    ensures Earlier(t, pos, a, b)
  {
    var c :| (a, c) in M && Reach(M, c, b);
    SolutionEdge(s, M, t, log, n, pos, a, c);
    SolutionReach(s, M, t, log, n, pos, c, b);
  }

  /** With nothing left to re-check, every solution of the graph's constraints is a coherent order. */
  lemma SolutionCoherent(s: Trace, G: Edges, M: Edges, t: map<nat, nat>, log: set<Constraint>, n: nat, pos: seq<nat>)
    requires Consistent(s, G, M, {}) && Linked(s, M, t, log) && Solves(pos, n, log)
    ensures CoherentOrder(s, t, pos)
  {
    hide Clocked, HB, Reach, Linked, Solves, Earlier, OwnSettled;
    forall a: nat, b: nat | SameLocation(s, a, b) && HB(s, a, b) && Known(s, a) && Known(s, b)
      ensures s[b].kind.IsRead() ==> Stands(s, a) == s[b].rf.value || Earlier(t, pos, Stands(s, a), s[b].rf.value)
      ensures s[b].kind.IsWrite() ==> Earlier(t, pos, Stands(s, a), b)
    {
      PairCoherent(s, M, {}, a, b);
      if s[b].kind.IsRead() {
        SolutionReach(s, M, t, log, n, pos, Stands(s, a), s[b].rf.value);
      }
      if s[b].kind.IsWrite() {
        SolutionPlus(s, M, t, log, n, pos, Stands(s, a), b);
      }
    }
  }

  lemma SolutionAtomic(s: Trace, t: map<nat, nat>, log: set<Constraint>, n: nat, pos: seq<nat>)
    requires RmwConstrained(s, t, log) && Solves(pos, n, log)
    ensures AtomicOrder(s, t, pos)
  {
    forall a: nat | a < |s| && s[a].kind.Rmw? && s[a].rf.Some?
      ensures s[a].rf.value in t && a in t && Adjacent(pos, t[s[a].rf.value], t[a])
    {
      assert Meets(pos, Constraint.Rmw(t[s[a].rf.value], t[a]));
    }
  }

  /** The lookup table only grows, and so does the log: what was linked stays linked. */
  lemma LinkedGrows(s: Trace, M: Edges, t: map<nat, nat>, log: set<Constraint>, t': map<nat, nat>,
                    log': set<Constraint>, a: nat, b: nat)
    requires Linked(s, M, t, log) && (forall k :: k in t ==> k in t' && t'[k] == t[k]) && t'.Keys <= t.Keys + {a, b}
    requires a < |s| && b < |s| && s[a].kind.IsWrite() && s[b].kind.IsWrite() && a in t' && b in t' && log <= log'
    requires Before(t'[a], t'[b]) in log' || Constraint.Rmw(t'[a], t'[b]) in log'
    ensures Linked(s, M + {(a, b)}, t', log')
  {
  }

  lemma SourcedGrows(s: Trace, M: Edges, t: map<nat, nat>, log: set<Constraint>, t': map<nat, nat>, a: nat, b: nat,
                     c: Constraint)
    requires Sourced(s, M, t, log) && (forall k :: k in t ==> k in t' && t'[k] == t[k])
    requires Source(s, M + {(a, b)}, t', c, a, b)
    ensures Sourced(s, M + {(a, b)}, t', log + {c})
  {
    forall d | d in log ensures exists x: nat, y: nat :: Source(s, M + {(a, b)}, t', d, x, y) {
      var x: nat, y: nat :| Source(s, M, t, d, x, y);
      assert Source(s, M + {(a, b)}, t', d, x, y);
    }
  }

  lemma SourcedEvolves(s: Trace, s': Trace, M: Edges, t: map<nat, nat>, log: set<Constraint>)
    requires Sourced(s, M, t, log) && Evolved(s, s')
    ensures Sourced(s', M, t, log)
  {
    forall c | c in log ensures exists a: nat, b: nat :: Source(s', M, t, c, a, b) {
      var a: nat, b: nat :| Source(s, M, t, c, a, b);
      assert c.Rmw? ==> Kept(s[b], s'[b]);
      assert Source(s', M, t, c, a, b);
    }
  }

  lemma RmwConstrainedGrows(s: Trace, t: map<nat, nat>, log: set<Constraint>, t': map<nat, nat>, log': set<Constraint>)
    requires RmwConstrained(s, t, log) && (forall k :: k in t ==> k in t' && t'[k] == t[k]) && log <= log'
    ensures RmwConstrained(s, t', log')
  {
  }
}
