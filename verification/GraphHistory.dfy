/**
 Growth and undoing of the modification-order graph: new isolated nodes change
 nothing that was known, and popping the edges named by the rollback vector
 leads back to the committed graph.
 */
module GraphHistory {
  import opened Digraph
  import opened Optional
  import opened OrderConstraints

  // ------------------------------------------------------------------
  // A new node
  // ------------------------------------------------------------------

  lemma GrowSets(ns: Nodes, p: bool)
    ensures EdgeSet(ns + [Isolated(p)]) == EdgeSet(ns)
    ensures RmwSet(ns + [Isolated(p)]) == RmwSet(ns)
  {
    var ns' := ns + [Isolated(p)];
    forall x: nat, y: nat ensures (x, y) in EdgeSet(ns') <==> (x, y) in EdgeSet(ns) {
    }
    forall x: nat, y: nat ensures (x, y) in RmwSet(ns') <==> (x, y) in RmwSet(ns) {
    }
  }

  lemma GrowWellFormed(ns: Nodes, rank: seq<nat>, p: bool)
    requires WellFormed(ns, rank)
    ensures WellFormed(ns + [Isolated(p)], rank + [0])
  {
  }

  lemma GrowAnchored(ns: Nodes, p: bool)
    requires Anchored(ns)
    ensures Anchored(ns + [Isolated(p)])
  {
    GrowSets(ns, p);
  }

  /** An order of the grown graph restricts to one of the old graph. */
  lemma GrowSolves(pos: seq<nat>, n: nat, log: set<Constraint>, ns: Nodes)
    requires n == |ns| && Solves(pos, n + 1, log) && ConstraintsWithin(log, n)
    ensures Solves(pos[..n], n, log)
  {
    forall c | c in log ensures Meets(pos[..n], c) {
      assert Meets(pos, c);
      match c
      case Before(a, b) =>
      case Rmw(f, r) =>
        forall x | 0 <= x < n ensures !(pos[..n][f] < pos[..n][x] < pos[..n][r]) {
          assert !(pos[f] < pos[x] < pos[r]);
        }
    }
  }

  ghost predicate ConstraintsWithin(log: set<Constraint>, n: nat) {
    && (forall a: nat, b: nat :: Before(a, b) in log ==> a < n && b < n)
    && (forall f: nat, r: nat :: Rmw(f, r) in log ==> f < n && r < n)
  }

  lemma RepresentedWithin(ns: Nodes, log: set<Constraint>)
    requires Mirrored(ns) && Represents(ns, log)
    ensures ConstraintsWithin(log, |ns|)
  {
    forall a: nat, b: nat | Before(a, b) in log ensures a < |ns| && b < |ns| {
      assert (a, b) in EdgeSet(ns);
    }
    forall f: nat, r: nat | Rmw(f, r) in log ensures f < |ns| && r < |ns| {
      assert (f, r) in EdgeSet(ns);
    }
  }

  lemma GrowTracks(ns: Nodes, rank: seq<nat>, log: set<Constraint>, p: bool)
    requires Tracks(ns, rank, log)
    ensures Tracks(ns + [Isolated(p)], rank + [0], log)
  {
    var ns' := ns + [Isolated(p)];
    GrowSets(ns, p);
    GrowWellFormed(ns, rank, p);
    RepresentedWithin(ns, log);
    assert Represents(ns', log) by {
      forall f: nat, r: nat | Rmw(f, r) in log ensures ns'[f] == ns[f] {
        assert (f, r) in EdgeSet(ns);
      }
    }
    forall pos | Solves(pos, |ns'|, log) ensures Respects(pos, EdgeSet(ns')) {
      GrowSolves(pos, |ns|, log, ns);
      assert Respects(pos[..|ns|], EdgeSet(ns));
    }
    assert Chained(RmwSet(ns'), EdgeSet(ns'), rank + [0]);
  }

  // ------------------------------------------------------------------
  // Undoing
  // ------------------------------------------------------------------

  /** First occurrence removed: vector_remove_node. */
  function Remove(s: seq<nat>, x: nat): (r: seq<nat>)
    ensures x !in s ==> r == s
  {
    if s == [] then []
    else if s[0] == x then s[1..]
    else [s[0]] + Remove(s[1..], x)
  }

  lemma {:induction false} RemoveAt(s: seq<nat>, x: nat, k: nat)
    requires k < |s| && s[k] == x && forall i :: 0 <= i < k ==> s[i] != x
    ensures Remove(s, x) == s[..k] + s[k + 1..]
  {
    if k > 0 {
      RemoveAt(s[1..], x, k - 1);
      assert s[..k] == [s[0]] + s[1..][..k - 1];
    }
  }

  /** Removing from a duplicate-free list removes exactly that element. */
  lemma RemoveMembers(s: seq<nat>, x: nat)
    requires NoDup(s)
    ensures NoDup(Remove(s, x))
    ensures forall y :: y in Remove(s, x) <==> y in s && y != x
  {
    if x in s {
      var k :| 0 <= k < |s| && s[k] == x;
      RemoveAt(s, x, k);
      forall y ensures y in Remove(s, x) <==> y in s && y != x {
        if y in s && y != x {
          var j :| 0 <= j < |s| && s[j] == y;
          assert Remove(s, x)[if j < k then j else j - 1] == y;
        }
      }
    }
  }

  /** Removing what is not in a prefix keeps the prefix. */
  lemma RemoveKeepsPrefix(c: seq<nat>, s: seq<nat>, x: nat)
    requires c <= s && x !in c && NoDup(s)
    ensures c <= Remove(s, x)
  {
    assert forall i :: 0 <= i < |c| ==> s[i] == c[i] != x;
    if x in s {
      var k :| 0 <= k < |s| && s[k] == x;
      RemoveAt(s, x, k);
    }
  }

  /** CycleNode::removeEdge on a node that has edges. */
  function PopEdge(ns: Nodes, a: nat): (r: Nodes)
    requires a < |ns| && ns[a].edges != [] && ns[a].edges[|ns[a].edges| - 1] < |ns|
    ensures var t := ns[a].edges[|ns[a].edges| - 1];
            && |r| == |ns|
            && (forall i :: 0 <= i < |ns| ==> r[i].rmw == ns[i].rmw && r[i].isPromise == ns[i].isPromise)
            && (forall i :: 0 <= i < |ns| ==>
                  r[i].edges == if i == a then ns[a].edges[..|ns[a].edges| - 1] else ns[i].edges)
            && (forall i :: 0 <= i < |ns| ==> r[i].back == if i == t then Remove(ns[t].back, a) else ns[i].back)
  {
    var t := ns[a].edges[|ns[a].edges| - 1];
    var ns1 := ns[a := ns[a].(edges := ns[a].edges[..|ns[a].edges| - 1])];
    ns1[t := ns1[t].(back := Remove(ns1[t].back, a))]
  }

  /** Dropping the last of a duplicate-free list removes exactly that element. */
  lemma LastMembers(s: seq<nat>)
    requires NoDup(s) && s != []
    ensures NoDup(s[..|s| - 1])
    ensures forall y :: y in s[..|s| - 1] <==> y in s && y != s[|s| - 1]
  {
    assert s == s[..|s| - 1] + [s[|s| - 1]];
  }

  /** Removing one edge from both lists. */
  lemma MirroredMinus(ns: Nodes, r: Nodes, a: nat, t: nat)
    requires Mirrored(ns) && |r| == |ns| && forall x :: 0 <= x < |r| ==> NoDup(r[x].edges) && NoDup(r[x].back)
    requires forall x: nat, y: nat :: x < |r| ==> (y in r[x].edges <==> y in ns[x].edges && !(x == a && y == t))
    requires forall x: nat, y: nat :: y < |r| ==> (x in r[y].back <==> x in ns[y].back && !(x == a && y == t))
    ensures Mirrored(r)
  {
    hide NoDup;
  }

  lemma PopEdgeMirrored(ns: Nodes, a: nat)
    requires Mirrored(ns) && a < |ns| && ns[a].edges != []
    ensures ns[a].edges[|ns[a].edges| - 1] in ns[a].edges
    ensures Mirrored(PopEdge(ns, a))
  {
    var es := ns[a].edges;
    var t := es[|es| - 1];
    assert t in es;
    var r := PopEdge(ns, a);
    RemoveMembers(ns[t].back, a);
    LastMembers(es);
    hide PopEdge, NoDup, Mirrored;
    MirroredMinus(ns, r, a, t);
  }

  /** The pops named by `roll`, and the pointers cleared by `rmwRoll`, lead from `ns` back to `cs`. */
  ghost predicate Extends(cs: Nodes, ns: Nodes, roll: seq<nat>, rmwRoll: seq<nat>) {
    && |cs| == |ns| && Mirrored(cs) && Mirrored(ns)
    && Indices(roll, |ns|) && Indices(rmwRoll, |ns|)
    && (forall i :: 0 <= i < |ns| ==> NodeExtends(cs[i], ns[i], multiset(roll)[i], i in rmwRoll))
  }

  ghost predicate NodeExtends(c: Node, n: Node, extra: nat, pointed: bool) {
    && c.edges <= n.edges && |n.edges| == |c.edges| + extra
    && c.back <= n.back
    && c.isPromise == n.isPromise
    && (if pointed then c.rmw.None? else c.rmw == n.rmw)
  }

  lemma ExtendsRefl(ns: Nodes)
    requires Mirrored(ns)
    ensures Extends(ns, ns, [], [])
  {
  }

  lemma ExtendsGrow(cs: Nodes, ns: Nodes, roll: seq<nat>, rmwRoll: seq<nat>, p: bool)
    requires Extends(cs, ns, roll, rmwRoll)
    ensures Extends(cs + [Isolated(p)], ns + [Isolated(p)], roll, rmwRoll)
  {
    assert |ns| !in roll && |ns| !in rmwRoll;
  }

  lemma ExtendsPush(cs: Nodes, ns: Nodes, roll: seq<nat>, rmwRoll: seq<nat>, a: nat, b: nat)
    requires Extends(cs, ns, roll, rmwRoll) && a < |ns| && b < |ns| && b !in ns[a].edges
    ensures Extends(cs, PushEdge(ns, a, b), roll + [a], rmwRoll)
  {
    PushEdgeMirrored(ns, a, b);
    var r := PushEdge(ns, a, b);
    forall i | 0 <= i < |r| ensures NodeExtends(cs[i], r[i], multiset(roll + [a])[i], i in rmwRoll) {
      assert NodeExtends(cs[i], ns[i], multiset(roll)[i], i in rmwRoll);
      assert multiset(roll + [a]) == multiset(roll) + multiset{a};
    }
  }

  lemma ExtendsPoint(cs: Nodes, ns: Nodes, roll: seq<nat>, rmwRoll: seq<nat>, f: nat, r: nat)
    requires Extends(cs, ns, roll, rmwRoll) && f < |ns| && ns[f].rmw.None?
    ensures Extends(cs, SetRmw(ns, f, r), roll, rmwRoll + [f])
  {
    var ns' := SetRmw(ns, f, r);
    MirroredSame(ns, ns');
    hide Mirrored;
    forall i | 0 <= i < |ns'| ensures NodeExtends(cs[i], ns'[i], multiset(roll)[i], i in rmwRoll + [f]) {
      assert NodeExtends(cs[i], ns[i], multiset(roll)[i], i in rmwRoll);
      assert i in rmwRoll + [f] <==> i in rmwRoll || i == f;
    }
  }

  lemma ExtendsPop(cs: Nodes, ns: Nodes, roll: seq<nat>, rmwRoll: seq<nat>)
    requires Extends(cs, ns, roll, rmwRoll) && roll != []
    ensures var a := roll[0];
            && a < |ns| && ns[a].edges != [] && ns[a].edges[|ns[a].edges| - 1] < |ns|
            && Extends(cs, PopEdge(ns, a), roll[1..], rmwRoll)
  {
    hide NodeExtends, PopEdge, Mirrored;
    var a := roll[0];
    RollHead(roll);
    PopRoom(cs[a], ns[a], multiset(roll)[a], a in rmwRoll);
    LastInRange(ns, a);
    PopEdgeMirrored(ns, a);
    NodesPop(cs, ns, multiset(roll), multiset(roll[1..]), a, rmwRoll);
  }

  lemma LastInRange(ns: Nodes, a: nat)
    requires Mirrored(ns) && a < |ns| && ns[a].edges != []
    ensures ns[a].edges[|ns[a].edges| - 1] < |ns|
  {
    assert ns[a].edges[|ns[a].edges| - 1] in ns[a].edges;
  }

  lemma NodesPop(cs: Nodes, ns: Nodes, m: multiset<nat>, m': multiset<nat>, a: nat, rmwRoll: seq<nat>)
    requires Mirrored(cs) && Mirrored(ns) && |cs| == |ns| && a < |ns|
    requires cs[a].edges < ns[a].edges && ns[a].edges[|ns[a].edges| - 1] < |ns|
    requires m == multiset{a} + m' && forall i :: 0 <= i < |ns| ==> NodeExtends(cs[i], ns[i], m[i], i in rmwRoll)
    ensures forall i :: 0 <= i < |ns| ==> NodeExtends(cs[i], PopEdge(ns, a)[i], m'[i], i in rmwRoll)
  {
    hide NodeExtends, PopEdge, Mirrored;
    forall i | 0 <= i < |ns| ensures NodeExtends(cs[i], PopEdge(ns, a)[i], m'[i], i in rmwRoll) {
      PopNode(cs, ns, m, m', a, i, i in rmwRoll);
    }
  }

  lemma RollHead(roll: seq<nat>)
    requires roll != []
    ensures multiset(roll) == multiset{roll[0]} + multiset(roll[1..])
  {
    assert roll == [roll[0]] + roll[1..];
  }

  /** A node with an entry in the rollback vector has an edge that was not committed. */
  lemma PopRoom(c: Node, n: Node, extra: nat, pointed: bool)
    requires NodeExtends(c, n, extra, pointed) && extra > 0
    ensures c.edges < n.edges && n.edges != []
  {
  }

  lemma PopNode(cs: Nodes, ns: Nodes, m: multiset<nat>, m': multiset<nat>, a: nat, i: nat, pointed: bool)
    requires Mirrored(cs) && Mirrored(ns) && |cs| == |ns| && a < |ns| && i < |ns|
    requires cs[a].edges < ns[a].edges && ns[a].edges[|ns[a].edges| - 1] < |ns|
    requires m == multiset{a} + m' && NodeExtends(cs[i], ns[i], m[i], pointed)
    ensures NodeExtends(cs[i], PopEdge(ns, a)[i], m'[i], pointed)
  {
    PopBack(cs, ns, a, i);
  }

  lemma PopBack(cs: Nodes, ns: Nodes, a: nat, i: nat)
    requires Mirrored(cs) && Mirrored(ns) && |cs| == |ns| && a < |ns| && i < |ns|
    requires cs[a].edges < ns[a].edges && cs[i].back <= ns[i].back
    ensures ns[a].edges[|ns[a].edges| - 1] < |ns|
    ensures cs[i].back <= PopEdge(ns, a)[i].back
  {
    PopEdgeMirrored(ns, a);
    var t := ns[a].edges[|ns[a].edges| - 1];
    PoppedIsNew(cs, ns, a, t);
    if i == t {
      RemoveKeepsPrefix(cs[t].back, ns[t].back, a);
    }
  }

  /** An edge beyond the committed prefix was not committed, so it has no committed back edge. */
  lemma PoppedIsNew(cs: Nodes, ns: Nodes, a: nat, t: nat)
    requires Mirrored(cs) && Mirrored(ns) && |cs| == |ns| && a < |ns| && t < |ns|
    requires cs[a].edges < ns[a].edges && ns[a].edges[|ns[a].edges| - 1] == t
    ensures a !in cs[t].back
  {
    assert t !in cs[a].edges;
  }

  lemma PrefixOfAll(c: seq<nat>, s: seq<nat>)
    requires c <= s && NoDup(s) && forall x :: x in s ==> x in c
    ensures c == s
  {
    if |c| < |s| {
      IndexInPrefix(c, s, |c|);
    }
  }

  lemma IndexInPrefix(c: seq<nat>, s: seq<nat>, k: nat)
    requires c <= s && NoDup(s) && k < |s| && forall x :: x in s ==> x in c
    ensures k < |c|
  {
    assert s[k] in s;
    var j :| 0 <= j < |c| && c[j] == s[k];
    assert s[j] == s[k];
  }

  /** With nothing left to pop or clear, the committed graph is back exactly. */
  lemma ExtendsNothing(cs: Nodes, ns: Nodes)
    requires Extends(cs, ns, [], [])
    ensures ns == cs
  {
    forall i | 0 <= i < |ns|
      ensures ns[i].edges == cs[i].edges && ns[i].rmw == cs[i].rmw && ns[i].isPromise == cs[i].isPromise
    {
      assert NodeExtends(cs[i], ns[i], multiset([])[i], i in []);
    }
    forall i | 0 <= i < |ns| ensures ns[i].back == cs[i].back {
      assert NodeExtends(cs[i], ns[i], multiset([])[i], i in []);
      forall x | x in ns[i].back ensures x in cs[i].back {
        assert i in ns[x].edges;
      }
      PrefixOfAll(cs[i].back, ns[i].back);
    }
  }

  /** Clearing a pointer named by the second rollback vector. */
  lemma ExtendsClear(cs: Nodes, ns: Nodes, rmwRoll: seq<nat>)
    requires Extends(cs, ns, [], rmwRoll) && rmwRoll != []
    ensures var f := rmwRoll[0];
            f < |ns| && Extends(cs, ns[f := ns[f].(rmw := None)], [], rmwRoll[1..])
  {
    var f := rmwRoll[0];
    var ns' := ns[f := ns[f].(rmw := None)];
    assert forall i :: 0 <= i < |ns| ==> ns'[i].edges == ns[i].edges && ns'[i].back == ns[i].back;
    forall i | 0 <= i < |ns'| ensures NodeExtends(cs[i], ns'[i], multiset([])[i], i in rmwRoll[1..]) {
      assert NodeExtends(cs[i], ns[i], multiset([])[i], i in rmwRoll);
      assert rmwRoll == [f] + rmwRoll[1..];
    }
  }
}
