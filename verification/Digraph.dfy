/**
 Directed graphs as finite sets of pairs: paths, reachability, acyclicity and
 linear extensions. Every graph-shaped argument of the project (modification
 order, happens-before, waiting threads, yield priorities) is made here.
 */
module Digraph {

  type Edges = set<(nat, nat)>

  ghost predicate IsPath(E: Edges, p: seq<nat>) {
    |p| > 0 && forall i :: 0 <= i < |p| - 1 ==> (p[i], p[i + 1]) in E
  }

  ghost predicate PathFromTo(E: Edges, p: seq<nat>, a: nat, b: nat) {
    IsPath(E, p) && p[0] == a && p[|p| - 1] == b
  }

  /** `b` is reached from `a` by zero or more edges. */
  ghost predicate Reach(E: Edges, a: nat, b: nat) {
    exists p :: PathFromTo(E, p, a, b)
  }

  /** `b` is reached from `a` by one or more edges. */
  ghost predicate Plus(E: Edges, a: nat, b: nat) {
    exists c :: (a, c) in E && Reach(E, c, b)
  }

  ghost predicate Acyclic(E: Edges) {
    forall a :: !Plus(E, a, a)
  }

  lemma ReachRefl(E: Edges, a: nat)
    ensures Reach(E, a, a)
  {
    assert PathFromTo(E, [a], a, a);
  }

  lemma ReachTrans(E: Edges, a: nat, b: nat, c: nat)
    requires Reach(E, a, b) && Reach(E, b, c)
    ensures Reach(E, a, c)
  {
    var p :| PathFromTo(E, p, a, b);
    var q :| PathFromTo(E, q, b, c);
    var r := p + q[1..];
    assert forall i :: 0 <= i < |r| - 1 ==> (r[i], r[i + 1]) in E by {
      forall i | 0 <= i < |r| - 1 ensures (r[i], r[i + 1]) in E {
        if i >= |p| - 1 {
          assert r[i] == q[i - |p| + 1] && r[i + 1] == q[i - |p| + 2];
        }
      }
    }
    assert PathFromTo(E, r, a, c);
  }

  lemma ReachEdge(E: Edges, a: nat, b: nat)
    requires (a, b) in E
    ensures Reach(E, a, b)
  {
    assert PathFromTo(E, [a, b], a, b);
  }

  lemma PlusReach(E: Edges, a: nat, b: nat)
    requires Plus(E, a, b)
    ensures Reach(E, a, b)
  {
    var c :| (a, c) in E && Reach(E, c, b);
    ReachEdge(E, a, c);
    ReachTrans(E, a, c, b);
  }

  /** Reachability is equality or a non-empty path. */
  lemma ReachCases(E: Edges, a: nat, b: nat)
    requires Reach(E, a, b)
    ensures a == b || Plus(E, a, b)
  {
    var p :| PathFromTo(E, p, a, b);
    if |p| > 1 {
      assert PathFromTo(E, p[1..], p[1], b);
    }
  }

  lemma PlusThenReach(E: Edges, a: nat, b: nat, c: nat)
    requires Plus(E, a, b) && Reach(E, b, c)
    ensures Plus(E, a, c)
  {
    var m :| (a, m) in E && Reach(E, m, b);
    ReachTrans(E, m, b, c);
  }

  lemma ReachThenPlus(E: Edges, a: nat, b: nat, c: nat)
    requires Reach(E, a, b) && Plus(E, b, c)
    ensures Plus(E, a, c)
  {
    ReachCases(E, a, b);
    if a != b {
      PlusReach(E, b, c);
      PlusThenReach(E, a, b, c);
    }
  }

  lemma EdgePlus(E: Edges, a: nat, b: nat)
    requires (a, b) in E
    ensures Plus(E, a, b)
  {
    ReachRefl(E, b);
  }

  lemma ReachMono(E: Edges, F: Edges, a: nat, b: nat)
    requires E <= F && Reach(E, a, b)
    ensures Reach(F, a, b)
  {
    var p :| PathFromTo(E, p, a, b);
    assert PathFromTo(F, p, a, b);
  }

  lemma PlusMono(E: Edges, F: Edges, a: nat, b: nat)
    requires E <= F && Plus(E, a, b)
    ensures Plus(F, a, b)
  {
    var c :| (a, c) in E && Reach(E, c, b);
    ReachMono(E, F, c, b);
  }

  lemma AcyclicMono(E: Edges, F: Edges)
    requires E <= F && Acyclic(F)
    ensures Acyclic(E)
  {
    forall a: nat ensures !Plus(E, a, a) {
      if Plus(E, a, a) {
        PlusMono(E, F, a, a);
      }
    }
  }

  /** A set that contains `a` and is closed under edges contains everything reached from `a`. */
  lemma {:induction false} ClosedReach(E: Edges, S: set<nat>, a: nat, b: nat)
    requires a in S && forall x, y :: x in S && (x, y) in E ==> y in S
    requires Reach(E, a, b)
    ensures b in S
  {
    var p :| PathFromTo(E, p, a, b);
    var i := 0;
    while i < |p| - 1
      invariant 0 <= i <= |p| - 1
      invariant p[i] in S
    {
      assert (p[i], p[i + 1]) in E;
      i := i + 1;
    }
  }

  /** What one more edge adds to reachability. */
  lemma ReachAddEdge(E: Edges, a: nat, b: nat, x: nat, y: nat)
    ensures Reach(E + {(a, b)}, x, y) <==> Reach(E, x, y) || (Reach(E, x, a) && Reach(E, b, y))
  {
    var F := E + {(a, b)};
    if Reach(F, x, y) {
      var p :| PathFromTo(F, p, x, y);
      PathAddEdge(E, a, b, p);
    }
    if Reach(E, x, y) {
      ReachMono(E, F, x, y);
    }
    if Reach(E, x, a) && Reach(E, b, y) {
      ReachMono(E, F, x, a);
      ReachMono(E, F, b, y);
      ReachEdge(F, a, b);
      ReachTrans(F, x, a, b);
      ReachTrans(F, x, b, y);
    }
  }

  lemma {:induction false} PathAddEdge(E: Edges, a: nat, b: nat, p: seq<nat>)
    requires IsPath(E + {(a, b)}, p)
    ensures var x, y := p[0], p[|p| - 1];
            Reach(E, x, y) || (Reach(E, x, a) && Reach(E, b, y))
    decreases |p|
  {
    var x, y := p[0], p[|p| - 1];
    if |p| == 1 {
      ReachRefl(E, x);
    } else {
      assert IsPath(E + {(a, b)}, p[1..]) by {
        forall i | 0 <= i < |p[1..]| - 1 ensures (p[1..][i], p[1..][i + 1]) in E + {(a, b)} {
          assert p[1..][i] == p[i + 1] && p[1..][i + 1] == p[i + 2];
        }
      }
      PathAddEdge(E, a, b, p[1..]);
      assert (p[0], p[1]) in E + {(a, b)};
      if (p[0], p[1]) in E {
        ReachEdge(E, p[0], p[1]);
        if Reach(E, p[1], y) {
          ReachTrans(E, x, p[1], y);
        } else {
          ReachTrans(E, x, p[1], a);
        }
      } else {
        ReachRefl(E, a);
      }
    }
  }

  /** One more edge closes a cycle exactly when its target already reaches its source. */
  lemma AcyclicAddEdge(E: Edges, a: nat, b: nat)
    requires Acyclic(E)
    ensures Acyclic(E + {(a, b)}) <==> !Reach(E, b, a)
    ensures Reach(E + {(a, b)}, b, a) <==> Reach(E, b, a)
  {
    var F := E + {(a, b)};
    ReachAddEdge(E, a, b, b, a);
    if Reach(E, b, a) {
      ReachMono(E, F, b, a);
      assert (a, b) in F;
      assert Plus(F, a, a);
    } else {
      forall x: nat ensures !Plus(F, x, x) {
        if Plus(F, x, x) {
          var c :| (x, c) in F && Reach(F, c, x);
          ReachAddEdge(E, a, b, c, x);
          if (x, c) in E {
            assert !Reach(E, c, x) by {
              if Reach(E, c, x) { assert Plus(E, x, x); }
            }
            ReachEdge(E, x, c);
            ReachTrans(E, b, x, c);
            ReachTrans(E, b, c, a);
          }
        }
      }
    }
  }

  /** Edges out of a node that nothing points to close no cycle. */
  lemma AcyclicAddFromSource(E: Edges, a: nat, b: nat)
    requires Acyclic(E) && a != b && forall x :: (x, a) !in E
    ensures Acyclic(E + {(a, b)})
  {
    AcyclicAddEdge(E, a, b);
    if Reach(E, b, a) {
      ReachCases(E, b, a);
      var c := PlusLast(E, b, a);
    }
  }

  /** The last edge of a non-empty path. */
  lemma PlusLast(E: Edges, a: nat, b: nat) returns (c: nat)
    requires Plus(E, a, b)
    ensures Reach(E, a, c) && (c, b) in E
  {
    var m :| (a, m) in E && Reach(E, m, b);
    var p :| PathFromTo(E, p, m, b);
    if |p| == 1 {
      c := a;
      ReachRefl(E, a);
    } else {
      c := p[|p| - 2];
      assert (p[|p| - 2], p[|p| - 2 + 1]) in E;
      assert PathFromTo(E, p[..|p| - 1], m, c);
      ReachEdge(E, a, m);
      ReachTrans(E, a, m, c);
    }
  }

  /** A finite non-empty set has a member that no member reaches. */
  lemma {:induction false} MinimalMember(E: Edges, S: set<nat>) returns (m: nat)
    requires Acyclic(E) && S != {}
    ensures m in S && forall x :: x in S ==> !Plus(E, x, m)
    decreases |S|
  {
    var s :| s in S;
    var below := set x | x in S && Plus(E, x, s);
    if below == {} {
      m := s;
      assert forall x :: x in S && Plus(E, x, m) ==> x in below;
    } else {
      assert s !in below;
      assert below <= S - {s};
      CardinalityLess(below, S, s);
      m := MinimalMember(E, below);
      forall x | x in S ensures !Plus(E, x, m) {
        if Plus(E, x, m) {
          PlusReach(E, m, s);
          PlusThenReach(E, x, m, s);
        }
      }
    }
  }

  lemma CardinalityLess(A: set<nat>, B: set<nat>, s: nat)
    requires A <= B - {s} && s in B
    ensures |A| < |B|
  {
    SubsetCardinality(A, B - {s});
  }

  lemma {:induction false} SubsetCardinality<T>(A: set<T>, B: set<T>)
    requires A <= B
    ensures |A| <= |B|
  {
    assert A + (B - A) == B;
  }

  /** The numbers below `n`. */
  function Below(n: nat): (s: set<nat>)
    ensures forall x: nat :: x in s <==> x < n
  {
    if n == 0 then {} else Below(n - 1) + {n - 1}
  }

  ghost predicate Within(E: Edges, n: nat) {
    forall a, b :: (a, b) in E ==> a < n && b < n
  }

  /** A total order of the nodes below |pos|: distinct positions. */
  ghost predicate IsOrder(pos: seq<nat>) {
    forall i, j :: 0 <= i < j < |pos| ==> pos[i] != pos[j]
  }

  ghost predicate Respects(pos: seq<nat>, E: Edges) {
    forall a, b :: (a, b) in E ==> a < |pos| && b < |pos| && pos[a] < pos[b]
  }

  /** Every finite acyclic graph has a linear extension. */
  lemma LinearExtension(E: Edges, n: nat) returns (pos: seq<nat>)
    requires Acyclic(E) && Within(E, n)
    ensures |pos| == n && IsOrder(pos) && Respects(pos, E)
  {
    var at := Numbering(E, Below(n), 0);
    pos := seq(n, i requires 0 <= i < n => assert i in Below(n); at[i]);
    forall i, j | 0 <= i < j < |pos| ensures pos[i] != pos[j] {
      assert i in at && j in at;
    }
    forall a, b | (a, b) in E ensures a < |pos| && b < |pos| && pos[a] < pos[b] {
      assert a in at && b in at;
    }
  }

  /** Numbers the members of S from `start` on, sources first. */
  lemma {:induction false} Numbering(E: Edges, S: set<nat>, start: nat) returns (at: map<nat, nat>)
    requires Acyclic(E)
    ensures at.Keys == S
    ensures forall x :: x in S ==> at[x] >= start
    ensures forall x, y :: x in S && y in S && x != y ==> at[x] != at[y]
    ensures forall x, y :: x in S && y in S && (x, y) in E ==> at[x] < at[y]
    decreases |S|
  {
    if S == {} {
      at := map[];
    } else {
      var m := MinimalMember(E, S);
      var rest := Numbering(E, S - {m}, start + 1);
      at := rest[m := start];
      forall x, y | x in S && y in S && (x, y) in E ensures at[x] < at[y] {
        EdgePlus(E, x, y);
      }
    }
  }

  /** A linear extension also extends reachability. */
  lemma {:induction false} RespectsPlus(pos: seq<nat>, E: Edges, a: nat, b: nat)
    requires Respects(pos, E) && Plus(E, a, b)
    ensures a < |pos| && b < |pos| && pos[a] < pos[b]
  {
    var c :| (a, c) in E && Reach(E, c, b);
    var p :| PathFromTo(E, p, c, b);
    var i := 0;
    while i < |p| - 1
      invariant 0 <= i <= |p| - 1
      invariant p[i] < |pos| && pos[a] < pos[p[i]]
    {
      assert (p[i], p[i + 1]) in E;
      i := i + 1;
    }
  }

  lemma RespectsReach(pos: seq<nat>, E: Edges, a: nat, b: nat)
    requires Respects(pos, E) && Reach(E, a, b) && a != b
    ensures a < |pos| && b < |pos| && pos[a] < pos[b]
  {
    ReachCases(E, a, b);
    RespectsPlus(pos, E, a, b);
  }

  /** Only acyclic graphs have linear extensions. */
  lemma RespectsAcyclic(pos: seq<nat>, E: Edges)
    requires Respects(pos, E)
    ensures Acyclic(E)
  {
    forall a: nat ensures !Plus(E, a, a) {
      if Plus(E, a, a) {
        RespectsPlus(pos, E, a, a);
      }
    }
  }

  /** Edges into a node that none leave close no cycle. */
  lemma AcyclicIntoSink(E: Edges, F: Edges, c: nat)
    requires Acyclic(E) && (forall x :: (c, x) !in F) && forall x, y :: (x, y) in F && y != c ==> (x, y) in E
    ensures Acyclic(F)
  {
    forall a: nat ensures !Plus(F, a, a) {
      if Plus(F, a, a) {
        SinkPlus(E, F, c, a);
      }
    }
  }

  lemma SinkPlus(E: Edges, F: Edges, c: nat, a: nat)
    requires Plus(F, a, a) && (forall x :: (c, x) !in F) && forall x, y :: (x, y) in F && y != c ==> (x, y) in E
    ensures Plus(E, a, a)
  {
    var b :| (a, b) in F && Reach(F, b, a);
    var p :| PathFromTo(F, p, b, a);
    forall i | 0 <= i < |p| - 1 ensures (p[i], p[i + 1]) in E {
      assert (p[i], p[i + 1]) in F;
      if i + 1 < |p| - 1 {
        assert (p[i + 1], p[i + 2]) in F;
      }
    }
    assert PathFromTo(E, p, b, a);
    if |p| > 1 {
      assert (p[0], p[1]) in F;
    }
  }
}
