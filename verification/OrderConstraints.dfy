/**
 The nodes of the modification-order graph as values, the ordering constraints
 its clients ask for, and the proof that the graph decides them: a graph built
 from a set of constraints is acyclic exactly when a total order of its nodes
 meets them all.
 */
module OrderConstraints {
  import opened Digraph
  import opened Optional

  /** One CycleNode. Nodes refer to each other by their index in the node table. */
  datatype Node = Node(edges: seq<nat>, back: seq<nat>, rmw: Option<nat>, isPromise: bool)

  type Nodes = seq<Node>

  /** What a client asks of the order of writes. */
  datatype Constraint =
    | Before(a: nat, b: nat)  // `a` is ordered before `b`
    | Rmw(f: nat, r: nat)     // `r` is a read-modify-write that reads from `f`

  // ------------------------------------------------------------------
  // Meaning of constraints
  // ------------------------------------------------------------------

  /** `r` comes right after `f`: nothing lies between them. */
  ghost predicate Adjacent(pos: seq<nat>, f: nat, r: nat) {
    && f < |pos| && r < |pos| && pos[f] < pos[r]
    && forall x :: 0 <= x < |pos| ==> !(pos[f] < pos[x] < pos[r])
  }

  ghost predicate Meets(pos: seq<nat>, c: Constraint) {
    match c
    case Before(a, b) => a < |pos| && b < |pos| && pos[a] < pos[b]
    case Rmw(f, r) => Adjacent(pos, f, r)
  }

  /** A total order of `n` nodes that meets every constraint. */
  ghost predicate Solves(pos: seq<nat>, n: nat, log: set<Constraint>) {
    |pos| == n && IsOrder(pos) && forall c :: c in log ==> Meets(pos, c)
  }

  ghost predicate Satisfiable(n: nat, log: set<Constraint>) {
    exists pos :: Solves(pos, n, log)
  }

  /** Two read-modify-writes read from one write. */
  ghost predicate Contested(log: set<Constraint>) {
    exists f, r, r' :: Rmw(f, r) in log && Rmw(f, r') in log && r != r'
  }

  // ------------------------------------------------------------------
  // Graphs as values
  // ------------------------------------------------------------------

  function EdgeSet(ns: Nodes): (E: Edges)
    ensures forall a: nat, b: nat :: (a, b) in E <==> a < |ns| && b in ns[a].edges
  {
    set a: nat, b: nat | a < |ns| && b in ns[a].edges :: (a, b)
  }

  function RmwSet(ns: Nodes): (E: Edges)
    ensures forall a: nat, b: nat :: (a, b) in E <==> a < |ns| && ns[a].rmw == Some(b)
  {
    set a: nat | a < |ns| && ns[a].rmw.Some? :: (a, ns[a].rmw.value)
  }

  ghost predicate NoDup(s: seq<nat>) {
    forall i, j :: 0 <= i < j < |s| ==> s[i] != s[j]
  }

  /** Edge lists name nodes, hold no duplicates, and mirror the back-edge lists. */
  ghost predicate Mirrored(ns: Nodes) {
    && (forall a, b :: 0 <= a < |ns| && b in ns[a].edges ==> b < |ns|)
    && (forall a, b :: 0 <= a < |ns| && b in ns[a].back ==> b < |ns|)
    && (forall a, b :: 0 <= a < |ns| && 0 <= b < |ns| ==> (b in ns[a].edges <==> a in ns[b].back))
    && (forall a :: 0 <= a < |ns| ==> NoDup(ns[a].edges) && NoDup(ns[a].back))
  }

  /** Being mirrored is a matter of the edge lists alone. */
  lemma MirroredSame(ns: Nodes, r: Nodes)
    requires Mirrored(ns) && |r| == |ns| && forall i :: 0 <= i < |ns| ==>
               r[i].edges == ns[i].edges && r[i].back == ns[i].back
    ensures Mirrored(r)
  {
  }

  /** Read-modify-write pointers name write nodes of strictly larger rank, so every chain ends. */
  ghost predicate Ranked(ns: Nodes, rank: seq<nat>) {
    && |rank| == |ns|
    && forall a :: 0 <= a < |ns| && ns[a].rmw.Some? ==>
                     && ns[a].rmw.value < |ns|
                     && rank[a] < rank[ns[a].rmw.value]
                     && !ns[ns[a].rmw.value].isPromise
  }

  ghost predicate WellFormed(ns: Nodes, rank: seq<nat>) {
    Mirrored(ns) && Ranked(ns, rank)
  }

  function Isolated(p: bool): (n: Node)
    ensures n.isPromise == p && n.back == [] && n.rmw.None?
  {
    Node([], [], None, p)
  }

  lemma RankedTarget(ns: Nodes, rank: seq<nat>, a: nat)
    requires Ranked(ns, rank) && a < |ns| && ns[a].rmw.Some?
    ensures ns[a].rmw.value < |ns|
  {
  }

  /** CycleNode::addEdge on a new edge. */
  function PushEdge(ns: Nodes, a: nat, b: nat): (r: Nodes)
    requires a < |ns| && b < |ns|
    ensures |r| == |ns|
    ensures forall i :: 0 <= i < |ns| ==> r[i].rmw == ns[i].rmw && r[i].isPromise == ns[i].isPromise
    ensures forall i :: 0 <= i < |ns| ==> r[i].edges == if i == a then ns[a].edges + [b] else ns[i].edges
    ensures forall i :: 0 <= i < |ns| ==> r[i].back == if i == b then ns[b].back + [a] else ns[i].back
  {
    var ns1 := ns[a := ns[a].(edges := ns[a].edges + [b])];
    ns1[b := ns1[b].(back := ns1[b].back + [a])]
  }

  lemma PushEdgeKeeps(ns: Nodes, rank: seq<nat>, a: nat, b: nat)
    requires WellFormed(ns, rank) && a < |ns| && b < |ns| && b !in ns[a].edges
    ensures WellFormed(PushEdge(ns, a, b), rank)
    ensures EdgeSet(PushEdge(ns, a, b)) == EdgeSet(ns) + {(a, b)}
    ensures RmwSet(PushEdge(ns, a, b)) == RmwSet(ns)
  {
    PushEdgeMirrored(ns, a, b);
    PushEdgeSets(ns, a, b);
  }

  lemma PushedMembers(s: seq<nat>, x: nat)
    requires NoDup(s) && x !in s
    ensures NoDup(s + [x])
    ensures forall y :: y in s + [x] <==> y in s || y == x
  {
  }

  lemma PushEdgeMirrored(ns: Nodes, a: nat, b: nat)
    requires Mirrored(ns) && a < |ns| && b < |ns| && b !in ns[a].edges
    ensures Mirrored(PushEdge(ns, a, b))
  {
    var r := PushEdge(ns, a, b);
    assert a !in ns[b].back;
    PushedMembers(ns[a].edges, b);
    PushedMembers(ns[b].back, a);
    hide PushEdge, NoDup;
  }

  lemma PushEdgeSets(ns: Nodes, a: nat, b: nat)
    requires a < |ns| && b < |ns|
    ensures EdgeSet(PushEdge(ns, a, b)) == EdgeSet(ns) + {(a, b)}
    ensures RmwSet(PushEdge(ns, a, b)) == RmwSet(ns)
  {
    var r := PushEdge(ns, a, b);
    forall x: nat, y: nat ensures (x, y) in EdgeSet(r) <==> (x, y) in EdgeSet(ns) + {(a, b)} {
      if x < |ns| {
        assert y in r[x].edges <==> y in ns[x].edges || (x == a && y == b);
      }
    }
  }

  // ------------------------------------------------------------------
  // Walking a read-modify-write chain
  // ------------------------------------------------------------------

  ghost function Above(rank: seq<nat>, a: nat): set<nat>
    requires a < |rank|
  {
    set i | i in Below(|rank|) && rank[i] > rank[a]
  }

  /** Where the walk of cyclegraph.cc:214-215 stops: at `to`, or at the end of the chain. */
  ghost function ChainStop(ns: Nodes, rank: seq<nat>, a: nat, to: nat): (e: nat)
    requires Ranked(ns, rank) && a < |ns|
    ensures e < |ns|
    decreases Above(rank, a)
  {
    if a == to || ns[a].rmw.None? then a
    else
      assert ns[a].rmw.value in Above(rank, a) && ns[a].rmw.value !in Above(rank, ns[a].rmw.value);
      ChainStop(ns, rank, ns[a].rmw.value, to)
  }

  lemma {:induction false} ChainStopProperties(ns: Nodes, rank: seq<nat>, a: nat, to: nat)
    requires Ranked(ns, rank) && a < |ns|
    ensures var e := ChainStop(ns, rank, a, to);
            Reach(RmwSet(ns), a, e) && (e == to || ns[e].rmw.None?) && rank[a] <= rank[e]
    decreases Above(rank, a)
  {
    if a == to || ns[a].rmw.None? {
      ReachRefl(RmwSet(ns), a);
    } else {
      var r := ns[a].rmw.value;
      assert r in Above(rank, a) && r !in Above(rank, r);
      ChainStopProperties(ns, rank, r, to);
      ReachEdge(RmwSet(ns), a, r);
      ReachTrans(RmwSet(ns), a, r, ChainStop(ns, rank, r, to));
    }
  }

  /** CycleNode::addEdge: a duplicate edge is not stored. */
  function AddEdge(ns: Nodes, a: nat, b: nat): (r: Nodes)
    requires a < |ns| && b < |ns|
    ensures |r| == |ns|
    ensures forall i :: 0 <= i < |ns| ==> r[i].rmw == ns[i].rmw && r[i].isPromise == ns[i].isPromise
  {
    if b in ns[a].edges then ns else PushEdge(ns, a, b)
  }

  lemma AddEdgeKeeps(ns: Nodes, rank: seq<nat>, a: nat, b: nat)
    requires WellFormed(ns, rank) && a < |ns| && b < |ns|
    ensures WellFormed(AddEdge(ns, a, b), rank)
    ensures EdgeSet(AddEdge(ns, a, b)) == EdgeSet(ns) + {(a, b)}
    ensures RmwSet(AddEdge(ns, a, b)) == RmwSet(ns)
  {
    if b !in ns[a].edges {
      PushEdgeKeeps(ns, rank, a, b);
    } else {
      assert (a, b) in EdgeSet(ns);
    }
  }

  /** CycleGraph::addNodeEdge: the edge and, when it is new, one from the end of the chain. */
  ghost function AddNodeEdge(ns: Nodes, rank: seq<nat>, a: nat, b: nat): (r: Nodes)
    requires Ranked(ns, rank) && a < |ns| && b < |ns|
    ensures |r| == |ns|
  {
    if b in ns[a].edges || ns[a].rmw.None? then AddEdge(ns, a, b)
    else
      var e := ChainStop(ns, rank, ns[a].rmw.value, b);
      if e == b then AddEdge(ns, a, b) else AddEdge(AddEdge(ns, a, b), e, b)
  }

  /** The edges that AddNodeEdge contributes. */
  ghost function NewEdges(ns: Nodes, rank: seq<nat>, a: nat, b: nat): Edges
    requires Ranked(ns, rank) && a < |ns| && b < |ns|
  {
    if b in ns[a].edges || ns[a].rmw.None? then {(a, b)}
    else
      var e := ChainStop(ns, rank, ns[a].rmw.value, b);
      if e == b then {(a, b)} else {(a, b)} + {(e, b)}
  }

  lemma AddNodeEdgeShape(ns: Nodes, rank: seq<nat>, a: nat, b: nat)
    requires WellFormed(ns, rank) && a < |ns| && b < |ns|
    ensures WellFormed(AddNodeEdge(ns, rank, a, b), rank)
    ensures RmwSet(AddNodeEdge(ns, rank, a, b)) == RmwSet(ns)
    ensures EdgeSet(AddNodeEdge(ns, rank, a, b)) == EdgeSet(ns) + NewEdges(ns, rank, a, b)
  {
    hide Mirrored, AddEdge, EdgeSet, RmwSet, ChainStop;
    AddEdgeKeeps(ns, rank, a, b);
    if b !in ns[a].edges && ns[a].rmw.Some? {
      AddEdgeKeeps(AddEdge(ns, a, b), rank, ChainStop(ns, rank, ns[a].rmw.value, b), b);
    }
  }

  // ------------------------------------------------------------------
  // What the graph keeps about its constraints
  // ------------------------------------------------------------------

  /**
   The invariant of a graph that no promise has been merged into:
   pointers are edges, and follow one another by rank; at most one write points
   to a read-modify-write; a successor of a write is reachable from the
   read-modify-write that reads from it; the constraints appear as edges; and
   every solution of the constraints respects every edge.
   */
  ghost predicate Tracks(ns: Nodes, rank: seq<nat>, log: set<Constraint>) {
    && WellFormed(ns, rank)
    && Chained(RmwSet(ns), EdgeSet(ns), rank)
    && Covered(RmwSet(ns), EdgeSet(ns))
    && Represents(ns, log)
    && Sound(ns, log)
  }

  /** Pointers are edges, rise by one in rank, and never share a target. */
  ghost predicate Chained(R: Edges, E: Edges, rank: seq<nat>) {
    && R <= E
    && (forall f, r :: (f, r) in R ==> f < |rank| && r < |rank| && rank[r] == rank[f] + 1)
    && (forall f, g, r :: (f, r) in R && (g, r) in R ==> f == g)
  }

  /** What follows a write follows the read-modify-write that reads from it. */
  ghost predicate Covered(R: Edges, E: Edges) {
    forall f, r, t :: (f, r) in R && (f, t) in E && t != r ==> Reach(E, r, t)
  }

  ghost predicate Represents(ns: Nodes, log: set<Constraint>) {
    && (forall a: nat, b: nat :: Before(a, b) in log ==> (a, b) in EdgeSet(ns))
    && (forall f: nat, r: nat :: Rmw(f, r) in log ==>
                         (f, r) in EdgeSet(ns) && ns[f].rmw.Some? && Rmw(f, ns[f].rmw.value) in log)
    && (forall f, r :: (f, r) in RmwSet(ns) ==> Rmw(f, r) in log)
  }

  ghost predicate Sound(ns: Nodes, log: set<Constraint>) {
    forall pos :: Solves(pos, |ns|, log) ==> Respects(pos, EdgeSet(ns))
  }

  // ------------------------------------------------------------------
  // The decision theorem
  // ------------------------------------------------------------------

  /** Pointers and edges from which the chains can be contracted to points. */
  ghost predicate Contractible(ns: Nodes, rank: seq<nat>, E: Edges) {
    && Ranked(ns, rank) && Within(E, |ns|)
    && Chained(RmwSet(ns), E, rank)
    && Covered(RmwSet(ns), E)
  }

  /** The last node of the chain through `a`. */
  ghost function Last(ns: Nodes, rank: seq<nat>, a: nat): (e: nat)
    requires Ranked(ns, rank) && a < |ns|
    ensures e < |ns|
    decreases Above(rank, a)
  {
    if ns[a].rmw.None? then a
    else
      assert ns[a].rmw.value in Above(rank, a) && ns[a].rmw.value !in Above(rank, ns[a].rmw.value);
      Last(ns, rank, ns[a].rmw.value)
  }

  lemma {:induction false} LastProperties(ns: Nodes, rank: seq<nat>, E: Edges, a: nat)
    requires Ranked(ns, rank) && a < |ns| && RmwSet(ns) <= E
    ensures var e := Last(ns, rank, a);
            Reach(E, a, e) && ns[e].rmw.None? && rank[a] <= rank[e]
    decreases Above(rank, a)
  {
    if ns[a].rmw.None? {
      ReachRefl(E, a);
    } else {
      var r := ns[a].rmw.value;
      assert r in Above(rank, a) && r !in Above(rank, r);
      LastProperties(ns, rank, E, r);
      assert (a, r) in RmwSet(ns);
      ReachEdge(E, a, r);
      ReachTrans(E, a, r, Last(ns, rank, r));
    }
  }

  /** Leaving a chain anywhere leaves it from its end. */
  lemma {:induction false} LeaveFromEnd(ns: Nodes, rank: seq<nat>, E: Edges, a: nat, y: nat)
    requires Contractible(ns, rank, E) && a < |ns| && y < |ns|
    requires Plus(E, a, y) && Last(ns, rank, y) != Last(ns, rank, a)
    ensures Plus(E, Last(ns, rank, a), y)
    decreases Above(rank, a)
  {
    if ns[a].rmw.Some? {
      var r := ns[a].rmw.value;
      assert (a, r) in RmwSet(ns);
      assert r in Above(rank, a) && r !in Above(rank, r);
      var z :| (a, z) in E && Reach(E, z, y);
      if z != r {
        ReachTrans(E, r, z, y);
      }
      ReachCases(E, r, y);
      assert Last(ns, rank, a) == Last(ns, rank, r);
      LeaveFromEnd(ns, rank, E, r, y);
    }
  }

  /** Two nodes of one chain with one rank are one node. */
  lemma {:induction false} SameChainSameRank(ns: Nodes, rank: seq<nat>, E: Edges, a: nat, b: nat)
    requires Contractible(ns, rank, E) && a < |ns| && b < |ns|
    requires Last(ns, rank, a) == Last(ns, rank, b) && rank[a] == rank[b]
    ensures a == b
    decreases Above(rank, a)
  {
    LastProperties(ns, rank, E, a);
    LastProperties(ns, rank, E, b);
    if ns[a].rmw.Some? && ns[b].rmw.Some? {
      var r, s := ns[a].rmw.value, ns[b].rmw.value;
      assert (a, r) in RmwSet(ns) && (b, s) in RmwSet(ns);
      assert r in Above(rank, a) && r !in Above(rank, r);
      SameChainSameRank(ns, rank, E, r, s);
    } else if ns[a].rmw.Some? {
      LastProperties(ns, rank, E, ns[a].rmw.value);
    } else if ns[b].rmw.Some? {
      LastProperties(ns, rank, E, ns[b].rmw.value);
    }
  }

  /** Within a chain, smaller rank means earlier: the smaller reaches the larger. */
  lemma {:induction false} SameChainReach(ns: Nodes, rank: seq<nat>, E: Edges, a: nat, b: nat)
    requires Contractible(ns, rank, E) && a < |ns| && b < |ns|
    requires Last(ns, rank, a) == Last(ns, rank, b) && rank[a] <= rank[b]
    ensures Reach(E, a, b)
    decreases rank[b] - rank[a], Above(rank, a)
  {
    if rank[a] == rank[b] {
      SameChainSameRank(ns, rank, E, a, b);
      ReachRefl(E, a);
    } else {
      LastProperties(ns, rank, E, b);
      var r := ns[a].rmw.value;
      assert (a, r) in RmwSet(ns);
      SameChainReach(ns, rank, E, r, b);
      ReachEdge(E, a, r);
      ReachTrans(E, a, r, b);
    }
  }

  /** Position of a node: its chain's place first, then its rank in the chain. */
  ghost function Position(ns: Nodes, rank: seq<nat>, L: seq<nat>, i: nat): nat
    requires Ranked(ns, rank) && i < |ns| && |L| == |ns|
  {
    L[Last(ns, rank, i)] * Bound(rank) + rank[i]
  }

  lemma PositionDistinct(ns: Nodes, rank: seq<nat>, E: Edges, L: seq<nat>, i: nat, j: nat)
    requires Contractible(ns, rank, E) && |L| == |ns| && IsOrder(L)
    requires i < |ns| && j < |ns| && i != j
    ensures Position(ns, rank, L, i) != Position(ns, rank, L, j)
  {
    var li, lj := Last(ns, rank, i), Last(ns, rank, j);
    Lexicographic(L[li], rank[i], L[lj], rank[j], Bound(rank));
    if Position(ns, rank, L, i) == Position(ns, rank, L, j) {
      assert li == lj;
      SameChainSameRank(ns, rank, E, i, j);
    }
  }

  lemma PositionRespects(ns: Nodes, rank: seq<nat>, E: Edges, L: seq<nat>, a: nat, b: nat)
    requires Contractible(ns, rank, E) && Acyclic(E)
    requires |L| == |ns| && Respects(L, E) && (a, b) in E && b < |ns|
    ensures Position(ns, rank, L, a) < Position(ns, rank, L, b)
  {
    EdgePlus(E, a, b);
    var la, lb := Last(ns, rank, a), Last(ns, rank, b);
    Lexicographic(L[la], rank[a], L[lb], rank[b], Bound(rank));
    if la != lb {
      LastProperties(ns, rank, E, b);
      LeaveFromEnd(ns, rank, E, a, b);
      PlusThenReach(E, la, b, lb);
      RespectsPlus(L, E, la, lb);
    } else if rank[b] <= rank[a] {
      SameChainReach(ns, rank, E, b, a);
      PlusThenReach(E, a, b, a);
    }
  }

  /**
   Chain contraction: order the chains by a linear extension of reachability
   between their ends, and the nodes of a chain by rank.
   */
  lemma OrderExists(ns: Nodes, rank: seq<nat>, E: Edges) returns (pos: seq<nat>)
    requires Contractible(ns, rank, E) && Acyclic(E)
    ensures |pos| == |ns| && IsOrder(pos) && Respects(pos, E)
    ensures forall f, r :: (f, r) in RmwSet(ns) ==> Adjacent(pos, f, r)
  {
    var L := LinearExtension(E, |ns|);
    pos := seq(|ns|, i requires 0 <= i < |ns| => Position(ns, rank, L, i));
    forall i, j | 0 <= i < j < |pos| ensures pos[i] != pos[j] {
      PositionDistinct(ns, rank, E, L, i, j);
    }
    forall a: nat, b: nat | (a, b) in E ensures a < |pos| && b < |pos| && pos[a] < pos[b] {
      PositionRespects(ns, rank, E, L, a, b);
    }
    forall f: nat, r: nat | (f, r) in RmwSet(ns) ensures Adjacent(pos, f, r) {
      assert pos[r] == pos[f] + 1;
    }
  }

  function Bound(rank: seq<nat>): (m: nat)
    ensures forall i :: 0 <= i < |rank| ==> rank[i] < m
  {
    if rank == [] then 0
    else
      var rest := Bound(rank[..|rank| - 1]);
      var last := rank[|rank| - 1] + 1;
      assert forall i :: 0 <= i < |rank| - 1 ==> rank[i] == rank[..|rank| - 1][i];
      if rest < last then last else rest
  }

  lemma Lexicographic(x: nat, i: nat, y: nat, j: nat, m: nat)
    requires i < m && j < m
    ensures x * m + i == y * m + j ==> x == y && i == j
    ensures x < y || (x == y && i < j) ==> x * m + i < y * m + j
  {
    if x < y {
      assert (x + 1) * m <= y * m;
    } else if y < x {
      assert (y + 1) * m <= x * m;
    }
  }

  /**
   The graph decides its constraints: some total order of the nodes meets them
   all exactly when the edges are acyclic and no write has two readers that
   modify it.
   */
  lemma Decides(ns: Nodes, rank: seq<nat>, log: set<Constraint>)
    requires Tracks(ns, rank, log)
    ensures Satisfiable(|ns|, log) <==> Acyclic(EdgeSet(ns)) && !Contested(log)
  {
    if Satisfiable(|ns|, log) {
      var pos :| Solves(pos, |ns|, log);
      RespectsAcyclic(pos, EdgeSet(ns));
      ContestedUnsolvable(pos, |ns|, log);
    }
    if Acyclic(EdgeSet(ns)) && !Contested(log) {
      var pos := OrderExists(ns, rank, EdgeSet(ns));
      forall c | c in log ensures Meets(pos, c) {
        match c
        case Before(a, b) =>
        case Rmw(f, r) =>
          assert Rmw(f, ns[f].rmw.value) in log;
          assert (f, r) in RmwSet(ns);
      }
      assert Solves(pos, |ns|, log);
    }
  }

  // ------------------------------------------------------------------
  // Additions keep the invariant
  // ------------------------------------------------------------------

  /** The part of Tracks about the pointers and edges alone. */
  lemma TracksIntro(ns: Nodes, rank: seq<nat>, log: set<Constraint>, ns': Nodes, log': set<Constraint>)
    requires Tracks(ns, rank, log) && WellFormed(ns', rank) && |ns'| == |ns|
    requires RmwSet(ns') == RmwSet(ns) && EdgeSet(ns) <= EdgeSet(ns') && log <= log'
    requires forall f, r, t :: (f, r) in RmwSet(ns) && (f, t) in EdgeSet(ns') && (f, t) !in EdgeSet(ns) && t != r ==>
                                 Reach(EdgeSet(ns'), r, t)
    requires Represents(ns', log') && Sound(ns', log')
    ensures Tracks(ns', rank, log')
  {
    var E, E' := EdgeSet(ns), EdgeSet(ns');
    forall f, r, t | (f, r) in RmwSet(ns') && (f, t) in E' && t != r ensures Reach(E', r, t) {
      if (f, t) in E {
        ReachMono(E, E', r, t);
      }
    }
  }

  /**
   The order puts every read-modify-write right after its write, except that
   `skip` (a merged promise, which is nobody's read-modify-write) is ignored.
   */
  ghost predicate Contiguous(ns: Nodes, pos: seq<nat>, skip: nat) {
    forall f, r :: (f, r) in RmwSet(ns) ==> r != skip && (f != skip ==> Adjacent(pos, f, r))
  }

  /** A position before `to` at one node of a chain is before `to` all along the walk. */
  lemma {:induction false} ChainBefore(ns: Nodes, rank: seq<nat>, pos: seq<nat>, skip: nat, a: nat, to: nat)
    requires Ranked(ns, rank) && |pos| == |ns| && IsOrder(pos) && a < |ns| && to < |ns|
    requires Contiguous(ns, pos, skip) && a != skip
    requires a == to || pos[a] < pos[to]
    ensures var e := ChainStop(ns, rank, a, to); e == to || pos[e] < pos[to]
    decreases Above(rank, a)
  {
    if a != to && ns[a].rmw.Some? {
      var r := ns[a].rmw.value;
      assert r in Above(rank, a) && r !in Above(rank, r);
      assert (a, r) in RmwSet(ns);
      assert Adjacent(pos, a, r);
      if r != to {
        assert !(pos[a] < pos[to] < pos[r]);
        assert pos[r] != pos[to];
      }
      ChainBefore(ns, rank, pos, skip, r, to);
    }
  }

  lemma SolvesPointers(ns: Nodes, log: set<Constraint>, pos: seq<nat>)
    requires Represents(ns, log) && Solves(pos, |ns|, log)
    requires Mirrored(ns) && RmwSet(ns) <= EdgeSet(ns)
    ensures Contiguous(ns, pos, |ns|)
  {
    forall f: nat, r: nat | (f, r) in RmwSet(ns) ensures Adjacent(pos, f, r) && r < |ns| {
      assert Meets(pos, Rmw(f, r));
    }
  }

  /** A walk along pointers is a path of edges. */
  lemma ChainStopReach(ns: Nodes, rank: seq<nat>, a: nat, to: nat)
    requires Ranked(ns, rank) && a < |ns| && RmwSet(ns) <= EdgeSet(ns)
    ensures Reach(EdgeSet(ns), a, ChainStop(ns, rank, a, to))
  {
    ChainStopProperties(ns, rank, a, to);
    ReachMono(RmwSet(ns), EdgeSet(ns), a, ChainStop(ns, rank, a, to));
  }

  /** The edges of addNodeEdge hold in every order that has `a` before `b` and its chains contiguous. */
  lemma NewEdgesSound(ns: Nodes, rank: seq<nat>, pos: seq<nat>, skip: nat, a: nat, b: nat)
    requires Ranked(ns, rank) && |pos| == |ns| && IsOrder(pos) && a < |ns| && b < |ns|
    requires Contiguous(ns, pos, skip) && a != skip
    requires pos[a] < pos[b]
    ensures Respects(pos, NewEdges(ns, rank, a, b))
  {
    if b !in ns[a].edges && ns[a].rmw.Some? {
      var r := ns[a].rmw.value;
      assert (a, r) in RmwSet(ns);
      assert Adjacent(pos, a, r);
      if r != b {
        assert !(pos[a] < pos[b] < pos[r]);
        assert pos[r] != pos[b];
      }
      ChainBefore(ns, rank, pos, skip, r, b);
    }
  }

  /** The target of addNodeEdge is reachable from the read-modify-write, where the walk over its chain starts. */
  lemma StopReaches(ns: Nodes, rank: seq<nat>, r: nat, b: nat, E: Edges)
    requires Ranked(ns, rank) && r < |ns| && RmwSet(ns) <= EdgeSet(ns) <= E
    requires ChainStop(ns, rank, r, b) != b ==> (ChainStop(ns, rank, r, b), b) in E
    ensures Reach(E, r, b)
  {
    hide EdgeSet, RmwSet, Reach;
    var e := ChainStop(ns, rank, r, b);
    ChainStopReach(ns, rank, r, b);
    ReachMono(EdgeSet(ns), E, r, e);
    if e != b {
      ReachEdge(E, e, b);
      ReachTrans(E, r, e, b);
    }
  }

  /** After addNodeEdge, the new successors of a write are reachable from its read-modify-write. */
  lemma NewEdgesReach(ns: Nodes, rank: seq<nat>, a: nat, b: nat, f: nat, r: nat, t: nat, E: Edges)
    requires WellFormed(ns, rank) && a < |ns| && b < |ns|
    requires RmwSet(ns) <= EdgeSet(ns) && E == EdgeSet(ns) + NewEdges(ns, rank, a, b)
    requires (f, r) in RmwSet(ns) && (f, t) in NewEdges(ns, rank, a, b) && (f, t) !in EdgeSet(ns) && t != r
    ensures Reach(E, r, t)
  {
    hide Mirrored, Reach;
    ChainStopProperties(ns, rank, ns[a].rmw.value, b);
    assert f == a && t == b;
    StopReaches(ns, rank, r, b, E);
  }

  lemma TracksAddNodeEdge(ns: Nodes, rank: seq<nat>, log: set<Constraint>, a: nat, b: nat)
    requires Tracks(ns, rank, log) && a < |ns| && b < |ns|
    ensures Tracks(AddNodeEdge(ns, rank, a, b), rank, log + {Before(a, b)})
  {
    var ns', log' := AddNodeEdge(ns, rank, a, b), log + {Before(a, b)};
    AddNodeEdgeShape(ns, rank, a, b);
    hide Mirrored, AddNodeEdge, Reach;
    forall f: nat, r: nat, t: nat | (f, r) in RmwSet(ns) && (f, t) in EdgeSet(ns') && (f, t) !in EdgeSet(ns) && t != r
      ensures Reach(EdgeSet(ns'), r, t)
    {
      NewEdgesReach(ns, rank, a, b, f, r, t, EdgeSet(ns'));
    }
    RepresentsAddNodeEdge(ns, rank, log, a, b, ns');
    SoundAddNodeEdge(ns, rank, log, a, b, ns');
    TracksIntro(ns, rank, log, ns', log');
  }

  lemma RepresentsAddNodeEdge(ns: Nodes, rank: seq<nat>, log: set<Constraint>, a: nat, b: nat, ns': Nodes)
    requires Ranked(ns, rank) && Represents(ns, log) && a < |ns| && b < |ns| && |ns'| == |ns|
    requires RmwSet(ns') == RmwSet(ns) && EdgeSet(ns') == EdgeSet(ns) + NewEdges(ns, rank, a, b)
    ensures Represents(ns', log + {Before(a, b)})
  {
    RmwUnchanged(ns, ns');
    hide Ranked, ChainStop;
  }

  lemma SoundAddNodeEdge(ns: Nodes, rank: seq<nat>, log: set<Constraint>, a: nat, b: nat, ns': Nodes)
    requires Tracks(ns, rank, log) && a < |ns| && b < |ns| && |ns'| == |ns|
    requires EdgeSet(ns') == EdgeSet(ns) + NewEdges(ns, rank, a, b)
    ensures Sound(ns', log + {Before(a, b)})
  {
    hide Represents, Mirrored, NewEdges;
    var log' := log + {Before(a, b)};
    forall pos | Solves(pos, |ns'|, log') ensures Respects(pos, EdgeSet(ns')) {
      assert Solves(pos, |ns|, log);
      SolvesPointers(ns, log, pos);
      assert Meets(pos, Before(a, b));
      NewEdgesSound(ns, rank, pos, |ns|, a, b);
    }
  }

  /** Equal pointer sets mean equal pointers. */
  lemma RmwUnchanged(ns: Nodes, ns': Nodes)
    requires |ns| == |ns'| && RmwSet(ns) == RmwSet(ns')
    ensures forall i :: 0 <= i < |ns| ==> ns[i].rmw == ns'[i].rmw
  {
    forall i | 0 <= i < |ns| ensures ns[i].rmw == ns'[i].rmw {
      if ns[i].rmw.Some? {
        assert (i, ns[i].rmw.value) in RmwSet(ns);
      }
      if ns'[i].rmw.Some? {
        assert (i, ns'[i].rmw.value) in RmwSet(ns');
      }
    }
  }

  // ------------------------------------------------------------------
  // CycleGraph::addRMWEdge
  // ------------------------------------------------------------------

  /**
   What the assertion and the comment at cyclegraph.cc:250-265 assume: nobody reads from the
   read-modify-write, and either nothing is ordered before it yet or nothing after the write.
   And it reads from no other write.
   */
  ghost predicate FreshFor(ns: Nodes, f: nat, r: nat) {
    && f < |ns| && r < |ns| && f != r && ns[r].rmw.None? && !ns[r].isPromise
    && (forall g: nat :: (g, r) !in RmwSet(ns))
    && (ns[r].back == [] || (ns[f].edges == [] && ns[f].rmw.None?))
  }

  lemma NotLinkedYet(ns: Nodes, f: nat, r: nat)
    requires Mirrored(ns) && FreshFor(ns, f, r)
    ensures (f, r) !in EdgeSet(ns)
  {
    if ns[r].back == [] {
      NoIncoming(ns, r, f);
    }
  }

  /** Whatever is read-modify-written has an incoming edge from a write it reads from. */
  ghost predicate Anchored(ns: Nodes) {
    forall f, r :: (f, r) in RmwSet(ns) ==> exists g :: (g, r) in RmwSet(ns) && (g, r) in EdgeSet(ns)
  }

  lemma ChainedAnchored(ns: Nodes, rank: seq<nat>)
    requires Chained(RmwSet(ns), EdgeSet(ns), rank)
    ensures Anchored(ns)
  {
    forall f: nat, r: nat | (f, r) in RmwSet(ns)
      ensures exists g :: (g, r) in RmwSet(ns) && (g, r) in EdgeSet(ns)
    {
      assert (f, r) in EdgeSet(ns);
    }
  }

  /** A node without incoming edges is nobody's read-modify-write. */
  lemma NobodysRmw(ns: Nodes, f: nat, r: nat)
    requires Mirrored(ns) && Anchored(ns) && r < |ns| && ns[r].back == []
    ensures (f, r) !in RmwSet(ns)
  {
    forall g: nat ensures (g, r) !in EdgeSet(ns) {
      NoIncoming(ns, r, g);
    }
  }

  /** CycleNode::setRMW: the first reader is kept. */
  function SetRmw(ns: Nodes, f: nat, r: nat): (ns': Nodes)
    requires f < |ns|
    ensures |ns'| == |ns|
  {
    if ns[f].rmw.None? then ns[f := ns[f].(rmw := Some(r))] else ns
  }

  ghost function RmwRank(ns: Nodes, rank: seq<nat>, f: nat, r: nat): seq<nat>
    requires |rank| == |ns| && f < |ns| && r < |ns|
  {
    if ns[f].rmw.None? then rank[r := rank[f] + 1] else rank
  }

  ghost predicate Indices(ts: seq<nat>, n: nat) {
    forall i :: 0 <= i < |ts| ==> ts[i] < n
  }

  lemma EdgesAreIndices(ns: Nodes, f: nat)
    requires Mirrored(ns) && f < |ns|
    ensures Indices(ns[f].edges, |ns|)
  {
    forall i | 0 <= i < |ns[f].edges| ensures ns[f].edges[i] < |ns| {
      assert ns[f].edges[i] in ns[f].edges;
    }
  }

  /** The loop of cyclegraph.cc:266-272 over the edges `ts`. */
  ghost function Transfer(ns: Nodes, ts: seq<nat>, r: nat): (ns': Nodes)
    requires r < |ns| && Indices(ts, |ns|)
    ensures |ns'| == |ns|
    decreases |ts|
  {
    if ts == [] then ns
    else
      var ns1 := Transfer(ns, ts[..|ts| - 1], r);
      if ts[|ts| - 1] == r then ns1 else AddEdge(ns1, r, ts[|ts| - 1])
  }

  ghost function TransferEdges(ts: seq<nat>, r: nat): Edges {
    set t | t in ts && t != r :: (r, t)
  }

  lemma {:induction false} TransferKeeps(ns: Nodes, rank: seq<nat>, ts: seq<nat>, r: nat)
    requires WellFormed(ns, rank) && r < |ns| && Indices(ts, |ns|)
    ensures WellFormed(Transfer(ns, ts, r), rank)
    ensures EdgeSet(Transfer(ns, ts, r)) == EdgeSet(ns) + TransferEdges(ts, r)
    ensures RmwSet(Transfer(ns, ts, r)) == RmwSet(ns)
    decreases |ts|
  {
    if ts != [] {
      TransferKeeps(ns, rank, ts[..|ts| - 1], r);
      TransferEdgesStep(ts, r);
      AddEdgeKeeps(Transfer(ns, ts[..|ts| - 1], r), rank, r, ts[|ts| - 1]);
    }
  }

  lemma TransferEdgesStep(ts: seq<nat>, r: nat)
    requires ts != []
    ensures var t := ts[|ts| - 1];
            TransferEdges(ts, r) == TransferEdges(ts[..|ts| - 1], r) + (if t == r then {} else {(r, t)})
  {
    assert ts == ts[..|ts| - 1] + [ts[|ts| - 1]];
  }

  ghost function AddRmwEdge(ns: Nodes, rank: seq<nat>, f: nat, r: nat): (ns': Nodes)
    requires WellFormed(ns, rank) && FreshFor(ns, f, r)
    requires Anchored(ns)
    ensures |ns'| == |ns|
  {
    SetRmwKeeps(ns, rank, f, r);
    EdgesAreIndices(ns, f);
    TransferKeeps(SetRmw(ns, f, r), RmwRank(ns, rank, f, r), ns[f].edges, r);
    AddNodeEdge(Transfer(SetRmw(ns, f, r), ns[f].edges, r), RmwRank(ns, rank, f, r), f, r)
  }

  lemma NoIncoming(ns: Nodes, r: nat, f: nat)
    requires Mirrored(ns) && r < |ns| && ns[r].back == []
    ensures (f, r) !in EdgeSet(ns)
  {
    if f < |ns| {
      assert f !in ns[r].back;
    }
  }

  lemma SetRmwKeeps(ns: Nodes, rank: seq<nat>, f: nat, r: nat)
    requires WellFormed(ns, rank) && FreshFor(ns, f, r)
    requires Anchored(ns)
    ensures WellFormed(SetRmw(ns, f, r), RmwRank(ns, rank, f, r))
    ensures EdgeSet(SetRmw(ns, f, r)) == EdgeSet(ns)
    ensures RmwSet(SetRmw(ns, f, r)) == RmwSet(ns) + (if ns[f].rmw.None? then {(f, r)} else {})
  {
    SetRmwRanked(ns, rank, f, r);
    SetRmwSets(ns, f, r);
  }

  lemma SetRmwRanked(ns: Nodes, rank: seq<nat>, f: nat, r: nat)
    requires WellFormed(ns, rank) && FreshFor(ns, f, r) && Anchored(ns)
    ensures Ranked(SetRmw(ns, f, r), RmwRank(ns, rank, f, r))
  {
    forall a | 0 <= a < |ns| && ns[a].rmw.Some? ensures ns[a].rmw.value != r {
      assert (a, ns[a].rmw.value) in RmwSet(ns);
    }
  }

  lemma SetRmwSets(ns: Nodes, f: nat, r: nat)
    requires Mirrored(ns) && FreshFor(ns, f, r)
    ensures Mirrored(SetRmw(ns, f, r))
    ensures EdgeSet(SetRmw(ns, f, r)) == EdgeSet(ns)
    ensures RmwSet(SetRmw(ns, f, r)) == RmwSet(ns) + (if ns[f].rmw.None? then {(f, r)} else {})
  {
    var ns' := SetRmw(ns, f, r);
    assert forall i :: 0 <= i < |ns| ==> ns'[i].edges == ns[i].edges && ns'[i].back == ns[i].back;
    forall x: nat, y: nat ensures (x, y) in EdgeSet(ns') <==> (x, y) in EdgeSet(ns) {
    }
    forall x: nat, y: nat
      ensures (x, y) in RmwSet(ns') <==> (x, y) in RmwSet(ns) + (if ns[f].rmw.None? then {(f, r)} else {})
    {
    }
  }

  /** The edge that closes the chain of a write already read by another read-modify-write. */
  ghost function RmwNewEdges(ns: Nodes, rank: seq<nat>, f: nat, r: nat): Edges
    requires Ranked(ns, rank) && f < |ns|
  {
    TransferEdges(ns[f].edges, r) + {(f, r)} +
    (if ns[f].rmw.None? then {} else {(ChainStop(ns, rank, ns[f].rmw.value, r), r)})
  }

  lemma {:induction false} ChainStopSameRmw(ns: Nodes, ns': Nodes, rank: seq<nat>, a: nat, to: nat)
    requires Ranked(ns, rank) && Ranked(ns', rank) && a < |ns| && RmwSet(ns) == RmwSet(ns')
    ensures ChainStop(ns, rank, a, to) == ChainStop(ns', rank, a, to)
    decreases Above(rank, a)
  {
    RmwUnchanged(ns, ns');
    if a != to && ns[a].rmw.Some? {
      var r := ns[a].rmw.value;
      assert r in Above(rank, a) && r !in Above(rank, r);
      ChainStopSameRmw(ns, ns', rank, r, to);
    }
  }

  /** A node that nothing points to is on no other node's chain. */
  lemma ChainMissesFresh(ns: Nodes, rank: seq<nat>, a: nat, r: nat)
    requires WellFormed(ns, rank) && Anchored(ns) && a < |ns| && r < |ns| && a != r && ns[r].back == []
    ensures var e := ChainStop(ns, rank, a, r); e != r && ns[e].rmw.None?
  {
    ChainStopProperties(ns, rank, a, r);
    if ChainStop(ns, rank, a, r) == r {
      ReachCases(RmwSet(ns), a, r);
      var c := PlusLast(RmwSet(ns), a, r);
      NobodysRmw(ns, c, r);
    }
  }

  lemma AddRmwEdgeShape(ns: Nodes, rank: seq<nat>, f: nat, r: nat)
    requires WellFormed(ns, rank) && FreshFor(ns, f, r) && Anchored(ns)
    ensures WellFormed(AddRmwEdge(ns, rank, f, r), RmwRank(ns, rank, f, r))
    ensures RmwSet(AddRmwEdge(ns, rank, f, r)) == RmwSet(ns) + (if ns[f].rmw.None? then {(f, r)} else {})
    ensures EdgeSet(AddRmwEdge(ns, rank, f, r)) == EdgeSet(ns) + RmwNewEdges(ns, rank, f, r)
  {
    var rank' := RmwRank(ns, rank, f, r);
    SetRmwKeeps(ns, rank, f, r);
    EdgesAreIndices(ns, f);
    TransferKeeps(SetRmw(ns, f, r), rank', ns[f].edges, r);
    var ns2 := Transfer(SetRmw(ns, f, r), ns[f].edges, r);
    AddNodeEdgeShape(ns2, rank', f, r);
    FinalRmwEdges(ns, ns2, rank, rank', f, r);
    UnionAssociates(EdgeSet(ns), TransferEdges(ns[f].edges, r), {(f, r)},
                    if ns[f].rmw.None? then {} else {(ChainStop(ns, rank, ns[f].rmw.value, r), r)});
  }

  lemma UnionAssociates(A: Edges, B: Edges, C: Edges, D: Edges)
    ensures (A + B) + (C + D) == A + (B + C + D)
  {
  }

  /** What the closing addNodeEdge of addRMWEdge contributes. */
  lemma FinalRmwEdges(ns: Nodes, ns2: Nodes, rank: seq<nat>, rank': seq<nat>, f: nat, r: nat)
    requires WellFormed(ns, rank) && FreshFor(ns, f, r) && Anchored(ns)
    requires rank' == RmwRank(ns, rank, f, r) && Ranked(ns2, rank') && |ns2| == |ns|
    requires RmwSet(ns2) == RmwSet(SetRmw(ns, f, r))
    requires EdgeSet(ns2) == EdgeSet(ns) + TransferEdges(ns[f].edges, r)
    ensures NewEdges(ns2, rank', f, r) ==
            {(f, r)} + (if ns[f].rmw.None? then {} else {(ChainStop(ns, rank, ns[f].rmw.value, r), r)})
  {
    RmwUnchanged(SetRmw(ns, f, r), ns2);
    NotLinkedYet(ns, f, r);
    assert (f, r) !in EdgeSet(ns2);
    assert r !in ns2[f].edges;
    if ns[f].rmw.Some? {
      var r0 := ns[f].rmw.value;
      NobodysRmw(ns, f, r);
      ChainStopSameRmw(ns, ns2, rank, r0, r);
      assert (f, r0) in RmwSet(ns);
      ChainMissesFresh(ns, rank, r0, r);
    }
  }

  /** A solution of contested constraints cannot exist. */
  lemma ContestedUnsolvable(pos: seq<nat>, n: nat, log: set<Constraint>)
    requires Solves(pos, n, log)
    ensures !Contested(log)
  {
    forall f: nat, r: nat, r': nat | Rmw(f, r) in log && Rmw(f, r') in log ensures r == r' {
      assert Meets(pos, Rmw(f, r)) && Meets(pos, Rmw(f, r'));
      assert pos[r] == pos[r'];
    }
  }

  /** The edges of addRMWEdge hold in every order that has the read-modify-write right after its write. */
  lemma RmwNewEdgesSound(ns: Nodes, rank: seq<nat>, log: set<Constraint>, f: nat, r: nat, pos: seq<nat>)
    requires Tracks(ns, rank, log) && FreshFor(ns, f, r)
    requires Solves(pos, |ns|, log + {Rmw(f, r)})
    ensures Respects(pos, RmwNewEdges(ns, rank, f, r))
  {
    assert Solves(pos, |ns|, log);
    assert Meets(pos, Rmw(f, r));
    forall t | t in ns[f].edges && t != r ensures t < |pos| && pos[r] < pos[t] {
      assert (f, t) in EdgeSet(ns);
      assert pos[f] < pos[t];
      assert !(pos[f] < pos[t] < pos[r]);
    }
    ContestedRmw(ns, rank, log, f, r);
    ContestedUnsolvable(pos, |ns|, log + {Rmw(f, r)});
  }

  lemma CoveredRmwFirst(R: Edges, E: Edges, E': Edges, f: nat, r: nat)
    requires Covered(R, E) && (forall s :: (f, s) !in R && (r, s) !in R)
    requires E <= E' && forall t :: (f, t) in E' && t != r ==> (r, t) in E'
    requires forall g, t :: (g, t) in E' && (g, t) !in E ==> g == f || g == r
    ensures Covered(R + {(f, r)}, E')
  {
    forall g: nat, s: nat, t: nat | (g, s) in R + {(f, r)} && (g, t) in E' && t != s ensures Reach(E', s, t) {
      if (g, s) in R {
        ReachMono(E, E', s, t);
      } else {
        ReachEdge(E', r, t);
      }
    }
  }

  lemma CoveredRmwAgain(R: Edges, E: Edges, E': Edges, f: nat, r: nat, r0: nat, e: nat)
    requires Covered(R, E) && (f, r0) in R && (forall s :: (f, s) in R ==> s == r0)
    requires forall s :: (r, s) !in R && (e, s) !in R
    requires Reach(E, r0, e)
    requires E <= E' && (e, r) in E'
    requires forall g, t :: (g, t) in E' && (g, t) !in E ==> g == r || g == e || (g == f && t == r)
    ensures Covered(R, E')
  {
    forall g: nat, s: nat, t: nat | (g, s) in R && (g, t) in E' && t != s ensures Reach(E', s, t) {
      if (g, t) in E {
        ReachMono(E, E', s, t);
      } else {
        ReachMono(E, E', r0, e);
        ReachEdge(E', e, r);
        ReachTrans(E', r0, e, r);
      }
    }
  }

  lemma RmwCovered(ns: Nodes, rank: seq<nat>, log: set<Constraint>, f: nat, r: nat, R': Edges, E': Edges)
    requires Tracks(ns, rank, log) && FreshFor(ns, f, r)
    requires R' == RmwSet(ns) + (if ns[f].rmw.None? then {(f, r)} else {})
    requires E' == EdgeSet(ns) + RmwNewEdges(ns, rank, f, r)
    ensures Covered(R', E')
  {
    if ns[f].rmw.None? {
      forall t | (f, t) in E' && t != r ensures (r, t) in E' {
        assert (f, t) in EdgeSet(ns);
        assert (r, t) in TransferEdges(ns[f].edges, r);
      }
      CoveredRmwFirst(RmwSet(ns), EdgeSet(ns), E', f, r);
    } else {
      RmwCoveredAgain(ns, rank, f, r, E');
    }
  }

  lemma RmwCoveredAgain(ns: Nodes, rank: seq<nat>, f: nat, r: nat, E': Edges)
    requires WellFormed(ns, rank) && Chained(RmwSet(ns), EdgeSet(ns), rank) && Covered(RmwSet(ns), EdgeSet(ns))
    requires FreshFor(ns, f, r) && ns[f].rmw.Some?
    requires E' == EdgeSet(ns) + RmwNewEdges(ns, rank, f, r)
    ensures Covered(RmwSet(ns), E')
  {
    var r0 := ns[f].rmw.value;
    assert (f, r0) in RmwSet(ns);
    ChainedAnchored(ns, rank);
    NotLinkedYet(ns, f, r);
    ChainMissesFresh(ns, rank, r0, r);
    ChainStopReach(ns, rank, r0, r);
    CoveredRmwAgain(RmwSet(ns), EdgeSet(ns), E', f, r, r0, ChainStop(ns, rank, r0, r));
  }

  lemma RmwChained(ns: Nodes, rank: seq<nat>, log: set<Constraint>, f: nat, r: nat, R': Edges, E': Edges)
    requires Tracks(ns, rank, log) && FreshFor(ns, f, r)
    requires R' == RmwSet(ns) + (if ns[f].rmw.None? then {(f, r)} else {})
    requires E' == EdgeSet(ns) + RmwNewEdges(ns, rank, f, r)
    ensures Chained(R', E', RmwRank(ns, rank, f, r))
  {
    assert forall g: nat, s: nat :: (g, s) in RmwSet(ns) ==> g != r && s != r;
  }

  lemma RmwRepresents(ns: Nodes, ns': Nodes, log: set<Constraint>, f: nat, r: nat)
    requires Represents(ns, log) && f < |ns| && |ns'| == |ns|
    requires RmwSet(ns') == RmwSet(ns) + (if ns[f].rmw.None? then {(f, r)} else {})
    requires EdgeSet(ns) <= EdgeSet(ns') && (f, r) in EdgeSet(ns')
    ensures Represents(ns', log + {Rmw(f, r)})
  {
    assert RmwSet(ns') == RmwSet(SetRmw(ns, f, r)) by {
      forall x: nat, y: nat ensures (x, y) in RmwSet(ns') <==> (x, y) in RmwSet(SetRmw(ns, f, r)) {
      }
    }
    RmwUnchanged(SetRmw(ns, f, r), ns');
    if ns[f].rmw.Some? {
      assert (f, ns[f].rmw.value) in RmwSet(ns);
    }
  }

  lemma TracksAddRmwEdge(ns: Nodes, rank: seq<nat>, log: set<Constraint>, f: nat, r: nat)
    requires Tracks(ns, rank, log) && FreshFor(ns, f, r) && Anchored(ns)
    ensures Tracks(AddRmwEdge(ns, rank, f, r), RmwRank(ns, rank, f, r), log + {Rmw(f, r)})
  {
    var ns', rank', log' := AddRmwEdge(ns, rank, f, r), RmwRank(ns, rank, f, r), log + {Rmw(f, r)};
    ChainedAnchored(ns, rank);
    AddRmwEdgeShape(ns, rank, f, r);
    RmwCovered(ns, rank, log, f, r, RmwSet(ns'), EdgeSet(ns'));
    RmwChained(ns, rank, log, f, r, RmwSet(ns'), EdgeSet(ns'));
    assert (f, r) in RmwNewEdges(ns, rank, f, r);
    RmwRepresents(ns, ns', log, f, r);
    forall pos | Solves(pos, |ns'|, log') ensures Respects(pos, EdgeSet(ns')) {
      RmwNewEdgesSound(ns, rank, log, f, r, pos);
      assert Solves(pos, |ns|, log);
    }
  }

  /** Contention after one more read-modify-write: the write already had one. */
  lemma ContestedRmw(ns: Nodes, rank: seq<nat>, log: set<Constraint>, f: nat, r: nat)
    requires Tracks(ns, rank, log) && FreshFor(ns, f, r)
    ensures Contested(log + {Rmw(f, r)}) <==> Contested(log) || ns[f].rmw.Some?
  {
    NotLinkedYet(ns, f, r);
    if ns[f].rmw.Some? {
      var r0 := ns[f].rmw.value;
      assert (f, r0) in RmwSet(ns);
      assert Rmw(f, r0) in log + {Rmw(f, r)} && Rmw(f, r) in log + {Rmw(f, r)};
    }
    if Contested(log) {
      var g, s, s' :| Rmw(g, s) in log && Rmw(g, s') in log && s != s';
      assert Rmw(g, s) in log + {Rmw(f, r)} && Rmw(g, s') in log + {Rmw(f, r)};
    }
  }

  lemma ContestedBefore(log: set<Constraint>, a: nat, b: nat)
    ensures Contested(log + {Before(a, b)}) <==> Contested(log)
  {
    if Contested(log) {
      var g, s, s' :| Rmw(g, s) in log && Rmw(g, s') in log && s != s';
      assert Rmw(g, s) in log + {Before(a, b)} && Rmw(g, s') in log + {Before(a, b)};
    }
  }

  // ------------------------------------------------------------------
  // The cycle flag
  // ------------------------------------------------------------------

  /** Testing whether the new edge's target reaches its source keeps the flag exact. */
  lemma FlagStep(E: Edges, a: nat, b: nat, flag: bool, other: bool)
    requires !flag ==> Acyclic(E)
    ensures var flag' := flag || Reach(E + {(a, b)}, b, a);
            && (!flag' ==> Acyclic(E + {(a, b)}))
            && ((flag ==> !Acyclic(E) || other) ==> (flag' ==> !Acyclic(E + {(a, b)}) || other))
  {
    if Acyclic(E) {
      AcyclicAddEdge(E, a, b);
    } else if Acyclic(E + {(a, b)}) {
      AcyclicMono(E, E + {(a, b)});
    }
  }
}
