/**
 Modification orders that the standard allows: coherent with happens-before, atomic, and in
 keeping with the rules for sequentially consistent stores and fences. The constraints of the
 graph have a solution exactly when there is one.
 */
module StandardOrders {
  import opened Digraph
  import opened Optional
  import opened OrderConstraints
  import opened Clocks
  import opened Actions
  import opened HappensBefore
  import opened Coherence
  import opened TraceInvariant
  import opened MoConstraints
  import opened FenceRules
  import opened LawfulSteps

  // ------------------------------------------------------------------
  // Orders of the stores of a trace
  // ------------------------------------------------------------------

  /** A modification order puts the store at index `a` at place `order[a]`. */
  ghost predicate Apart(s: Trace, order: seq<nat>) {
    |order| == |s| &&
    forall a: nat, b: nat :: StoreFor(s, a, b) && s[b].kind.IsWrite() ==> order[a] != order[b]
  }

  predicate Sooner(order: seq<nat>, a: nat, b: nat) {
    a < |order| && b < |order| && order[a] < order[b]
  }

  /** What `b` reads is `a`, or comes later. */
  ghost predicate ReadsNoEarlier(s: Trace, order: seq<nat>, b: nat, a: nat) {
    b < |s| && s[b].rf.Some? && (a == s[b].rf.value || Sooner(order, a, s[b].rf.value))
  }

  /** 1.10 paragraphs 15 to 18 of ISO C++11. */
  ghost predicate CoherentStores(s: Trace, order: seq<nat>) {
    forall x: nat, y: nat, a: nat :: Precedent(s, x, y, a) ==>
      && (s[y].kind.IsRead() ==> ReadsNoEarlier(s, order, y, a))
      && (s[y].kind.IsWrite() ==> Sooner(order, a, y))
  }

  /** 29.3 paragraph 12: no store comes between a read-modify-write and what it reads. */
  ghost predicate AtomicStores(s: Trace, order: seq<nat>) {
    forall b: nat :: b < |s| && s[b].kind.Rmw? && s[b].rf.Some? ==>
      && Sooner(order, s[b].rf.value, b)
      && forall c: nat :: StoreFor(s, c, b) ==> !(Sooner(order, s[b].rf.value, c) && Sooner(order, c, b))
  }

  /** 29.3 paragraphs 4 to 7. */
  ghost predicate FencedStores(s: Trace, changed: set<nat>, order: seq<nat>) {
    && (forall a: nat, b: nat :: MustSee(s, changed, a, b) && s[b].kind.IsRead() ==> ReadsNoEarlier(s, order, b, a))
    && (forall a: nat, b: nat :: BothFenced(s, a, b) && s[b].kind.IsWrite() ==> Sooner(order, a, b))
  }

  /** 29.3 paragraph 3, as far as stores go. */
  ghost predicate ScOrderedStores(s: Trace, order: seq<nat>) {
    forall a: nat, b: nat :: ScStores(s, a, b) ==> Sooner(order, a, b)
  }

  /** The standard allows the order. For the reads of `changed`, paragraph 5 is left out. */
  ghost predicate Allowed(s: Trace, changed: set<nat>, order: seq<nat>) {
    && Apart(s, order) && CoherentStores(s, order) && AtomicStores(s, order)
    && FencedStores(s, changed, order) && ScOrderedStores(s, order)
  }

  // ------------------------------------------------------------------
  // From a solution to an order
  // ------------------------------------------------------------------

  /** The places that a solution gives to the stores with nodes; the others come last. */
  ghost function PlacesOf(s: Trace, t: map<nat, nat>, pos: seq<nat>, last: nat): (order: seq<nat>)
    ensures |order| == |s|
  {
    seq(|s|, a requires 0 <= a < |s| => if a in t && t[a] < |pos| then pos[t[a]] else last + a)
  }

  ghost predicate Under(pos: seq<nat>, last: nat) {
    forall i :: 0 <= i < |pos| ==> pos[i] < last
  }

  lemma {:induction false} HasBound(pos: seq<nat>) returns (last: nat)
    ensures Under(pos, last)
  {
    last := 0;
    if pos != [] {
      var init := HasBound(pos[..|pos| - 1]);
      last := if init > pos[|pos| - 1] then init else pos[|pos| - 1] + 1;
      forall i | 0 <= i < |pos| ensures pos[i] < last {
        if i < |pos| - 1 {
          assert pos[..|pos| - 1][i] == pos[i];
        }
      }
    }
  }

  /** Nodes of the table exist, and belong to one store each. */
  ghost predicate OneNodeEach(t: map<nat, nat>, n: nat) {
    (forall k :: k in t ==> t[k] < n) && forall j, k :: j in t && k in t && t[j] == t[k] ==> j == k
  }

  lemma EarlierSooner(s: Trace, t: map<nat, nat>, pos: seq<nat>, last: nat, a: nat, b: nat)
    requires Earlier(t, pos, a, b) && a < |s| && b < |s|
    ensures Sooner(PlacesOf(s, t, pos, last), a, b)
  {
  }

  lemma ReachSooner(s: Trace, M: Edges, t: map<nat, nat>, log: set<Constraint>, n: nat, pos: seq<nat>, last: nat,
                    a: nat, b: nat)
    requires Linked(s, M, t, log) && Solves(pos, n, log) && a < |s| && b < |s|
    ensures Reach(M, a, b) ==> a == b || Sooner(PlacesOf(s, t, pos, last), a, b)
    ensures Plus(M, a, b) ==> Sooner(PlacesOf(s, t, pos, last), a, b)
  {
    hide Linked, Solves, Reach, Plus, Earlier, Sooner, PlacesOf;
    if Plus(M, a, b) {
      SolutionPlus(s, M, t, log, n, pos, a, b);
      EarlierSooner(s, t, pos, last, a, b);
    } else if Reach(M, a, b) {
      SolutionReach(s, M, t, log, n, pos, a, b);
      if a != b {
        EarlierSooner(s, t, pos, last, a, b);
      }
    }
  }

  lemma PlacesApart(s: Trace, t: map<nat, nat>, pos: seq<nat>, last: nat)
    requires OneNodeEach(t, |pos|) && IsOrder(pos) && Under(pos, last)
    ensures Apart(s, PlacesOf(s, t, pos, last))
  {
  }

  /** A solution of the constraints orders the stores as the standard allows. */
  lemma SolutionAllowed(s: Trace, G: Edges, M: Edges, changed: set<nat>, t: map<nat, nat>, log: set<Constraint>,
                        pos: seq<nat>) returns (order: seq<nat>)
    requires Consistent(s, G, M, {}) && RulesSeen(s, M, {}, changed) && Linked(s, M, t, log)
    requires RmwConstrained(s, t, log) && OneNodeEach(t, |pos|) && Solves(pos, |pos|, log)
    ensures Allowed(s, changed, order)
  {
    hide Clocked, HB, Linked, Solves, RulesSeen, OwnSettled, Settled, UninitOnce, RmwLinked, WritesOnly, Apart,
         CoherentStores, AtomicStores, FencedStores, ScOrderedStores, RmwConstrained, OneNodeEach;
    var last := HasBound(pos);
    order := PlacesOf(s, t, pos, last);
    PlacesApart(s, t, pos, last) by {
      SolvesOrder(pos, |pos|, log);
    }
    SolutionCoherentStores(s, G, M, t, log, pos, last);
    LinkedStores(s, M, t, log);
    SolutionAtomicStores(s, t, log, pos, last);
    SolutionFencedStores(s, M, changed, t, log, pos, last);
  }

  lemma LinkedStores(s: Trace, M: Edges, t: map<nat, nat>, log: set<Constraint>)
    requires Linked(s, M, t, log)
    ensures forall k :: k in t ==> k < |s| && s[k].kind.IsWrite()
  {
  }

  lemma SolvesOrder(pos: seq<nat>, n: nat, log: set<Constraint>)
    requires Solves(pos, n, log)
    ensures IsOrder(pos) && |pos| == n
  {
  }

  lemma SolutionCoherentStores(s: Trace, G: Edges, M: Edges, t: map<nat, nat>, log: set<Constraint>, pos: seq<nat>,
                               last: nat)
    requires Consistent(s, G, M, {}) && Linked(s, M, t, log) && Solves(pos, |pos|, log)
    ensures CoherentStores(s, PlacesOf(s, t, pos, last))
  {
    hide Clocked, HB, Linked, Solves, OwnSettled, Settled, UninitOnce, RmwLinked, WritesOnly, Sooner, PlacesOf, Reach,
         Plus;
    forall x: nat, y: nat, a: nat | Precedent(s, x, y, a)
      ensures s[y].kind.IsRead() ==> ReadsNoEarlier(s, PlacesOf(s, t, pos, last), y, a)
      ensures s[y].kind.IsWrite() ==> Sooner(PlacesOf(s, t, pos, last), a, y)
    {
      AtomicKnown(s, y);
      PairCoherent(s, M, {}, x, y);
      if s[y].kind.IsRead() {
        assert ReadKnown(s, y);
        ReachSooner(s, M, t, log, |pos|, pos, last, a, s[y].rf.value);
      }
      if s[y].kind.IsWrite() {
        ReachSooner(s, M, t, log, |pos|, pos, last, a, y);
      }
    }
  }

  lemma SolutionAtomicStores(s: Trace, t: map<nat, nat>, log: set<Constraint>, pos: seq<nat>, last: nat)
    requires RmwConstrained(s, t, log) && Solves(pos, |pos|, log) && OneNodeEach(t, |pos|) && Under(pos, last)
    requires forall k :: k in t ==> k < |s|
    ensures AtomicStores(s, PlacesOf(s, t, pos, last))
  {
    hide Solves;
    var order := PlacesOf(s, t, pos, last);
    forall b: nat | b < |s| && s[b].kind.Rmw? && s[b].rf.Some?
      ensures Sooner(order, s[b].rf.value, b)
      ensures forall c: nat :: StoreFor(s, c, b) ==> !(Sooner(order, s[b].rf.value, c) && Sooner(order, c, b))
    {
      SolutionAtomic(s, t, log, |pos|, pos);
      assert Adjacent(pos, t[s[b].rf.value], t[b]);
    }
  }

  /** Every solution of the constraints keeps the rules. */
  lemma SolutionFencedStores(s: Trace, M: Edges, changed: set<nat>, t: map<nat, nat>, log: set<Constraint>,
                             pos: seq<nat>, last: nat)
    requires RulesSeen(s, M, {}, changed) && Linked(s, M, t, log) && Solves(pos, |pos|, log) && ReadsKnown(s, {})
    ensures FencedStores(s, changed, PlacesOf(s, t, pos, last)) && ScOrderedStores(s, PlacesOf(s, t, pos, last))
  {
    hide MustSee, BothFenced, ScStores, Linked, Solves, Reach, Plus, Sooner, PlacesOf, RulesSeen;
    var order := PlacesOf(s, t, pos, last);
    forall a: nat, b: nat | MustSee(s, changed, a, b) && AboutRead(s, changed, a, b)
      ensures ReadsNoEarlier(s, order, b, a)
    {
      assert ReadKnown(s, b);
      RulesAt(s, M, changed, b);
      ReachSooner(s, M, t, log, |pos|, pos, last, a, s[b].rf.value);
    }
    forall a: nat, b: nat | BothFenced(s, a, b) && AboutStore(s, a, b) ensures Sooner(order, a, b) {
      RulesAt(s, M, changed, b);
      ReachSooner(s, M, t, log, |pos|, pos, last, a, b);
    }
    forall a: nat, b: nat | ScStores(s, a, b) && AboutStore(s, a, b) ensures Sooner(order, a, b) {
      RulesAt(s, M, changed, b);
      ReachSooner(s, M, t, log, |pos|, pos, last, a, b);
    }
    RulesAbout(s, changed);
  }

  predicate AboutRead(s: Trace, changed: set<nat>, a: nat, b: nat) {
    a < |s| && b < |s| && s[b].kind.IsRead()
  }

  predicate AboutStore(s: Trace, a: nat, b: nat) {
    a < |s| && b < |s| && s[b].kind.IsWrite()
  }

  lemma RulesAbout(s: Trace, changed: set<nat>)
    ensures forall a: nat, b: nat :: MustSee(s, changed, a, b) && s[b].kind.IsRead() ==> AboutRead(s, changed, a, b)
    ensures forall a: nat, b: nat :: BothFenced(s, a, b) && s[b].kind.IsWrite() ==> AboutStore(s, a, b)
    ensures forall a: nat, b: nat :: ScStores(s, a, b) ==> AboutStore(s, a, b)
  {
  }

  // ------------------------------------------------------------------
  // From an order to a solution
  // ------------------------------------------------------------------

  /** What has a reason holds in every order that is allowed. */
  lemma ForcedSooner(s: Trace, changed: set<nat>, order: seq<nat>, a: nat, b: nat)
    requires Forced(s, changed, a, b) && Allowed(s, changed, order)
    ensures Sooner(order, a, b)
  {
    hide MustSee, BothFenced, ScStores, HB, Apart;
    if s[b].kind.Rmw? && s[b].rf == Some(a) {
    } else if ForcedByWrite(s, a, b) {
      if HasPrecedent(s, b, a) {
        var x: nat :| Precedent(s, x, b, a);
      }
    } else {
      var y: nat :| ForcedByRead(s, changed, a, b, y);
      if HasPrecedent(s, y, a) {
        var x: nat :| Precedent(s, x, y, a);
      }
    }
  }

  /** Later blocks have larger numbers. */
  lemma Blocks(l: nat, i: nat, m: nat, j: nat, k: nat)
    requires l < m && i < k
    ensures l * k + i < m * k + j
  {
    assert (l + 1) * k <= m * k;
  }

  /** The store that a node belongs to. */
  ghost predicate Owns(t: map<nat, nat>, i: nat, a: nat) {
    a in t && t[a] == i
  }

  ghost function Owner(t: map<nat, nat>, i: nat): (a: Option<nat>)
    ensures a.Some? ==> Owns(t, i, a.value)
    ensures a.None? ==> forall x: nat :: !Owns(t, i, x)
  {
    if a: nat :| Owns(t, i, a) then Some(a) else None
  }

  /** One location after the other, each in its order; nodes of no store come last. */
  ghost function PositionsOf(s: Trace, t: map<nat, nat>, n: nat, order: seq<nat>, k: nat, locations: nat)
    : (pos: seq<nat>)
    requires |order| == |s| && forall a :: a in t ==> a < |s|
    ensures |pos| == n
  {
    seq(n, i requires 0 <= i < n => PositionOf(s, t, order, k, locations, i))
  }

  ghost function PositionOf(s: Trace, t: map<nat, nat>, order: seq<nat>, k: nat, locations: nat, i: nat): nat
    requires |order| == |s| && forall a :: a in t ==> a < |s|
  {
    match Owner(t, i)
    case Some(a) => s[a].loc * k + order[a]
    case None => locations * k + i
  }

  ghost predicate Spaced(s: Trace, order: seq<nat>, k: nat, locations: nat) {
    |order| == |s| && Under(order, k) && forall a: nat :: a < |s| ==> s[a].loc < locations
  }

  lemma {:induction false} LocationsBound(s: Trace) returns (locations: nat)
    ensures forall a: nat :: a < |s| ==> s[a].loc < locations
  {
    var locs: seq<nat> := seq(|s|, a requires 0 <= a < |s| => s[a].loc);
    locations := HasBound(locs);
    forall a: nat | a < |s| ensures s[a].loc < locations {
      assert locs[a] == s[a].loc;
    }
  }

  lemma OwnerOf(t: map<nat, nat>, n: nat, a: nat)
    requires OneNodeEach(t, n) && a in t
    ensures Owner(t, t[a]) == Some(a)
  {
    assert Owns(t, t[a], a);
  }

  /** Positions of stores of one location are in their order, and no others lie between them. */
  lemma PositionsCompare(s: Trace, t: map<nat, nat>, order: seq<nat>, k: nat, locations: nat, a: nat, i: nat)
    requires Spaced(s, order, k, locations) && (forall x :: x in t ==> x < |s|) && a < |s|
    ensures var p, q := s[a].loc * k + order[a], PositionOf(s, t, order, k, locations, i);
            match Owner(t, i)
            case Some(b) => if s[b].loc == s[a].loc then q + order[a] == p + order[b]
                            else if s[b].loc < s[a].loc then q < s[a].loc * k
                            else q >= s[a].loc * k + k
            case None => q >= s[a].loc * k + k
  {
    assert order[a] < k;
    match Owner(t, i)
    case Some(b) =>
      assert order[b] < k;
      if s[b].loc < s[a].loc {
        Blocks(s[b].loc, order[b], s[a].loc, 0, k);
      } else if s[a].loc < s[b].loc {
        BlockEnd(s[a].loc, s[b].loc, k);
      }
    case None =>
      BlockEnd(s[a].loc, locations, k);
  }

  lemma BlockEnd(l: nat, m: nat, k: nat)
    requires l < m
    ensures l * k + k <= m * k
  {
    assert (l + 1) * k <= m * k;
  }

  lemma PositionsDistinct(s: Trace, t: map<nat, nat>, n: nat, order: seq<nat>, k: nat, locations: nat, i: nat, j: nat)
    requires Spaced(s, order, k, locations) && Apart(s, order) && OneNodeEach(t, n) && i < n && j < n && i != j
    requires forall x :: x in t ==> x < |s| && s[x].kind.IsWrite()
    ensures PositionOf(s, t, order, k, locations, i) != PositionOf(s, t, order, k, locations, j)
  {
    hide Spaced;
    assert |order| == |s| && Under(order, k) by {
      SpacedParts(s, order, k, locations);
    }
    match Owner(t, i)
    case Some(a) =>
      PositionsCompare(s, t, order, k, locations, a, j);
      assert Owns(t, i, a);
      if Owner(t, j).Some? {
        var b := Owner(t, j).value;
        assert a != b;
        assert s[a].loc == s[b].loc ==> StoreFor(s, a, b);
      }
    case None =>
      if Owner(t, j).Some? {
        PositionsCompare(s, t, order, k, locations, Owner(t, j).value, i);
      }
  }

  lemma SpacedParts(s: Trace, order: seq<nat>, k: nat, locations: nat)
    requires Spaced(s, order, k, locations)
    ensures |order| == |s| && Under(order, k)
  {
  }

  lemma PositionsEarlier(s: Trace, t: map<nat, nat>, n: nat, order: seq<nat>, k: nat, locations: nat, a: nat, b: nat)
    requires Spaced(s, order, k, locations) && OneNodeEach(t, n) && (forall x :: x in t ==> x < |s|)
    requires a in t && b in t && s[a].loc == s[b].loc && Sooner(order, a, b)
    ensures var pos := PositionsOf(s, t, n, order, k, locations); pos[t[a]] < pos[t[b]]
  {
    OwnerOf(t, n, a);
    OwnerOf(t, n, b);
  }

  lemma PositionsAdjacent(s: Trace, t: map<nat, nat>, n: nat, order: seq<nat>, k: nat, locations: nat, a: nat, b: nat)
    requires Spaced(s, order, k, locations) && OneNodeEach(t, n) && AtomicStores(s, order)
    requires forall x :: x in t ==> x < |s| && s[x].kind.IsWrite()
    requires a in t && b in t && s[a].loc == s[b].loc && s[b].kind.Rmw? && s[b].rf == Some(a)
    ensures Adjacent(PositionsOf(s, t, n, order, k, locations), t[a], t[b])
  {
    hide Spaced;
    SpacedParts(s, order, k, locations);
    PositionsEarlier(s, t, n, order, k, locations, a, b);
    var pos := PositionsOf(s, t, n, order, k, locations);
    OwnerOf(t, n, a);
    OwnerOf(t, n, b);
    forall i | 0 <= i < n ensures !(pos[t[a]] < pos[i] < pos[t[b]]) {
      PositionsCompare(s, t, order, k, locations, a, i);
      PositionsCompare(s, t, order, k, locations, b, i);
      if Owner(t, i).Some? && s[Owner(t, i).value].loc == s[b].loc {
        var c := Owner(t, i).value;
        assert c != b ==> StoreFor(s, c, b);
      }
    }
  }

  /** When nothing strays, an order that is allowed makes a solution of the constraints. */
  lemma AllowedSolves(s: Trace, M: Edges, changed: set<nat>, t: map<nat, nat>, log: set<Constraint>, n: nat,
                      order: seq<nat>) returns (pos: seq<nat>)
    requires Sourced(s, M, t, log) && AllForced(s, M, changed, {}) && OneNodeEach(t, n) && Allowed(s, changed, order)
    requires forall x :: x in t ==> x < |s| && s[x].kind.IsWrite()
    ensures Solves(pos, n, log)
  {
    hide Forced, CoherentStores, FencedStores, ScOrderedStores, AtomicStores, Adjacent, PositionOf, Apart;
    var k := HasBound(order);
    var locations := LocationsBound(s);
    assert |order| == |s| by {
      AsLong(s, changed, order);
    }
    pos := PositionsOf(s, t, n, order, k, locations);
    forall i, j | 0 <= i < j < n ensures pos[i] != pos[j] {
      PositionsDistinct(s, t, n, order, k, locations, i, j);
    }
    forall c | c in log ensures Meets(pos, c) {
      var a: nat, b: nat :| Source(s, M, t, c, a, b);
      assert !TouchedBy(s, {}, b);
      ForcedSooner(s, changed, order, a, b);
      OneLocation(s, changed, a, b);
      match c
      case Before(i, j) => PositionsEarlier(s, t, n, order, k, locations, a, b);
      case Rmw(i, j) => PositionsAdjacent(s, t, n, order, k, locations, a, b);
    }
  }

  lemma AsLong(s: Trace, changed: set<nat>, order: seq<nat>)
    requires Allowed(s, changed, order)
    ensures |order| == |s|
  {
  }

  lemma OneLocation(s: Trace, changed: set<nat>, a: nat, b: nat)
    requires Forced(s, changed, a, b)
    ensures a < |s| && b < |s| && s[a].loc == s[b].loc
  {
  }
}
