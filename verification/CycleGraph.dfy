/**
 The modification-order graph as the program keeps it: a table of nodes changed
 in place, lookup tables for actions and promises, rollback vectors and the
 cycle flag. Node references are indices into the table.
 */
module CycleGraphs {
  import opened Digraph
  import opened Optional
  import opened OrderConstraints
  import opened GraphHistory
  import opened NodeMerge
  import opened ChainEnds
  import opened MergeRings
  import opened BackEdges

  /** What a node stands for: a store or a promised future value. */
  datatype Key = Action(act: nat) | Promise(id: nat)

  /** The flag is exact: a cycle, or a write given two read-modify-writes. */
  ghost predicate Exact(flag: bool, ns: Nodes, log: set<Constraint>) {
    flag <==> !Acyclic(EdgeSet(ns)) || Contested(log)
  }

  ghost predicate Sane(ns: Nodes, rank: seq<nat>, flag: bool) {
    WellFormed(ns, rank) && Anchored(ns) && (!flag ==> Acyclic(EdgeSet(ns)))
  }

  /** Keys have nodes of the right kind, distinct keys distinct nodes. */
  ghost predicate Table(ns: Nodes, t: map<nat, nat>, p: bool) {
    && (forall k :: k in t ==> t[k] < |ns| && ns[t[k]].isPromise == p)
    && (forall j, k :: j in t && k in t && t[j] == t[k] ==> j == k)
  }

  /** The table `t'` is `t` with at most the given keys added. */
  ghost predicate Grown(t: map<nat, nat>, t': map<nat, nat>, keys: set<nat>) {
    t'.Keys <= t.Keys + keys && forall k :: k in t ==> k in t' && t'[k] == t[k]
  }

  ghost function Acts(keys: set<Key>): set<nat> {
    set k | k in keys && k.Action? :: k.act
  }

  ghost function Ids(keys: set<Key>): set<nat> {
    set k | k in keys && k.Promise? :: k.id
  }

  /** What mergeNodes does: it answers, or the walk behind one of its edges goes round for ever. */
  datatype MergeResult = Done(ok: bool) | Endless

  /**
   A merge in which every chain ends, `base` being the tables and `E0` the edges at its
   start; or one whose pointers form a circle through `r`, on the tables `ns0`.
   */
  datatype MergeView = Straight(base: Nodes, E0: Edges) | Round(ns0: Nodes, rank0: seq<nat>, r: nat)

  class CycleGraph {
    var nodes: Nodes
    var actionToNode: map<nat, nat>
    var promiseToNode: map<nat, nat>
    var hasCycles: bool
    var oldCycles: bool
    var rollbackvector: seq<nat>
    var rmwrollbackvector: seq<nat>

    /** Constraints asked for so far, and those of the last commit. */
    ghost var log: set<Constraint>
    ghost var oldLog: set<Constraint>
    /** The node table of the last commit, padded with the nodes made since. */
    ghost var oldNodes: Nodes
    ghost var rank: seq<nat>
    ghost var oldRank: seq<nat>
    /** No promise node has been merged since the last commit, or ever. */
    ghost var undoable: bool
    ghost var unmerged: bool

    ghost predicate Valid()
      reads this
    {
      && Table(nodes, actionToNode, false) && Table(nodes, promiseToNode, true)
      && Sane(nodes, rank, hasCycles)
      && Sane(oldNodes, oldRank, oldCycles)
      && |oldNodes| == |nodes|
      && (undoable ==> Extends(oldNodes, nodes, rollbackvector, rmwrollbackvector))
      && (unmerged ==> Decided())
    }

    ghost predicate Decided()
      reads this
    {
      && undoable
      && Tracks(nodes, rank, log) && Exact(hasCycles, nodes, log) && EndsCovered(RmwSet(nodes), EdgeSet(nodes))
      && Tracks(oldNodes, oldRank, oldLog) && Exact(oldCycles, oldNodes, oldLog)
      && EndsCovered(RmwSet(oldNodes), EdgeSet(oldNodes))
    }

    constructor ()
      ensures Valid() && unmerged && undoable
      ensures nodes == [] && log == {} && !hasCycles
      ensures actionToNode == map[] && promiseToNode == map[]
    {
      nodes, actionToNode, promiseToNode := [], map[], map[];
      hasCycles, oldCycles := false, false;
      rollbackvector, rmwrollbackvector := [], [];
      log, oldLog, oldNodes, rank, oldRank := {}, {}, [], [], [];
      undoable, unmerged := true, true;
      new;
      hide Sane, Extends, Tracks, EndsCovered, Exact;
      EmptyGraph(nodes, rank, log);
    }

    // ----------------------------------------------------------------
    // Nodes
    // ----------------------------------------------------------------

    function Lookup(k: Key): (n: Option<nat>)
      reads this
    {
      match k
      case Action(a) => if a in actionToNode then Some(actionToNode[a]) else None
      case Promise(p) => if p in promiseToNode then Some(promiseToNode[p]) else None
    }

    /** A new node, not yet in a table. */
    method MakeNode(p: bool) returns (n: nat)
      requires Valid()
      modifies this`nodes, this`rank, this`oldNodes, this`oldRank
      ensures Valid() && n == |old(nodes)|
      ensures nodes == old(nodes) + [Isolated(p)] && oldNodes == old(oldNodes) + [Isolated(p)]
    {
      hide Table, Sane, Extends, Tracks, EndsCovered, Exact;
      n := |nodes|;
      GrowTable(nodes, actionToNode, false, p);
      GrowTable(nodes, promiseToNode, true, p);
      GrowSane(nodes, rank, hasCycles, p);
      GrowSane(oldNodes, oldRank, oldCycles, p);
      if undoable {
        ExtendsGrow(oldNodes, nodes, rollbackvector, rmwrollbackvector, p);
      }
      if unmerged {
        GrowDecided(nodes, rank, log, hasCycles, p);
        GrowDecided(oldNodes, oldRank, oldLog, oldCycles, p);
      }
      nodes := nodes + [Isolated(p)];
      rank, oldNodes, oldRank := rank + [0], oldNodes + [Isolated(p)], oldRank + [0];
    }

    /** What looking up a key leaves: the key has a node, and only an isolated node may be new. */
    twostate predicate Fetched(t: map<nat, nat>, t': map<nat, nat>, key: nat, p: bool, n: nat)
      reads this
    {
      && n < |nodes| && nodes[n].isPromise == p && key in t' && t'[key] == n
      && (if key in t then t' == t && nodes == old(nodes) && oldNodes == old(oldNodes)
          else n == |old(nodes)| && t' == t[key := n] &&
               nodes == old(nodes) + [Isolated(p)] && oldNodes == old(oldNodes) + [Isolated(p)])
    }

    /** CycleGraph::getNode for a store: its node, made when it has none. */
    method GetActionNode(act: nat) returns (n: nat)
      requires Valid()
      modifies this`nodes, this`rank, this`oldNodes, this`oldRank, this`actionToNode
      ensures Valid() && Fetched(old(actionToNode), actionToNode, act, false, n)
    {
      hide Table, Sane, Extends, Tracks, EndsCovered, Exact;
      if act in actionToNode {
        n := actionToNode[act];
        InTable(nodes, actionToNode, false, act);
      } else {
        AddToTable(nodes, actionToNode, false, act);
        n := MakeNode(false);
        actionToNode := actionToNode[act := n];
      }
    }

    /** CycleGraph::getNode for a promise. */
    method GetPromiseNode(id: nat) returns (n: nat)
      requires Valid()
      modifies this`nodes, this`rank, this`oldNodes, this`oldRank, this`promiseToNode
      ensures Valid() && Fetched(old(promiseToNode), promiseToNode, id, true, n)
    {
      hide Table, Sane, Extends, Tracks, EndsCovered, Exact;
      if id in promiseToNode {
        n := promiseToNode[id];
        InTable(nodes, promiseToNode, true, id);
      } else {
        AddToTable(nodes, promiseToNode, true, id);
        n := MakeNode(true);
        promiseToNode := promiseToNode[id := n];
      }
    }

    method GetNode(k: Key) returns (n: nat)
      requires Valid()
      modifies this`nodes, this`rank, this`oldNodes, this`oldRank, this`actionToNode, this`promiseToNode
      ensures Valid() && n < |nodes| && Lookup(k) == Some(n) && nodes[n].isPromise == k.Promise?
      ensures if old(Lookup(k)).Some? then nodes == old(nodes) && oldNodes == old(oldNodes)
              else n == |old(nodes)| && nodes == old(nodes) + [Isolated(k.Promise?)] &&
                   oldNodes == old(oldNodes) + [Isolated(k.Promise?)]
      ensures old(Lookup(k)).Some? ==> actionToNode == old(actionToNode)
      ensures Grown(old(actionToNode), actionToNode, Acts({k}))
      ensures Grown(old(promiseToNode), promiseToNode, Ids({k}))
      ensures EdgeSet(nodes) == EdgeSet(old(nodes))
    {
      hide Valid, EdgeSet;
      GrowAnyKind(nodes);
      match k {
        case Action(a) => n := GetActionNode(a);
        case Promise(p) => n := GetPromiseNode(p);
      }
    }

    // ----------------------------------------------------------------
    // Edges
    // ----------------------------------------------------------------

    /** CycleGraph::checkReachable: depth-first search over a work stack. */
    method CheckReachable(from: nat, to: nat) returns (found: bool)
      requires Mirrored(nodes) && from < |nodes|
      ensures found <==> Reach(EdgeSet(nodes), from, to)
    {
      hide Searching, Expanding, Mirrored, EdgeSet, Reach;
      var discovered := {from};
      var queue := [from];
      SearchStarts(nodes, from, to);
      while queue != []
        invariant Searching(nodes, from, to, discovered, queue)
        decreases Below(|nodes|) - discovered, |queue|
      {
        var node := queue[|queue| - 1];
        assert queue == queue[..|queue| - 1] + [node];
        queue := queue[..|queue| - 1];
        ghost var q0, before := queue, discovered;
        SearchPops(nodes, from, to, discovered, queue, node);
        if node == to {
          return true;
        }
        var i := 0;
        while i < |nodes[node].edges|
          invariant i <= |nodes[node].edges|
          invariant Expanding(nodes, from, to, discovered, queue, node, i)
          invariant before <= discovered && (discovered == before ==> queue == q0)
        {
          var next := nodes[node].edges[i];
          SearchExpands(nodes, from, to, discovered, queue, node, i);
          if next !in discovered {
            discovered := discovered + {next};
            queue := queue + [next];
          }
          i := i + 1;
        }
        SearchExpanded(nodes, from, to, discovered, queue, node);
        DiscoveredShrinks(|nodes|, before, discovered);
      }
      SearchEnds(nodes, from, to, discovered);
      found := false;
    }

    /** CycleGraph::checkReachable for keys: nothing is reachable to or from a key without a node. */
    method CheckOrdered(from: Key, to: Key) returns (found: bool)
      requires Valid()
      ensures found <==> Lookup(from).Some? && Lookup(to).Some? &&
                         Reach(EdgeSet(nodes), Lookup(from).value, Lookup(to).value)
    {
      hide Mirrored, Ranked, Anchored, Acyclic, Extends, Tracks, EndsCovered, Exact, EdgeSet, Reach, Decided;
      var a := Lookup(from);
      var b := Lookup(to);
      if a.None? || b.None? {
        return false;
      }
      found := CheckReachable(a.value, b.value);
    }

    /** CycleNode::addEdge. */
    method NodeAddEdge(a: nat, b: nat) returns (added: bool)
      requires a < |nodes| && b < |nodes|
      modifies this`nodes
      ensures nodes == AddEdge(old(nodes), a, b)
      ensures added <==> b !in old(nodes)[a].edges
    {
      var i := 0;
      while i < |nodes[a].edges|
        invariant 0 <= i <= |nodes[a].edges|
        invariant forall j :: 0 <= j < i ==> nodes[a].edges[j] != b
      {
        if nodes[a].edges[i] == b {
          return false;
        }
        i := i + 1;
      }
      nodes := PushEdge(nodes, a, b);
      added := true;
    }

    ghost predicate RollsBack()
      reads this
    {
      Extends(oldNodes, nodes, rollbackvector, rmwrollbackvector)
    }

    /** One edge with its rollback entry and its cycle check. */
    method PushChecked(a: nat, b: nat, ghost other: bool) returns (added: bool)
      requires Mirrored(nodes) && a < |nodes| && b < |nodes|
      requires !hasCycles ==> Acyclic(EdgeSet(nodes))
      modifies this`nodes, this`hasCycles, this`rollbackvector
      ensures nodes == AddEdge(old(nodes), a, b)
      ensures Mirrored(nodes) && RmwSet(nodes) == RmwSet(old(nodes))
      ensures EdgeSet(nodes) == EdgeSet(old(nodes)) + {(a, b)}
      ensures added <==> b !in old(nodes)[a].edges
      ensures !hasCycles ==> Acyclic(EdgeSet(nodes))
      ensures (old(hasCycles) ==> !Acyclic(EdgeSet(old(nodes))) || other) ==>
                (hasCycles ==> !Acyclic(EdgeSet(nodes)) || other)
      ensures old(hasCycles) ==> hasCycles
      ensures old(RollsBack()) ==> RollsBack()
    {
      hide Mirrored, EdgeSet, RmwSet, Reach, Acyclic, Extends;
      AddEdgeMirrored(nodes, a, b);
      added := NodeAddEdge(a, b);
      if !added {
        return;
      }
      rollbackvector := rollbackvector + [a];
      if old(RollsBack()) {
        ExtendsPush(oldNodes, old(nodes), old(rollbackvector), rmwrollbackvector, a, b);
      }
      FlagStep(EdgeSet(old(nodes)), a, b, hasCycles, other);
      if !hasCycles {
        hasCycles := CheckReachable(b, a);
      }
    }

    /**
     The walk to the end of a chain, or to `to`. A walk of more steps than there are
     nodes goes round for ever: then there is no answer.
     */
    method WalkChain(start: nat, to: nat) returns (r: Option<nat>)
      requires Pointing(nodes) && start < |nodes|
      ensures r == WalkStop(nodes, start, to, |nodes|)
      ensures r.None? <==> !WalkEnds(nodes, start, to)
    {
      WalkBounded(nodes, start, to);
      var node: nat, n: nat := start, |nodes|;
      while node != to && nodes[node].rmw.Some?
        invariant node < |nodes| && WalkStop(nodes, node, to, n) == WalkStop(nodes, start, to, |nodes|)
        decreases n
      {
        if n == 0 {
          return None;
        }
        node := nodes[node].rmw.value;
        n := n - 1;
      }
      r := Some(node);
    }

    /**
     CycleGraph::addNodeEdge on any table, as far as it gets. The flag stays exact
     relative to `other`, the part of its meaning that edges do not decide.
     */
    method AddNodeEdgeOnce(a: nat, b: nat, ghost other: bool) returns (added: bool, ended: bool)
      requires Mirrored(nodes) && Pointing(nodes) && a < |nodes| && b < |nodes|
      requires !hasCycles ==> Acyclic(EdgeSet(nodes))
      modifies this`nodes, this`hasCycles, this`rollbackvector
      ensures nodes == EdgeAdded(old(nodes), a, b)
      ensures (added <==> b !in old(nodes)[a].edges) && (!added ==> nodes == old(nodes))
      ensures ended <==> AddEnds(old(nodes), a, b)
      ensures !hasCycles ==> Acyclic(EdgeSet(nodes))
      ensures (old(hasCycles) ==> !Acyclic(EdgeSet(old(nodes))) || other) ==>
                (hasCycles ==> !Acyclic(EdgeSet(nodes)) || other)
      ensures old(hasCycles) ==> hasCycles
      ensures old(RollsBack()) ==> RollsBack()
    {
      hide Mirrored, EdgeSet, RmwSet, Reach, Acyclic, Extends, PushEdge, WalkStop, WalkEnds;
      ghost var ns := nodes;
      ended := true;
      added := PushChecked(a, b, other);
      if !added {
        return;
      }
      var rmwnode := nodes[a].rmw;
      if rmwnode.Some? {
        SamePointersWalk(ns, nodes, rmwnode.value, b);
        var r := WalkChain(rmwnode.value, b);
        if r.None? {
          ended := false;
        } else if r.value != b {
          var _ := PushChecked(r.value, b, other);
        }
      }
    }

    /** CycleGraph::addNodeEdge where chains end. */
    method AddNodeEdgeTo(a: nat, b: nat, ghost other: bool) returns (added: bool)
      requires WellFormed(nodes, rank) && a < |nodes| && b < |nodes|
      requires !hasCycles ==> Acyclic(EdgeSet(nodes))
      modifies this`nodes, this`hasCycles, this`rollbackvector
      ensures nodes == AddNodeEdge(old(nodes), rank, a, b)
      ensures WellFormed(nodes, rank) && RmwSet(nodes) == RmwSet(old(nodes))
      ensures EdgeSet(nodes) == EdgeSet(old(nodes)) + NewEdges(old(nodes), rank, a, b)
      ensures (added <==> b !in old(nodes)[a].edges) && (!added ==> nodes == old(nodes))
      ensures !hasCycles ==> Acyclic(EdgeSet(nodes))
      ensures (old(hasCycles) ==> !Acyclic(EdgeSet(old(nodes))) || other) ==>
                (hasCycles ==> !Acyclic(EdgeSet(nodes)) || other)
      ensures old(hasCycles) ==> hasCycles
      ensures old(RollsBack()) ==> RollsBack()
    {
      hide Mirrored, Ranked, EdgeSet, RmwSet, Reach, Acyclic, Extends, AddNodeEdge, NewEdges, EdgeAdded, EdgesAdded,
           AddEnds;
      EdgeAddedRanked(nodes, rank, a, b);
      AddNodeEdgeShape(nodes, rank, a, b);
      var ended;
      added, ended := AddNodeEdgeOnce(a, b, other);
    }

    /** The same on a whole graph: the constraint is recorded. */
    method AddOrder(a: nat, b: nat) returns (added: bool)
      requires Valid() && a < |nodes| && b < |nodes|
      modifies this`nodes, this`hasCycles, this`rollbackvector, this`log
      ensures Valid()
      ensures log == old(log) + {Before(a, b)} && |nodes| == |old(nodes)|
      ensures added <==> b !in old(nodes)[a].edges
      ensures EdgeSet(old(nodes)) + {(a, b)} <= EdgeSet(nodes) && (!added ==> nodes == old(nodes))
      ensures old(hasCycles) ==> hasCycles
    {
      hide Table, Mirrored, Ranked, Anchored, Acyclic, Extends, AddNodeEdge, Tracks, EndsCovered, Exact, NewEdges,
           EdgeSet, RmwSet;
      ghost var ns, l := nodes, log;
      if unmerged {
        TracksAddNodeEdge(ns, rank, l, a, b);
        EndsCoveredAdd(ns, rank, a, b);
      }
      added := AddNodeEdgeTo(a, b, Contested(l));
      NewEdgesHave(ns, rank, a, b);
      log := log + {Before(a, b)};
      TableUnchanged(ns, nodes, rank, a, b, actionToNode, false);
      TableUnchanged(ns, nodes, rank, a, b, promiseToNode, true);
      AnchoredMono(ns, nodes);
      if unmerged {
        BeforeExact(ns, nodes, l, a, b, old(hasCycles), hasCycles);
      }
    }

    /** The nodes of two keys have an edge. */
    ghost predicate HasEdge(from: Key, to: Key)
      reads this
    {
      Lookup(from).Some? && Lookup(to).Some? && (Lookup(from).value, Lookup(to).value) in EdgeSet(nodes)
    }

    lemma EdgesKnown()
      requires Valid()
      ensures forall x: nat, y: nat :: (x, y) in EdgeSet(nodes) ==> x < |nodes| && y < |nodes|
    {
      hide Table, Ranked, Anchored, Acyclic, Extends, Tracks, EndsCovered, Exact, Decided;
    }

    /** The nodes of two keys, made where there are none. */
    method GetNodes(from: Key, to: Key) returns (a: nat, b: nat)
      requires Valid()
      modifies this`nodes, this`rank, this`oldNodes, this`oldRank, this`actionToNode, this`promiseToNode
      ensures Valid() && a < |nodes| && b < |nodes| && Lookup(from) == Some(a) && Lookup(to) == Some(b)
      ensures EdgeSet(nodes) == EdgeSet(old(nodes))
      ensures old(HasEdge(from, to)) <==> b in nodes[a].edges
      ensures old(HasEdge(from, to)) ==> actionToNode == old(actionToNode)
      ensures Grown(old(actionToNode), actionToNode, Acts({from, to}))
      ensures Grown(old(promiseToNode), promiseToNode, Ids({from, to}))
    {
      hide Valid, EdgeSet;
      EdgesKnown();
      a := GetNode(from);
      EdgesKnown();
      b := GetNode(to);
      EdgeInSet(nodes, a, b);
    }

    /** CycleGraph::addEdge. */
    method AddEdgeBetween(from: Key, to: Key) returns (added: bool)
      requires Valid()
      modifies this`nodes, this`rank, this`oldNodes, this`oldRank, this`actionToNode, this`promiseToNode,
               this`hasCycles, this`rollbackvector, this`log
      ensures Valid()
      ensures Lookup(from).Some? && Lookup(to).Some?
      ensures log == old(log) + {Before(Lookup(from).value, Lookup(to).value)}
      ensures HasEdge(from, to) && EdgeSet(old(nodes)) <= EdgeSet(nodes) && (added <==> !old(HasEdge(from, to)))
      ensures !added ==> EdgeSet(nodes) == EdgeSet(old(nodes)) && actionToNode == old(actionToNode)
      ensures Grown(old(actionToNode), actionToNode, Acts({from, to}))
      ensures Grown(old(promiseToNode), promiseToNode, Ids({from, to}))
      ensures old(hasCycles) ==> hasCycles
    {
      hide Valid, EdgeSet, Grown, Acts, Ids;
      var a, b := GetNodes(from, to);
      added := AddOrder(a, b);
    }

    // ----------------------------------------------------------------
    // Read-modify-writes
    // ----------------------------------------------------------------

    /** One successor is handed over, unless it is the read-modify-write itself. */
    method TransferEdge(r: nat, tonode: nat)
      requires WellFormed(nodes, rank) && r < |nodes| && tonode < |nodes| && nodes[r].back == []
      requires !hasCycles ==> Acyclic(EdgeSet(nodes))
      modifies this`nodes, this`rollbackvector
      ensures nodes == if tonode == r then old(nodes) else AddEdge(old(nodes), r, tonode)
      ensures WellFormed(nodes, rank) && nodes[r].back == []
      ensures forall x :: 0 <= x < |nodes| && x != r ==> nodes[x].edges == old(nodes)[x].edges
      ensures !hasCycles ==> Acyclic(EdgeSet(nodes))
      ensures old(RollsBack()) ==> RollsBack()
    {
      hide WellFormed, EdgeSet, Acyclic, Extends;
      if tonode != r {
        TransferAcyclic(nodes, rank, r, tonode, hasCycles);
        ghost var before := nodes;
        var added := NodeAddEdge(r, tonode);
        if added {
          rollbackvector := rollbackvector + [r];
          if old(RollsBack()) {
            ExtendsPush(oldNodes, before, old(rollbackvector), rmwrollbackvector, r, tonode);
          }
        }
      }
    }

    /** The loop that hands the successors of `f` to its read-modify-write. */
    method TransferSuccessors(f: nat, r: nat)
      requires WellFormed(nodes, rank) && f < |nodes| && r < |nodes| && f != r
      requires nodes[r].back == [] || nodes[f].edges == []
      requires !hasCycles ==> Acyclic(EdgeSet(nodes))
      requires Indices(nodes[f].edges, |nodes|)
      modifies this`nodes, this`rollbackvector
      ensures nodes == Transfer(old(nodes), old(nodes)[f].edges, r)
      ensures WellFormed(nodes, rank) && RmwSet(nodes) == RmwSet(old(nodes))
      ensures EdgeSet(nodes) == EdgeSet(old(nodes)) + TransferEdges(old(nodes)[f].edges, r)
      ensures !hasCycles ==> Acyclic(EdgeSet(nodes))
      ensures old(RollsBack()) ==> RollsBack()
    {
      hide WellFormed, Mirrored, Ranked, EdgeSet, RmwSet, Acyclic, Extends, TransferEdges;
      ghost var ns, es := nodes, nodes[f].edges;
      TransferNone(ns, r);
      var i := 0;
      while i < |nodes[f].edges|
        invariant i <= |es| && |nodes| == |ns| && nodes[f].edges == es && (nodes[r].back == [] || es == [])
        invariant nodes == Transfer(ns, es[..i], r) && WellFormed(nodes, rank)
        invariant !hasCycles ==> Acyclic(EdgeSet(nodes))
        invariant old(RollsBack()) ==> RollsBack()
        decreases |es| - i
      {
        var tonode := nodes[f].edges[i];
        TransferOne(ns, es, i, r);
        TransferEdge(r, tonode);
        i := i + 1;
      }
      assert es[..i] == es;
      TransferKeeps(ns, rank, es, r);
    }

    /** CycleNode::setRMW and its bookkeeping. */
    method SetRmwChecked(f: nat, r: nat)
      requires WellFormed(nodes, rank) && Anchored(nodes) && FreshFor(nodes, f, r)
      modifies this`nodes, this`hasCycles, this`rank, this`rmwrollbackvector
      ensures nodes == SetRmw(old(nodes), f, r) && rank == RmwRank(old(nodes), old(rank), f, r)
      ensures hasCycles == (old(hasCycles) || old(nodes)[f].rmw.Some?)
      ensures old(RollsBack()) ==> RollsBack()
    {
      hide Mirrored, Anchored, EdgeSet, RmwSet, Extends;
      if nodes[f].rmw.Some? {
        hasCycles := true;
      } else {
        if RollsBack() {
          ExtendsPoint(oldNodes, nodes, rollbackvector, rmwrollbackvector, f, r);
        }
        rank := RmwRank(nodes, rank, f, r);
        nodes := SetRmw(nodes, f, r);
        rmwrollbackvector := rmwrollbackvector + [f];
      }
    }

    /** The graph part of CycleGraph::addRMWEdge. */
    method LinkRmw(f: nat, r: nat, ghost other: bool)
      requires WellFormed(nodes, rank) && Anchored(nodes) && FreshFor(nodes, f, r)
      requires !hasCycles ==> Acyclic(EdgeSet(nodes))
      requires nodes[f].rmw.Some? ==> other
      requires hasCycles ==> !Acyclic(EdgeSet(nodes)) || other
      modifies this`nodes, this`hasCycles, this`rank, this`rollbackvector, this`rmwrollbackvector
      ensures nodes == AddRmwEdge(old(nodes), old(rank), f, r) && rank == RmwRank(old(nodes), old(rank), f, r)
      ensures WellFormed(nodes, rank)
      ensures !hasCycles ==> Acyclic(EdgeSet(nodes)) && old(nodes)[f].rmw.None?
      ensures hasCycles ==> !Acyclic(EdgeSet(nodes)) || other
      ensures old(hasCycles) ==> hasCycles
      ensures old(RollsBack()) ==> RollsBack()
    {
      hide Mirrored, Ranked, Anchored, Acyclic, Extends, AddNodeEdge, NewEdges, EdgeSet, RmwSet, TransferEdges,
           Transfer, SetRmw, RmwRank, RmwNewEdges, AddRmwEdge;
      ghost var ns, rk := nodes, rank;
      SetRmwKeeps(ns, rk, f, r);
      SetRmwFrame(ns, f, r);
      EdgesAreIndices(ns, f);
      SetRmwChecked(f, r);
      TransferSuccessors(f, r);
      ghost var ns2 := nodes;
      AcyclicUnless(EdgeSet(ns), EdgeSet(ns2));
      var _ := AddNodeEdgeTo(f, r, other);
      AddRmwEdgeIs(ns, rk, f, r, ns2, nodes);
    }

    /** CycleGraph::addRMWEdge between nodes: `r` is fresh, as the comment in the source has it. */
    method AddRmw(f: nat, r: nat)
      requires Valid() && FreshFor(nodes, f, r)
      modifies this`nodes, this`hasCycles, this`rank, this`rollbackvector, this`rmwrollbackvector, this`log
      ensures Valid()
      ensures log == old(log) + {Rmw(f, r)} && |nodes| == |old(nodes)|
      ensures EdgeSet(old(nodes)) + {(f, r)} <= EdgeSet(nodes)
      ensures old(hasCycles) ==> hasCycles
    {
      hide Table, WellFormed, Anchored, Acyclic, Extends, Tracks, EndsCovered, Contested, EdgeSet, AddRmwEdge, RmwRank,
           FreshFor;
      ghost var ns, l, rk := nodes, log, rank;
      AnchoredRmw(ns, rk, f, r);
      RmwTable(ns, rk, f, r, actionToNode, false);
      RmwTable(ns, rk, f, r, promiseToNode, true);
      if unmerged {
        BuiltRmw(ns, rk, l, f, r);
      }
      LinkRmw(f, r, if unmerged then Contested(l + {Rmw(f, r)}) else true);
      log := log + {Rmw(f, r)};
      AddRmwMono(ns, rk, f, r);
      AcyclicUnless(EdgeSet(ns), EdgeSet(nodes));
    }

    /**
     What addRMWEdge assumes of a read-modify-write that has a node already: nobody reads from
     it, it reads from nobody, and nothing is ordered before it, or nothing after what it reads.
     */
    ghost predicate MayReadFrom(from: Key, rmw: nat)
      reads this
    {
      rmw in actionToNode && actionToNode[rmw] < |nodes| ==>
        var r := actionToNode[rmw];
        && nodes[r].rmw.None? && (forall g: nat :: (g, r) !in RmwSet(nodes))
        && (nodes[r].back == [] || NothingAfter(Lookup(from), nodes))
    }

    /** The node of a read-modify-write, made when it has none. */
    method GetFreshNode(from: Key, f: nat, rmw: nat) returns (r: nat)
      requires Valid() && from != Action(rmw) && Lookup(from) == Some(f) && f < |nodes| && MayReadFrom(from, rmw)
      modifies this`nodes, this`rank, this`oldNodes, this`oldRank, this`actionToNode
      ensures Valid() && Lookup(from) == Some(f)
      ensures rmw in actionToNode && actionToNode[rmw] == r && FreshFor(nodes, f, r)
      ensures Grown(old(actionToNode), actionToNode, {rmw}) && EdgeSet(nodes) == EdgeSet(old(nodes))
    {
      hide Mirrored, Anchored, Extends, Tracks, EndsCovered, Exact, RmwSet, Acyclic, EdgeSet;
      GrowAnyKind(nodes);
      if rmw !in actionToNode {
        NewIsFresh(nodes, rank, f);
      }
      r := GetActionNode(rmw);
      KeysDiffer(nodes, actionToNode, promiseToNode, from, rmw, f, r);
    }

    /** The nodes of a write and of a read-modify-write that may read from it. */
    method GetRmwNodes(from: Key, rmw: nat) returns (f: nat, r: nat)
      requires Valid() && from != Action(rmw) && MayReadFrom(from, rmw)
      modifies this`nodes, this`rank, this`oldNodes, this`oldRank, this`actionToNode, this`promiseToNode
      ensures Valid() && Lookup(from) == Some(f) && rmw in actionToNode && actionToNode[rmw] == r
      ensures FreshFor(nodes, f, r) && EdgeSet(nodes) == EdgeSet(old(nodes))
      ensures Grown(old(actionToNode), actionToNode, Acts({from}) + {rmw})
      ensures Grown(old(promiseToNode), promiseToNode, Ids({from}))
    {
      hide Valid, FreshFor, Ids, RmwSet, EdgeSet;
      if rmw in actionToNode {
        KnownAction(rmw);
      }
      GrowPointers(nodes);
      f := GetNode(from);
      r := GetFreshNode(from, f, rmw);
    }

    /** CycleGraph::addRMWEdge. */
    method AddRmwEdgeBetween(from: Key, rmw: nat)
      requires Valid() && from != Action(rmw) && MayReadFrom(from, rmw)
      modifies this`nodes, this`rank, this`oldNodes, this`oldRank, this`actionToNode, this`promiseToNode,
               this`hasCycles, this`rollbackvector, this`rmwrollbackvector, this`log
      ensures Valid()
      ensures Lookup(from).Some? && rmw in actionToNode
      ensures log == old(log) + {Rmw(Lookup(from).value, actionToNode[rmw])}
      ensures HasEdge(from, Action(rmw)) && EdgeSet(old(nodes)) <= EdgeSet(nodes)
      ensures Grown(old(actionToNode), actionToNode, Acts({from}) + {rmw})
      ensures Grown(old(promiseToNode), promiseToNode, Ids({from}))
      ensures old(hasCycles) ==> hasCycles
    {
      hide Valid, FreshFor, Ids, RmwSet, EdgeSet, MayReadFrom, Grown;
      var f, r := GetRmwNodes(from, rmw);
      AddRmw(f, r);
    }

    lemma KnownAction(k: nat)
      requires Valid() && k in actionToNode
      ensures actionToNode[k] < |nodes|
    {
      hide Sane, Extends, Tracks, EndsCovered, Exact;
    }

    // ----------------------------------------------------------------
    // Commit and rollback
    // ----------------------------------------------------------------

    /** CycleGraph::checkForCycles, and what its answer means. */
    method CheckForCycles() returns (cycles: bool)
      requires Valid()
      ensures cycles == hasCycles
      ensures !cycles ==> Acyclic(EdgeSet(nodes))
      ensures unmerged ==> (cycles <==> !Satisfiable(|nodes|, log))
    {
      hide WellFormed, Anchored, Acyclic, Extends, Tracks, EndsCovered, Contested, Satisfiable;
      if unmerged {
        Decides(nodes, rank, log);
      }
      cycles := hasCycles;
    }

    /** CycleGraph::commitChanges. */
    method CommitChanges()
      requires Valid()
      modifies this`rollbackvector, this`rmwrollbackvector, this`oldCycles, this`oldNodes, this`oldRank, this`oldLog,
               this`undoable
      ensures Valid() && undoable
      ensures rollbackvector == [] && rmwrollbackvector == []
      ensures oldNodes == nodes && oldLog == log && oldCycles == hasCycles
    {
      hide Table, Sane, Extends, Tracks, EndsCovered, Exact;
      SaneMirrored(nodes, rank, hasCycles);
      rollbackvector, rmwrollbackvector := [], [];
      oldCycles := hasCycles;
      oldNodes, oldRank, oldLog, undoable := nodes, rank, log, true;
      ExtendsRefl(nodes);
    }

    /** CycleNode::removeEdge. */
    method RemoveEdge(a: nat) returns (popped: Option<nat>)
      requires a < |nodes| && Mirrored(nodes)
      modifies this`nodes
      ensures if old(nodes)[a].edges == [] then popped.None? && nodes == old(nodes)
              else var t := old(nodes)[a].edges[|old(nodes)[a].edges| - 1];
                   t < |old(nodes)| && popped == Some(t) && nodes == PopEdge(old(nodes), a)
    {
      if nodes[a].edges == [] {
        return None;
      }
      PopEdgeMirrored(nodes, a);
      popped := Some(nodes[a].edges[|nodes[a].edges| - 1]);
      nodes := PopEdge(nodes, a);
    }

    /** CycleGraph::rollbackChanges: the committed graph is back, new nodes left isolated. */
    method RollbackChanges()
      requires Valid() && undoable
      modifies this`nodes, this`hasCycles, this`rank, this`rollbackvector, this`rmwrollbackvector, this`log
      ensures Valid()
      ensures nodes == oldNodes && hasCycles == oldCycles && log == oldLog
      ensures rollbackvector == [] && rmwrollbackvector == []
    {
      hide Table, Sane, Extends, Tracks, EndsCovered, Exact;
      SaneMirrored(oldNodes, oldRank, oldCycles);
      ExtendsRefl(oldNodes);
      RollbackEdges();
      RollbackPointers();
      TableMoved(old(nodes), nodes, actionToNode, false);
      TableMoved(old(nodes), nodes, promiseToNode, true);
      hasCycles := oldCycles;
      rollbackvector, rmwrollbackvector := [], [];
      rank, log := oldRank, oldLog;
    }

    method RollbackEdges()
      requires Extends(oldNodes, nodes, rollbackvector, rmwrollbackvector)
      modifies this`nodes
      ensures Extends(oldNodes, nodes, [], rmwrollbackvector)
      ensures |nodes| == |old(nodes)| && SameKinds(old(nodes), nodes)
    {
      hide NodeExtends, Mirrored, Extends;
      var i := 0;
      assert rollbackvector[0..] == rollbackvector;
      while i < |rollbackvector|
        invariant i <= |rollbackvector| && Extends(oldNodes, nodes, rollbackvector[i..], rmwrollbackvector)
        invariant |nodes| == |old(nodes)| && SameKinds(old(nodes), nodes)
      {
        ExtendsPop(oldNodes, nodes, rollbackvector[i..], rmwrollbackvector);
        assert rollbackvector[i..][1..] == rollbackvector[i + 1..];
        ExtendsMirrored(oldNodes, nodes, rollbackvector[i..], rmwrollbackvector);
        var _ := RemoveEdge(rollbackvector[i]);
        i := i + 1;
      }
      assert rollbackvector[i..] == [];
    }

    method RollbackPointers()
      requires Extends(oldNodes, nodes, [], rmwrollbackvector)
      modifies this`nodes
      ensures nodes == oldNodes
      ensures |nodes| == |old(nodes)| && SameKinds(old(nodes), nodes)
    {
      hide NodeExtends, Mirrored, Extends;
      var i := 0;
      assert rmwrollbackvector[0..] == rmwrollbackvector;
      while i < |rmwrollbackvector|
        invariant i <= |rmwrollbackvector| && Extends(oldNodes, nodes, [], rmwrollbackvector[i..])
        invariant |nodes| == |old(nodes)| && SameKinds(old(nodes), nodes)
      {
        ExtendsClear(oldNodes, nodes, rmwrollbackvector[i..]);
        assert rmwrollbackvector[i..][1..] == rmwrollbackvector[i + 1..];
        nodes := nodes[rmwrollbackvector[i] := nodes[rmwrollbackvector[i]].(rmw := None)];
        i := i + 1;
      }
      assert rmwrollbackvector[i..] == [];
      ExtendsNothing(oldNodes, nodes);
    }

    // ----------------------------------------------------------------
    // Promises
    // ----------------------------------------------------------------

    /** CycleNode::removeBackEdge. */
    method RemoveBackEdge(p: nat) returns (back: Option<nat>)
      requires p < |nodes| && Mirrored(nodes)
      modifies this`nodes
      ensures if old(nodes)[p].back == [] then back.None? && nodes == old(nodes)
              else var b := old(nodes)[p].back[|old(nodes)[p].back| - 1];
                   b < |old(nodes)| && back == Some(b) && nodes == PopBackEdge(old(nodes), p)
    {
      if nodes[p].back == [] {
        return None;
      }
      PopBackEdgeKeeps(nodes, p);
      back := Some(nodes[p].back[|nodes[p].back| - 1]);
      nodes := PopBackEdge(nodes, p);
    }

    /** One turn of the first loop of CycleGraph::mergeNodes. */
    method TakeBackEdge(p: nat, w: nat)
      requires Mirrored(nodes) && Pointing(nodes) && p < |nodes| && w < |nodes| && nodes[p].back != []
      requires !hasCycles ==> Acyclic(EdgeSet(nodes))
      modifies this`nodes, this`hasCycles, this`rollbackvector
      ensures nodes == BackTurn(old(nodes), p, w)
      ensures !hasCycles ==> Acyclic(EdgeSet(nodes))
      ensures if old(hasCycles) then hasCycles else hasCycles ==> !Acyclic(EdgeSet(nodes))
    {
      hide Mirrored, EdgeSet, RmwSet, Acyclic, Extends, PopBackEdge, EdgeAdded, AddEnds;
      PopBackEdgeKeeps(nodes, p);
      PopBackFrame(nodes, p);
      ghost var E := EdgeSet(nodes);
      var popped := RemoveBackEdge(p);
      var back := popped.value;
      PopKeepsAcyclic(E, back, p);
      if back != w {
        var _, _ := AddNodeEdgeOnce(back, w, false);
      }
    }

    /** One turn of the second loop, if it ends. */
    method TakeEdge(p: nat, w: nat) returns (ended: bool)
      requires Mirrored(nodes) && Pointing(nodes) && p < |nodes| && w < |nodes| && nodes[p].edges != []
      requires !hasCycles ==> Acyclic(EdgeSet(nodes))
      modifies this`nodes, this`hasCycles, this`rollbackvector
      ensures nodes == ForwardTurn(old(nodes), p, w)
      ensures var t := old(nodes)[p].edges[|old(nodes)[p].edges| - 1];
              && t < |nodes| && Pointing(PopEdge(old(nodes), p))
              && (ended <==> t == w || AddEnds(PopEdge(old(nodes), p), w, t))
      ensures !hasCycles ==> Acyclic(EdgeSet(nodes))
      ensures if old(hasCycles) then hasCycles else hasCycles ==> !Acyclic(EdgeSet(nodes))
    {
      hide Mirrored, EdgeSet, RmwSet, Acyclic, Extends, PopEdge, EdgeAdded, AddEnds;
      PopEdgeSets(nodes, p);
      PopEdgeMirrored(nodes, p);
      PopFrame(nodes, p);
      ghost var E := EdgeSet(nodes);
      var popped := RemoveEdge(p);
      var forward := popped.value;
      PopKeepsAcyclic(E, p, forward);
      ended := true;
      if forward != w {
        var _, end := AddNodeEdgeOnce(w, forward, false);
        ended := end;
      }
    }

    /** One back edge of the promise node becomes one of the write's node. */
    method MoveBackEdge(p: nat, w: nat, ghost view: MergeView)
      requires MergeState(nodes, rank, hasCycles, view, p, w) && p < |nodes| && nodes[p].back != []
      modifies this`nodes, this`hasCycles, this`rollbackvector
      ensures MergeState(nodes, rank, hasCycles, view, p, w) && SameKinds(old(nodes), nodes)
      ensures |nodes[p].back| < |old(nodes)[p].back|
      ensures old(hasCycles) ==> hasCycles
      ensures !old(hasCycles) && hasCycles ==> WithinBounds(rank, view, p, w)
      ensures view.Round? ==> forall t :: t != p && t in old(nodes)[p].edges ==> t in nodes[p].edges
      ensures !old(hasCycles) && AsBefore(old(nodes), view, p, w) ==>
                AsBefore(nodes, view, p, w) && nodes[p].back == old(nodes)[p].back[..|old(nodes)[p].back| - 1]
      ensures !old(hasCycles) && AsBefore(old(nodes), view, p, w) && Unbroken(view, p) ==>
                (hasCycles <==> ClosesAt(view.ns0, w, old(nodes)[p].back[|old(nodes)[p].back| - 1]))
    {
      hide Mirrored, Ranked, MergeState, WithinBounds, Acyclic, EdgeSet, BackTurn, Pointing, AsBefore, Unbroken,
           ClosesAt;
      MergeStateBasics(nodes, rank, hasCycles, view, p, w);
      ghost var ns := nodes;
      TakeBackEdge(p, w);
      BackTurned(ns, rank, old(hasCycles), hasCycles, view, p, w);
    }

    /** One edge of the promise node becomes one of the write's node. */
    method MoveEdge(p: nat, w: nat, ghost view: MergeView) returns (ended: bool)
      requires MergeState(nodes, rank, hasCycles, view, p, w) && p < |nodes| && nodes[p].edges != [] &&
               nodes[p].back == []
      modifies this`nodes, this`hasCycles, this`rollbackvector
      ensures MergeState(nodes, rank, hasCycles, view, p, w) && SameKinds(old(nodes), nodes)
      ensures nodes[p].edges == old(nodes)[p].edges[..|old(nodes)[p].edges| - 1] && nodes[p].back == []
      ensures old(hasCycles) ==> hasCycles
      ensures !old(hasCycles) && hasCycles ==> WithinBounds(rank, view, p, w)
      ensures !ended ==> view.Round? && exists t: nat :: Strays(view.ns0, p, w, t)
      ensures view.Round? && Owing(view, p, w) && old(nodes)[p].edges[|old(nodes)[p].edges| - 1] == view.r ==> hasCycles
      ensures !old(hasCycles) && Exactly(old(nodes), view, p, w) ==>
                var t := old(nodes)[p].edges[|old(nodes)[p].edges| - 1];
                && (ended <==> !Strays(view.ns0, p, w, t)) && (ended ==> (hasCycles <==> !Skips(view.ns0, w, t)))
                && (Skips(view.ns0, w, t) ==> ended && Exactly(nodes, view, p, w))
    {
      hide Mirrored, Ranked, MergeState, WithinBounds, Acyclic, EdgeSet, ForwardTurn, Pointing, AddEnds, PopEdge,
           Strays, Owing, Exactly, Skips;
      MergeStateBasics(nodes, rank, hasCycles, view, p, w);
      ghost var ns := nodes;
      ended := TakeEdge(p, w);
      ForwardTurned(ns, rank, old(hasCycles), hasCycles, view, p, w);
    }

    /** The first transfer loop of CycleGraph::mergeNodes. */
    method MoveBackEdges(p: nat, w: nat, ghost view: MergeView) returns (done: bool)
      requires MergeState(nodes, rank, hasCycles, view, p, w) && p < |nodes|
      requires view.Round? && Owing(view, p, w) ==> view.r in nodes[p].edges
      modifies this`nodes, this`hasCycles, this`rollbackvector
      ensures MergeState(nodes, rank, hasCycles, view, p, w) && SameKinds(old(nodes), nodes)
      ensures |nodes| == |old(nodes)| && (old(hasCycles) ==> hasCycles)
      ensures if done then nodes[p].back == [] && hasCycles == old(hasCycles) else hasCycles && old(nodes)[p].back != []
      ensures !old(hasCycles) && hasCycles ==> WithinBounds(rank, view, p, w)
      ensures done && view.Round? && Owing(view, p, w) ==> view.r in nodes[p].edges
      ensures done && !hasCycles && AsBefore(old(nodes), view, p, w) ==> AsBefore(nodes, view, p, w)
      ensures !old(hasCycles) && AsBefore(old(nodes), view, p, w) && Harmless(old(nodes), view, p, w) &&
              Unbroken(view, p) ==>
                (done <==> !BackCloses(view.ns0, p, w))
    {
      hide MergeState, WithinBounds, Acyclic, Owing, Strays, AsBefore, Harmless, Unbroken, ClosesAt, BackCloses;
      SameKindsRefl(nodes);
      ghost var exact := !hasCycles && AsBefore(nodes, view, p, w) && Harmless(nodes, view, p, w) && Unbroken(view, p);
      while nodes[p].back != []
        invariant MergeState(nodes, rank, hasCycles, view, p, w) && SameKinds(old(nodes), nodes) && p < |nodes|
        invariant hasCycles == old(hasCycles)
        invariant view.Round? && Owing(view, p, w) ==> view.r in nodes[p].edges
        invariant !hasCycles && AsBefore(old(nodes), view, p, w) ==> AsBefore(nodes, view, p, w)
        invariant exact ==> Harmless(nodes, view, p, w)
        decreases |nodes[p].back|
      {
        ghost var before := nodes;
        OwedElsewhere(nodes, rank, hasCycles, view, p, w);
        MoveBackEdge(p, w, view);
        SameKindsTrans(old(nodes), before, nodes);
        if exact {
          HarmlessMore(before, nodes, view, p, w);
        }
        if hasCycles {
          return false;
        }
      }
      if exact {
        HarmlessAll(nodes, view, p, w);
      }
      done := true;
    }

    /** The second loop; it goes round for ever exactly when it comes to a straying successor first. */
    method MoveForwardEdges(p: nat, w: nat, ghost view: MergeView) returns (done: bool, ended: bool)
      requires MergeState(nodes, rank, hasCycles, view, p, w) && p < |nodes| && nodes[p].back == []
      requires view.Round? && Owing(view, p, w) ==> view.r in nodes[p].edges
      modifies this`nodes, this`hasCycles, this`rollbackvector
      ensures MergeState(nodes, rank, hasCycles, view, p, w) && SameKinds(old(nodes), nodes)
      ensures |nodes| == |old(nodes)| && (old(hasCycles) ==> hasCycles)
      ensures done ==> ended && nodes[p].edges == [] && nodes[p].back == [] && hasCycles == old(hasCycles)
      ensures !done && ended ==> hasCycles
      ensures !old(hasCycles) && hasCycles ==> WithinBounds(rank, view, p, w)
      ensures !ended ==> view.Round? && exists t: nat :: Strays(view.ns0, p, w, t)
      ensures view.Round? && Owing(view, p, w) ==> !done
      ensures !old(hasCycles) && AsBefore(old(nodes), view, p, w) && Pointed(view, p) ==>
                (!ended <==> StraysFirst(view.ns0, p, w)) && (done <==> AllSkipped(view.ns0, p, w))
    {
      hide MergeState, WithinBounds, Acyclic, Owing, Strays, Exactly, Skips, StraysFirst, EdgeSet;
      SameKindsRefl(nodes);
      ended := true;
      ghost var exact := !hasCycles && AsBefore(nodes, view, p, w) && Pointed(view, p);
      ExactlyAtFirst(nodes, view, p, w);
      while nodes[p].edges != []
        invariant MergeState(nodes, rank, hasCycles, view, p, w) && SameKinds(old(nodes), nodes) && p < |nodes|
        invariant hasCycles == old(hasCycles) && nodes[p].back == []
        invariant view.Round? && Owing(view, p, w) ==> view.r in nodes[p].edges
        invariant exact ==> Exactly(nodes, view, p, w) && Skipped(nodes, view, p, w)
        decreases |nodes[p].edges|
      {
        ghost var before := nodes;
        ended := MoveEdge(p, w, view);
        SameKindsTrans(old(nodes), before, nodes);
        LastOut(before[p].edges);
        if exact {
          TurnDecides(before, nodes, view, p, w);
          NotAllSkipped(before, view, p, w);
        }
        if !ended {
          return false, false;
        }
        if hasCycles {
          return false, true;
        }
      }
      if exact {
        StraysFirstAt(view.ns0, p, w, 0);
      }
      done := true;
    }

    /**
     CycleGraph::mergeNodes. `compatible` is the answer of the promise's checks on
     thread, location and value. On a graph that additions built it always ends; when the
     write reads, through other read-modify-writes, from the promise itself, it fails.
     */
    method MergeNodes(w: nat, p: nat, promise: nat, compatible: bool) returns (result: MergeResult)
      requires Valid() && w < |nodes| && !nodes[w].isPromise
      requires promise in promiseToNode && promiseToNode[promise] == p
      modifies this`nodes, this`hasCycles, this`rank, this`rollbackvector, this`promiseToNode, this`undoable,
               this`unmerged
      ensures p < |nodes| && |nodes| == |old(nodes)|
      ensures !compatible || TwoReaders(old(nodes), p, w) ==>
                result == Done(false) && Valid() && nodes == old(nodes) && unmerged == old(unmerged)
      ensures result == Done(true) ==>
                compatible && !TwoReaders(old(nodes), p, w) && !hasCycles &&
                    promiseToNode == old(promiseToNode) - {promise}
      ensures !ReadsOwn(old(nodes), p, w) ==> Valid() && result.Done?
      ensures compatible && !TwoReaders(old(nodes), p, w) ==>
                if ReadsOwn(old(nodes), p, w)
                then RoundResult(old(nodes), nodes, p, w, old(unmerged), result.Done?, result == Done(true)) &&
                     RoundExact(old(nodes), old(hasCycles), p, w, result.Done?, result == Done(true))
                else StraightResult(old(nodes), old(hasCycles), nodes, rank, p, w, result == Done(true))
    {
      hide Table, Mirrored, Ranked, Anchored, Acyclic, Extends, Tracks, EndsCovered, EdgeSet, RmwSet, Reach, Exact,
           SameKinds, RoundResult, StraightResult, ReadsOwn, RoundExact;
      InTable(nodes, promiseToNode, true, promise);
      if !compatible {
        return Done(false);
      }
      ghost var ns0 := nodes;
      var moved, done, ended;
      moved, done, ended := TransferAll(w, p);
      TableMoved(ns0, nodes, actionToNode, false);
      TableMoved(ns0, nodes, promiseToNode, true);
      if !moved {
        return Done(false);
      }
      undoable, unmerged := false, false;
      if !ended {
        return Endless;
      }
      if !done {
        return Done(false);
      }
      TableSmaller(nodes, promiseToNode, promise, true);
      promiseToNode := promiseToNode - {promise};
      result := Done(!hasCycles);
    }

    /** The transfers of CycleGraph::mergeNodes: the pointer, then both kinds of edges. */
    method TransferAll(w: nat, p: nat) returns (moved: bool, done: bool, ended: bool)
      requires Sane(nodes, rank, hasCycles) && p < |nodes| && w < |nodes| && nodes[p].isPromise && !nodes[w].isPromise
      requires unmerged ==> Tracks(nodes, rank, log) && EndsCovered(RmwSet(nodes), EdgeSet(nodes))
      modifies this`nodes, this`hasCycles, this`rank, this`rollbackvector
      ensures moved == !TwoReaders(old(nodes), p, w) && SameKinds(old(nodes), nodes) && |nodes| == |old(nodes)|
      ensures !moved ==> nodes == old(nodes) && rank == old(rank) && hasCycles == old(hasCycles) &&
                         rollbackvector == old(rollbackvector)
      ensures moved && !ReadsOwn(old(nodes), p, w) ==> ended && Sane(nodes, rank, hasCycles)
      ensures moved ==>
                if ReadsOwn(old(nodes), p, w)
                then RoundResult(old(nodes), nodes, p, w, unmerged, ended, done && !hasCycles) &&
                     RoundExact(old(nodes), old(hasCycles), p, w, ended, done && !hasCycles)
                else StraightResult(old(nodes), old(hasCycles), nodes, rank, p, w, done && !hasCycles)
      ensures done ==> ended
    {
      hide Mirrored, Ranked, Anchored, Acyclic, MergeState, Extends, Tracks, EndsCovered, EdgeSet, RmwSet, Bounds,
           Reach, Merged, SameKinds, Strays, WithinBounds, Owing, RoundResult, StraightResult, ReadsOwn, Taken,
           MergesWell, AsBefore, StraysFirst, BackCloses, AllSkipped, Harmless;
      ghost var ns0, rank0, flag0 := nodes, rank, hasCycles;
      done, ended := false, true;
      ghost var view;
      moved, view := MovePromiseRmw(w, p);
      SameKindsRefl(ns0);
      if moved {
        ghost var base := nodes;
        OwedAtFirst(ns0, base, view, p, w);
        if view.Round? {
          HarmlessAtFirst(base, view, p, w);
        }
        var cleared := MoveBackEdges(p, w, view);
        SameKindsTrans(ns0, base, nodes);
        if cleared {
          ghost var half := nodes;
          done, ended := MoveForwardEdges(p, w, view);
          SameKindsTrans(ns0, half, nodes);
        }
        if view.Round? {
          if unmerged {
            TracksPointers(ns0, rank0, log);
          }
          RoundOver(ns0, rank, log, nodes, hasCycles, view, p, w, unmerged, ended, done);
        } else {
          StraightOver(ns0, flag0, base, nodes, rank, hasCycles, view, done, p, w);
        }
      }
    }

    /** The transfer of the promise's read-modify-write, cyclegraph.cc:161-164. */
    method MovePromiseRmw(w: nat, p: nat) returns (ok: bool, ghost view: MergeView)
      requires WellFormed(nodes, rank) && Anchored(nodes) && p < |nodes| && w < |nodes|
      requires nodes[p].isPromise && !nodes[w].isPromise && (!hasCycles ==> Acyclic(EdgeSet(nodes)))
      modifies this`nodes, this`rank
      ensures ok == !TwoReaders(old(nodes), p, w) && SameKinds(old(nodes), nodes) && |nodes| == |old(nodes)|
      ensures !ok ==> nodes == old(nodes) && rank == old(rank)
      ensures ok ==> nodes == Taken(old(nodes), p, w) && MergeState(nodes, rank, hasCycles, view, p, w)
      ensures EdgeSet(nodes) == EdgeSet(old(nodes))
      ensures ok ==> if ReadsOwn(old(nodes), p, w)
                     then view.Round? && view.ns0 == old(nodes) && old(nodes)[p].rmw == Some(view.r)
                     else view == Straight(nodes, EdgeSet(old(nodes)))
    {
      hide Mirrored, Anchored, EdgeSet, RmwSet, Reach, MergeTables, Lift, Acyclic, MergesWell, GoesRound;
      ghost var ns0 := nodes;
      view := Straight(nodes, EdgeSet(nodes));
      if ReadsOwn(ns0, p, w) {
        CircleStarts(ns0, rank, p, w);
      }
      var promiseRmw := nodes[p].rmw;
      if promiseRmw.Some? && promiseRmw != nodes[w].rmw {
        if nodes[w].rmw.Some? {
          return false, view;
        }
        var r := promiseRmw.value;
        RankedTarget(nodes, rank, p);
        if ReadsOwn(ns0, p, w) {
          view := Round(ns0, rank, r);
          RoundStarts(ns0, rank, hasCycles, p, w, r);
        } else {
          MergeStarts(nodes, rank, p, w, r);
          rank := Lift(nodes, rank, r, rank[w] + 1);
        }
        nodes := SetRmw(nodes, w, r);
        if !ReadsOwn(ns0, p, w) {
          view := Straight(nodes, EdgeSet(ns0));
          MergeReady(ns0, nodes, rank, hasCycles, p, w);
        }
      } else {
        MergeStartsSame(nodes, rank, p, w);
        MergeReady(ns0, nodes, rank, hasCycles, p, w);
      }
      ok := true;
    }

    /** The node of a promise becomes the node of the write that fulfils it. */
    method ConvertPromise(promise: nat, writer: nat)
      requires Valid() && promise in promiseToNode && writer !in actionToNode
      modifies this`nodes, this`actionToNode, this`promiseToNode, this`oldNodes
      ensures Valid()
      ensures actionToNode == old(actionToNode)[writer := old(promiseToNode)[promise]]
      ensures promiseToNode == old(promiseToNode) - {promise}
      ensures EdgeSet(nodes) == EdgeSet(old(nodes)) && RmwSet(nodes) == RmwSet(old(nodes)) && |nodes| == |old(nodes)|
    {
      hide Table, Sane, Extends, Tracks, EndsCovered, Exact, EdgeSet, RmwSet;
      var p := promiseToNode[promise];
      InTable(nodes, promiseToNode, true, promise);
      ConvertSane(nodes, rank, hasCycles, p);
      ConvertSane(oldNodes, oldRank, oldCycles, p);
      if undoable {
        ConvertExtends(oldNodes, nodes, rollbackvector, rmwrollbackvector, p);
      }
      if unmerged {
        ConvertTracks(nodes, rank, log, hasCycles, p);
        ConvertTracks(oldNodes, oldRank, oldLog, oldCycles, p);
      }
      ConvertTables(nodes, actionToNode, promiseToNode, promise, writer);
      nodes := Convert(nodes, p);
      oldNodes := Convert(oldNodes, p);
      promiseToNode := promiseToNode - {promise};
      actionToNode := actionToNode[writer := p];
    }

    /** CycleGraph::resolvePromise: merge with the write's node, or turn the promise's node into it. */
    method ResolvePromise(promise: nat, writer: nat, compatible: bool) returns (result: MergeResult)
      requires Valid() && promise in promiseToNode
      modifies this`nodes, this`hasCycles, this`rank, this`rollbackvector, this`actionToNode, this`promiseToNode,
               this`undoable, this`unmerged, this`oldNodes
      ensures result == Done(true) ==> promiseToNode == old(promiseToNode) - {promise}
      ensures old(unmerged) || writer !in old(actionToNode) ==> result.Done?
      ensures if writer in old(actionToNode)
              then var p, w := old(promiseToNode)[promise], old(actionToNode)[writer];
                   p < |old(nodes)| && w < |old(nodes)| &&
                   if ReadsOwn(old(nodes), p, w)
                   then old(unmerged) && result == Done(true) ==> old(nodes)[p].rmw == Some(w)
                   else Valid() && (result == Done(true) ==> Merged(old(nodes), nodes, rank, p, w))
              else Valid() && result == Done(true) &&
                   EdgeSet(nodes) == EdgeSet(old(nodes)) && RmwSet(nodes) == RmwSet(old(nodes)) &&
                   actionToNode == old(actionToNode)[writer := old(promiseToNode)[promise]] &&
                   unmerged == old(unmerged) && hasCycles == old(hasCycles)
    {
      hide Sane, Extends, Tracks, EndsCovered, Exact, EdgeSet, RmwSet, Reach, Merged, TwoReaders, Bounds, Acyclic,
           Strays, ReadsOwn;
      if writer in actionToNode {
        result := MergeNodes(actionToNode[writer], promiseToNode[promise], promise, compatible);
      } else {
        ConvertPromise(promise, writer);
        result := Done(true);
      }
    }
  }

  // ------------------------------------------------------------------
  // Lemmas for the methods above
  // ------------------------------------------------------------------

  /** Depth-first search: everything discovered is reached; everything expanded has its successors discovered. */
  ghost predicate Searching(ns: Nodes, from: nat, to: nat, discovered: set<nat>, queue: seq<nat>) {
    && from in discovered && discovered <= Below(|ns|)
    && (forall q :: q in queue ==> q in discovered)
    && (forall d :: d in discovered ==> Reach(EdgeSet(ns), from, d))
    && (forall d :: d in discovered && d !in queue ==> d != to && forall y :: (d, y) in EdgeSet(ns) ==> y in discovered)
  }

  ghost predicate Expanding(ns: Nodes, from: nat, to: nat, discovered: set<nat>, queue: seq<nat>, node: nat, i: nat) {
    && from in discovered && discovered <= Below(|ns|) && node in discovered && node < |ns| && node != to
    && (forall q :: q in queue ==> q in discovered)
    && (forall d :: d in discovered ==> Reach(EdgeSet(ns), from, d))
    && (forall d :: d in discovered && d !in queue && d != node ==>
                      d != to && forall y :: (d, y) in EdgeSet(ns) ==> y in discovered)
    && (forall k :: 0 <= k < i && k < |ns[node].edges| ==> ns[node].edges[k] in discovered)
  }

  lemma SearchStarts(ns: Nodes, from: nat, to: nat)
    requires from < |ns|
    ensures Searching(ns, from, to, {from}, [from])
  {
    ReachRefl(EdgeSet(ns), from);
  }

  lemma SearchPops(ns: Nodes, from: nat, to: nat, discovered: set<nat>, queue: seq<nat>, node: nat)
    requires Searching(ns, from, to, discovered, queue + [node])
    ensures node < |ns| && Reach(EdgeSet(ns), from, node)
    ensures node != to ==> Expanding(ns, from, to, discovered, queue, node, 0)
  {
    assert node in queue + [node];
    assert node in discovered;
    assert forall d :: d in queue + [node] <==> d in queue || d == node;
  }

  lemma SearchExpands(ns: Nodes, from: nat, to: nat, discovered: set<nat>, queue: seq<nat>, node: nat, i: nat)
    requires Mirrored(ns) && node < |ns| && i < |ns[node].edges|
    requires Expanding(ns, from, to, discovered, queue, node, i)
    ensures var next := ns[node].edges[i];
            if next in discovered then Expanding(ns, from, to, discovered, queue, node, i + 1)
            else Expanding(ns, from, to, discovered + {next}, queue + [next], node, i + 1)
  {
    var next := ns[node].edges[i];
    assert next in ns[node].edges;
    ReachEdge(EdgeSet(ns), node, next);
    ReachTrans(EdgeSet(ns), from, node, next);
    assert forall d :: d in queue + [next] <==> d in queue || d == next;
  }

  lemma SearchExpanded(ns: Nodes, from: nat, to: nat, discovered: set<nat>, queue: seq<nat>, node: nat)
    requires node < |ns| && Expanding(ns, from, to, discovered, queue, node, |ns[node].edges|)
    ensures Searching(ns, from, to, discovered, queue)
    ensures discovered <= Below(|ns|)
  {
  }

  lemma SearchEnds(ns: Nodes, from: nat, to: nat, discovered: set<nat>)
    requires Searching(ns, from, to, discovered, [])
    ensures !Reach(EdgeSet(ns), from, to)
  {
    if Reach(EdgeSet(ns), from, to) {
      ClosedReach(EdgeSet(ns), discovered, from, to);
    }
  }

  lemma DiscoveredShrinks(n: nat, before: set<nat>, after: set<nat>)
    requires before <= after <= Below(n)
    ensures before == after || Below(n) - after < Below(n) - before
  {
    if before != after {
      var x :| x in after && x !in before;
      assert x in Below(n) - before;
    }
  }

  lemma GrowAnyKind(ns: Nodes)
    ensures forall p :: EdgeSet(ns + [Isolated(p)]) == EdgeSet(ns)
  {
    forall p ensures EdgeSet(ns + [Isolated(p)]) == EdgeSet(ns) {
      GrowSets(ns, p);
    }
  }

  lemma NewEdgesHave(ns: Nodes, rank: seq<nat>, a: nat, b: nat)
    requires Ranked(ns, rank) && a < |ns| && b < |ns|
    ensures (a, b) in NewEdges(ns, rank, a, b)
  {
  }

  lemma EdgeInSet(ns: Nodes, a: nat, b: nat)
    requires a < |ns|
    ensures (a, b) in EdgeSet(ns) <==> b in ns[a].edges
  {
  }

  lemma AnchoredMono(ns: Nodes, ns': Nodes)
    requires Anchored(ns) && RmwSet(ns') == RmwSet(ns) && EdgeSet(ns) <= EdgeSet(ns')
    ensures Anchored(ns')
  {
    forall f: nat, r: nat | (f, r) in RmwSet(ns')
      ensures exists g :: (g, r) in RmwSet(ns') && (g, r) in EdgeSet(ns')
    {
      var g :| (g, r) in RmwSet(ns) && (g, r) in EdgeSet(ns);
      assert (g, r) in EdgeSet(ns');
    }
  }

  lemma BeforeExact(ns: Nodes, ns': Nodes, l: set<Constraint>, a: nat, b: nat, flag: bool, flag': bool)
    requires Exact(flag, ns, l) && EdgeSet(ns) <= EdgeSet(ns')
    requires flag ==> flag'
    requires !flag' ==> Acyclic(EdgeSet(ns'))
    requires (flag ==> !Acyclic(EdgeSet(ns)) || Contested(l)) ==> (flag' ==> !Acyclic(EdgeSet(ns')) || Contested(l))
    ensures Exact(flag', ns', l + {Before(a, b)})
  {
    ContestedBefore(l, a, b);
    if Acyclic(EdgeSet(ns')) {
      AcyclicMono(EdgeSet(ns), EdgeSet(ns'));
    }
  }

  lemma InTable(ns: Nodes, t: map<nat, nat>, p: bool, k: nat)
    requires Table(ns, t, p) && k in t
    ensures t[k] < |ns| && ns[t[k]].isPromise == p
  {
  }

  lemma GrowTable(ns: Nodes, t: map<nat, nat>, p: bool, q: bool)
    requires Table(ns, t, p)
    ensures Table(ns + [Isolated(q)], t, p)
  {
  }

  lemma AddToTable(ns: Nodes, t: map<nat, nat>, p: bool, k: nat)
    requires Table(ns, t, p) && k !in t
    ensures Table(ns + [Isolated(p)], t[k := |ns|], p)
  {
  }

  lemma TableUnchanged(ns: Nodes, ns': Nodes, rank: seq<nat>, a: nat, b: nat, t: map<nat, nat>, p: bool)
    requires Table(ns, t, p) && Ranked(ns, rank) && a < |ns| && b < |ns| && ns' == AddNodeEdge(ns, rank, a, b)
    ensures Table(ns', t, p)
  {
    assert forall i :: 0 <= i < |ns| ==> ns'[i].isPromise == ns[i].isPromise;
  }

  lemma GrowSane(ns: Nodes, rank: seq<nat>, flag: bool, p: bool)
    requires Sane(ns, rank, flag)
    ensures Sane(ns + [Isolated(p)], rank + [0], flag)
  {
    GrowSets(ns, p);
    GrowWellFormed(ns, rank, p);
    GrowAnchored(ns, p);
  }

  lemma GrowDecided(ns: Nodes, rank: seq<nat>, log: set<Constraint>, flag: bool, p: bool)
    requires Tracks(ns, rank, log) && Exact(flag, ns, log)
    ensures Tracks(ns + [Isolated(p)], rank + [0], log) && Exact(flag, ns + [Isolated(p)], log)
    ensures EdgeSet(ns + [Isolated(p)]) == EdgeSet(ns) && RmwSet(ns + [Isolated(p)]) == RmwSet(ns)
  {
    GrowSets(ns, p);
    GrowTracks(ns, rank, log, p);
  }

  lemma EmptyGraph(ns: Nodes, rank: seq<nat>, log: set<Constraint>)
    requires ns == [] && rank == [] && log == {}
    ensures Sane(ns, rank, false) && Extends(ns, ns, [], [])
    ensures Tracks(ns, rank, log) && Exact(false, ns, log) && EndsCovered(RmwSet(ns), EdgeSet(ns))
  {
    hide Reach, Solves, Mirrored, Ranked, Anchored, Chained, Covered, Represents, Sound, Contested, Extends;
    EmptySane(ns, rank);
    ExtendsRefl(ns);
    EmptyTracks(ns, rank, log);
    EmptyContested(log);
  }

  lemma EmptySane(ns: Nodes, rank: seq<nat>)
    requires ns == [] && rank == []
    ensures Mirrored(ns) && Ranked(ns, rank) && Anchored(ns) && Acyclic(EdgeSet(ns))
  {
    hide Reach;
  }

  lemma EmptyTracks(ns: Nodes, rank: seq<nat>, log: set<Constraint>)
    requires ns == [] && log == {}
    ensures Chained(RmwSet(ns), EdgeSet(ns), rank) && Covered(RmwSet(ns), EdgeSet(ns))
    ensures Represents(ns, log) && Sound(ns, log)
  {
    hide Reach, Solves;
  }

  lemma EmptyContested(log: set<Constraint>)
    requires log == {}
    ensures !Contested(log)
  {
  }

  /** The write is not in the table, or its node has neither successors nor a read-modify-write. */
  ghost predicate NothingAfter(n: Option<nat>, ns: Nodes) {
    n.Some? ==> n.value < |ns| && ns[n.value].edges == [] && ns[n.value].rmw.None?
  }

  lemma GrowPointers(ns: Nodes)
    ensures forall p :: RmwSet(ns + [Isolated(p)]) == RmwSet(ns)
  {
    forall p ensures RmwSet(ns + [Isolated(p)]) == RmwSet(ns) {
      GrowSets(ns, p);
    }
  }

  lemma NewIsFresh(ns: Nodes, rank: seq<nat>, f: nat)
    requires Ranked(ns, rank) && f < |ns|
    ensures FreshFor(ns + [Isolated(false)], f, |ns|)
  {
    GrowSets(ns, false);
    var ns' := ns + [Isolated(false)];
    assert forall g: nat :: (g, |ns|) in RmwSet(ns) ==> ns[g].rmw == Some(|ns|);
  }

  lemma SaneMirrored(ns: Nodes, rank: seq<nat>, flag: bool)
    requires Sane(ns, rank, flag)
    ensures Mirrored(ns)
  {
  }

  lemma TableMoved(ns: Nodes, ns': Nodes, t: map<nat, nat>, p: bool)
    requires Table(ns, t, p) && SameKinds(ns, ns')
    ensures Table(ns', t, p)
  {
  }

  lemma ExtendsMirrored(cs: Nodes, ns: Nodes, roll: seq<nat>, rmwRoll: seq<nat>)
    requires Extends(cs, ns, roll, rmwRoll)
    ensures Mirrored(ns)
  {
  }

  lemma TransferNone(ns: Nodes, r: nat)
    requires r < |ns|
    ensures Indices([], |ns|) && Transfer(ns, [], r) == ns
  {
  }

  lemma TransferOne(ns: Nodes, es: seq<nat>, i: nat, r: nat)
    requires r < |ns| && Indices(es, |ns|) && i < |es|
    ensures Indices(es[..i], |ns|) && Indices(es[..i + 1], |ns|)
    ensures Transfer(ns, es[..i + 1], r) ==
            if es[i] == r then Transfer(ns, es[..i], r) else AddEdge(Transfer(ns, es[..i], r), r, es[i])
  {
    assert es[..i + 1][..i] == es[..i];
  }

  lemma TransferAcyclic(ns: Nodes, rank: seq<nat>, r: nat, t: nat, flag: bool)
    requires WellFormed(ns, rank) && r < |ns| && t < |ns| && t != r && ns[r].back == []
    requires !flag ==> Acyclic(EdgeSet(ns))
    ensures WellFormed(AddEdge(ns, r, t), rank)
    ensures !flag ==> Acyclic(EdgeSet(AddEdge(ns, r, t)))
  {
    AddEdgeKeeps(ns, rank, r, t);
    forall x: nat ensures (x, r) !in EdgeSet(ns) {
      NoIncoming(ns, r, x);
    }
    if !flag {
      AcyclicAddFromSource(EdgeSet(ns), r, t);
    }
  }

  lemma SetRmwFrame(ns: Nodes, f: nat, r: nat)
    requires f < |ns| && r < |ns|
    ensures forall i :: 0 <= i < |ns| ==>
              SetRmw(ns, f, r)[i].edges == ns[i].edges && SetRmw(ns, f, r)[i].back == ns[i].back
  {
  }

  /** What additions keep of the graph. */
  lemma BuiltRmw(ns: Nodes, rank: seq<nat>, log: set<Constraint>, f: nat, r: nat)
    requires Tracks(ns, rank, log) && Anchored(ns) && FreshFor(ns, f, r) && EndsCovered(RmwSet(ns), EdgeSet(ns))
    ensures var ns' := AddRmwEdge(ns, rank, f, r);
            && Tracks(ns', RmwRank(ns, rank, f, r), log + {Rmw(f, r)}) && EndsCovered(RmwSet(ns'), EdgeSet(ns'))
    ensures Contested(log + {Rmw(f, r)}) <==> Contested(log) || ns[f].rmw.Some?
  {
    hide WellFormed, Chained, Covered, Represents, Sound, EndsCovered, Contested, AddRmwEdge, FreshFor, EdgeSet, RmwSet,
         RmwNewEdges, RmwRank, Anchored;
    TracksAddRmwEdge(ns, rank, log, f, r);
    AddRmwEdgeShape(ns, rank, f, r);
    EndsCoveredRmw(ns, rank, f, r);
    ContestedRmw(ns, rank, log, f, r);
  }

  lemma AnchoredRmw(ns: Nodes, rank: seq<nat>, f: nat, r: nat)
    requires WellFormed(ns, rank) && Anchored(ns) && FreshFor(ns, f, r)
    ensures Anchored(AddRmwEdge(ns, rank, f, r))
  {
    hide Mirrored, AddRmwEdge;
    var ns' := AddRmwEdge(ns, rank, f, r);
    AddRmwEdgeShape(ns, rank, f, r);
    forall g: nat, s: nat | (g, s) in RmwSet(ns')
      ensures exists h :: (h, s) in RmwSet(ns') && (h, s) in EdgeSet(ns')
    {
      if (g, s) in RmwSet(ns) {
        var h :| (h, s) in RmwSet(ns) && (h, s) in EdgeSet(ns);
        assert (h, s) in RmwSet(ns') && (h, s) in EdgeSet(ns');
      } else {
        assert (f, r) in RmwNewEdges(ns, rank, f, r);
        assert (f, r) in EdgeSet(ns');
      }
    }
  }

  lemma AddRmwEdgeIs(ns: Nodes, rank: seq<nat>, f: nat, r: nat, ns2: Nodes, ns3: Nodes)
    requires WellFormed(ns, rank) && Anchored(ns) && FreshFor(ns, f, r)
    requires Indices(ns[f].edges, |ns|) && ns2 == Transfer(SetRmw(ns, f, r), ns[f].edges, r)
    requires Ranked(ns2, RmwRank(ns, rank, f, r)) && ns3 == AddNodeEdge(ns2, RmwRank(ns, rank, f, r), f, r)
    ensures ns3 == AddRmwEdge(ns, rank, f, r)
  {
    hide WellFormed, Anchored, Transfer, SetRmw, AddNodeEdge;
  }

  lemma {:induction false} TransferKinds(ns: Nodes, ts: seq<nat>, r: nat)
    requires r < |ns| && Indices(ts, |ns|)
    ensures SameKinds(ns, Transfer(ns, ts, r))
    decreases |ts|
  {
    hide AddEdge;
    if ts != [] {
      TransferKinds(ns, ts[..|ts| - 1], r);
    }
  }

  lemma RmwTable(ns: Nodes, rank: seq<nat>, f: nat, r: nat, t: map<nat, nat>, p: bool)
    requires WellFormed(ns, rank) && Anchored(ns) && FreshFor(ns, f, r) && Table(ns, t, p)
    ensures Table(AddRmwEdge(ns, rank, f, r), t, p)
  {
    hide Mirrored, Anchored, Table;
    SetRmwKeeps(ns, rank, f, r);
    EdgesAreIndices(ns, f);
    var ns1, rank' := SetRmw(ns, f, r), RmwRank(ns, rank, f, r);
    TransferKinds(ns1, ns[f].edges, r);
    TransferKeeps(ns1, rank', ns[f].edges, r);
    TableMoved(ns, Transfer(ns1, ns[f].edges, r), t, p);
    TableUnchanged(Transfer(ns1, ns[f].edges, r), AddRmwEdge(ns, rank, f, r), rank', f, r, t, p);
  }

  lemma AddRmwMono(ns: Nodes, rank: seq<nat>, f: nat, r: nat)
    requires WellFormed(ns, rank) && Anchored(ns) && FreshFor(ns, f, r)
    ensures EdgeSet(ns) + {(f, r)} <= EdgeSet(AddRmwEdge(ns, rank, f, r))
  {
    hide WellFormed, Anchored, EdgeSet, AddRmwEdge;
    AddRmwEdgeShape(ns, rank, f, r);
  }

  lemma AcyclicUnless(E: Edges, F: Edges)
    ensures E <= F && Acyclic(F) ==> Acyclic(E)
  {
    if E <= F && Acyclic(F) {
      AcyclicMono(E, F);
    }
  }

  /** Different keys have different nodes. */
  lemma KeysDiffer(ns: Nodes, acts: map<nat, nat>, promises: map<nat, nat>, from: Key, rmw: nat, f: nat, r: nat)
    requires Table(ns, acts, false) && Table(ns, promises, true) && from != Action(rmw)
    requires rmw in acts && acts[rmw] == r
    requires match from case Action(a) => a in acts && acts[a] == f case Promise(p) => p in promises && promises[p] == f
    ensures f != r && !ns[r].isPromise
  {
  }

  /** While the flag is clear, the graph is acyclic and between the original and its closure. */
  ghost predicate MergesWell(ns: Nodes, rank: seq<nat>, flag: bool, base: Nodes, E0: Edges, p: nat, w: nat) {
    && MergeTables(ns, rank, base, p, w) && Within(E0, |base|)
    && (!flag ==> Acyclic(EdgeSet(ns)) && Merging(EdgeSet(ns), E0, Bounds(base, rank, E0, p, w), p, w))
  }

  lemma MergeBasics(ns: Nodes, rank: seq<nat>, flag: bool, base: Nodes, E0: Edges, p: nat, w: nat)
    requires MergesWell(ns, rank, flag, base, E0, p, w)
    ensures WellFormed(ns, rank) && p < |ns| && w < |ns| && p != w && ns[p].isPromise
    ensures !flag ==> Acyclic(EdgeSet(ns))
  {
    hide Mirrored, Anchored, Merging;
  }

  ghost predicate MergeState(ns: Nodes, rank: seq<nat>, flag: bool, view: MergeView, p: nat, w: nat) {
    match view
    case Straight(base, E0) => MergesWell(ns, rank, flag, base, E0, p, w)
    case Round(ns0, rank0, r) => GoesRound(ns, flag, ns0, rank0, p, w, r)
  }

  /** A cycle that a merge finds is one of its bounds. */
  ghost predicate WithinBounds(rank: seq<nat>, view: MergeView, p: nat, w: nat) {
    view.Straight? ==>
      Ranked(view.base, rank) && (!Acyclic(Bounds(view.base, rank, view.E0, p, w)) || !Acyclic(view.E0))
  }

  /** The edge of the promise's pointer is still to be taken over. */
  ghost predicate Owing(view: MergeView, p: nat, w: nat) {
    view.Round? && ChainEdges(view.ns0, p) && view.r != w
  }

  /** Pointers were edges before. */
  ghost predicate Pointed(view: MergeView, p: nat) {
    view.Round? && ChainEdges(view.ns0, p)
  }

  /** And there was no cycle. */
  ghost predicate Unbroken(view: MergeView, p: nat) {
    Pointed(view, p) && Acyclic(EdgeSet(view.ns0))
  }

  /** The lists of the promise's and of the write's successors are as before. */
  ghost predicate AsBefore(ns: Nodes, view: MergeView, p: nat, w: nat) {
    && view.Round? && p < |ns| && p < |view.ns0| && ns[p].edges == view.ns0[p].edges
    && SameSuccessors(ns, view.ns0, p, w) && IntoWrite(ns, view.ns0, p, w)
  }

  /** The edges into the promise that were moved so far closed no cycle. */
  ghost predicate Harmless(ns: Nodes, view: MergeView, p: nat, w: nat) {
    && view.Round? && p < |ns| && p < |view.ns0| && |ns[p].back| <= |view.ns0[p].back|
    && ns[p].back == view.ns0[p].back[..|ns[p].back|]
    && forall j: nat :: |ns[p].back| <= j < |view.ns0[p].back| ==> !ClosesAt(view.ns0, w, view.ns0[p].back[j])
  }

  lemma HarmlessMore(ns: Nodes, ns': Nodes, view: MergeView, p: nat, w: nat)
    requires Harmless(ns, view, p, w) && ns[p].back != [] && p < |ns'|
    requires ns'[p].back == ns[p].back[..|ns[p].back| - 1]
    ensures if ClosesAt(view.ns0, w, ns[p].back[|ns[p].back| - 1]) then BackCloses(view.ns0, p, w)
            else Harmless(ns', view, p, w)
  {
    hide ClosesAt;
    var k := |ns[p].back|;
    assert ns[p].back[k - 1] == view.ns0[p].back[k - 1];
    assert view.ns0[p].back[k - 1] in view.ns0[p].back;
    assert ns'[p].back == view.ns0[p].back[..k - 1];
  }

  lemma HarmlessAll(ns: Nodes, view: MergeView, p: nat, w: nat)
    requires Harmless(ns, view, p, w) && ns[p].back == []
    ensures !BackCloses(view.ns0, p, w)
  {
    hide ClosesAt;
  }

  lemma HarmlessAtFirst(ns: Nodes, view: MergeView, p: nat, w: nat)
    requires view.Round? && p < |ns| && p < |view.ns0| && ns[p].back == view.ns0[p].back
    ensures Harmless(ns, view, p, w)
  {
    hide ClosesAt;
  }

  ghost predicate Exactly(ns: Nodes, view: MergeView, p: nat, w: nat) {
    Pointed(view, p) && SameSuccessors(ns, view.ns0, p, w)
  }

  /** The promise's successors so far were the write's already. */
  ghost predicate Skipped(ns: Nodes, view: MergeView, p: nat, w: nat) {
    && view.Round? && p < |ns| && p < |view.ns0| && |ns[p].edges| <= |view.ns0[p].edges|
    && ns[p].edges == view.ns0[p].edges[..|ns[p].edges|]
    && forall j: nat :: |ns[p].edges| <= j < |view.ns0[p].edges| ==> Skips(view.ns0, w, view.ns0[p].edges[j])
  }

  lemma ExactlyAtFirst(ns: Nodes, view: MergeView, p: nat, w: nat)
    ensures AsBefore(ns, view, p, w) && Pointed(view, p) ==> Exactly(ns, view, p, w) && Skipped(ns, view, p, w)
  {
  }

  lemma TurnDecides(ns: Nodes, ns': Nodes, view: MergeView, p: nat, w: nat)
    requires Skipped(ns, view, p, w) && ns[p].edges != [] && p < |ns'| &&
             ns'[p].edges == ns[p].edges[..|ns[p].edges| - 1]
    ensures var t := ns[p].edges[|ns[p].edges| - 1];
            if Skips(view.ns0, w, t) then Skipped(ns', view, p, w)
            else StraysFirst(view.ns0, p, w) <==> Strays(view.ns0, p, w, t)
  {
    hide Skips, Strays, StraysFirst;
    var t, k := ns[p].edges[|ns[p].edges| - 1], |ns[p].edges|;
    assert t == view.ns0[p].edges[k - 1];
    if Skips(view.ns0, w, t) {
      assert ns'[p].edges == view.ns0[p].edges[..k - 1];
    } else {
      StraysFirstAt(view.ns0, p, w, k);
    }
  }

  /** The write has every successor of the promise, or is it. */
  ghost predicate AllSkipped(ns: Nodes, p: nat, w: nat) {
    p < |ns| && forall t :: t in ns[p].edges ==> Skips(ns, w, t)
  }

  lemma NotAllSkipped(ns: Nodes, view: MergeView, p: nat, w: nat)
    requires Skipped(ns, view, p, w) && ns[p].edges != []
    ensures !Skips(view.ns0, w, ns[p].edges[|ns[p].edges| - 1]) ==> !AllSkipped(view.ns0, p, w)
  {
    hide Skips;
    var k := |ns[p].edges|;
    assert ns[p].edges[k - 1] == view.ns0[p].edges[k - 1];
    assert view.ns0[p].edges[k - 1] in view.ns0[p].edges;
  }

  lemma MergeStateBasics(ns: Nodes, rank: seq<nat>, flag: bool, view: MergeView, p: nat, w: nat)
    requires MergeState(ns, rank, flag, view, p, w)
    ensures Mirrored(ns) && Pointing(ns) && p < |ns| && w < |ns| && p != w && (!flag ==> Acyclic(EdgeSet(ns)))
  {
    hide Mirrored, Anchored, Merging, Acyclic, Reach;
    if view.Straight? {
      MergeBasics(ns, rank, flag, view.base, view.E0, p, w);
    } else {
      RoundPointing(ns, view.ns0, view.rank0, p, w, view.r);
    }
  }

  lemma OwedElsewhere(ns: Nodes, rank: seq<nat>, flag: bool, view: MergeView, p: nat, w: nat)
    requires MergeState(ns, rank, flag, view, p, w)
    ensures view.Round? ==> view.r != p
  {
    hide Mirrored, Acyclic, Reach, MergesWell;
  }

  /** One turn of the first loop keeps what holds during the merge. */
  lemma BackTurned(ns: Nodes, rank: seq<nat>, f0: bool, f1: bool, view: MergeView, p: nat, w: nat)
    requires MergeState(ns, rank, f0, view, p, w) && Mirrored(ns) && Pointing(ns) && p < |ns| && w < |ns| &&
             ns[p].back != []
    requires !f1 ==> Acyclic(EdgeSet(BackTurn(ns, p, w)))
    requires if f0 then f1 else f1 ==> !Acyclic(EdgeSet(BackTurn(ns, p, w)))
    ensures var ns' := BackTurn(ns, p, w);
            && MergeState(ns', rank, f1, view, p, w) && SameKinds(ns, ns') && |ns'[p].back| < |ns[p].back|
            && (view.Round? ==> forall t :: t != p && t in ns[p].edges ==> t in ns'[p].edges)
            && (!f0 && AsBefore(ns, view, p, w) ==>
                  AsBefore(ns', view, p, w) && ns'[p].back == ns[p].back[..|ns[p].back| - 1])
    ensures !f0 && AsBefore(ns, view, p, w) && Unbroken(view, p) ==>
              (f1 <==> ClosesAt(view.ns0, w, ns[p].back[|ns[p].back| - 1]))
    ensures !f0 && f1 ==> WithinBounds(rank, view, p, w)
  {
    hide Mirrored, Ranked, Acyclic, MergesWell, GoesRound, Bounds, Extends, AddNodeEdge, NewEdges, PopBackEdge,
         EdgeSet, RmwSet, SameKinds, EdgeAdded, EdgesAdded, Pointing, AddEnds, IntoWrite, ClosesAt, SameSuccessors,
         ChainEdges;
    if view.Straight? {
      MergeBasics(ns, rank, f0, view.base, view.E0, p, w);
      PopBackEdgeKeeps(ns, p);
      PopBackFrame(ns, p);
      var back, ns1 := ns[p].back[|ns[p].back| - 1], PopBackEdge(ns, p);
      EdgeAddedRanked(ns1, rank, back, w);
      AddNodeEdgeShape(ns1, rank, back, w);
      var ns' := BackTurn(ns, p, w);
      BackFrame(ns1, ns', rank, p, back, w);
      Moved(ns, ns1, ns', rank, view.base, view.E0, p, w, back, p, back, w, f0, f1);
      BoundsKnown(ns, rank, f0, view.base, view.E0, p, w);
    } else {
      RoundKnown(ns, f0, view.ns0, view.rank0, p, w, view.r);
      RoundBack(ns, f0, f1, view.ns0, view.rank0, p, w, view.r);
      RoundKnown(BackTurn(ns, p, w), f1, view.ns0, view.rank0, p, w, view.r);
      KindsBetween(view.ns0, ns, BackTurn(ns, p, w));
      if !f0 {
        RoundBackKeeps(ns, f0, view.ns0, view.rank0, p, w, view.r);
        if AsBefore(ns, view, p, w) {
          RoundBackSame(ns, view.ns0, view.rank0, p, w, view.r);
          if Unbroken(view, p) {
            RoundBackExact(ns, f1, view.ns0, view.rank0, p, w, view.r);
          }
        }
      }
    }
  }

  lemma BoundsKnown(ns: Nodes, rank: seq<nat>, flag: bool, base: Nodes, E0: Edges, p: nat, w: nat)
    requires MergesWell(ns, rank, flag, base, E0, p, w)
    ensures Ranked(base, rank)
  {
    hide Mirrored, Merging, Acyclic;
  }

  lemma KindsBetween(a: Nodes, b: Nodes, c: Nodes)
    requires SameKinds(a, b) && SameKinds(a, c)
    ensures SameKinds(b, c)
  {
  }

  /** One turn of the second loop does, too, and ends unless the promise's successor strays. */
  lemma ForwardTurned(ns: Nodes, rank: seq<nat>, f0: bool, f1: bool, view: MergeView, p: nat, w: nat)
    requires MergeState(ns, rank, f0, view, p, w) && Mirrored(ns) && Pointing(ns) && p < |ns| && w < |ns|
    requires ns[p].edges != [] && ns[p].back == []
    requires !f1 ==> Acyclic(EdgeSet(ForwardTurn(ns, p, w)))
    requires if f0 then f1 else f1 ==> !Acyclic(EdgeSet(ForwardTurn(ns, p, w)))
    ensures var t := ns[p].edges[|ns[p].edges| - 1];
            && t < |ns| && Pointing(PopEdge(ns, p))
            && (t != w && !AddEnds(PopEdge(ns, p), w, t) ==> view.Round? && Strays(view.ns0, p, w, t))
            && (Owing(view, p, w) && t == view.r ==> f1)
            && (!f0 && Exactly(ns, view, p, w) ==>
                  && (t == w || AddEnds(PopEdge(ns, p), w, t) <==> !Strays(view.ns0, p, w, t))
                  && (!Strays(view.ns0, p, w, t) ==> (f1 <==> !Skips(view.ns0, w, t)))
                  && (Skips(view.ns0, w, t) ==>
                        !Strays(view.ns0, p, w, t) && Exactly(ForwardTurn(ns, p, w), view, p, w)))
    ensures var ns' := ForwardTurn(ns, p, w);
            && MergeState(ns', rank, f1, view, p, w) && SameKinds(ns, ns') && ns'[p].back == []
            && ns'[p].edges == ns[p].edges[..|ns[p].edges| - 1]
    ensures !f0 && f1 ==> WithinBounds(rank, view, p, w)
  {
    hide Mirrored, Ranked, Acyclic, MergesWell, GoesRound, Bounds, Extends, AddNodeEdge, NewEdges, PopEdge, EdgeSet,
         RmwSet, SameKinds, EdgeAdded, EdgesAdded, Pointing, AddEnds, Strays, Skips, SameSuccessors;
    PopEdgeSets(ns, p);
    PopEdgeMirrored(ns, p);
    PopFrame(ns, p);
    var t, ns1 := ns[p].edges[|ns[p].edges| - 1], PopEdge(ns, p);
    if view.Straight? {
      MergeBasics(ns, rank, f0, view.base, view.E0, p, w);
      EdgeAddedRanked(ns1, rank, w, t);
      AddNodeEdgeShape(ns1, rank, w, t);
      var ns' := ForwardTurn(ns, p, w);
      ForwardFrame(ns, ns1, ns', rank, p, w, t);
      Moved(ns, ns1, ns', rank, view.base, view.E0, p, w, p, t, w, t, f0, f1);
      BoundsKnown(ns, rank, f0, view.base, view.E0, p, w);
    } else {
      RoundKnown(ns, f0, view.ns0, view.rank0, p, w, view.r);
      RoundForward(ns, f0, f1, view.ns0, view.rank0, p, w, view.r);
      RoundKnown(ForwardTurn(ns, p, w), f1, view.ns0, view.rank0, p, w, view.r);
      KindsBetween(view.ns0, ns, ForwardTurn(ns, p, w));
      if Owing(view, p, w) && t == view.r {
        RoundTaken(ns, p, w);
        CircleCloses(ForwardTurn(ns, p, w), f1, view.ns0, view.rank0, p, w, view.r);
      }
      if !f0 && Exactly(ns, view, p, w) {
        RoundForwardExact(ns, f1, view.ns0, view.rank0, p, w, view.r);
      }
    }
  }

  lemma LastOut(es: seq<nat>)
    requires es != []
    ensures forall t :: t in es && t != es[|es| - 1] ==> t in es[..|es| - 1]
  {
  }

  lemma RoundStarts(ns0: Nodes, rank0: seq<nat>, flag: bool, p: nat, w: nat, r: nat)
    requires Circle(ns0, rank0, p, w, r) && (!flag ==> Acyclic(EdgeSet(ns0)))
    ensures GoesRound(SetRmw(ns0, w, r), flag, ns0, rank0, p, w, r) && EdgeSet(SetRmw(ns0, w, r)) == EdgeSet(ns0)
  {
    hide Reach, Acyclic;
    hide Mirrored, EdgeSet, RmwSet, SetRmw;
    PointerSets(ns0, w, r);
  }

  lemma PointerSets(ns: Nodes, w: nat, r: nat)
    requires Mirrored(ns) && w < |ns| && ns[w].rmw.None?
    ensures var ns' := SetRmw(ns, w, r);
            && Mirrored(ns') && SameKinds(ns, ns') && EdgeSet(ns') == EdgeSet(ns) &&
               RmwSet(ns') == RmwSet(ns) + {(w, r)}
  {
    var ns' := SetRmw(ns, w, r);
    MirroredSame(ns, ns');
    hide Mirrored;
    forall x: nat, y: nat ensures (x, y) in EdgeSet(ns') <==> (x, y) in EdgeSet(ns) {
    }
    forall x: nat, y: nat ensures (x, y) in RmwSet(ns') <==> (x, y) in RmwSet(ns) + {(w, r)} {
    }
  }

  lemma OwedAtFirst(ns0: Nodes, base: Nodes, view: MergeView, p: nat, w: nat)
    requires p < |ns0| && w < |ns0| && base == Taken(ns0, p, w) && EdgeSet(base) == EdgeSet(ns0)
    requires view.Round? ==> view.ns0 == ns0 && ns0[p].rmw == Some(view.r)
    ensures view.Round? && Owing(view, p, w) ==> view.r in base[p].edges
    ensures base[p].back == ns0[p].back && (view.Round? ==> AsBefore(base, view, p, w))
  {
    if view.Round? && Owing(view, p, w) {
      assert (p, view.r) in RmwSet(ns0);
      ReachRefl(RmwSet(ns0), p);
      assert (p, view.r) in EdgeSet(ns0);
    }
  }

  /** What becomes of a merge in which every chain ends. */
  ghost predicate StraightResult(ns0: Nodes, flag0: bool, ns: Nodes, rank: seq<nat>, p: nat, w: nat, ok: bool) {
    && p < |ns0| && w < |ns0| && |ns| == |ns0| && Pointing(Taken(ns0, p, w))
    && (ok ==> Merged(ns0, ns, rank, p, w) && !flag0)
    && (!flag0 && Acyclic(BoundsBefore(ns0, p, w)) ==> ok)
  }

  /**
   What becomes of a merge into a write that reads from the promise: pointers form a circle.
   On a graph that additions built the merge ends, and succeeds at most when the write is
   the read-modify-write that reads the promise directly.
   */
  ghost predicate RoundResult(ns0: Nodes, ns: Nodes, p: nat, w: nat, built: bool, ended: bool, ok: bool) {
    && p < |ns0| && ns0[p].rmw.Some? && RmwSet(ns) == RmwSet(ns0) + {(w, ns0[p].rmw.value)}
    && (built ==> ended && (ok ==> ns0[p].rmw == Some(w)))
    && (!ended ==> exists t: nat :: Strays(ns0, p, w, t))
  }

  /**
   Exactly what becomes of it, no cycle being known and pointers being edges. It goes round for
   ever when no edge into the promise closes a cycle when it is moved, and then the second loop
   comes to a straying successor first. It succeeds when, instead, the write has all successors.
   */
  ghost predicate RoundExact(ns0: Nodes, flag0: bool, p: nat, w: nat, ended: bool, ok: bool) {
    !flag0 && ChainEdges(ns0, p) ==>
      && (!ended <==> !BackCloses(ns0, p, w) && StraysFirst(ns0, p, w))
      && (ok <==> !BackCloses(ns0, p, w) && AllSkipped(ns0, p, w))
  }

  lemma RoundOver(ns0: Nodes, rank: seq<nat>, log: set<Constraint>, ns: Nodes, flag: bool, view: MergeView, p: nat,
                  w: nat, built: bool, ended: bool, done: bool)
    requires view.Round? && view.ns0 == ns0 && p < |ns0| && ns0[p].rmw == Some(view.r) &&
             MergeState(ns, rank, flag, view, p, w)
    requires built ==> ChainEdges(ns0, p) && EndsCovered(RmwSet(ns0), EdgeSet(ns0))
    requires !ended ==> exists t: nat :: Strays(ns0, p, w, t)
    requires Owing(view, p, w) ==> !done
    ensures RoundResult(ns0, ns, p, w, built, ended, done && !flag)
  {
    hide Mirrored, Acyclic, Reach, Strays, EndsCovered, EdgeSet, RmwSet;
    if built {
      forall t: nat ensures !Strays(ns0, p, w, t) {
        NothingStrays(ns0, view.rank0, p, w, view.r, t);
      }
    }
  }

  lemma StraightOver(ns0: Nodes, flag0: bool, base: Nodes, ns: Nodes, rank: seq<nat>, flag: bool, view: MergeView,
                     done: bool, p: nat, w: nat)
    requires p < |ns0| && w < |ns0| && |ns| == |ns0| && base == Taken(ns0, p, w) && view == Straight(base, EdgeSet(ns0))
    requires !TwoReaders(ns0, p, w)
    requires MergeState(ns, rank, flag, view, p, w) && (!flag0 ==> Acyclic(EdgeSet(ns0))) && (flag0 ==> flag)
    requires done ==> ns[p].edges == [] && ns[p].back == []
    requires !done ==> flag
    requires !flag0 && flag ==> WithinBounds(rank, view, p, w)
    ensures WellFormed(ns, rank) && Anchored(ns) && (!flag ==> Acyclic(EdgeSet(ns)))
    ensures StraightResult(ns0, flag0, ns, rank, p, w, done && !flag)
  {
    hide Mirrored, Ranked, Anchored, Acyclic, MergesWell, Bounds, Merged, EdgeSet, RmwSet, BoundsBefore;
    TakenRmw(ns0, p, w);
    BoundsKnown(ns, rank, flag, base, EdgeSet(ns0), p, w);
    BoundsBeforeAre(ns0, base, rank, p, w);
    MergeFinished(ns0, base, ns, rank, flag, done, p, w);
  }

  lemma TakenRmw(ns0: Nodes, p: nat, w: nat)
    requires p < |ns0| && w < |ns0| && !TwoReaders(ns0, p, w)
    ensures RmwSet(Taken(ns0, p, w)) == RmwSet(ns0) + (if ns0[p].rmw.Some? then {(w, ns0[p].rmw.value)} else {})
  {
    var ns := Taken(ns0, p, w);
    forall x: nat, y: nat
      ensures (x, y) in RmwSet(ns) <==>
              (x, y) in RmwSet(ns0) + (if ns0[p].rmw.Some? then {(w, ns0[p].rmw.value)} else {})
    {
    }
  }

  lemma TracksPointers(ns: Nodes, rank: seq<nat>, log: set<Constraint>)
    requires Tracks(ns, rank, log)
    ensures forall p: nat :: ChainEdges(ns, p)
  {
    hide WellFormed, Covered, Represents, Sound, Reach;
  }

  lemma PopBackFrame(ns: Nodes, p: nat)
    requires Mirrored(ns) && Pointing(ns) && p < |ns| && ns[p].back != []
    ensures ns[p].back[|ns[p].back| - 1] < |ns|
    ensures PopBackEdge(ns, p)[p].isPromise == ns[p].isPromise
    ensures SameKinds(ns, PopBackEdge(ns, p)) && |PopBackEdge(ns, p)[p].back| < |ns[p].back|
    ensures Pointing(PopBackEdge(ns, p)) && forall rank :: Ranked(ns, rank) ==> Ranked(PopBackEdge(ns, p), rank)
  {
    assert ns[p].back[|ns[p].back| - 1] in ns[p].back;
  }

  lemma PopFrame(ns: Nodes, p: nat)
    requires Mirrored(ns) && Pointing(ns) && p < |ns| && ns[p].edges != []
    ensures ns[p].edges[|ns[p].edges| - 1] < |ns|
    ensures PopEdge(ns, p)[p].isPromise == ns[p].isPromise
    ensures SameKinds(ns, PopEdge(ns, p)) && |PopEdge(ns, p)[p].edges| < |ns[p].edges|
    ensures ns[p].back == [] ==> PopEdge(ns, p)[p].back == []
    ensures PopEdge(ns, p)[p].edges == ns[p].edges[..|ns[p].edges| - 1]
    ensures Pointing(PopEdge(ns, p)) && forall rank :: Ranked(ns, rank) ==> Ranked(PopEdge(ns, p), rank)
  {
    assert ns[p].edges[|ns[p].edges| - 1] in ns[p].edges;
  }

  lemma BackFrame(ns1: Nodes, ns2: Nodes, rank: seq<nat>, p: nat, back: nat, w: nat)
    requires Ranked(ns1, rank) && p < |ns1| && back < |ns1| && w < |ns1| && p != w && ns1[p].isPromise
    requires ns2 == if back == w then ns1 else AddNodeEdge(ns1, rank, back, w)
    ensures SameKinds(ns1, ns2) && ns2[p].back == ns1[p].back
  {
    hide AddNodeEdge, Ranked;
    AddNodeEdgeFrame(ns1, rank, back, w, p);
  }

  lemma ForwardFrame(ns0: Nodes, ns1: Nodes, ns2: Nodes, rank: seq<nat>, p: nat, w: nat, forward: nat)
    requires Ranked(ns1, rank) && p < |ns1| && forward < |ns1| && w < |ns1| && p != w && ns1[p].isPromise
    requires ns2 == if forward == w then ns1 else AddNodeEdge(ns1, rank, w, forward)
    requires Mirrored(ns0) && |ns0| == |ns1| && ns0[p].edges != [] && forward == ns0[p].edges[|ns0[p].edges| - 1]
    ensures SameKinds(ns1, ns2) && ns2[p].edges == ns1[p].edges
    ensures ns0[p].back == [] && ns1[p].back == [] ==> ns2[p].back == []
  {
    hide AddNodeEdge, Ranked;
    AddNodeEdgeFrame(ns1, rank, w, forward, p);
    assert forward in ns0[p].edges;
    assert p in ns0[forward].back;
  }

  lemma PopKeepsAcyclic(E: Edges, a: nat, b: nat)
    ensures Acyclic(E) ==> Acyclic(E - {(a, b)})
  {
    if Acyclic(E) {
      AcyclicMono(E - {(a, b)}, E);
    }
  }

  /** The requested edge is among the new ones. */
  lemma NewEdgesHolds(ns: Nodes, rank: seq<nat>, a: nat, b: nat)
    requires Ranked(ns, rank) && a < |ns| && b < |ns|
    ensures (a, b) in NewEdges(ns, rank, a, b)
  {
  }

  /**
   The edge (x, y), which touches `p`, has moved to (a, b): the graph is still
   within its bounds, and a cycle found now is a cycle of the bounds.
   */
  lemma Moved(ns0: Nodes, ns1: Nodes, ns2: Nodes, rank: seq<nat>, base: Nodes, E0: Edges,
              p: nat, w: nat, x: nat, y: nat, a: nat, b: nat, f0: bool, f2: bool)
    requires MergesWell(ns0, rank, f0, base, E0, p, w)
    requires WellFormed(ns1, rank) && SameKinds(ns0, ns1) && WellFormed(ns2, rank) && SameKinds(ns1, ns2)
    requires (x == p && a == w && b == y) || (y == p && b == w && a == x)
    requires x < |ns0| && y < |ns0| && (x, y) in EdgeSet(ns0)
    requires RmwSet(ns1) == RmwSet(ns0) && EdgeSet(ns1) == EdgeSet(ns0) - {(x, y)} && RmwSet(ns2) == RmwSet(ns1)
    requires EdgeSet(ns2) == EdgeSet(ns1) + (if a == b then {} else NewEdges(ns1, rank, a, b))
    requires !f2 ==> Acyclic(EdgeSet(ns2))
    requires f0 ==> f2
    requires f2 && !f0 ==> !Acyclic(EdgeSet(ns2))
    ensures MergesWell(ns2, rank, f2, base, E0, p, w) && SameKinds(ns0, ns2)
    ensures f2 && !f0 ==> !Acyclic(Bounds(base, rank, E0, p, w)) || !Acyclic(E0)
  {
    hide Mirrored, Ranked, Anchored, Acyclic, Merging, EdgeSet, RmwSet, NewEdges, Bounds, Rename;
    var N := if a == b then {} else NewEdges(ns1, rank, a, b);
    NewEdgesHolds(ns1, rank, a, b);
    MergeMove(ns0, ns2, rank, base, p, w, x, y);
    if !f0 {
      var C := Bounds(base, rank, E0, p, w);
      if a != b {
        MovedEdgeRenamed(EdgeSet(ns0), E0, C, p, w, x, y);
        NewEdgesBounded(ns1, rank, base, E0, p, w, a, b);
      }
      MergingStep(EdgeSet(ns0), E0, C, p, w, x, y, N);
      if Acyclic(E0) && Acyclic(C) {
        BoundsWithin(base, rank, E0, p, w);
        MergingAcyclic(EdgeSet(ns2), E0, C, p, w, |ns2|);
      }
    }
  }

  /** An edge that touches `p` while no cycle is known is an original one, and its renaming is no self-edge. */
  lemma MovedEdgeRenamed(E: Edges, E0: Edges, C: Edges, p: nat, w: nat, x: nat, y: nat)
    requires Acyclic(E) && Merging(E, E0, C, p, w) && (x, y) in E && p != w
    requires (x == p && y != w) || (y == p && x != w)
    ensures Ren(x, p, w) != Ren(y, p, w) && (Ren(x, p, w), Ren(y, p, w)) in Rename(E0, p, w)
    ensures Ren(x, p, w) != p && Ren(y, p, w) != p
    ensures var a, b := Ren(x, p, w), Ren(y, p, w); (a, b) in E0 ==> (a, b) in E - {(x, y)}
  {
    if x == y {
      EdgePlus(E, x, x);
    }
  }

  lemma BoundsWithin(base: Nodes, rank: seq<nat>, E0: Edges, p: nat, w: nat)
    requires Ranked(base, rank) && Within(E0, |base|) && p < |base| && w < |base|
    ensures Rename(E0, p, w) <= Bounds(base, rank, E0, p, w)
    ensures Within(Bounds(base, rank, E0, p, w), |base|)
    ensures Within(Closure(base, rank, Rename(E0, p, w)), |base|)
  {
    BoundsInClosure(base, rank, E0, p, w);
    var F := Rename(E0, p, w);
    forall a: nat, b: nat | (a, b) in F ensures a < |base| && b < |base| {
      var d :| d in E0 && Ren(d.0, p, w) != Ren(d.1, p, w) && (a, b) == (Ren(d.0, p, w), Ren(d.1, p, w));
      assert d == (d.0, d.1);
    }
    forall a: nat, b: nat | (a, b) in Derived(base, rank, F) ensures a < |base| && b < |base| {
      var e :| e in F && e.0 < |base| && base[e.0].rmw.Some? &&
          ChainStop(base, rank, base[e.0].rmw.value, e.1) != e.1 &&
               (a, b) == (ChainStop(base, rank, base[e.0].rmw.value, e.1), e.1);
      assert e == (e.0, e.1);
    }
    forall a: nat, b: nat | (a, b) in Bounds(base, rank, E0, p, w) ensures a < |base| && b < |base| {
      assert (a, b) in Closure(base, rank, F);
    }
  }

  lemma TableSmaller(ns: Nodes, t: map<nat, nat>, k: nat, p: bool)
    requires Table(ns, t, p)
    ensures Table(ns, t - {k}, p)
  {
  }

  /** The promise and the write are each read by a read-modify-write of their own. */
  predicate TwoReaders(ns: Nodes, p: nat, w: nat) {
    p < |ns| && w < |ns| && ns[p].rmw.Some? && ns[w].rmw.Some? && ns[p].rmw != ns[w].rmw
  }

  /** What a successful merge means. */
  ghost predicate Merged(ns0: Nodes, ns: Nodes, rank: seq<nat>, p: nat, w: nat) {
    && Ranked(ns, rank) && |ns| == |ns0| && p < |ns| && w < |ns| && p != w
    && ns[p].edges == [] && ns[p].back == []
    && Mirrored(ns) && Acyclic(EdgeSet(ns))
    && RmwSet(ns) == RmwSet(ns0) + (if ns0[p].rmw.Some? then {(w, ns0[p].rmw.value)} else {})
    && Rename(EdgeSet(ns0), p, w) <= EdgeSet(ns) <= Bounds(ns, rank, EdgeSet(ns0), p, w)
  }

  /** Every path survives a successful merge, with the promise renamed to the write. */
  lemma MergedPaths(ns0: Nodes, ns: Nodes, rank: seq<nat>, p: nat, w: nat, x: nat, y: nat)
    requires Merged(ns0, ns, rank, p, w) && Reach(EdgeSet(ns0), x, y)
    ensures Reach(EdgeSet(ns), Ren(x, p, w), Ren(y, p, w))
  {
    PathsSurvive(EdgeSet(ns0), EdgeSet(ns), p, w, x, y);
  }

  /**
   A successful merge adds nothing arbitrary: an order of the nodes that respects
   the renamed edges and keeps every read-modify-write next to its write
   respects all of the new edges.
   */
  lemma MergedSound(ns0: Nodes, ns: Nodes, rank: seq<nat>, p: nat, w: nat, pos: seq<nat>)
    requires Merged(ns0, ns, rank, p, w) && |pos| == |ns| && IsOrder(pos)
    requires Respects(pos, Rename(EdgeSet(ns0), p, w)) && Contiguous(ns, pos, p)
    ensures Respects(pos, EdgeSet(ns))
  {
    hide Mirrored, Ranked, EdgeSet, RmwSet, Contiguous, Acyclic, Rename, Bounds;
    BoundsInClosure(ns, rank, EdgeSet(ns0), p, w);
    ClosureSound(ns, rank, Rename(EdgeSet(ns0), p, w), pos, p);
    forall a: nat, b: nat | (a, b) in EdgeSet(ns) ensures a < |pos| && b < |pos| && pos[a] < pos[b] {
      assert (a, b) in Bounds(ns, rank, EdgeSet(ns0), p, w);
    }
  }

  lemma MergeStartsSame(ns: Nodes, rank: seq<nat>, p: nat, w: nat)
    requires WellFormed(ns, rank) && Anchored(ns) && p < |ns| && w < |ns| && ns[p].isPromise && !ns[w].isPromise
    requires ns[p].rmw.Some? ==> ns[p].rmw == ns[w].rmw
    requires !Reach(RmwSet(ns), p, w)
    ensures MergeTables(ns, rank, ns, p, w)
    ensures RmwSet(ns) == RmwSet(ns) + (if ns[p].rmw.Some? then {(w, ns[p].rmw.value)} else {})
  {
    hide Mirrored, EdgeSet;
    if ns[p].rmw.Some? {
      assert (p, ns[p].rmw.value) in RmwSet(ns) && (w, ns[p].rmw.value) in RmwSet(ns);
      ReachEdge(RmwSet(ns), p, ns[p].rmw.value);
    }
  }

  lemma MergeReady(ns0: Nodes, base: Nodes, rank: seq<nat>, flag: bool, p: nat, w: nat)
    requires MergeTables(base, rank, base, p, w) && EdgeSet(base) == EdgeSet(ns0) && |base| == |ns0| && Mirrored(ns0)
    requires !flag ==> Acyclic(EdgeSet(ns0))
    ensures MergesWell(base, rank, flag, base, EdgeSet(ns0), p, w)
  {
    hide Anchored, Acyclic, Merging, Rename, Bounds, Reach;
    var E0 := EdgeSet(ns0);
    assert Within(E0, |base|);
    BoundsWithin(base, rank, E0, p, w);
    MergingInit(E0, Bounds(base, rank, E0, p, w), p, w);
  }

  lemma MergeFinished(ns0: Nodes, base: Nodes, ns: Nodes, rank: seq<nat>, flag: bool, done: bool, p: nat, w: nat)
    requires MergesWell(ns, rank, flag, base, EdgeSet(ns0), p, w) && |ns0| == |ns|
    requires RmwSet(base) == RmwSet(ns0) + (if ns0[p].rmw.Some? then {(w, ns0[p].rmw.value)} else {})
    requires done ==> ns[p].edges == [] && ns[p].back == []
    ensures WellFormed(ns, rank) && Anchored(ns) && (!flag ==> Acyclic(EdgeSet(ns)))
    ensures Bounds(ns, rank, EdgeSet(ns0), p, w) == Bounds(base, rank, EdgeSet(ns0), p, w)
    ensures done && !flag && Acyclic(EdgeSet(ns0)) ==> Merged(ns0, ns, rank, p, w)
  {
    hide Mirrored, Ranked, Anchored, Acyclic, Merging, EdgeSet, RmwSet, Rename, Derived;
    DerivedSameRmw(ns, base, rank, Rename(EdgeSet(ns0), p, w) - EdgeSet(ns0));
    if done && !flag && Acyclic(EdgeSet(ns0)) {
      Detached(ns, p);
      MergingDone(EdgeSet(ns), EdgeSet(ns0), Bounds(base, rank, EdgeSet(ns0), p, w), p, w);
    }
  }

  // ------------------------------------------------------------------
  // A promise node that becomes a write's node
  // ------------------------------------------------------------------

  /** CycleNode::resolvePromise. */
  function Convert(ns: Nodes, p: nat): (r: Nodes)
    requires p < |ns|
    ensures |r| == |ns|
    ensures forall i :: 0 <= i < |ns| ==> r[i].edges == ns[i].edges && r[i].back == ns[i].back && r[i].rmw == ns[i].rmw
    ensures forall i :: 0 <= i < |ns| ==> r[i].isPromise == (ns[i].isPromise && i != p)
  {
    ns[p := ns[p].(isPromise := false)]
  }

  lemma ConvertSets(ns: Nodes, p: nat)
    requires p < |ns|
    ensures EdgeSet(Convert(ns, p)) == EdgeSet(ns) && RmwSet(Convert(ns, p)) == RmwSet(ns)
  {
    var r := Convert(ns, p);
    forall x: nat, y: nat ensures (x, y) in EdgeSet(r) <==> (x, y) in EdgeSet(ns) {
    }
    forall x: nat, y: nat ensures (x, y) in RmwSet(r) <==> (x, y) in RmwSet(ns) {
    }
  }

  lemma ConvertWellFormed(ns: Nodes, rank: seq<nat>, p: nat)
    requires WellFormed(ns, rank) && p < |ns|
    ensures WellFormed(Convert(ns, p), rank)
  {
    hide Convert;
  }

  lemma ConvertSane(ns: Nodes, rank: seq<nat>, flag: bool, p: nat)
    requires Sane(ns, rank, flag) && p < |ns|
    ensures Sane(Convert(ns, p), rank, flag)
    ensures EdgeSet(Convert(ns, p)) == EdgeSet(ns) && RmwSet(Convert(ns, p)) == RmwSet(ns)
  {
    hide WellFormed, Convert, Acyclic;
    ConvertSets(ns, p);
    ConvertWellFormed(ns, rank, p);
  }

  lemma ConvertTracks(ns: Nodes, rank: seq<nat>, log: set<Constraint>, flag: bool, p: nat)
    requires Tracks(ns, rank, log) && Exact(flag, ns, log) && p < |ns|
    ensures Tracks(Convert(ns, p), rank, log) && Exact(flag, Convert(ns, p), log)
  {
    hide WellFormed, Chained, Covered, Solves, Respects, Acyclic, Convert, Contested;
    ConvertSets(ns, p);
    ConvertWellFormed(ns, rank, p);
  }

  lemma ConvertExtends(cs: Nodes, ns: Nodes, roll: seq<nat>, rmwRoll: seq<nat>, p: nat)
    requires Extends(cs, ns, roll, rmwRoll) && p < |ns|
    ensures Extends(Convert(cs, p), Convert(ns, p), roll, rmwRoll)
  {
    hide Convert;
    forall i | 0 <= i < |ns|
      ensures NodeExtends(Convert(cs, p)[i], Convert(ns, p)[i], multiset(roll)[i], i in rmwRoll)
    {
      assert NodeExtends(cs[i], ns[i], multiset(roll)[i], i in rmwRoll);
    }
  }

  lemma ConvertTables(ns: Nodes, acts: map<nat, nat>, promises: map<nat, nat>, promise: nat, writer: nat)
    requires Table(ns, acts, false) && Table(ns, promises, true) && promise in promises && writer !in acts
    ensures promises[promise] < |ns|
    ensures Table(Convert(ns, promises[promise]), acts[writer := promises[promise]], false)
    ensures Table(Convert(ns, promises[promise]), promises - {promise}, true)
  {
    hide Convert;
  }
}
