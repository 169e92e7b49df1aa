/**
 Two views that show what the search for release sequences does not do: it is not asked
 again when another thread comes after the end of a sequence, and it takes any action
 with a releasing order for a release.
 */
module ReleaseExamples {
  import opened Digraph
  import opened Optional
  import opened Clocks
  import opened Actions
  import opened HappensBefore
  import opened Coherence
  import opened ReleaseSequence
  import opened ReleaseSearch

  function At0(kind: Kind, order: MemoryOrder, tid: nat, now: nat, rf: Option<nat>, cv: Clock): Action {
    Action.Action(kind, order, tid, now, 0, rf, None, cv)
  }

  // ------------------------------------------------------------------
  // A search that could be settled and is not asked
  // ------------------------------------------------------------------

  /**
   Thread 1 stores to location 0, releasing and then relaxed, and releases location 1; thread 2 acquires
   what was stored last to location 0.
   */
  function Waiting(): (v: View)
    ensures v.t == map[0 := 0, 1 := 1, 2 := 2] && v.E == {(0, 1)} && v.last == map[1 := 2, 2 := 3]
    ensures v.settled == [true, false, false] && |v.s| == 4
    ensures v.s[0] == At0(Write, Release, 1, 1, None, [0, 1]) && v.s[1] == At0(Write, Relaxed, 1, 2, None, [0, 2])
    ensures v.s[2] == Action.Action(Write, Release, 1, 3, 1, None, None, [0, 3])
    ensures v.s[3] == At0(Read, Acquire, 2, 4, Some(1), [0, 0, 4])
  {
    View([At0(Write, Release, 1, 1, None, [0, 1]), At0(Write, Relaxed, 1, 2, None, [0, 2]),
          Action.Action(Write, Release, 1, 3, 1, None, None, [0, 3]), At0(Read, Acquire, 2, 4, Some(1), [0, 0, 4])],
         map[0 := 0, 1 := 1, 2 := 2], {(0, 1)}, map[1 := 2, 2 := 3], [true, false, false])
  }

  /** Thread 2 acquires location 1, too, which asks the graph for nothing. */
  function Later(): (v: View)
    ensures v.t == Waiting().t && v.E == Waiting().E && v.last == map[1 := 2, 2 := 4] && v.settled == Waiting().settled
    ensures |v.s| == 5 && v.s[..4] == Waiting().s
    ensures v.s[4] == Action.Action(Read, Acquire, 2, 5, 1, Some(2), None, [0, 3, 5])
  {
    Waiting().(s := Waiting().s + [Action.Action(Read, Acquire, 2, 5, 1, Some(2), None, [0, 3, 5])],
      last := map[1 := 2, 2 := 4])
  }

  /** What both have in common: one release is left to ask about, and nothing ends the scan of thread 2. */
  lemma SameQuestion(v: View)
    requires v == Waiting() || v == Later()
    ensures ChainTail(v.s, 1) == 1 && Loose(v.s, 1) && OwnRelease(v.s, 1, 0)
    ensures forall act: nat :: act < |v.s| && Listed(v.s, act, 1, 2) ==> act == 3
    ensures Sighting(v.s, v.t, v.E, 0, 1, 3) == Nothing
  {
    assert v == Later() ==> forall a: nat :: a < 4 ==> v.s[a] == v.s[..4][a];
  }

  /**
   The search of the first acquire is uncertain at first, since thread 2 could still store. Once thread 2
   has acquired location 1 it could be settled, but nothing of this changes the graph.
   */
  lemma SettledQuietly()
    ensures !Answered(Waiting(), 1) && Answered(Later(), 1)
  {
    hide *;
    OpenAtFirst();
    ClearLater();
  }

  lemma OpenAtFirst()
    ensures !Answered(Waiting(), 1)
  {
    var v := Waiting();
    SameQuestion(v);
    OneOffChain(v, 1, 0);
    assert !ThreadClear(v, 0, 1, 2);
  }

  lemma ClearLater()
    ensures Answered(Later(), 1)
  {
    var v := Later();
    SameQuestion(v);
    OneOffChain(v, 1, 0);
    assert ThreadClear(v, 0, 1, 2);
    assert ThreadClear(v, 0, 1, 0) by {
      assert forall act: nat :: act < |v.s| && Listed(v.s, act, 1, 0) ==> false;
    }
  }

  // ------------------------------------------------------------------
  // A load at the head
  // ------------------------------------------------------------------

  /** Thread 1 stores to location 0, loads it in sequentially consistent order, and stores again; thread 2 acquires. */
  function LoadFirst(): (v: View)
    ensures v.t == map[0 := 0, 2 := 1] && v.E == {(0, 1)} && v.last == map[1 := 2, 2 := 3]
    ensures v.settled == [true, false, true] && |v.s| == 4
    ensures v.s[0] == At0(Write, Relaxed, 1, 1, None, [0, 1]) && v.s[1] == At0(Read, SeqCst, 1, 2, Some(0), [0, 2])
    ensures v.s[2] == At0(Write, Relaxed, 1, 3, None, [0, 3]) && v.s[3] == At0(Read, Acquire, 2, 4, Some(2), [0, 0, 4])
  {
    View([At0(Write, Relaxed, 1, 1, None, [0, 1]), At0(Read, SeqCst, 1, 2, Some(0), [0, 2]),
          At0(Write, Relaxed, 1, 3, None, [0, 3]), At0(Read, Acquire, 2, 4, Some(2), [0, 0, 4])],
         map[0 := 0, 2 := 1], {(0, 1)}, map[1 := 2, 2 := 3], [true, false, true])
  }

  /** Thread 1 has released nothing, but its load is taken for the head. */
  lemma LoadHeads()
    ensures Heading(LoadFirst(), 2, 1) && LoadFirst().s[1].kind.Read?
  {
    var v := LoadFirst();
    assert ChainTail(v.s, 2) == 2 && Loose(v.s, 2) && OwnRelease(v.s, 2, 1);
    OneOffChain(v, 2, 1);
    assert forall act: nat :: act < |v.s| && Listed(v.s, act, 2, 2) ==> act == 3;
    assert Sighting(v.s, v.t, v.E, 1, 2, 3) == Nothing;
    assert ThreadClear(v, 1, 2, 2);
    assert ThreadClear(v, 1, 2, 0) by {
      assert forall act: nat :: act < |v.s| && Listed(v.s, act, 2, 0) ==> false;
    }
  }

  /** That is the only way: heads on the chain are stores and fences, and one off the chain is a store or a load. */
  lemma HeadKinds(v: View, rf0: nat, h: nat)
    requires Heading(v, rf0, h) && rf0 < |v.s| && v.s[rf0].kind.IsWrite()
    requires forall a: nat :: a < |v.s| && v.s[a].lastFence.Some? ==>
               v.s[a].lastFence.value < |v.s| && v.s[v.s[a].lastFence.value].kind.Fence?
    ensures h < |v.s| && (OnChain(v.s, rf0, h) ==> v.s[h].kind.IsWrite() || v.s[h].kind.Fence?)
    ensures OffChain(v.s, rf0, h) ==> v.s[h].kind.IsWrite() || v.s[h].kind.IsRead()
  {
    ChainWrites(v.s, rf0);
    if OnChain(v.s, rf0, h) {
      var r :| r in Chain(v.s, rf0) && r < |v.s| && ReleaseAt(v.s, r) == Some(h);
    }
  }

  lemma {:induction false} ChainWrites(s: Trace, rf: nat)
    requires rf < |s| && s[rf].kind.IsWrite()
    ensures forall r :: r in Chain(s, rf) ==> r < |s| && s[r].kind.IsWrite()
    decreases rf
  {
    if Continues(s, rf) {
      ChainWrites(s, s[rf].rf.value);
    }
  }
}
