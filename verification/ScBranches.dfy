/**
 The branches of generateSC's search. Where pruneArray gives up, a choice is recorded; when a
 cycle is found, the last choice with another option moves on to it and the search starts
 over. What was tried before at the choices that lead to the current point is refuted.
 */
module ScBranches {
  import opened Optional
  import opened Clocks
  import opened Actions
  import opened HappensBefore
  import opened ScOrders
  import opened ScChoices
  import opened ScTurns

  /** How many choices lead to `e`. */
  ghost function Uses(p: Program, e: seq<nat>): nat
    decreases |e|
  {
    if e == [] then 0 else Uses(p, Front(e)) + if Pick(p, Front(e)).None? then 1 else 0
  }

  /** After `q` the search takes `a`: what pruneArray picks, or what was chosen. */
  ghost predicate Chosen(p: Program, q: seq<nat>, choices: seq<nat>, a: nat) {
    match Pick(p, q)
    case Some(x) => a == x
    case None => ChoiceInRange(p, q, choices) && a == Next(p, q)[choices[Uses(p, q)]]
  }

  ghost predicate ChoiceInRange(p: Program, q: seq<nat>, choices: seq<nat>) {
    Uses(p, q) < |choices| && choices[Uses(p, q)] < |Next(p, q)|
  }

  ghost predicate Follows(p: Program, e: seq<nat>, choices: seq<nat>)
    decreases |e|
  {
    e == [] || (Follows(p, Front(e), choices) && Chosen(p, Front(e), choices, Last(e)))
  }

  /** The options before the one that is chosen after `q` are refuted. */
  ghost predicate TriedAt(p: Program, q: seq<nat>, choices: seq<nat>) {
    Pick(p, q).None? && Uses(p, q) < |choices| ==>
      forall k: nat :: k < choices[Uses(p, q)] && k < |Next(p, q)| ==> !Possible(p, q + [Next(p, q)[k]])
  }

  ghost predicate Tried(p: Program, e: seq<nat>, choices: seq<nat>)
    decreases |e|
  {
    e == [] || (Tried(p, Front(e), choices) && TriedAt(p, Front(e), choices))
  }

  /** What the search may take after `q` loses no order: all of what pruneArray passes over is needed later. */
  ghost predicate LosesNone(p: Program, q: seq<nat>) {
    Possible(p, q) ==>
      match Pick(p, q)
      case Some(x) => Possible(p, q + [x])
      case None => exists k: nat :: k < |Next(p, q)| && Possible(p, q + [Next(p, q)[k]])
  }

  /** After `q` pruneArray picks a write while a read waits for another write to its location. */
  ghost predicate PassesOver(p: Program, q: seq<nat>, x: nat) {
    Pick(p, q) == Some(x) && x < |p.s| && p.s[x].kind.IsWrite() && exists r: nat :: Waiting(p, q, x, r)
  }

  ghost predicate Thorough(p: Program, e: seq<nat>)
    decreases |e|
  {
    e == [] || (Thorough(p, Front(e)) && LosesNone(p, Front(e)))
  }

  /** No choice after the first `m` actions has another option. */
  ghost predicate Spent(p: Program, e: seq<nat>, m: nat, choices: seq<nat>)
    decreases |e|
  {
    |e| <= m || (Spent(p, Front(e), m, choices) && SpentAt(p, Front(e), choices))
  }

  ghost predicate SpentAt(p: Program, q: seq<nat>, choices: seq<nat>) {
    Pick(p, q).None? && Uses(p, q) < |choices| ==> choices[Uses(p, q)] + 1 >= |Next(p, q)|
  }

  /** `last` is the last choice with another option, or -1 when there is none. */
  ghost predicate IsLast(p: Program, e: seq<nat>, choices: seq<nat>, last: int) {
    if last < 0 then Spent(p, e, 0, choices)
    else exists m: nat :: OpenAt(p, e, m, choices, last) && Spent(p, e, m + 1, choices)
  }

  ghost predicate OpenAt(p: Program, e: seq<nat>, m: nat, choices: seq<nat>, last: int) {
    && m < |e| && Pick(p, e[..m]).None? && Uses(p, e[..m]) == last
    && 0 <= last < |choices| && choices[last] + 1 < |Next(p, e[..m])|
  }

  // ------------------------------------------------------------------
  // Beginnings
  // ------------------------------------------------------------------

  lemma {:induction false} UsesPrefix(p: Program, e: seq<nat>, n: nat)
    requires n <= |e|
    ensures Uses(p, e[..n]) <= Uses(p, e)
    ensures n < |e| && Pick(p, e[..n]).None? ==> Uses(p, e[..n]) < Uses(p, e)
    decreases |e|
  {
    if n < |e| {
      assert Front(e)[..n] == e[..n];
      UsesPrefix(p, Front(e), n);
      if n == |e| - 1 {
        assert Front(e) == e[..n];
      }
    } else {
      assert e[..n] == e;
    }
  }

  lemma {:induction false} FollowsPrefix(p: Program, e: seq<nat>, n: nat, choices: seq<nat>)
    requires n <= |e|
    ensures Follows(p, e, choices) ==> Follows(p, e[..n], choices)
    ensures Tried(p, e, choices) ==> Tried(p, e[..n], choices)
    ensures Thorough(p, e) ==> Thorough(p, e[..n])
    decreases |e|
  {
    if n < |e| {
      assert Front(e)[..n] == e[..n];
      FollowsPrefix(p, Front(e), n, choices);
    } else {
      assert e[..n] == e;
    }
  }

  /** What follows the same choices is the same as far as it goes. */
  lemma {:induction false} Comparable(p: Program, e: seq<nat>, f: seq<nat>, choices: seq<nat>)
    requires Follows(p, e, choices) && Follows(p, f, choices) && |e| <= |f|
    ensures e == f[..|e|]
    decreases |f|
  {
    hide Pick, Next, Uses;
    if |e| < |f| {
      Comparable(p, e, Front(f), choices);
    } else if e != [] {
      Comparable(p, Front(e), Front(f), choices);
      assert Front(f)[..|Front(e)|] == Front(f);
      Whole(e);
      Whole(f);
      assert f[..|e|] == f;
    }
  }

  lemma Whole(e: seq<nat>)
    requires e != []
    ensures e == Front(e) + [Last(e)] && |Front(e)| == |e| - 1
  {
  }

  lemma Extend(p: Program, e: seq<nat>, a: nat, choices: seq<nat>)
    ensures Front(e + [a]) == e && Last(e + [a]) == a
    ensures Uses(p, e + [a]) == Uses(p, e) + if Pick(p, e).None? then 1 else 0
    ensures Follows(p, e + [a], choices) <==> Follows(p, e, choices) && Chosen(p, e, choices, a)
    ensures Tried(p, e + [a], choices) <==> Tried(p, e, choices) && TriedAt(p, e, choices)
    ensures Thorough(p, e + [a]) <==> Thorough(p, e) && LosesNone(p, e)
  {
    assert Front(e + [a]) == e;
  }

  /** Only the choices that lead to `e` matter. */
  ghost predicate Agree(c: seq<nat>, d: seq<nat>, n: nat) {
    |c| == |d| && forall i :: 0 <= i < n && i < |c| ==> c[i] == d[i]
  }

  lemma {:induction false} AgreeFollows(p: Program, e: seq<nat>, c: seq<nat>, d: seq<nat>)
    requires Agree(c, d, Uses(p, e))
    ensures Follows(p, e, c) ==> Follows(p, e, d)
    ensures Tried(p, e, c) ==> Tried(p, e, d)
    ensures forall m: nat :: Spent(p, e, m, c) ==> Spent(p, e, m, d)
    decreases |e|
  {
    if e != [] {
      AgreeFollows(p, Front(e), c, d);
    }
  }

  lemma AgreeLast(p: Program, e: seq<nat>, c: seq<nat>, d: seq<nat>, last: int)
    requires Agree(c, d, Uses(p, e)) && IsLast(p, e, c, last)
    ensures IsLast(p, e, d, last)
  {
    AgreeFollows(p, e, c, d);
    if last >= 0 {
      var m: nat :| OpenAt(p, e, m, c, last) && Spent(p, e, m + 1, c);
      UsesPrefix(p, e, m);
      assert OpenAt(p, e, m, d, last) && Spent(p, e, m + 1, d);
    }
  }

  // ------------------------------------------------------------------
  // Turns
  // ------------------------------------------------------------------

  /** On the way back to where the search was rolled back, the choices are in range, and what was tried is refuted. */
  lemma OnTheWay(p: Program, e: seq<nat>, spine: seq<nat>, choices: seq<nat>)
    requires Follows(p, e, choices) && Follows(p, spine, choices) && Uses(p, e) < Uses(p, spine) && Pick(p, e).None?
    ensures ChoiceInRange(p, e, choices)
    ensures Tried(p, spine, choices) ==> TriedAt(p, e, choices)
  {
    if |spine| <= |e| {
      Comparable(p, spine, e, choices);
      UsesPrefix(p, e, |spine|);
    } else {
      Comparable(p, e, spine, choices);
      var n := |e| + 1;
      FollowsPrefix(p, spine, n, choices);
      assert Front(spine[..n]) == e;
    }
  }

  /** The first option of a new choice has none before it. */
  lemma FirstOption(p: Program, e: seq<nat>, choices: seq<nat>)
    requires Uses(p, e) < |choices| && choices[Uses(p, e)] == 0
    ensures TriedAt(p, e, choices)
    ensures Next(p, e) != [] ==> ChoiceInRange(p, e, choices)
  {
  }

  /** How the last choice with another option is kept up to date. */
  lemma LastStep(p: Program, e: seq<nat>, a: nat, choices: seq<nat>, last: int)
    requires IsLast(p, e, choices, last) && last < |choices|
    ensures Pick(p, e).None? && ChoiceInRange(p, e, choices) && choices[Uses(p, e)] + 1 < |Next(p, e)| ==>
              IsLast(p, e + [a], choices, Uses(p, e))
    ensures SpentAt(p, e, choices) ==> IsLast(p, e + [a], choices, last)
  {
    hide Pick, Next, Uses;
    var f := e + [a];
    assert Front(f) == e;
    if Pick(p, e).None? && ChoiceInRange(p, e, choices) && choices[Uses(p, e)] + 1 < |Next(p, e)| {
      assert f[..|e|] == e;
      assert OpenAt(p, f, |e|, choices, Uses(p, e)) && Spent(p, f, |e| + 1, choices);
    }
    if SpentAt(p, e, choices) && last >= 0 {
      var m: nat :| OpenAt(p, e, m, choices, last) && Spent(p, e, m + 1, choices);
      assert f[..m] == e[..m];
      assert OpenAt(p, f, m, choices, last) && Spent(p, f, m + 1, choices);
    }
  }

  // ------------------------------------------------------------------
  // Rollbacks
  // ------------------------------------------------------------------

  lemma StepBack(p: Program, q: seq<nat>, a: nat, choices: seq<nat>)
    requires Chosen(p, q, choices, a) && TriedAt(p, q, choices) && LosesNone(p, q) && SpentAt(p, q, choices)
    requires !Possible(p, q + [a])
    ensures !Possible(p, q)
  {
    hide Pick, Next, Uses, Possible;
    if Possible(p, q) && Pick(p, q).None? {
      var k: nat :| k < |Next(p, q)| && Possible(p, q + [Next(p, q)[k]]);
    }
  }

  /** A cycle refutes everything back to the last choice that has another option. */
  lemma {:induction false} Backtrack(p: Program, e: seq<nat>, m: nat, choices: seq<nat>)
    requires Follows(p, e, choices) && Tried(p, e, choices) && Thorough(p, e) && Spent(p, e, m, choices) && m <= |e|
    requires !Possible(p, e)
    ensures !Possible(p, e[..m])
    decreases |e|
  {
    if m < |e| {
      Whole(e);
      StepBack(p, Front(e), Last(e), choices);
      assert Front(e)[..m] == e[..m];
      hide Pick, Next, Uses, Possible;
      Backtrack(p, Front(e), m, choices);
    } else {
      assert e[..m] == e;
    }
  }

  /** The point to which the search goes back, with the next option chosen there. */
  lemma Rollback(p: Program, e: seq<nat>, choices: seq<nat>, last: nat) returns (spine: seq<nat>)
    requires Follows(p, e, choices) && IsLast(p, e, choices, last) && last < |choices|
    ensures var more := choices[last := choices[last] + 1];
            && Follows(p, spine, more) && Uses(p, spine) == last + 1
            && (Thorough(p, e) ==> Thorough(p, spine))
            && (Thorough(p, e) && Tried(p, e, choices) && !Possible(p, e) ==> Tried(p, spine, more))
    ensures last < Uses(p, e)
  {
    hide Pick, Next, Possible, Follows, Tried, Thorough, Uses, Spent, LosesNone;
    var more := choices[last := choices[last] + 1];
    var m: nat :| OpenAt(p, e, m, choices, last) && Spent(p, e, m + 1, choices);
    var q := e[..m];
    UsesPrefix(p, e, m);
    FollowsPrefix(p, e, m + 1, choices);
    Split(e, m);
    Extend(p, q, e[m], choices);
    NextOption(p, q, choices, last);
    spine := q + [Next(p, q)[more[last]]];
    Extend(p, q, Next(p, q)[more[last]], more);
    if Thorough(p, e) && Tried(p, e, choices) && !Possible(p, e) {
      Backtrack(p, e, m + 1, choices);
      ChosenIs(p, q, e[m], choices, last);
      NextTried(p, q, e[m], choices, last);
    }
  }

  lemma Split(e: seq<nat>, m: nat)
    requires m < |e|
    ensures e[..m + 1] == e[..m] + [e[m]]
  {
  }

  lemma ChosenIs(p: Program, q: seq<nat>, a: nat, choices: seq<nat>, last: nat)
    requires Chosen(p, q, choices, a) && Pick(p, q).None? && Uses(p, q) == last
    ensures last < |choices| && choices[last] < |Next(p, q)| && a == Next(p, q)[choices[last]]
  {
    hide Pick, Next, Uses;
  }

  lemma NextOption(p: Program, q: seq<nat>, choices: seq<nat>, last: nat)
    requires Follows(p, q, choices) && Uses(p, q) == last < |choices| && Pick(p, q).None?
    requires choices[last] + 1 < |Next(p, q)|
    ensures var more := choices[last := choices[last] + 1];
            var spine := q + [Next(p, q)[more[last]]];
            Follows(p, spine, more) && Uses(p, spine) == last + 1
  {
    hide Pick, Next, Possible;
    var more := choices[last := choices[last] + 1];
    AgreeFollows(p, q, choices, more);
    Extend(p, q, Next(p, q)[more[last]], more);
  }

  /** The option that failed is one more that is refuted. */
  lemma NextTried(p: Program, q: seq<nat>, a: nat, choices: seq<nat>, last: nat)
    requires Tried(p, q + [a], choices) && Uses(p, q) == last < |choices| && Pick(p, q).None?
    requires choices[last] + 1 < |Next(p, q)| && a == Next(p, q)[choices[last]] && !Possible(p, q + [a])
    ensures var more := choices[last := choices[last] + 1]; Tried(p, q + [Next(p, q)[more[last]]], more)
  {
    hide Pick, Next, Possible;
    var more := choices[last := choices[last] + 1];
    Extend(p, q, a, choices);
    Extend(p, q, Next(p, q)[more[last]], more);
    AgreeFollows(p, q, choices, more);
    forall k: nat | k < more[last] && k < |Next(p, q)| ensures !Possible(p, q + [Next(p, q)[k]]) {
      assert k == choices[last] || k < choices[last];
    }
  }

  /** With no option left anywhere, no order is left. */
  lemma NothingLeft(p: Program, e: seq<nat>, choices: seq<nat>)
    requires Follows(p, e, choices) && Tried(p, e, choices) && Thorough(p, e) && IsLast(p, e, choices, -1)
    requires !Possible(p, e)
    ensures !Possible(p, [])
  {
    Backtrack(p, e, 0, choices);
    assert e[..0] == [];
  }

  // ------------------------------------------------------------------
  // The bookkeeping of the search
  // ------------------------------------------------------------------

  /**
   The actions taken follow the choices, and so does the point to which the search was last rolled
   back. As long as nothing was ever lost, what was tried on the way to either is refuted.
   */
  ghost predicate OnTrack(p: Program, e: seq<nat>, spine: seq<nat>, choices: seq<nat>, end: nat, curr: nat, last: int,
                          sure: bool) {
    && |choices| == |p.s| && Digits(choices, p.threads + 1) && end <= |choices| && -1 <= last < |choices|
    && Follows(p, e, choices) && Uses(p, e) == curr
    && Follows(p, spine, choices) && Uses(p, spine) == end
    && IsLast(p, e, choices, last)
    && (sure ==> Tried(p, e, choices) && Tried(p, spine, choices) && Thorough(p, e) && Thorough(p, spine))
  }

  /** The choice at hand: the recorded one on the way back, the first option otherwise. */
  function Recorded(choices: seq<nat>, end: nat, curr: nat): (c: seq<nat>)
    requires curr < |choices|
    ensures |c| == |choices|
  {
    if curr < end then choices else choices[curr := 0]
  }

  lemma TrackRecorded(p: Program, e: seq<nat>, spine: seq<nat>, choices: seq<nat>, end: nat, curr: nat, last: int,
                      sure: bool)
    requires OnTrack(p, e, spine, choices, end, curr, last, sure) && curr < |choices|
    requires Pick(p, e).None? && 0 < |Next(p, e)| <= p.threads
    ensures var c := Recorded(choices, end, curr);
            && OnTrack(p, e, spine, c, end, curr, last, sure) && ChoiceInRange(p, e, c)
            && (sure ==> TriedAt(p, e, c))
  {
    hide Pick, Next, Possible;
    var c := Recorded(choices, end, curr);
    if curr < end {
      OnTheWay(p, e, spine, choices);
    } else {
      AgreeFollows(p, e, choices, c);
      AgreeFollows(p, spine, choices, c);
      AgreeLast(p, e, choices, c, last);
      FirstOption(p, e, c);
    }
  }

  /** Where pruneArray picks. */
  lemma TrackPicked(p: Program, e: seq<nat>, spine: seq<nat>, choices: seq<nat>, end: nat, curr: nat, last: int,
                    sure: bool, act: nat)
    requires OnTrack(p, e, spine, choices, end, curr, last, sure) && Pick(p, e) == Some(act)
    ensures OnTrack(p, e + [act], spine, choices, end, curr, last, sure && LosesNone(p, e))
  {
    hide Pick, Next, Possible;
    Extend(p, e, act, choices);
    LastStep(p, e, act, choices, last);
  }

  /** Where it gives up. */
  lemma TrackChosen(p: Program, e: seq<nat>, spine: seq<nat>, choices: seq<nat>, end: nat, curr: nat, last: int,
                    sure: bool)
    requires OnTrack(p, e, spine, choices, end, curr, last, sure) && curr < |choices|
    requires Pick(p, e).None? && 0 < |Next(p, e)| <= p.threads
    ensures ChoiceInRange(p, e, Recorded(choices, end, curr))
    ensures var c := Recorded(choices, end, curr);
            OnTrack(p, e + [Next(p, e)[c[curr]]], spine, c, end, curr + 1,
              if c[curr] + 1 < |Next(p, e)| then curr else last, sure && LosesNone(p, e))
  {
    hide Pick, Next, Possible, LosesNone;
    TrackRecorded(p, e, spine, choices, end, curr, last, sure);
    var c := Recorded(choices, end, curr);
    var act := Next(p, e)[c[curr]];
    Extend(p, e, act, c);
    LastStep(p, e, act, c, last);
  }

  /** A rollback. */
  lemma TrackBack(p: Program, e: seq<nat>, spine: seq<nat>, choices: seq<nat>, end: nat, curr: nat, last: nat,
                  sure: bool) returns (spine': seq<nat>)
    requires OnTrack(p, e, spine, choices, end, curr, last, sure) && !Possible(p, e) && last < |choices|
    ensures OnTrack(p, [], spine', choices[last := choices[last] + 1], last + 1, 0, -1, sure)
  {
    hide Possible, LosesNone, Pick, Next, Follows, Tried, Thorough, Uses, IsLast;
    spine' := Rollback(p, e, choices, last);
    OptionBound(p, e, choices, last);
    NothingFollows(p, choices[last := choices[last] + 1]);
  }

  lemma NothingFollows(p: Program, choices: seq<nat>)
    ensures Follows(p, [], choices) && Uses(p, []) == 0 && IsLast(p, [], choices, -1)
    ensures Tried(p, [], choices) && Thorough(p, [])
  {
  }

  lemma OptionBound(p: Program, e: seq<nat>, choices: seq<nat>, last: nat)
    requires IsLast(p, e, choices, last) && last < |choices|
    ensures choices[last] + 1 < p.threads
  {
    var m: nat :| OpenAt(p, e, m, choices, last) && Spent(p, e, m + 1, choices);
    assert |Next(p, e[..m])| <= p.threads;
  }

  lemma TrackStart(p: Program, choices: seq<nat>)
    requires |choices| == |p.s| && forall i :: 0 <= i < |choices| ==> choices[i] == 0
    ensures OnTrack(p, [], [], choices, 0, 0, -1, true)
  {
    hide Possible, LosesNone, Pick, Next;
  }

  lemma TrackSure(p: Program, e: seq<nat>, spine: seq<nat>, choices: seq<nat>, end: nat, curr: nat, last: int)
    ensures OnTrack(p, e, spine, choices, end, curr, last, true) ==>
              OnTrack(p, e, spine, choices, end, curr, last, false)
  {
    hide Follows, Uses, IsLast, Tried, Thorough;
  }

  lemma ChoiceIs(p: Program, e: seq<nat>, spine: seq<nat>, choices: seq<nat>, end: nat, curr: nat, last: int,
                 sure: bool)
    requires OnTrack(p, e, spine, choices, end, curr, last, sure)
    ensures |choices| == |p.s| && Uses(p, e) == curr
  {
    hide Follows, Uses, IsLast, Tried, Thorough;
  }

  lemma {:induction false} UsesLength(p: Program, e: seq<nat>)
    ensures Uses(p, e) <= |e|
    decreases |e|
  {
    hide Pick;
    if e != [] {
      UsesLength(p, Front(e));
    }
  }

  lemma TrackRoom(p: Program, e: seq<nat>, spine: seq<nat>, choices: seq<nat>, end: nat, curr: nat, last: int,
                  sure: bool)
    requires OnTrack(p, e, spine, choices, end, curr, last, sure)
    ensures curr <= |e| && |choices| == |p.s| && -1 <= last < |choices|
  {
    UsesLength(p, e);
    hide Follows, Uses, IsLast, Tried, Thorough;
  }

  /** When no choice has another option, a cycle refutes every order. */
  lemma TrackEnd(p: Program, e: seq<nat>, spine: seq<nat>, choices: seq<nat>, end: nat, curr: nat, sure: bool)
    requires OnTrack(p, e, spine, choices, end, curr, -1, sure) && !Possible(p, e)
    ensures sure ==> !Possible(p, [])
  {
    hide Follows, Uses, IsLast, Tried, Thorough, Possible;
    if sure {
      NothingLeft(p, e, choices);
    }
  }

  // ------------------------------------------------------------------
  // An end to the search
  // ------------------------------------------------------------------

  /** The choice that counts at `i`; those from `end` on have not been made. */
  function Digit(choices: seq<nat>, end: nat, i: nat): nat {
    if i < end && i < |choices| then choices[i] else 0
  }

  /** The choices as a number. */
  function Value(choices: seq<nat>, end: nat, base: nat, n: nat): nat {
    if n == 0 then 0 else Value(choices, end, base, n - 1) * base + Digit(choices, end, n - 1)
  }

  function Power(base: nat, n: nat): nat {
    if n == 0 then 1 else Power(base, n - 1) * base
  }

  ghost predicate Digits(choices: seq<nat>, base: nat) {
    0 < base && forall i :: 0 <= i < |choices| ==> choices[i] < base
  }

  lemma {:induction false} ValueBound(choices: seq<nat>, end: nat, base: nat, n: nat)
    requires Digits(choices, base)
    ensures Value(choices, end, base, n) < Power(base, n)
  {
    if n > 0 {
      ValueBound(choices, end, base, n - 1);
      LessDigit(Value(choices, end, base, n - 1), Power(base, n - 1), base, Digit(choices, end, n - 1), 0);
    }
  }

  lemma MulLe(x: nat, y: nat, base: nat)
    requires x <= y
    ensures x * base <= y * base
  {
  }

  lemma LessDigit(x: nat, y: nat, base: nat, i: nat, j: nat)
    requires x < y && i < base
    ensures x * base + i < y * base + j
  {
    MulLe(x + 1, y, base);
  }

  /** Moving a choice on makes the number larger. */
  lemma {:induction false} ValueMore(c: seq<nat>, end: nat, last: nat, base: nat, n: nat)
    requires Digits(c, base) && last < |c| && last < n
    ensures Value(c, end, base, n) < Value(c[last := c[last] + 1], last + 1, base, n)
    decreases n
  {
    var d := c[last := c[last] + 1];
    if n == last + 1 {
      ValueLe(c, end, last, base, last);
      MulLe(Value(c, end, base, last), Value(d, last + 1, base, last), base);
    } else {
      ValueMore(c, end, last, base, n - 1);
      LessDigit(Value(c, end, base, n - 1), Value(d, last + 1, base, n - 1), base, Digit(c, end, n - 1), 0);
    }
  }

  /** A new choice after `end` does not count. */
  lemma {:induction false} ValueSame(c: seq<nat>, d: seq<nat>, end: nat, base: nat, n: nat)
    requires Agree(c, d, end)
    ensures Value(c, end, base, n) == Value(d, end, base, n)
    decreases n
  {
    if n > 0 {
      ValueSame(c, d, end, base, n - 1);
      assert Digit(c, end, n - 1) == Digit(d, end, n - 1);
    }
  }

  /** A rollback moves on in the order of all choices. */
  lemma TrackValue(p: Program, e: seq<nat>, spine: seq<nat>, choices: seq<nat>, end: nat, curr: nat, last: nat,
                   sure: bool)
    requires OnTrack(p, e, spine, choices, end, curr, last, sure) && last < |choices|
    ensures var base, n := p.threads + 1, |p.s|;
            && Value(choices, end, base, n) < Value(choices[last := choices[last] + 1], last + 1, base, n)
            && Value(choices[last := choices[last] + 1], last + 1, base, n) < Power(base, n)
  {
    hide Follows, Uses, IsLast, Tried, Thorough, Value, Power, Pick, Next, Possible, LosesNone;
    OptionBound(p, e, choices, last);
    ValueMore(choices, end, last, p.threads + 1, |p.s|);
    ValueBound(choices[last := choices[last] + 1], last + 1, p.threads + 1, |p.s|);
  }

  lemma {:induction false} ValueLe(c: seq<nat>, end: nat, last: nat, base: nat, n: nat)
    requires last < |c| && n <= last
    ensures Value(c, end, base, n) <= Value(c[last := c[last] + 1], last + 1, base, n)
    decreases n
  {
    if n > 0 {
      ValueLe(c, end, last, base, n - 1);
      MulLe(Value(c, end, base, n - 1), Value(c[last := c[last] + 1], last + 1, base, n - 1), base);
    }
  }
}
