/**
 Fairness by yields, as in CHESS: a thread that yields lets others go first. The
 bits kept for each pair of threads, what they mean over a run, and why the
 priorities never form a cycle.
 */
module YieldPriorities {
  import opened Digraph

  /** YIELD_E, YIELD_D, YIELD_S and YIELD_P for a pair of threads. */
  datatype Yield = Yield(e: bool, d: bool, s: bool, p: bool)

  const INITIAL := Yield(false, true, true, false)

  /**
   One step of the execution: the thread that acts, whether it yields, how many threads
   there are, and which are enabled before it (enabled_array of the parent) and now.
   */
  datatype Step = Step(curr: nat, isYield: bool, threads: nat, was: set<nat>, now: set<nat>)

  /** The entry for the pair after a step. */
  function Stepped(y: Yield, u: nat, v: nat, step: Step): Yield {
    var a := if v in step.now then y else y.(e := false, d := y.d || (u == step.curr && v in step.was));
    var b := if v == step.curr then a.(p := false, s := true) else a;
    if step.isYield && u == step.curr then Yield(v in step.now, false, false, b.p || ((b.e || b.d) && !b.s)) else b
  }

  /** Node: the matrix of one step. */
  class YieldNode {
    const step: Step
    const parent: YieldNode?
    var yieldData: array2<Yield>

    /** The steps from the root of the stack to this one. */
    ghost const run: seq<Step>

    ghost predicate Valid()
      reads this
    {
      && yieldData.Length0 == step.threads && yieldData.Length1 == step.threads
      && run == (if parent == null then [] else parent.run) + [step]
      && forall i :: 0 <= i < |run| ==> run[i].curr < run[i].threads
    }

    /** The matrix is that of the run. */
    ghost predicate Computed()
      reads this, yieldData
    {
      Valid() && forall u: nat, v: nat :: GetYieldData(u, v) == YieldAt(run, |run| - 1, u, v)
    }

    constructor (step: Step, parent: YieldNode?)
      requires step.curr < step.threads && (parent != null ==> parent.Valid())
      ensures Valid() && this.step == step && this.parent == parent && fresh(yieldData)
    {
      this.step, this.parent := step, parent;
      run := (if parent == null then [] else parent.run) + [step];
      yieldData := new Yield[step.threads, step.threads]((i, j) => INITIAL);
    }

    /** Node::get_yield_data: threads that did not exist have the initial entry. */
    function GetYieldData(u: nat, v: nat): (y: Yield)
      requires Valid()
      reads this, yieldData
    {
      if u < step.threads && v < step.threads then yieldData[u, v] else INITIAL
    }

    /** Node::has_priority_over: `v` goes before `u`. */
    predicate HasPriorityOver(u: nat, v: nat)
      requires Valid()
      reads this, yieldData
    {
      GetYieldData(u, v).p
    }

    /** Node::update_yield. */
    method UpdateYield()
      requires Valid() && step.curr < step.threads
      requires parent != null ==> parent.Valid() && parent.yieldData != yieldData
      modifies yieldData
      ensures forall u, v :: 0 <= u < step.threads && 0 <= v < step.threads ==>
                GetYieldData(u, v) == if parent == null then INITIAL else Stepped(parent.GetYieldData(u, v), u, v, step)
      ensures (parent != null ==> parent.Computed()) ==> Computed()
    {
      FillMatrix();
      if parent != null && parent.Computed() {
        ghost var k: nat := |parent.run| - 1;
        forall u: nat, v: nat ensures YieldAt(run, k, u, v) == YieldAt(parent.run, k, u, v) {
          YieldAtPrefix(parent.run, step, k, u, v);
        }
      }
    }

    method FillMatrix()
      requires Valid() && step.curr < step.threads
      requires parent != null ==> parent.Valid() && parent.yieldData != yieldData
      modifies yieldData
      ensures forall u, v :: 0 <= u < step.threads && 0 <= v < step.threads ==>
                GetYieldData(u, v) == if parent == null then INITIAL else Stepped(parent.GetYieldData(u, v), u, v, step)
    {
      var n := step.threads;
      if parent == null {
        forall i, j | 0 <= i < n && 0 <= j < n {
          yieldData[i, j] := INITIAL;
        }
        return;
      }
      var curr := step.curr;
      ghost var quiet := step.(isYield := false);
      var u := 0;
      while u < n
        invariant 0 <= u <= n
        invariant forall i, j :: 0 <= i < u && 0 <= j < n ==>
                    yieldData[i, j] == Stepped(parent.GetYieldData(i, j), i, j, quiet)
      {
        UpdateRow(u);
        yieldData[u, curr] := yieldData[u, curr].(p := false, s := true);
        u := u + 1;
      }
      if step.isYield {
        var v := 0;
        while v < n
          invariant 0 <= v <= n
          invariant forall i, j :: 0 <= i < n && 0 <= j < n && (i != curr || j >= v) ==>
                      yieldData[i, j] == Stepped(parent.GetYieldData(i, j), i, j, quiet)
          invariant forall j :: 0 <= j < v ==>
                      yieldData[curr, j] == Stepped(parent.GetYieldData(curr, j), curr, j, step)
        {
          var y := yieldData[curr, v];
          if (y.e || y.d) && !y.s {
            y := y.(p := true);
          }
          y := Yield(false, false, false, y.p);
          if v in step.now {
            y := y.(e := true);
          }
          yieldData[curr, v] := y;
          v := v + 1;
        }
      }
    }

    /** The row of `u` before the column of the acting thread is adjusted. */
    method UpdateRow(u: nat)
      requires Valid() && u < step.threads && parent != null && parent.Valid() && parent.yieldData != yieldData
      modifies yieldData
      ensures forall i, j :: 0 <= i < step.threads && 0 <= j < step.threads && i != u ==>
                yieldData[i, j] == old(yieldData[i, j])
      ensures forall j :: 0 <= j < step.threads ==> yieldData[u, j] == Disabled(parent.GetYieldData(u, j), u, j, step)
    {
      var v := 0;
      while v < step.threads
        invariant 0 <= v <= step.threads
        invariant forall i, j :: 0 <= i < step.threads && 0 <= j < step.threads && i != u ==>
                    yieldData[i, j] == old(yieldData[i, j])
        invariant forall j :: 0 <= j < v ==> yieldData[u, j] == Disabled(parent.GetYieldData(u, j), u, j, step)
      {
        var y := parent.GetYieldData(u, v);
        if v !in step.now {
          y := y.(e := false);
          if u == step.curr && v in step.was {
            y := y.(d := true);
          }
        }
        yieldData[u, v] := y;
        v := v + 1;
      }
    }
  }

  /** The entry once the threads that are disabled now are taken into account. */
  function Disabled(y: Yield, u: nat, v: nat, step: Step): Yield {
    if v in step.now then y else y.(e := false, d := y.d || (u == step.curr && v in step.was))
  }

  // ------------------------------------------------------------------
  // Runs
  // ------------------------------------------------------------------

  /** The entry for the pair after step `k` of a run. */
  function YieldAt(run: seq<Step>, k: nat, u: nat, v: nat): Yield
    requires k < |run|
  {
    if k == 0 || u >= run[k].threads || v >= run[k].threads then INITIAL
    else Stepped(YieldAt(run, k - 1, u, v), u, v, run[k])
  }

  lemma {:induction false} YieldAtPrefix(run: seq<Step>, step: Step, k: nat, u: nat, v: nat)
    requires k < |run|
    ensures YieldAt(run + [step], k, u, v) == YieldAt(run, k, u, v)
  {
    if k > 0 {
      YieldAtPrefix(run, step, k - 1, u, v);
    }
  }

  /** Who goes before whom after step `k`. */
  ghost function Before(run: seq<Step>, k: nat): (E: Edges)
    requires k < |run|
    ensures forall v: nat, u: nat :: (v, u) in E <==>
                                       u < run[k].threads && v < run[k].threads && YieldAt(run, k, u, v).p
  {
    set v: nat, u: nat | v in Below(run[k].threads) && u in Below(run[k].threads) && YieldAt(run, k, u, v).p :: (v, u)
  }

  /** In every run the priorities are free of cycles. */
  lemma {:induction false} PrioritiesAcyclic(run: seq<Step>, k: nat)
    requires k < |run| && forall i :: 1 <= i < |run| ==> run[i - 1].threads <= run[i].threads
    ensures Acyclic(Before(run, k))
  {
    if k == 0 {
      forall a: nat ensures !Plus(Before(run, 0), a, a) {
      }
    } else {
      PrioritiesAcyclic(run, k - 1);
      forall x: nat ensures (run[k].curr, x) !in Before(run, k) {
        ScheduledLast(run, k, x);
      }
      forall v: nat, u: nat | (v, u) in Before(run, k) && u != run[k].curr ensures (v, u) in Before(run, k - 1) {
        OnlyToYielder(run, k, v, u);
      }
      hide Before;
      AcyclicIntoSink(Before(run, k - 1), Before(run, k), run[k].curr);
    }
  }

  /** The thread that is scheduled goes before no other. */
  lemma ScheduledLast(run: seq<Step>, k: nat, x: nat)
    requires 0 < k < |run|
    ensures (run[k].curr, x) !in Before(run, k)
  {
    var v := run[k].curr;
    assert v < run[k].threads && x < run[k].threads ==> !Stepped(YieldAt(run, k - 1, x, v), x, v, run[k]).p;
  }

  /** And a step puts threads before the scheduled one only. */
  lemma OnlyToYielder(run: seq<Step>, k: nat, v: nat, u: nat)
    requires 0 < k < |run| && forall i :: 1 <= i < |run| ==> run[i - 1].threads <= run[i].threads
    requires (v, u) in Before(run, k) && u != run[k].curr
    ensures (v, u) in Before(run, k - 1)
  {
    assert Stepped(YieldAt(run, k - 1, u, v), u, v, run[k]).p;
    assert YieldAt(run, k - 1, u, v).p;
  }

  // ------------------------------------------------------------------
  // What the bits mean
  // ------------------------------------------------------------------

  /** Step `i` is the last at which `u` yielded, up to step `k`; both threads existed by then. */
  ghost predicate LastYield(run: seq<Step>, i: nat, k: nat, u: nat, v: nat) {
    && 0 < i <= k < |run| && run[i].curr == u && run[i].isYield
    && (forall j :: i <= j <= k ==> u < run[j].threads && v < run[j].threads)
    && (forall j :: i < j <= k ==> !(run[j].curr == u && run[j].isYield))
  }

  ghost predicate AlwaysEnabled(run: seq<Step>, i: nat, k: nat, v: nat)
    requires k < |run|
  {
    forall j :: i <= j <= k ==> v in run[j].now
  }

  ghost predicate DisabledBy(run: seq<Step>, i: nat, k: nat, u: nat, v: nat)
    requires k < |run|
  {
    exists j :: i < j <= k && run[j].curr == u && v in run[j].was && v !in run[j].now
  }

  ghost predicate Scheduled(run: seq<Step>, i: nat, k: nat, v: nat)
    requires k < |run|
  {
    exists j :: i < j <= k && run[j].curr == v
  }

  /** Since the last yield: always enabled, disabled by the thread, scheduled. */
  lemma {:induction false} BitsMean(run: seq<Step>, i: nat, k: nat, u: nat, v: nat)
    requires LastYield(run, i, k, u, v)
    ensures var y := YieldAt(run, k, u, v);
            && (y.e <==> AlwaysEnabled(run, i, k, v))
            && (y.d <==> DisabledBy(run, i, k, u, v))
            && (y.s <==> Scheduled(run, i, k, v))
  {
    if i < k {
      BitsMean(run, i, k - 1, u, v);
      assert DisabledBy(run, i, k, u, v) <==>
             DisabledBy(run, i, k - 1, u, v) || (run[k].curr == u && v in run[k].was && v !in run[k].now);
      assert Scheduled(run, i, k, v) <==> Scheduled(run, i, k - 1, v) || run[k].curr == v;
    }
  }

  /**
   When `u` yields again, `v` gets to go before it exactly when it already did and has not
   run now, or when in between `v` never ran although it was enabled all the time or `u`
   itself disabled it.
   */
  lemma PriorityMeans(run: seq<Step>, i: nat, k: nat, u: nat, v: nat)
    requires k > 0 && LastYield(run, i, k - 1, u, v) && k < |run| && run[k].curr == u && run[k].isYield
    requires u < run[k].threads && v < run[k].threads
    ensures (v, u) in Before(run, k) <==>
            v != u && (|| (v, u) in Before(run, k - 1)
                       || (!Scheduled(run, i, k, v) && (AlwaysEnabled(run, i, k, v) || DisabledBy(run, i, k, u, v))))
  {
    BitsMean(run, i, k - 1, u, v);
    assert DisabledBy(run, i, k, u, v) <==>
           DisabledBy(run, i, k - 1, u, v) || (run[k].curr == u && v in run[k].was && v !in run[k].now);
    assert Scheduled(run, i, k, v) <==> Scheduled(run, i, k - 1, v) || run[k].curr == v;
  }

  /** `u` yielded at step `i`, and both threads exist since. */
  ghost predicate YieldedAt(run: seq<Step>, i: nat, k: nat, u: nat, v: nat) {
    && 0 < i <= k < |run| && run[i].curr == u && run[i].isYield
    && forall j :: i <= j <= k ==> u < run[j].threads && v < run[j].threads
  }

  ghost predicate NeverYielded(run: seq<Step>, k: nat, u: nat, v: nat) {
    forall i :: !YieldedAt(run, i, k, u, v)
  }

  /** Until then, `v` counts as scheduled, so that it is owed nothing. */
  lemma {:induction false} NotYetYielded(run: seq<Step>, k: nat, u: nat, v: nat)
    requires k < |run| && NeverYielded(run, k, u, v)
    ensures YieldAt(run, k, u, v).s && !YieldAt(run, k, u, v).p
  {
    if k > 0 && u < run[k].threads && v < run[k].threads {
      if !NeverYielded(run, k - 1, u, v) {
        var before := k - 1;
        var i :| YieldedAt(run, i, before, u, v);
        assert YieldedAt(run, i, k, u, v);
      }
      NotYetYielded(run, k - 1, u, v);
      assert !YieldedAt(run, k, k, u, v);
    }
  }

  /** The first yield of `u` puts no thread before it. */
  lemma FirstYield(run: seq<Step>, k: nat, u: nat, v: nat)
    requires 0 < k < |run| && run[k].curr == u && run[k].isYield && NeverYielded(run, k - 1, u, v)
    ensures (v, u) !in Before(run, k)
  {
    NotYetYielded(run, k - 1, u, v);
  }

  /** Without a yield of `u`, a thread stays before it until it runs. */
  lemma PriorityStays(run: seq<Step>, k: nat, u: nat, v: nat)
    requires 0 < k < |run| && !(run[k].curr == u && run[k].isYield) && run[k - 1].threads <= run[k].threads
    ensures (v, u) in Before(run, k) <==> v != run[k].curr && (v, u) in Before(run, k - 1)
  {
    if u < run[k].threads && v < run[k].threads && (u >= run[k - 1].threads || v >= run[k - 1].threads) {
      assert YieldAt(run, k - 1, u, v) == INITIAL;
    }
  }
}
