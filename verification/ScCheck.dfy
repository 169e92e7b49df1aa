/**
 The final test of a candidate order: every read must see the last write to its
 location. Passing it is the same as being a sequentially consistent order, once
 program order, creation and joining are respected.
 */
module ScChecks {
  import opened Optional
  import opened Clocks
  import opened Actions
  import opened HappensBefore
  import opened ScOrders

  /** The last write to `loc` among the first `k` of the list. */
  function LastWrite(s: Trace, list: seq<nat>, k: nat, loc: nat): Option<nat>
    requires k <= |list| && forall i :: 0 <= i < |list| ==> list[i] < |s|
  {
    if k == 0 then None
    else if s[list[k - 1]].kind.IsWrite() && s[list[k - 1]].loc == loc then Some(list[k - 1])
    else LastWrite(s, list, k - 1, loc)
  }

  predicate Misreads(s: Trace, list: seq<nat>, i: nat)
    requires forall i :: 0 <= i < |list| ==> list[i] < |s|
  {
    i < |list| && s[list[i]].kind.IsRead() && s[list[i]].rf != LastWrite(s, list, i, s[list[i]].loc)
  }

  /** check_rf: the reads that do not see the last write, with the write that they should see. */
  method CheckRf(s: Trace, list: seq<nat>) returns (badRf: map<nat, Option<nat>>)
    requires forall i :: 0 <= i < |list| ==> list[i] < |s|
    ensures forall a :: a in badRf <==> exists i: nat :: Misreads(s, list, i) && list[i] == a
  {
    badRf := map[];
    var lastWr: map<nat, nat> := map[];
    var i := 0;
    while i < |list|
      invariant 0 <= i <= |list|
      invariant forall loc :: LastWrite(s, list, i, loc) == if loc in lastWr then Some(lastWr[loc]) else None
      invariant forall a :: a in badRf <==> exists j: nat :: j < i && Misreads(s, list, j) && list[j] == a
    {
      var act := list[i];
      if s[act].kind.IsRead() {
        var last := if s[act].loc in lastWr then Some(lastWr[s[act].loc]) else None;
        if s[act].rf != last {
          assert Misreads(s, list, i);
          badRf := badRf[act := last];
        }
      }
      if s[act].kind.IsWrite() {
        lastWr := lastWr[s[act].loc := act];
      }
      i := i + 1;
    }
  }

  /** The list is an order of all actions, with these positions. */
  ghost predicate ListsAll(s: Trace, list: seq<nat>, pos: seq<nat>) {
    && |list| == |s| == |pos|
    && (forall i :: 0 <= i < |list| ==> list[i] < |s| && pos[list[i]] == i)
    && (forall a :: 0 <= a < |s| ==> pos[a] < |list| && list[pos[a]] == a)
  }

  lemma {:induction false} LastWriteIsLast(s: Trace, list: seq<nat>, k: nat, loc: nat)
    requires k <= |list| && forall i :: 0 <= i < |list| ==> list[i] < |s|
    ensures var w := LastWrite(s, list, k, loc);
            match w
            case Some(v) =>
              (exists i :: 0 <= i < k && list[i] == v && s[v].kind.IsWrite() && s[v].loc == loc &&
                           forall j :: i < j < k ==> !(s[list[j]].kind.IsWrite() && s[list[j]].loc == loc))
            case None => forall j :: 0 <= j < k ==> !(s[list[j]].kind.IsWrite() && s[list[j]].loc == loc)
  {
    if k > 0 && !(s[list[k - 1]].kind.IsWrite() && s[list[k - 1]].loc == loc) {
      LastWriteIsLast(s, list, k - 1, loc);
    }
  }

  /** One read sees the last write exactly when its write comes before it and nothing overwrites in between. */
  lemma SeesLast(p: Program, list: seq<nat>, pos: seq<nat>, r: nat)
    requires ListsAll(p.s, list, pos) && r < |p.s| && p.s[r].kind.IsRead() && Reads(p.s, r)
    ensures Misreads(p.s, list, pos[r]) <==>
            !(pos[p.s[r].rf.value] < pos[r] && forall w: nat :: !Overwrites(p, pos, w, r))
  {
    var i, rf, loc := pos[r], p.s[r].rf.value, p.s[r].loc;
    LastWriteIsLast(p.s, list, i, loc);
    var last := LastWrite(p.s, list, i, loc);
    if last == Some(rf) {
      forall w: nat ensures !Overwrites(p, pos, w, r) {
        if w < |p.s| && pos[rf] < pos[w] < pos[r] {
          assert list[pos[w]] == w;
        }
      }
    } else if pos[rf] < pos[r] {
      assert list[pos[rf]] == rf;
      var j :| 0 <= j < i && list[j] == last.value && p.s[last.value].kind.IsWrite() && p.s[last.value].loc == loc &&
               forall k :: j < k < i ==> !(p.s[list[k]].kind.IsWrite() && p.s[list[k]].loc == loc);
      assert Overwrites(p, pos, last.value, r);
    }
  }

  /** A list that respects the forced orders is a sequentially consistent order exactly when check_rf finds nothing. */
  lemma PassesIsSc(p: Program, list: seq<nat>, pos: seq<nat>)
    requires Proper(p) && ListsAll(p.s, list, pos)
    requires forall a: nat, b: nat :: Forced(p, a, b) && !(p.s[b].kind.IsRead() && p.s[b].rf == Some(a)) ==>
               pos[a] < pos[b]
    requires forall u: nat, b: nat :: u < |p.s| && p.s[u].kind.Uninit? && Numbered(p.s, b) ==> pos[u] < pos[b]
    ensures (forall i: nat :: !Misreads(p.s, list, i)) <==> IsFullOrder(p, pos)
  {
    forall r: nat | r < |p.s| && p.s[r].kind.IsRead() ensures Reads(p.s, r) {
    }
    if forall i: nat :: !Misreads(p.s, list, i) {
      forall r: nat | r < |p.s| && p.s[r].kind.IsRead()
        ensures pos[p.s[r].rf.value] < pos[r] && forall w: nat :: !Overwrites(p, pos, w, r)
      {
        SeesLast(p, list, pos, r);
      }
    }
    if IsFullOrder(p, pos) {
      forall i: nat ensures !Misreads(p.s, list, i) {
        if i < |list| && p.s[list[i]].kind.IsRead() {
          assert Forced(p, p.s[list[i]].rf.value, list[i]);
          SeesLast(p, list, pos, list[i]);
        }
      }
    }
  }
}
