/**
 The searches of tmalloc_large and tmalloc_small: a path down one trie, the deepest
 right subtree left aside, and a leftmost path give a smallest chunk that fits.
 */
module BestFit {
  import opened Arithmetic
  import opened Optional
  import opened SizeTries

  const SIZE_T: nat := 0x1_0000_0000_0000_0000

  /** Subtraction of size_t values. */
  function Minus(a: nat, b: nat): (r: nat)
    requires a < SIZE_T && b <= SIZE_T
    ensures r < SIZE_T && (a >= b ==> r == a - b) && (a < b ==> r == SIZE_T + a - b)
  {
    if a >= b then a - b else SIZE_T + a - b
  }

  /** The smallest size that fits, if any. */
  ghost predicate IsBest(v: Option<Chunk>, S: set<Chunk>, nb: nat) {
    match v
    case Some(c) => c in S && c.1 >= nb && forall d :: d in S && d.1 >= nb ==> c.1 <= d.1
    case None => forall d :: d in S ==> d.1 < nb
  }

  /** The best so far, and what its remainder would be; with nothing found, more than any remainder. */
  ghost predicate Remembers(v: Option<Chunk>, rsize: nat, S: set<Chunk>, nb: nat) {
    && rsize < SIZE_T
    && match v
       case Some(c) => c in S && nb <= c.1 < SIZE_T && rsize == c.1 - nb
       case None => rsize == SIZE_T - nb
  }

  /** The candidate is no worse than the chunk. */
  predicate Beats(v: Option<Chunk>, c: Chunk) {
    v.Some? && v.value.1 <= c.1
  }

  ghost predicate Bounded(t: Tree, bound: nat) {
    forall c :: c in Stored(t) ==> c.1 < bound
  }

  /** All sizes of the tree fit. */
  ghost predicate Fits(t: Tree, nb: nat) {
    forall c :: c in Stored(t) ==> c.1 >= nb
  }

  /** At least as large as everything in the tree, which is not empty. */
  ghost predicate AtLeast(c: Chunk, t: Tree) {
    t.Node? && forall d :: d in Stored(t) ==> d.1 <= c.1
  }

  /** Looking at one node: it becomes the candidate exactly when it fits and leaves less than the one so far. */
  method Consider(t: Tree, v: Option<Chunk>, rsize: nat, nb: nat, ghost S: set<Chunk>)
    returns (v': Option<Chunk>, rsize': nat)
    requires t.Node? && t.ring != [] && 0 < nb && t.size < SIZE_T && Remembers(v, rsize, S, nb) && nb < SIZE_T
    requires Stored(t) <= S
    ensures Remembers(v', rsize', S, nb)
    ensures v' == if t.size >= nb && (v.None? || t.size < v.value.1) then Some((t.ring[0], t.size)) else v
  {
    v', rsize' := v, rsize;
    var trem := Minus(t.size, nb);
    if trem < rsize {
      assert t.ring[0] in t.ring;
      assert (t.ring[0], t.size) in Stored(t);
      v', rsize' := Some((t.ring[0], t.size)), trem;
    }
  }

  /** leftmost_child. */
  function LeftmostChild(t: Tree): Tree
    requires t.Node?
  {
    if t.left.Node? then t.left else t.right
  }

  /** The last loop of both searches: along leftmost children. */
  method Leftmost(t0: Tree, v0: Option<Chunk>, rsize0: nat, nb: nat, ghost lo0: nat, ghost w0: nat, ghost S: set<Chunk>)
    returns (v: Option<Chunk>, rsize: nat)
    requires Trie(t0, lo0, w0) && Bounded(t0, SIZE_T) && Stored(t0) <= S && 0 < nb < SIZE_T
    requires Remembers(v0, rsize0, S, nb) && (Fits(t0, nb) || rsize0 == 0)
    ensures Remembers(v, rsize, S, nb) && (v0.Some? ==> v.Some? && v.value.1 <= v0.value.1)
    ensures Fits(t0, nb) ==> forall c :: c in Stored(t0) ==> Beats(v, c)
  {
    hide Remembers, Trie, Fits, AtLeast, Stored, Bounded, Beats, LeftmostChild;
    var t := t0;
    v, rsize := v0, rsize0;
    ghost var lo: nat, w: nat := lo0, w0;
    while t.Node?
      invariant Trie(t, lo, w) && Stored(t) <= Stored(t0)
      invariant Remembers(v, rsize, S, nb) && (v0.Some? ==> v.Some? && v.value.1 <= v0.value.1)
      invariant Fits(t0, nb) ==> Covered(t0, t, v)
      decreases t
    {
      ghost var before := v;
      TrieNode(t, lo, w);
      SizeBounded(t, t0);
      v, rsize := Consider(t, v, rsize, nb, S);
      lo, w := LeftmostSmallest(t, lo, w);
      StepLeft(t, t0, before, v, nb);
      ChildSmaller(t);
      t := LeftmostChild(t);
    }
    CoveredAll(t0, v);
  }

  /** Every chunk of `t0` is still below `t`, or beaten, or no smaller than something below `t`. */
  ghost predicate Covered(t0: Tree, t: Tree, v: Option<Chunk>) {
    forall c :: c in Stored(t0) ==> c in Stored(t) || Beats(v, c) || AtLeast(c, t)
  }

  lemma CoveredAll(t0: Tree, v: Option<Chunk>)
    ensures Covered(t0, Leaf, v) ==> forall c :: c in Stored(t0) ==> Beats(v, c)
    ensures Covered(t0, t0, v)
  {
  }

  lemma TrieNode(t: Tree, lo: nat, w: nat)
    requires t.Node? && Trie(t, lo, w)
    ensures t.ring != []
  {
  }

  lemma ChildSmaller(t: Tree)
    requires t.Node?
    ensures LeftmostChild(t) < t
  {
  }

  lemma SizeBounded(t: Tree, t0: Tree)
    requires t.Node? && t.ring != [] && Stored(t) <= Stored(t0) && Bounded(t0, SIZE_T)
    ensures t.size < SIZE_T && (t.ring[0], t.size) in Stored(t)
  {
    assert t.ring[0] in t.ring;
  }

  /** A smallest size of a trie is at its root or below its leftmost child. */
  lemma LeftmostSmallest(t: Tree, lo: nat, w: nat) returns (lo': nat, w': nat)
    requires t.Node? && Trie(t, lo, w)
    ensures Trie(LeftmostChild(t), lo', w')
    ensures forall c :: c in Stored(t) ==>
              c.1 == t.size || c in Stored(LeftmostChild(t)) || AtLeast(c, LeftmostChild(t))
  {
    lo', w' := lo, w;
    if w > 0 {
      TrieSizes(t.left, lo, w - 1);
      TrieSizes(t.right, lo + Pow2(w - 1), w - 1);
      lo', w' := if t.left.Node? then lo else lo + Pow2(w - 1), w - 1;
    }
  }

  lemma StepLeft(t: Tree, t0: Tree, before: Option<Chunk>, v: Option<Chunk>, nb: nat)
    requires t.Node? && t.ring != [] && Stored(t) <= Stored(t0)
    requires before.Some? ==> v.Some? && v.value.1 <= before.value.1
    requires t.size >= nb ==> v.Some? && v.value.1 <= t.size
    requires forall c :: c in Stored(t) ==>
               c.1 == t.size || c in Stored(LeftmostChild(t)) || AtLeast(c, LeftmostChild(t))
    requires Fits(t0, nb) ==> Covered(t0, t, before)
    ensures Fits(t0, nb) ==> Covered(t0, LeftmostChild(t), v)
    ensures Stored(LeftmostChild(t)) <= Stored(t0)
  {
    assert t.ring[0] in t.ring;
    assert (t.ring[0], t.size) in Stored(t);
    if Fits(t0, nb) {
      forall c | c in Stored(t0)
        ensures c in Stored(LeftmostChild(t)) || Beats(v, c) || AtLeast(c, LeftmostChild(t))
      {
        if AtLeast(c, t) && c !in Stored(t) {
          assert c.1 >= t.size;
        }
      }
    }
  }

  // ------------------------------------------------------------------
  // The first loop of tmalloc_large
  // ------------------------------------------------------------------

  /** The tree put aside fits and everything that fits elsewhere is beaten or no smaller than something in it. */
  ghost predicate Aside(t0: Tree, rst: Tree, v: Option<Chunk>, nb: nat) {
    Stored(rst) <= Stored(t0) && Fits(rst, nb) && Distant(t0, rst, v, nb)
  }

  ghost predicate Distant(t0: Tree, rst: Tree, v: Option<Chunk>, nb: nat) {
    forall c :: c in Stored(t0) && c.1 >= nb ==> c in Stored(rst) || Beats(v, c) || AtLeast(c, rst)
  }

  /**
   While the path goes on at `t`: what fits is below `t`, or as above. Everything aside is
   larger than what is below `t`.
   */
  ghost predicate OnPath(t0: Tree, t: Tree, rst: Tree, v: Option<Chunk>, nb: nat, hi: nat) {
    && Stored(t) <= Stored(t0) && Stored(rst) <= Stored(t0)
    && (forall c :: c in Stored(rst) ==> c.1 >= hi)
    && forall c :: c in Stored(t0) && c.1 >= nb ==>
         c in Stored(t) || c in Stored(rst) || Beats(v, c) || AtLeast(c, rst)
  }

  /**
   The path for `nb`: it ends at a chunk of exactly that size, or with the deepest right
   subtree that was not taken.
   */
  method Path(t0: Tree, nb: nat, ghost lo0: nat, w0: nat, ghost S: set<Chunk>)
    returns (v: Option<Chunk>, rsize: nat, rest: Tree, ghost restLo: nat, ghost restW: nat)
    requires t0.Node? && Trie(t0, lo0, w0) && lo0 % Pow2(w0) == 0 && lo0 <= nb < lo0 + Pow2(w0)
    requires Bounded(t0, SIZE_T) && Stored(t0) <= S && 0 < nb < SIZE_T
    ensures Remembers(v, rsize, S, nb) && Trie(rest, restLo, restW) && Stored(rest) <= Stored(t0)
    ensures rsize == 0 || Aside(t0, rest, v, nb)
  {
    hide Remembers, Trie, Fits, AtLeast, Stored, Bounded, Beats, OnPath, Pow2;
    v, rsize := None, SIZE_T - nb;
    NothingYet(S, nb);
    var t: Tree, w: nat, rst: Tree := t0, w0, Leaf;
    ghost var lo: nat, rLo: nat, rW: nat := lo0, 0, 0;
    PathStart(t0, nb, lo0 + Pow2(w0));
    while true
      invariant t.Node? && Trie(t, lo, w) && lo % Pow2(w) == 0 && lo <= nb < lo + Pow2(w)
      invariant Trie(rst, rLo, rW) && Remembers(v, rsize, S, nb)
      invariant OnPath(t0, t, rst, v, nb, lo + Pow2(w))
      decreases t
    {
      ghost var before := v;
      TrieNode(t, lo, w);
      PathInside(t0, t, rst, v, nb, lo + Pow2(w));
      SizeBounded(t, t0);
      v, rsize := Consider(t, v, rsize, nb, S);
      if rsize == 0 {
        return v, rsize, t, lo, w;
      }
      NotExact(t, v, rsize, S, nb);
      BitsLeft(t, lo, w, nb);
      BitTells(nb, lo, w);
      var right := Bit(nb, w) == 1;
      if right {
        PathRight(t0, t, rst, before, v, nb, lo, w);
      } else {
        NotEmpty(rst, rLo, rW);
        NotEmpty(t.right, lo + Pow2(w - 1), w - 1);
        PathLeft(t0, t, rst, before, v, nb, lo, w);
      }
      if !right && t.right.Node? {
        rst := t.right;
        rLo, rW := lo + Pow2(w - 1), w - 1;
      }
      t := if right then t.right else t.left;
      lo := if right then lo + Pow2(w - 1) else lo;
      w := w - 1;
      if t.Leaf? {
        PathEnds(t0, rst, v, nb, lo + Pow2(w));
        return v, rsize, rst, rLo, rW;
      }
    }
  }

  lemma NothingYet(S: set<Chunk>, nb: nat)
    requires 0 < nb < SIZE_T
    ensures Remembers(None, SIZE_T - nb, S, nb)
  {
  }

  lemma PathStart(t0: Tree, nb: nat, hi: nat)
    ensures OnPath(t0, t0, Leaf, None, nb, hi) && Trie(Leaf, 0, 0)
  {
  }

  lemma PathInside(t0: Tree, t: Tree, rst: Tree, v: Option<Chunk>, nb: nat, hi: nat)
    requires OnPath(t0, t, rst, v, nb, hi)
    ensures Stored(t) <= Stored(t0)
  {
  }

  lemma NotExact(t: Tree, v: Option<Chunk>, rsize: nat, S: set<Chunk>, nb: nat)
    requires t.Node? && Remembers(v, rsize, S, nb) && rsize != 0 && (t.size >= nb ==> v.Some? && v.value.1 <= t.size)
    ensures t.size != nb
  {
  }

  /** A node of another size than the one looked for has bits left to resolve. */
  lemma BitsLeft(t: Tree, lo: nat, w: nat, nb: nat)
    requires t.Node? && Trie(t, lo, w) && lo <= nb < lo + Pow2(w) && t.size != nb
    ensures w > 0 && Trie(t.left, lo, w - 1) && Trie(t.right, lo + Pow2(w - 1), w - 1)
    ensures Pow2(w) == 2 * Pow2(w - 1)
  {
  }

  /** The path turns right. */
  lemma PathRight(t0: Tree, t: Tree, rst: Tree, before: Option<Chunk>, v: Option<Chunk>, nb: nat, lo: nat, w: nat)
    requires t.Node? && w > 0 && Trie(t, lo, w) && OnPath(t0, t, rst, before, nb, lo + Pow2(w))
    requires before.Some? ==> v.Some? && v.value.1 <= before.value.1
    requires (t.size >= nb ==> v.Some? && v.value.1 <= t.size) && nb >= lo + Pow2(w - 1)
    ensures OnPath(t0, t.right, rst, v, nb, lo + Pow2(w - 1) + Pow2(w - 1))
  {
    hide OnPath, Stored;
    TrieParts(t, lo, w);
    TrieSizes(t.left, lo, w - 1);
    StoredParts(t);
    hide Trie;
    TurnRight(t0, t, rst, before, v, nb, lo, lo + Pow2(w - 1), lo + Pow2(w));
  }

  lemma TurnRight(t0: Tree, t: Tree, rst: Tree, before: Option<Chunk>, v: Option<Chunk>, nb: nat, lo: nat, mid: nat,
                  hi: nat)
    requires t.Node? && OnPath(t0, t, rst, before, nb, hi) && Sizes(t.left, lo, mid) && mid <= nb
    requires forall c :: c in Stored(t) ==> c.1 == t.size || c in Stored(t.left) || c in Stored(t.right)
    requires Stored(t.right) <= Stored(t)
    requires before.Some? ==> v.Some? && v.value.1 <= before.value.1
    requires t.size >= nb ==> v.Some? && v.value.1 <= t.size
    ensures OnPath(t0, t.right, rst, v, nb, hi)
  {
    hide Stored;
  }

  /** The path turns left: the right subtree is put aside, and is below everything put aside before. */
  lemma PathLeft(t0: Tree, t: Tree, rst: Tree, before: Option<Chunk>, v: Option<Chunk>, nb: nat, lo: nat, w: nat)
    requires t.Node? && w > 0 && Trie(t, lo, w) && OnPath(t0, t, rst, before, nb, lo + Pow2(w))
    requires before.Some? ==> v.Some? && v.value.1 <= before.value.1
    requires (t.size >= nb ==> v.Some? && v.value.1 <= t.size) && nb < lo + Pow2(w - 1)
    requires rst.Node? ==> Stored(rst) != {}
    ensures OnPath(t0, t.left, if t.right.Node? then t.right else rst, v, nb, lo + Pow2(w - 1))
  {
    hide Trie, OnPath, Beats, AtLeast, Stored;
    TrieParts(t, lo, w);
    TrieSizes(t.right, lo + Pow2(w - 1), w - 1);
    StoredParts(t);
    AsideLeft(t0, t, rst, before, v, nb, lo + Pow2(w - 1), lo + Pow2(w));
  }

  lemma TrieParts(t: Tree, lo: nat, w: nat)
    requires t.Node? && w > 0 && Trie(t, lo, w)
    ensures Trie(t.left, lo, w - 1) && Trie(t.right, lo + Pow2(w - 1), w - 1) && Pow2(w) == 2 * Pow2(w - 1)
  {
  }

  lemma AsideLeft(t0: Tree, t: Tree, rst: Tree, before: Option<Chunk>, v: Option<Chunk>, nb: nat, mid: nat, hi: nat)
    requires t.Node? && OnPath(t0, t, rst, before, nb, hi) && Sizes(t.right, mid, hi) && mid <= hi
    requires forall c :: c in Stored(t) ==> c.1 == t.size || c in Stored(t.left) || c in Stored(t.right)
    requires Stored(t.left) <= Stored(t) && Stored(t.right) <= Stored(t)
    requires before.Some? ==> v.Some? && v.value.1 <= before.value.1
    requires t.size >= nb ==> v.Some? && v.value.1 <= t.size
    requires rst.Node? ==> Stored(rst) != {}
    ensures OnPath(t0, t.left, if t.right.Node? then t.right else rst, v, nb, mid)
  {
    hide Trie, Stored;
    NotEmptyLeaf();
    var aside := if t.right.Node? then t.right else rst;
    forall c | c in Stored(t0) && c.1 >= nb
      ensures c in Stored(t.left) || c in Stored(aside) || Beats(v, c) || AtLeast(c, aside)
    {
      if t.right.Node? && AtLeast(c, rst) {
        var d :| d in Stored(rst);
        assert d.1 <= c.1;
      }
    }
  }

  lemma NotEmptyLeaf()
    ensures Stored(Leaf) == {}
  {
  }

  lemma NotEmpty(t: Tree, lo: nat, w: nat)
    requires Trie(t, lo, w)
    ensures t.Node? ==> Stored(t) != {}
    ensures t.Leaf? ==> Stored(t) == {}
  {
    if t.Node? {
      assert t.ring[0] in t.ring;
      assert (t.ring[0], t.size) in Stored(t);
    }
  }

  lemma StoredParts(t: Tree)
    requires t.Node?
    ensures forall c :: c in Stored(t) ==> c.1 == t.size || c in Stored(t.left) || c in Stored(t.right)
    ensures Stored(t.left) <= Stored(t) && Stored(t.right) <= Stored(t)
  {
  }

  lemma PathEnds(t0: Tree, rst: Tree, v: Option<Chunk>, nb: nat, hi: nat)
    requires OnPath(t0, Leaf, rst, v, nb, hi) && nb < hi
    ensures Aside(t0, rst, v, nb)
  {
  }
}
