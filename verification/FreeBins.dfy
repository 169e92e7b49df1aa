/**
 The bins of free chunks: lists by size for small chunks, tries for large ones, and
 the maps of bins that are not empty.
 */
module FreeBins {
  import opened Arithmetic
  import opened Optional
  import opened SizeTries
  import opened TreeIndices
  import opened BestFit

  predicate IsSmall(s: nat) { s < 0x100 }

  function SmallIndex(s: nat): nat { s / 8 }

  /** Chunk sizes: multiples of the alignment, not below MIN_CHUNK_SIZE. */
  predicate IsChunkSize(s: nat) { 32 <= s < MAX_SIZE && s % 8 == 0 }

  ghost predicate SmallBin(bin: seq<nat>, i: nat, binned: map<nat, nat>) {
    Distinct(bin) && forall x :: x in bin <==> x in binned && IsSmall(binned[x]) && SmallIndex(binned[x]) == i
  }

  ghost predicate TreeBin(t: Tree, i: nat, binned: map<nat, nat>) {
    && Trie(t, BinLo(i), BinWidth(i))
    && forall x: nat, s: nat :: (x, s) in Stored(t) <==>
                                  x in binned && binned[x] == s && !IsSmall(s) && TreeIndex(s) == i
  }

  /** The large chunks. */
  ghost function Large(binned: map<nat, nat>): set<Chunk> {
    set x | x in binned && !IsSmall(binned[x]) :: (x, binned[x])
  }

  /** The least member that is not below `from`, as least_bit and compute_bit2idx find it. */
  method LeastFrom(m: set<nat>, from: nat) returns (i: Option<nat>)
    requires forall j :: j in m ==> j < 32
    ensures match i
            case Some(k) => k in m && k >= from && forall j :: j in m && j >= from ==> k <= j
            case None => forall j :: j in m ==> j < from
  {
    var k := from;
    while k < 32
      invariant forall j :: j in m && j >= from ==> j >= k
    {
      if k in m {
        return Some(k);
      }
      k := k + 1;
    }
    i := None;
  }

  class Bins {
    var smallbins: seq<seq<nat>>
    var smallmap: set<nat>
    var treebins: seq<Tree>
    var treemap: set<nat>

    /** The chunks in bins with their sizes. */
    ghost var binned: map<nat, nat>

    ghost predicate Valid()
      reads this
    {
      && |smallbins| == NSMALLBINS && |treebins| == NTREEBINS
      && (forall x :: x in binned ==> IsChunkSize(binned[x]))
      && (forall i: nat :: i < NSMALLBINS ==> SmallBin(smallbins[i], i, binned))
      && (forall i: nat :: i < NTREEBINS ==> TreeBin(treebins[i], i, binned))
      && MapsExact()
    }

    /** A bin is marked exactly when it is not empty. */
    ghost predicate MapsExact()
      reads this
    {
      && |smallbins| == NSMALLBINS && |treebins| == NTREEBINS
      && (forall i: nat :: i in smallmap <==> i < NSMALLBINS && smallbins[i] != [])
      && (forall i: nat :: i in treemap <==> i < NTREEBINS && treebins[i].Node?)
    }

    constructor ()
      ensures Valid() && binned == map[]
    {
      smallbins, smallmap := seq(NSMALLBINS, i => []), {};
      treebins, treemap := seq(NTREEBINS, i => Leaf), {};
      binned := map[];
    }

    // ----------------------------------------------------------------
    // Small chunks
    // ----------------------------------------------------------------

    /** insert_small_chunk: in front. */
    method InsertSmall(p: nat, s: nat)
      requires Valid() && IsChunkSize(s) && IsSmall(s) && p !in binned
      modifies this`smallbins, this`smallmap, this`binned
      ensures Valid() && binned == old(binned)[p := s]
      ensures smallbins[SmallIndex(s)] == [p] + old(smallbins)[SmallIndex(s)]
    {
      hide Trie, Stored;
      var i := SmallIndex(s);
      ghost var before := binned;
      if i !in smallmap {
        smallmap := smallmap + {i};
        smallbins := smallbins[i := [p]];
      } else {
        smallbins := smallbins[i := [p] + smallbins[i]];
      }
      binned := binned[p := s];
      assert smallbins[i] == [p] + old(smallbins)[i];
      forall j: nat | j < NSMALLBINS ensures SmallBin(smallbins[j], j, binned) {
        assert SmallBin(old(smallbins)[j], j, before);
      }
      forall j: nat | j < NTREEBINS ensures TreeBin(treebins[j], j, binned) {
        assert TreeBin(treebins[j], j, before);
      }
    }

    /** unlink_small_chunk. */
    method UnlinkSmall(p: nat, s: nat)
      requires Valid() && p in binned && binned[p] == s && IsSmall(s)
      modifies this`smallbins, this`smallmap, this`binned
      ensures Valid() && binned == old(binned) - {p}
    {
      hide Trie, Stored;
      var i := SmallIndex(s);
      ghost var before := binned;
      var bin := smallbins[i];
      assert SmallBin(bin, i, before);
      var k := IndexOf(bin, p);
      ListRemove(bin, k);
      smallbins := smallbins[i := bin[..k] + bin[k + 1..]];
      if |bin| == 1 {
        smallmap := smallmap - {i};
      }
      binned := binned - {p};
      forall j: nat | j < NSMALLBINS ensures SmallBin(smallbins[j], j, binned) {
        assert SmallBin(old(smallbins)[j], j, before);
      }
      forall j: nat | j < NTREEBINS ensures TreeBin(treebins[j], j, binned) {
        assert TreeBin(treebins[j], j, before);
      }
    }

    /** The first chunk of a marked bin, and its size: small_index2size. */
    method FirstSmall(i: nat) returns (p: nat)
      requires Valid() && i in smallmap
      ensures p in binned && binned[p] == 8 * i && IsSmall(binned[p])
      ensures i < |smallbins| && smallbins[i] != [] && p == smallbins[i][0]
    {
      hide Trie, Stored;
      p := smallbins[i][0];
      assert p in smallbins[i];
      assert SmallBin(smallbins[i], i, binned);
    }

    // ----------------------------------------------------------------
    // Large chunks
    // ----------------------------------------------------------------

    /** insert_large_chunk. */
    method InsertLarge(x: nat, s: nat)
      requires Valid() && IsChunkSize(s) && !IsSmall(s) && x !in binned
      modifies this`treebins, this`treemap, this`binned
      ensures Valid() && binned == old(binned)[x := s]
    {
      hide Trie, Stored, Insert, TreeIndex, BinLo, BinWidth;
      var i := TreeIndex(s);
      BinHolds(s);
      ghost var before := binned;
      assert TreeBin(treebins[i], i, before);
      InsertTrie(treebins[i], x, s, BinLo(i), BinWidth(i));
      InsertNode(treebins[i], x, s, BinWidth(i));
      if i !in treemap {
        treemap := treemap + {i};
      }
      treebins := treebins[i := Insert(treebins[i], x, s, BinWidth(i))];
      binned := binned[x := s];
      forall j: nat | j < NSMALLBINS ensures SmallBin(smallbins[j], j, binned) {
        assert SmallBin(smallbins[j], j, before);
      }
      forall j: nat | j < NTREEBINS ensures TreeBin(treebins[j], j, binned) {
        assert TreeBin(old(treebins)[j], j, before);
      }
    }

    /** unlink_large_chunk. */
    method UnlinkLarge(x: nat, s: nat)
      requires Valid() && x in binned && binned[x] == s && !IsSmall(s)
      modifies this`treebins, this`treemap, this`binned
      ensures Valid() && binned == old(binned) - {x}
    {
      hide Trie, Stored, Unlink, TreeIndex, BinLo, BinWidth;
      var i := TreeIndex(s);
      BinHolds(s);
      ghost var before := binned;
      assert TreeBin(treebins[i], i, before);
      UnlinkTrie(treebins[i], x, s, BinLo(i), BinWidth(i));
      var t := Unlink(treebins[i], x, s, BinWidth(i));
      treebins := treebins[i := t];
      if t.Leaf? {
        treemap := treemap - {i};
      }
      NodeHas(old(treebins)[i], x, s);
      binned := binned - {x};
      forall j: nat | j < NSMALLBINS ensures SmallBin(smallbins[j], j, binned) {
        assert SmallBin(smallbins[j], j, before);
      }
      forall j: nat | j < NTREEBINS ensures TreeBin(treebins[j], j, binned) {
        assert TreeBin(old(treebins)[j], j, before);
      }
    }

    /** insert_chunk. */
    method InsertChunk(p: nat, s: nat)
      requires Valid() && IsChunkSize(s) && p !in binned
      modifies this
      ensures Valid() && binned == old(binned)[p := s]
    {
      hide Valid;
      if IsSmall(s) {
        InsertSmall(p, s);
      } else {
        InsertLarge(p, s);
      }
    }

    /** unlink_chunk. */
    method UnlinkChunk(p: nat, s: nat)
      requires Valid() && p in binned && binned[p] == s
      modifies this
      ensures Valid() && binned == old(binned) - {p}
    {
      hide Valid;
      if IsSmall(s) {
        UnlinkSmall(p, s);
      } else {
        UnlinkLarge(p, s);
      }
    }

    // ----------------------------------------------------------------
    // Searches
    // ----------------------------------------------------------------

    /** The search of tmalloc_large: a smallest large chunk of at least `nb` bytes, whenever there is one. */
    method SearchLarge(nb: nat) returns (v: Option<Chunk>, rsize: nat)
      requires Valid() && 0x100 <= nb < MAX_SIZE
      ensures IsBest(v, Large(binned), nb) && Remembers(v, rsize, Large(binned), nb)
    {
      hide Trie, Stored, TreeIndex, BinLo, BinWidth, Remembers, IsBest, Aside, IsChunkSize, Fits, BinBeaten, Reached,
           TreeBin, SmallBin;
      var idx := TreeIndex(nb);
      BinHolds(nb);
      ghost var S := Large(binned);
      var rest;
      ghost var rLo, rW;
      v, rsize, rest, rLo, rW := SearchOwn(nb, idx);
      TreeBinLarge(treebins[idx], idx, binned);
      RemembersMore(v, rsize, Stored(treebins[idx]), S, nb);
      ghost var own, found, rs := rest, v, rsize;
      NotEmpty(own, rLo, rW);
      FitsOrExact(treebins[idx], own, found, rs, nb);
      ghost var k: nat := idx;
      if rest.Leaf? && v.None? {
        rest, rLo, rW, k := NextBin(nb, idx);
      }
      v, rsize := Leftmost(rest, v, rsize, nb, rLo, rW, S);
      OwnBeaten(treebins[idx], own, found, rs, rest, v, nb);
      if k != idx {
        WholeBeaten(treebins[k], rest, v, nb);
      }
      LowerBeaten(idx, nb, v);
      forall j: nat | j <= k ensures BinBeaten(treebins[j], v, nb) {
        LeafBeaten(v, nb);
      }
      Overall(k, nb, v, rsize, S);
    }

    /** The root of the next tree bin that is not empty. */
    method NextBin(nb: nat, idx: nat) returns (rest: Tree, ghost rLo: nat, ghost rW: nat, ghost k: nat)
      requires Valid() && 0x100 <= nb < MAX_SIZE && idx == TreeIndex(nb) < NTREEBINS
      ensures idx <= k < NTREEBINS && (k == idx ==> k == NTREEBINS - 1)
      ensures Trie(rest, rLo, rW) && Bounded(rest, SIZE_T) && Stored(rest) <= Large(binned) && Fits(rest, nb)
      ensures (rest.Node? ==> Stored(rest) != {}) && (k > idx ==> rest == treebins[k]) && (k == idx ==> rest == Leaf)
      ensures forall j: nat :: idx < j < k ==> treebins[j].Leaf?
      ensures rest.Leaf? ==> k == NTREEBINS - 1
    {
      hide Trie, Stored, TreeIndex, BinLo, BinWidth, IsChunkSize, Fits, TreeBin, SmallBin, Bounded;
      rest, rLo, rW, k := Leaf, 0, 0, NTREEBINS - 1;
      EmptyAside(nb);
      var i := LeastFrom(treemap, idx + 1);
      if i.Some? {
        rest := treebins[i.value];
        rLo, rW := BinLo(i.value), BinWidth(i.value);
        TreeBinLarge(rest, i.value, binned);
        LaterBin(rest, i.value, binned, nb);
        NotEmpty(rest, rLo, rW);
        k := i.value;
      }
    }

    lemma SizesBounded()
      requires Valid()
      ensures forall x :: x in binned ==> binned[x] < MAX_SIZE
    {
      hide Trie, Stored, TreeIndex, TreeBin, SmallBin;
    }

    lemma LowerBeaten(idx: nat, nb: nat, v: Option<Chunk>)
      requires Valid() && nb >= 0x100 && idx == TreeIndex(nb) < NTREEBINS
      ensures forall j: nat :: j < idx ==> BinBeaten(treebins[j], v, nb)
    {
      hide Trie, Stored, TreeIndex, BinLo, BinWidth, IsChunkSize, TreeBin, SmallBin;
      forall j: nat | j < idx ensures BinBeaten(treebins[j], v, nb) {
        SizesBounded();
        EarlierBin(treebins[j], j, binned, nb, v);
      }
    }

    /** The search of tmalloc_small: a smallest large chunk. */
    method SearchSmallest(nb: nat) returns (v: Option<Chunk>, rsize: nat)
      requires Valid() && 0 < nb < 0x100 && treemap != {}
      ensures v.Some? && IsBest(v, Large(binned), nb) && Remembers(v, rsize, Large(binned), nb)
    {
      hide Trie, Stored, TreeIndex, BinLo, BinWidth, Remembers, IsChunkSize, Fits, TreeBin, SmallBin, Bounded,
           BinBeaten, Reached;
      ghost var S := Large(binned);
      NothingYet(S, nb);
      var i := LeastFrom(treemap, 0);
      var t := treebins[i.value];
      TreeBinLarge(t, i.value, binned);
      AllFit(t, i.value, binned, nb);
      NotEmpty(t, BinLo(i.value), BinWidth(i.value));
      v, rsize := Leftmost(t, None, SIZE_T - nb, nb, BinLo(i.value), BinWidth(i.value), S);
      WholeBeaten(t, t, v, nb);
      ReachedSome(t, v, nb);
      forall j: nat | j <= i.value ensures BinBeaten(treebins[j], v, nb) {
        LeafBeaten(v, nb);
      }
      Overall(i.value, nb, v, rsize, S);
    }

    /** The part of the search in the bin of `nb` itself. */
    method SearchOwn(nb: nat, idx: nat)
      returns (v: Option<Chunk>, rsize: nat, rest: Tree, ghost rLo: nat, ghost rW: nat)
      requires Valid() && 0x100 <= nb < MAX_SIZE && idx == TreeIndex(nb) < NTREEBINS
      ensures Remembers(v, rsize, Stored(treebins[idx]), nb)
      ensures Trie(rest, rLo, rW) && Bounded(rest, SIZE_T) && Stored(rest) <= Stored(treebins[idx])
      ensures rsize == 0 || Aside(treebins[idx], rest, v, nb)
    {
      hide Trie, Stored, TreeIndex, BinLo, BinWidth, Remembers, Aside, IsChunkSize, Fits;
      BinHolds(nb);
      var t := treebins[idx];
      v, rsize := None, SIZE_T - nb;
      NothingYet(Stored(t), nb);
      rest, rLo, rW := Leaf, 0, 0;
      EmptyAside(nb);
      TreeBinLarge(t, idx, binned);
      if t.Node? {
        v, rsize, rest, rLo, rW := Path(t, nb, BinLo(idx), BinWidth(idx), Stored(t));
      }
    }

    /** When the bins up to `k` are beaten and those after it are larger or empty, the chunk is a best fit. */
    lemma Overall(k: nat, nb: nat, v: Option<Chunk>, rsize: nat, S: set<Chunk>)
      requires Valid() && S == Large(binned) && Remembers(v, rsize, S, nb) && k < NTREEBINS
      requires forall j: nat :: j <= k ==> BinBeaten(treebins[j], v, nb)
      requires k == NTREEBINS - 1 || Reached(treebins[k], v, nb)
      ensures IsBest(v, S, nb)
    {
      hide Trie, Stored, TreeIndex, BinLo, BinWidth, SmallBin;
      forall c | c in S && c.1 >= nb ensures Beats(v, c) {
        var j := TreeIndex(c.1);
        IndexRange(c.1);
        assert TreeBin(treebins[j], j, binned);
        assert (c.0, c.1) in Stored(treebins[j]);
        if j <= k {
          assert BinBeaten(treebins[j], v, nb);
        } else {
          assert TreeBin(treebins[k], k, binned);
          LargerBin(treebins[k], k, binned, v, nb, c);
        }
      }
    }
  }

  /** Whatever fits in the tree is no smaller than the candidate. */
  ghost predicate BinBeaten(t: Tree, v: Option<Chunk>, nb: nat) {
    forall c :: c in Stored(t) && c.1 >= nb ==> Beats(v, c)
  }

  /** Some chunk of the tree fits and is no smaller than the candidate. */
  ghost predicate Reached(t: Tree, v: Option<Chunk>, nb: nat) {
    exists c :: c in Stored(t) && c.1 >= nb && Beats(v, c)
  }

  lemma LargerBin(t: Tree, k: nat, binned: map<nat, nat>, v: Option<Chunk>, nb: nat, c: Chunk)
    requires TreeBin(t, k, binned) && Reached(t, v, nb) && TreeIndex(c.1) > k && c.1 >= 0x100
    requires forall x :: x in binned ==> binned[x] < MAX_SIZE
    ensures Beats(v, c)
  {
    hide Trie, Stored, TreeIndex;
    var d :| d in Stored(t) && d.1 >= nb && Beats(v, d);
    assert (d.0, d.1) in Stored(t);
    if c.1 <= d.1 {
      IndexMono(c.1, d.1);
    }
  }

  lemma RemembersMore(v: Option<Chunk>, rsize: nat, S: set<Chunk>, T: set<Chunk>, nb: nat)
    requires Remembers(v, rsize, S, nb) && S <= T
    ensures Remembers(v, rsize, T, nb)
    ensures v.Some? ==> v.value in S && v.value.1 >= nb && rsize == v.value.1 - nb
    ensures v.None? && nb < SIZE_T ==> rsize != 0
  {
  }

  lemma FitsOrExact(t: Tree, own: Tree, found: Option<Chunk>, rs: nat, nb: nat)
    requires rs == 0 || Aside(t, own, found, nb)
    ensures rs == 0 || Fits(own, nb)
  {
  }

  /** The bin of `nb` after the search: beaten, and a chunk of it was reached unless nothing in it fits. */
  lemma OwnBeaten(t: Tree, own: Tree, found: Option<Chunk>, rs: nat, rest: Tree, v: Option<Chunk>, nb: nat)
    requires (rs == 0 && found.Some? && found.value.1 == nb) || (rs != 0 && Aside(t, own, found, nb))
    requires found.Some? ==> found.value in Stored(t) && found.value.1 >= nb && v.Some? && v.value.1 <= found.value.1
    requires own.Node? || found.Some? ==> rest == own
    requires (Fits(rest, nb) ==> forall c :: c in Stored(rest) ==> Beats(v, c)) && (own.Node? ==> Stored(own) != {})
    requires Stored(own) <= Stored(t)
    ensures BinBeaten(t, v, nb)
    ensures own.Node? || found.Some? ==> Reached(t, v, nb)
  {
    hide Trie, Stored;
    NotEmptyLeaf();
    if rs != 0 {
      if own.Node? {
        var d :| d in Stored(own);
        assert Beats(v, d) && d in Stored(t);
        forall c | c in Stored(t) && c.1 >= nb ensures Beats(v, c) {
        }
      }
    }
  }

  lemma WholeBeaten(t: Tree, rest: Tree, v: Option<Chunk>, nb: nat)
    requires (t == rest && forall c :: c in Stored(rest) ==> Beats(v, c)) || t.Leaf?
    requires t.Node? ==> Stored(t) != {} && Fits(t, nb)
    ensures BinBeaten(t, v, nb) && (t.Node? ==> Reached(t, v, nb))
  {
    hide Trie, Stored;
    NotEmptyLeaf();
    if t.Node? {
      var d :| d in Stored(t);
      assert Beats(v, d) && d.1 >= nb;
    }
  }

  lemma ReachedSome(t: Tree, v: Option<Chunk>, nb: nat)
    requires Reached(t, v, nb)
    ensures v.Some?
  {
  }

  lemma AllFit(t: Tree, i: nat, binned: map<nat, nat>, nb: nat)
    requires TreeBin(t, i, binned) && nb < 0x100
    ensures Fits(t, nb)
  {
    hide Trie;
    forall c | c in Stored(t) ensures c.1 >= nb {
      assert (c.0, c.1) in Stored(t);
    }
  }

  lemma LeafBeaten(v: Option<Chunk>, nb: nat)
    ensures BinBeaten(Leaf, v, nb)
  {
  }

  lemma EarlierBin(t: Tree, j: nat, binned: map<nat, nat>, nb: nat, v: Option<Chunk>)
    requires TreeBin(t, j, binned) && j < TreeIndex(nb) && nb >= 0x100
    requires forall x :: x in binned ==> binned[x] < MAX_SIZE
    ensures BinBeaten(t, v, nb)
  {
    hide Trie, Stored, TreeIndex;
    forall c | c in Stored(t) ensures c.1 < nb {
      assert (c.0, c.1) in Stored(t);
      if c.1 >= nb {
        IndexMono(nb, c.1);
      }
    }
  }

  lemma ListRemove(bin: seq<nat>, k: nat)
    requires k < |bin| && Distinct(bin)
    ensures Distinct(bin[..k] + bin[k + 1..])
    ensures forall x :: x in bin[..k] + bin[k + 1..] <==> x in bin && x != bin[k]
  {
    var less := bin[..k] + bin[k + 1..];
    assert forall j :: 0 <= j < |less| ==> less[j] == if j < k then bin[j] else bin[j + 1];
    forall x | x in bin && x != bin[k] ensures x in less {
      var j :| 0 <= j < |bin| && bin[j] == x;
      assert less[if j < k then j else j - 1] == x;
    }
  }

  lemma InsertNode(t: Tree, x: nat, s: nat, w: nat)
    ensures Insert(t, x, s, w).Node?
  {
  }

  lemma NodeHas(t: Tree, x: nat, s: nat)
    requires (x, s) in Stored(t)
    ensures t.Node?
  {
  }

  lemma EmptyAside(nb: nat)
    ensures Trie(Leaf, 0, 0) && Stored(Leaf) == {} && Fits(Leaf, nb) && Aside(Leaf, Leaf, None, nb) &&
            Bounded(Leaf, SIZE_T)
  {
  }

  lemma TreeBinLarge(t: Tree, i: nat, binned: map<nat, nat>)
    requires TreeBin(t, i, binned) && forall x :: x in binned ==> IsChunkSize(binned[x])
    ensures Stored(t) <= Large(binned) && Bounded(t, SIZE_T) && Trie(t, BinLo(i), BinWidth(i))
  {
    forall c | c in Stored(t) ensures c in Large(binned) && c.1 < SIZE_T {
      assert (c.0, c.1) in Stored(t);
    }
  }

  lemma LaterBin(t: Tree, i: nat, binned: map<nat, nat>, nb: nat)
    requires TreeBin(t, i, binned) && TreeIndex(nb) < i && 0x100 <= nb < MAX_SIZE
    ensures Fits(t, nb)
  {
    hide Trie, Stored, TreeIndex;
    forall c | c in Stored(t) ensures c.1 >= nb {
      assert (c.0, c.1) in Stored(t);
      if c.1 < nb {
        IndexMono(c.1, nb);
      }
    }
  }
}
