/**
 mspace_malloc and mspace_free on one segment. Every run keeps the chunks tiling
 the segment, the boundary tags right, no two free neighbours, and every free chunk
 in exactly one place: a bin, the designated victim or the top.
 */
module Mspaces {
  import opened Optional
  import opened SizeTries
  import opened TreeIndices
  import opened BestFit
  import opened FreeBins
  import opened ChunkLayouts

  const MIN_CHUNK_SIZE: nat := 32
  const MAX_SMALL_REQUEST: nat := 240
  const MEM_OFFSET: nat := 16

  /** request2size. */
  function RequestToSize(bytes: nat): (nb: nat)
    ensures nb >= MIN_CHUNK_SIZE && nb % 8 == 0 && nb >= bytes + 8
    ensures nb == MIN_CHUNK_SIZE || nb - 8 < bytes + 8
    ensures IsSmall(nb) <==> bytes <= MAX_SMALL_REQUEST
  {
    if bytes < 23 then MIN_CHUNK_SIZE else (bytes + 15) / 8 * 8
  }

  /** The free chunks: those in bins, the designated victim and the top. */
  datatype Stock = Stock(binned: map<nat, nat>, dv: nat, dvsize: nat, top: nat, topsize: nat) {
    predicate HasBinned(c: Chunk) { c.0 in binned && binned[c.0] == c.1 }

    predicate HasVictim(c: Chunk) { dvsize != 0 && c == (dv, dvsize) }

    /** Some chunk in a bin has exactly this size. */
    ghost predicate HasSize(s: nat) {
      exists x :: HasBinned((x, s))
    }

    ghost predicate Smallest(c: Chunk, nb: nat) {
      HasBinned(c) && c.1 >= nb && forall d: Chunk :: HasBinned(d) && d.1 >= nb ==> c.1 <= d.1
    }

    ghost predicate NoneBinned(nb: nat) {
      forall d: Chunk :: HasBinned(d) ==> d.1 < nb
    }
  }

  /**
   The chunk that a small request of `nb` bytes is served from: one from a small bin that leaves
   nothing over, the victim, a smallest one from the bins, and last the top.
   */
  ghost predicate SmallChoice(m: Stock, nb: nat, c: Chunk) {
    if m.HasSize(nb) then m.HasBinned(c) && c.1 == nb
    else if IsSmall(nb + 8) && m.HasSize(nb + 8) then m.HasBinned(c) && c.1 == nb + 8
    else if nb <= m.dvsize then c == (m.dv, m.dvsize)
    else if !m.NoneBinned(nb) then m.Smallest(c, nb)
    else nb < m.topsize && c == (m.top, m.topsize)
  }

  /** The same for a large request: a smallest one from the bins, unless the victim is no larger; last the top. */
  ghost predicate LargeChoice(m: Stock, nb: nat, c: Chunk) {
    if nb <= m.dvsize && forall d: Chunk :: m.HasBinned(d) && d.1 >= nb ==> m.dvsize <= d.1 then c == (m.dv, m.dvsize)
    else if !m.NoneBinned(nb) then m.Smallest(c, nb)
    else nb < m.topsize && c == (m.top, m.topsize)
  }

  ghost predicate IsChoice(m: Stock, nb: nat, c: Chunk) {
    if IsSmall(nb) then SmallChoice(m, nb, c) else LargeChoice(m, nb, c)
  }

  /**
   What is left once `nb` bytes of the chunk `c` are in use: the rest of the top or the victim stays
   that, the rest of a binned chunk is the new victim of a small request and goes into a bin for a
   large one; less than a chunk is used up.
   */
  predicate Leaves(m: Stock, nb: nat, c: Chunk, left: Stock) {
    && nb <= c.1
    && var size := c.1 - nb;
       if c == (m.top, m.topsize) then left == m.(top := c.0 + nb, topsize := size)
       else if m.HasVictim(c) then
         left == if size < MIN_CHUNK_SIZE then m.(dv := 0, dvsize := 0) else m.(dv := c.0 + nb, dvsize := size)
       else if size < MIN_CHUNK_SIZE then left == m.(binned := m.binned - {c.0})
       else if IsSmall(nb) then
         left == m.(binned := Rebinned(m.binned - {c.0}, m.dv, m.dvsize), dv := c.0 + nb, dvsize := size)
       else left == m.(binned := (m.binned - {c.0})[c.0 + nb := size])
  }

  predicate Inside(x: nat, j: Chunk) { j.0 <= x < j.0 + j.1 }

  function Outside(binned: map<nat, nat>, j: Chunk): (rest: map<nat, nat>) {
    map x | x in binned && !Inside(x, j) :: binned[x]
  }

  /**
   Where the freed chunk `c` goes, joined with its free neighbours to `j`: it becomes the top when it
   reaches it, else the victim when that is in it, and else it goes into a bin.
   */
  predicate Returns(m: Stock, c: Chunk, j: Chunk, after: Stock) {
    && j.0 <= c.0 && c.0 + c.1 <= j.0 + j.1
    && var rest := m.(binned := Outside(m.binned, j));
       var victim := m.dvsize != 0 && Inside(m.dv, j);
       if Inside(m.top, j) then
         after == rest.(top := j.0, topsize := j.1, dv := if victim then 0 else m.dv,
                        dvsize := if victim then 0 else m.dvsize)
       else if victim then after == rest.(dv := j.0, dvsize := j.1)
       else after == rest.(binned := rest.binned[j.0 := j.1])
  }

  /** Of the free chunks, the two are inside `j`, and no others. */
  ghost predicate Holds(m: Stock, j: Chunk, a: Option<nat>, b: Option<nat>) {
    forall x: nat :: x in m.binned || x == m.top || (m.dvsize != 0 && x == m.dv) ==>
      (Inside(x, j) <==> a == Some(x) || b == Some(x))
  }

  function Only(a: Option<nat>): set<nat> {
    if a.Some? then {a.value} else {}
  }

  lemma OutsideIs(m: Stock, j: Chunk, a: Option<nat>, b: Option<nat>)
    requires Holds(m, j, a, b)
    ensures Outside(m.binned, j) == m.binned - Only(a) - Only(b)
  {
    assert forall x :: x in m.binned ==> (Inside(x, j) <==> x in Only(a) + Only(b));
  }

  class Mspace {
    const bins: Bins
    var head: map<nat, Head>
    var foot: map<nat, nat>
    /** The designated victim, if its size is not zero. */
    var dv: nat
    var dvsize: nat
    var top: nat
    var topsize: nat

    ghost const base: nat
    ghost const limit: nat
    /** The chunks in order of address. */
    ghost var layout: Layout

    ghost function DvSet(): set<Chunk>
      reads this`dv, this`dvsize
    {
      if dvsize == 0 then {} else {(dv, dvsize)}
    }

    ghost function Chunks(): (m: Stock)
      reads this`dv, this`dvsize, this`top, this`topsize, bins
    {
      Stock(bins.binned, dv, dvsize, top, topsize)
    }

    /** Every free chunk is in one place, except those of `extra`, which are on their way. */
    ghost predicate Accounted(extra: set<Chunk>)
      reads this`layout, this`dv, this`dvsize, this`top, this`topsize, bins
    {
      && Pieces(layout, true) == AsSet(bins.binned) + DvSet() + {(top, topsize)} + extra
      && top !in bins.binned && (dvsize != 0 ==> dv !in bins.binned && dv != top)
      && (forall c :: c in extra ==> c.0 !in bins.binned && c.0 != top && (dvsize != 0 ==> c.0 != dv))
    }

    ghost predicate Sized()
      reads this`layout, this`top, this`dv, this`dvsize
    {
      && limit < base + MAX_SIZE && (if dvsize == 0 then dv == 0 else IsChunkSize(dvsize))
      && PiecesSized(layout, top)
    }

    /** The first chunk holds the state itself; the last is the top. */
    ghost predicate Ended()
      reads this`layout, this`top, this`topsize
    {
      |layout| >= 2 && !layout[0].free && layout[|layout| - 1] == Piece(top, topsize, true)
    }

    ghost predicate ValidBut(extra: set<Chunk>)
      reads this, bins
    {
      base % 8 == 0 && bins.Valid() && Tagged(layout, base, limit, head, foot) && Sized() && Ended() && Accounted(extra)
    }

    ghost predicate Valid()
      reads this, bins
    {
      ValidBut({})
    }

    /** The chunks in use. */
    ghost function Live(): set<Chunk>
      reads this`layout
    {
      Pieces(layout, false)
    }

    /** init_user_mstate: the state's own chunk, then the top. */
    constructor (base: nat, stateSize: nat, topsize: nat)
      requires base % 8 == 0 && stateSize % 8 == 0 && stateSize >= MIN_CHUNK_SIZE && topsize % 8 == 0 && 0 < topsize
      requires stateSize + topsize < MAX_SIZE
      ensures Valid() && fresh(bins) && Live() == {(base, stateSize)} && this.base == base
    {
      bins := new Bins();
      head := map[base := Head(stateSize, true, true), base + stateSize := Head(topsize, false, true)];
      foot := map[];
      dv, dvsize, top := 0, 0, base + stateSize;
      this.topsize := topsize;
      this.base, this.limit := base, base + stateSize + topsize;
      layout := [Piece(base, stateSize, false), Piece(base + stateSize, topsize, true)];
      new;
      assert Pieces(layout, true) == {(top, topsize)} by {
        assert layout[1] in layout;
      }
      assert Pieces(layout, false) == {(base, stateSize)} by {
        assert layout[0] in layout;
      }
      assert AsSet(bins.binned) == {};
    }

    // ----------------------------------------------------------------
    // What do_check_malloc_state looks for
    // ----------------------------------------------------------------

    /** Chunks do not overlap, live ones or others, and together they are the segment. */
    lemma ChunksTile(c: Chunk, d: Chunk)
      requires Valid() && c in Live() + Pieces(layout, true) && d in Live() + Pieces(layout, true) && c != d
      ensures c.0 + c.1 <= d.0 || d.0 + d.1 <= c.0
      ensures base <= c.0 && c.0 + c.1 <= limit && base + Total(layout) == limit
    {
      hide Bins.Valid, Coalesced, Headed, Footed, Accounted, Sized;
      var p: Piece :| p in layout && (p.addr, p.size) == c;
      var q: Piece :| q in layout && (q.addr, q.size) == d;
      Disjoint(layout, base, limit, p, q);
      var i :| 0 <= i < |layout| && layout[i] == p;
      InBounds(layout, base, limit, i);
      TotalIsSegment(layout, base, limit);
    }

    /** A free chunk does not end where another begins. */
    lemma NoTwoFree(c: Chunk, d: Chunk)
      requires Valid() && c in Pieces(layout, true) && d in Pieces(layout, true)
      ensures c.0 + c.1 != d.0
    {
      hide Bins.Valid, Headed, Footed, Accounted, Sized;
      var i :| 0 <= i < |layout| && layout[i] == Piece(c.0, c.1, true);
      var j :| 0 <= j < |layout| && layout[j] == Piece(d.0, d.1, true);
      if i + 1 == |layout| {
        InBounds(layout, base, limit, j);
      } else if layout[i + 1].addr == d.0 {
        OnePiece(layout, base, limit, i + 1, j);
      }
    }

    /** A free chunk is in exactly one place. */
    lemma OnePlace(c: Chunk)
      requires Valid()
      ensures c in Pieces(layout, true) <==>
              (c.0 in bins.binned && bins.binned[c.0] == c.1) || (dvsize != 0 && c == (dv, dvsize)) ||
                  c == (top, topsize)
      ensures c.0 in bins.binned ==> (dvsize != 0 ==> c.0 != dv) && c.0 != top
      ensures dvsize != 0 ==> dv != top
    {
      hide Bins.Valid, Tagged, Sized, Ended, Pieces;
    }

    /** A bin is marked exactly when it holds a free chunk. */
    lemma MarkedBins(i: nat)
      requires Valid()
      ensures i in bins.smallmap <==>
                exists x :: x in bins.binned && IsSmall(bins.binned[x]) && SmallIndex(bins.binned[x]) == i
      ensures i in bins.treemap <==>
                exists x :: x in bins.binned && !IsSmall(bins.binned[x]) && TreeIndex(bins.binned[x]) == i
    {
      hide Tagged, Sized, Ended, Accounted, Trie, TreeIndex;
      if x :| x in bins.binned && !IsSmall(bins.binned[x]) && TreeIndex(bins.binned[x]) == i {
        IndexRange(bins.binned[x]);
        assert TreeBin(bins.treebins[i], i, bins.binned);
        assert (x, bins.binned[x]) in Stored(bins.treebins[i]);
      }
      if i < NTREEBINS && bins.treebins[i].Node? {
        var t := bins.treebins[i];
        assert TreeBin(t, i, bins.binned);
        RootStored(t, BinLo(i), BinWidth(i));
      }
      if x :| x in bins.binned && IsSmall(bins.binned[x]) && SmallIndex(bins.binned[x]) == i {
        assert SmallBin(bins.smallbins[i], i, bins.binned);
      }
      if i < NSMALLBINS && bins.smallbins[i] != [] {
        assert SmallBin(bins.smallbins[i], i, bins.binned);
        assert bins.smallbins[i][0] in bins.smallbins[i];
      }
    }

    // ----------------------------------------------------------------
    // Free chunks
    // ----------------------------------------------------------------

    /** Where a free chunk is. */
    lemma Locate(extra: set<Chunk>, c: Chunk) returns (i: nat)
      requires ValidBut(extra) && c in Pieces(layout, true)
      ensures i < |layout| && layout[i] == Piece(c.0, c.1, true) && c.1 < MAX_SIZE && c.1 % 8 == 0 && c.1 > 0
      ensures c.0 != top ==> i + 1 < |layout| && c.1 >= MIN_CHUNK_SIZE
    {
      var p := Piece(c.0, c.1, true);
      assert p in layout;
      i :| 0 <= i < |layout| && layout[i] == p;
      InBounds(layout, base, limit, i);
    }

    /** A binned chunk is taken out of its bin: unlink_chunk. */
    method Unlink(p: nat, s: nat, ghost extra: set<Chunk>)
      requires ValidBut(extra) && p in bins.binned && bins.binned[p] == s
      modifies bins
      ensures ValidBut(extra + {(p, s)}) && bins.binned == old(bins.binned) - {p}
    {
      hide Bins.Valid, Tagged, Sized, Ended, Pieces;
      ItemsLess(bins.binned, p);
      bins.UnlinkChunk(p, s);
    }

    /** A free chunk goes into a bin: insert_chunk. */
    method InsertRest(c: Chunk)
      requires ValidBut({c})
      modifies bins
      ensures Valid() && bins.binned == old(bins.binned)[c.0 := c.1]
    {
      hide Tagged, Ended;
      var i := ExtraSized(c);
      ItemsMore(bins.binned, c.0, c.1);
      bins.InsertChunk(c.0, c.1);
    }

    lemma ExtraSized(c: Chunk) returns (i: nat)
      requires ValidBut({c})
      ensures IsChunkSize(c.1) && c in Pieces(layout, true) && i < |layout| && layout[i] == Piece(c.0, c.1, true)
    {
      assert c in Pieces(layout, true);
      i := Locate({c}, c);
    }

    /** replace_dv: the old victim, a small one, goes into a bin. */
    method ReplaceDv(c: Chunk)
      requires ValidBut({c}) && IsSmall(dvsize)
      modifies bins, this`dv, this`dvsize
      ensures Valid() && dv == c.0 && dvsize == c.1
      ensures bins.binned == if old(dvsize) == 0 then old(bins.binned) else old(bins.binned)[old(dv) := old(dvsize)]
    {
      hide Bins.Valid, Tagged, Ended;
      var i := ExtraSized(c);
      if dvsize != 0 {
        ItemsMore(bins.binned, dv, dvsize);
        bins.InsertSmall(dv, dvsize);
      }
      dvsize := c.1;
      dv := c.0;
    }

    // ----------------------------------------------------------------
    // Allocation
    // ----------------------------------------------------------------

    /** A chunk of at least `nb` bytes, and too few more to split, went into use, and nothing else did. */
    twostate predicate Allocated(p: nat, s: nat, nb: nat)
      reads this
    {
      Live() == old(Live()) + {(p, s)} && nb <= s < nb + MIN_CHUNK_SIZE && forall x: nat :: (p, x) !in old(Live())
    }

    /**
     The free chunk `p` of `s` bytes, which is in no bin, is used for `nb` bytes. What is
     left is a free chunk when it is large enough for one; otherwise all of it is used.
     */
    method UseChunk(p: nat, s: nat, nb: nat) returns (rest: Option<Chunk>)
      requires ValidBut({(p, s)}) && MIN_CHUNK_SIZE <= nb <= s && nb % 8 == 0
      modifies this`head, this`foot, this`layout
      ensures if s - nb < MIN_CHUNK_SIZE then rest.None? && Valid() && Allocated(p, s, nb)
              else rest == Some((p + nb, s - nb)) && ValidBut({(p + nb, s - nb)}) && Allocated(p, nb, nb)
    {
      hide Bins.Valid, Tagged, Sized, Ended, Accounted;
      ghost var i := ExtraIndex((p, s));
      if s - nb < MIN_CHUNK_SIZE {
        SetInuseAndPinuse(p, s, i);
        rest := None;
      } else {
        SetFront(p, s, nb, i);
        rest := Some((p + nb, s - nb));
      }
    }

    lemma ExtraIndex(c: Chunk) returns (i: nat)
      requires ValidBut({c})
      ensures i + 1 < |layout| && layout[i] == Piece(c.0, c.1, true) && c.0 != top
    {
      assert c in Pieces(layout, true);
      i := Locate({c}, c);
    }

    /** set_inuse_and_pinuse. */
    method SetInuseAndPinuse(p: nat, s: nat, ghost i: nat)
      requires ValidBut({(p, s)}) && i + 1 < |layout| && layout[i] == Piece(p, s, true)
      modifies this`head, this`layout
      ensures Valid() && Allocated(p, s, s)
    {
      hide Bins.Valid, Pieces, Tiles, Coalesced, Headed, Footed, ChunkLayouts.Replace;
      SizedReplaced(layout, i, 1, [Piece(p, s, false)], top);
      hide PiecesSized;
      TakenWhole(layout, base, limit, head, foot, i);
      TakenSets(layout, base, limit, i);
      FreeAlone(layout, base, limit, i);
      head := head[p := Head(s, true, true)];
      head := head[p + s := head[p + s].(pinuse := true)];
      layout := ChunkLayouts.Replace(layout, i, 1, [Piece(p, s, false)]);
    }

    /** set_size_and_pinuse_of_inuse_chunk for the front and set_size_and_pinuse_of_free_chunk for the rest. */
    method SetFront(p: nat, s: nat, nb: nat, ghost i: nat)
      requires ValidBut({(p, s)}) && i + 1 < |layout| && layout[i] == Piece(p, s, true)
      requires MIN_CHUNK_SIZE <= nb && nb + MIN_CHUNK_SIZE <= s && nb % 8 == 0
      modifies this`head, this`foot, this`layout
      ensures ValidBut({(p + nb, s - nb)}) && Allocated(p, nb, nb)
    {
      hide Bins.Valid, Pieces, Tiles, Coalesced, Headed, Footed, ChunkLayouts.Replace, PiecesSized;
      TakenFront(layout, base, limit, head, foot, i, nb);
      FrontSets(layout, base, limit, i, nb);
      FreeAlone(layout, base, limit, i);
      FrontSized(layout, i, nb, top);
      TopAlone(i, p + nb);
      hide Tagged;
      head := head[p := Head(nb, true, true)];
      head := head[p + nb := Head(s - nb, false, true)];
      foot := foot[p + s := s - nb];
      layout := ChunkLayouts.Replace(layout, i, 1, [Piece(p, nb, false), Piece(p + nb, s - nb, true)]);
    }

    /** No free chunk starts inside another. */
    lemma TopAlone(i: nat, x: nat)
      requires i + 1 < |layout| && layout[i].free && Tiles(layout, base, limit) &&
               Accounted({(layout[i].addr, layout[i].size)})
      requires layout[i].addr < x < End(layout[i])
      ensures x != top && x !in bins.binned && (dvsize != 0 ==> x != dv)
    {
      FreeAlone(layout, base, limit, i);
      assert (top, topsize) in Pieces(layout, true);
      assert dvsize != 0 ==> (dv, dvsize) in Pieces(layout, true);
      assert forall y :: y in bins.binned ==> (y, bins.binned[y]) in Pieces(layout, true);
    }

    /** The top chunk is split: its front goes into use. */
    method SplitTop(nb: nat) returns (p: nat)
      requires Valid() && MIN_CHUNK_SIZE <= nb < topsize && nb % 8 == 0
      modifies this`head, this`layout, this`top, this`topsize
      ensures Valid() && p == old(top) && Allocated(p, nb, nb)
      ensures top == p + nb && topsize == old(topsize) - nb
    {
      hide Bins.Valid, Pieces, Tiles, Coalesced, Headed, Footed, ChunkLayouts.Replace, AsSet;
      p := top;
      var rsize := topsize - nb;
      ghost var i := |layout| - 1;
      SplitTopTagged(nb);
      FrontSets(layout, base, limit, i, nb);
      SplitTopAccounts(nb);
      FreeAlone(layout, base, limit, i);
      OthersNotTop(layout, base, limit);
      SizedTop(layout, i, [Piece(p, nb, false), Piece(p + nb, rsize, true)], p, p + nb);
      hide PiecesSized;
      topsize := rsize;
      top := p + nb;
      head := head[top := Head(rsize, false, true)];
      head := head[p := Head(nb, true, true)];
      layout := ChunkLayouts.Replace(layout, i, 1, [Piece(p, nb, false), Piece(p + nb, rsize, true)]);
    }

    lemma SplitTopTagged(nb: nat)
      requires Tagged(layout, base, limit, head, foot) && Ended() && 0 < nb < topsize
      ensures Tagged(ChunkLayouts.Replace(layout, |layout| - 1, 1,
                                          [Piece(top, nb, false), Piece(top + nb, topsize - nb, true)]),
                     base, limit, head[top + nb := Head(topsize - nb, false, true)][top := Head(nb, true, true)], foot)
    {
      hide Coalesced, Headed, Footed, ChunkLayouts.Replace;
      var i := |layout| - 1;
      TakenFront(layout, base, limit, head, foot, i, nb);
      assert top + topsize == limit;
      hide Tagged, Tiles;
      TwoHeads(head, top, Head(nb, true, true), top + nb, Head(topsize - nb, false, true));
      FootAtLimit(ChunkLayouts.Replace(layout, i, 1, [Piece(top, nb, false), Piece(top + nb, topsize - nb, true)]),
                  base, limit, head[top + nb := Head(topsize - nb, false, true)][top := Head(nb, true, true)], foot,
                  topsize - nb);
    }

    /** The accounts once the top has moved up. */
    lemma SplitTopAccounts(nb: nat)
      requires Valid() && 0 < nb < topsize
      ensures top + nb !in bins.binned && (dvsize != 0 ==> top + nb != dv)
      ensures Pieces(layout, true) - {(top, topsize)} + {(top + nb, topsize - nb)} ==
              AsSet(bins.binned) + DvSet() + {(top + nb, topsize - nb)} + {}
      ensures top !in bins.binned && (dvsize != 0 ==> dv !in bins.binned)
    {
      hide Tiles, Coalesced, Headed, Footed, Pieces, Bins.Valid;
      var i := |layout| - 1;
      FreeAlone(layout, base, limit, i);
      assert dvsize != 0 ==> (dv, dvsize) in Pieces(layout, true);
      assert forall y :: y in bins.binned ==> (y, bins.binned[y]) in Pieces(layout, true);
      assert top + nb < End(layout[i]);
    }

    /** The chunk `p` of `s` bytes is taken out of its bin and used for `nb` bytes. */
    method UseBinned(p: nat, s: nat, nb: nat) returns (rest: Option<Chunk>, ghost used: nat)
      requires Valid() && p in bins.binned && bins.binned[p] == s && MIN_CHUNK_SIZE <= nb <= s && nb % 8 == 0
      modifies bins, this`head, this`foot, this`layout
      ensures Allocated(p, used, nb) && used <= s && bins.binned == old(bins.binned) - {p}
      ensures if s - nb < MIN_CHUNK_SIZE then rest.None? && Valid()
              else rest == Some((p + nb, s - nb)) && ValidBut({(p + nb, s - nb)})
    {
      hide Bins.Valid, Tagged, Sized, Ended, Accounted, Pieces;
      Unlink(p, s, {});
      assert {} + {(p, s)} == {(p, s)};
      rest := UseChunk(p, s, nb);
      used := if s - nb < MIN_CHUNK_SIZE then s else nb;
    }

    /** A chunk of a small bin, the rest of which becomes the designated victim. */
    method UseSmallBin(k: nat, nb: nat) returns (p: nat, ghost used: nat)
      requires Valid() && k in bins.smallmap && MIN_CHUNK_SIZE <= nb <= 8 * k && nb % 8 == 0
      requires 8 * k - nb < MIN_CHUNK_SIZE || IsSmall(dvsize)
      modifies this`head, this`foot, this`layout, this`dv, this`dvsize, bins
      ensures Valid() && Allocated(p, used, nb) && p in old(bins.binned) && old(bins.binned)[p] == 8 * k
      ensures k < |old(bins.smallbins)| && old(bins.smallbins)[k] != [] && p == old(bins.smallbins)[k][0]
      ensures if 8 * k - nb < MIN_CHUNK_SIZE
              then dv == old(dv) && dvsize == old(dvsize) && bins.binned == old(bins.binned) - {p}
              else (dv, dvsize) == (p + nb, 8 * k - nb) &&
                   bins.binned == Rebinned(old(bins.binned) - {p}, old(dv), old(dvsize))
    {
      hide Tagged, Sized, Ended, Accounted, Pieces;
      p := bins.FirstSmall(k);
      hide Bins.Valid;
      var rest;
      rest, used := UseBinned(p, 8 * k, nb);
      if rest.Some? {
        ReplaceDv(rest.value);
      }
    }

    /** tmalloc_small: a smallest chunk of the tree bins. */
    method TmallocSmall(nb: nat) returns (p: nat, ghost used: nat)
      requires Valid() && bins.treemap != {} && IsSmall(nb) && MIN_CHUNK_SIZE <= nb && nb % 8 == 0 && IsSmall(dvsize)
      modifies this`head, this`foot, this`layout, this`dv, this`dvsize, bins
      ensures Valid() && Allocated(p, used, nb) && BestOf(old(Large(bins.binned)), p, nb)
      ensures p in old(bins.binned)
      ensures var left := old(bins.binned)[p] - nb;
              if left < MIN_CHUNK_SIZE
              then dv == old(dv) && dvsize == old(dvsize) && bins.binned == old(bins.binned) - {p}
              else (dv, dvsize) == (p + nb, left) &&
                   bins.binned == Rebinned(old(bins.binned) - {p}, old(dv), old(dvsize))
    {
      hide Tagged, Sized, Ended, Accounted, Pieces, Bins.Valid, Remembers, Large;
      var v, rsize := bins.SearchSmallest(nb);
      LargeBinned(v, rsize, nb);
      p := v.value.0;
      var rest;
      rest, used := UseBinned(p, rsize + nb, nb);
      if rest.Some? {
        ReplaceDv(rest.value);
      }
    }

    /** What a search found is binned, and its remainder is what it says. */
    lemma LargeBinned(v: Option<Chunk>, rsize: nat, nb: nat)
      requires Remembers(v, rsize, Large(bins.binned), nb)
      ensures v.Some? ==>
                v.value.0 in bins.binned && bins.binned[v.value.0] == v.value.1 == rsize + nb && v.value.1 >= nb
    {
    }

    /** tmalloc_large: a best fitting chunk, unless the designated victim fits better. */
    method TmallocLarge(nb: nat) returns (p: Option<nat>, ghost used: nat)
      requires Valid() && !IsSmall(nb) && nb < MAX_SIZE && nb % 8 == 0
      modifies this`head, this`foot, this`layout, bins
      ensures Valid() && (p.Some? ==> Allocated(p.value, used, nb) && BestOf(old(Large(bins.binned)), p.value, nb))
      ensures p.None? ==> layout == old(layout) && bins.binned == old(bins.binned)
      ensures p.Some? ==> p.value in old(bins.binned) && (nb <= dvsize ==> old(bins.binned)[p.value] < dvsize)
      ensures p.None? ==> forall c :: c in Large(bins.binned) ==> c.1 < nb || nb <= dvsize <= c.1
      ensures p.Some? ==>
                var left := old(bins.binned)[p.value] - nb;
                bins.binned == if left < MIN_CHUNK_SIZE then old(bins.binned) - {p.value}
                               else (old(bins.binned) - {p.value})[p.value + nb := left]
    {
      hide Tagged, Ended, Accounted, Pieces, Bins.Valid, Remembers, Large;
      used := 0;
      var v, rsize := bins.SearchLarge(nb);
      LargeBinned(v, rsize, nb);
      if v.Some? && rsize < Minus(dvsize, nb) {
        var rest;
        rest, used := UseBinned(v.value.0, rsize + nb, nb);
        if rest.Some? {
          InsertRest(rest.value);
        }
        return Some(v.value.0), used;
      }
      VictimBetter(v, rsize, nb);
      p := None;
    }

    /** No tree chunk leaves less than the victim does. */
    lemma VictimBetter(v: Option<Chunk>, rsize: nat, nb: nat)
      requires Valid() && Remembers(v, rsize, Large(bins.binned), nb) && IsBest(v, Large(bins.binned), nb) &&
               0 < nb < MAX_SIZE
      requires v.Some? ==> rsize >= Minus(dvsize, nb)
      ensures forall c :: c in Large(bins.binned) ==> c.1 < nb || nb <= dvsize <= c.1
    {
      hide Tagged, Ended, Accounted, Pieces;
      if v.Some? {
        assert IsChunkSize(bins.binned[v.value.0]);
      }
    }

    /** The victim is used; what is left of it is the victim again. */
    method UseDv(nb: nat) returns (p: nat, ghost used: nat)
      requires Valid() && MIN_CHUNK_SIZE <= nb <= dvsize && nb % 8 == 0
      modifies this`head, this`foot, this`layout, this`dv, this`dvsize
      ensures Valid() && Allocated(p, used, nb) && p == old(dv)
      ensures (dv, dvsize) == if old(dvsize) - nb < MIN_CHUNK_SIZE then (0, 0) else (p + nb, old(dvsize) - nb)
    {
      hide Bins.Valid, Tagged, Ended, Pieces;
      p := dv;
      var dvs := dvsize;
      dvsize, dv := 0, 0;
      assert {(p, dvs)} + {} == {(p, dvs)};
      var rest := UseChunk(p, dvs, nb);
      used := if rest.Some? then nb else dvs;
      if rest.Some? {
        var c := ExtraSized(rest.value);
        dv, dvsize := rest.value.0, rest.value.1;
      }
    }

    /** Every free chunk is too small; of the top, more than the request must be left. */
    ghost predicate NothingFits(nb: nat)
      reads this`layout, this`top
    {
      forall c :: c in Pieces(layout, true) ==> c.1 < nb || (c.0 == top && c.1 <= nb)
    }

    /**
     mspace_malloc, with sys_alloc failing. The chunk that the rules choose among the free ones is
     used, and nothing else changes for the chunks in use; no free chunk fits when there is no choice.
     */
    method Malloc(bytes: nat) returns (mem: Option<nat>, ghost used: nat, ghost c: Chunk)
      requires Valid()
      modifies this, bins
      ensures Valid()
      ensures mem.Some? ==> mem.value >= MEM_OFFSET && Allocated(mem.value - MEM_OFFSET, used, RequestToSize(bytes))
      ensures mem.Some? ==> mem.value % 8 == 0 && c.0 == mem.value - MEM_OFFSET
      ensures mem.Some? ==> IsChoice(old(Chunks()), RequestToSize(bytes), c) &&
                            Leaves(old(Chunks()), RequestToSize(bytes), c, Chunks())
      ensures mem.None? ==> layout == old(layout) && NothingFits(RequestToSize(bytes)) && Chunks() == old(Chunks())
      ensures mem.None? ==> forall d :: !IsChoice(old(Chunks()), RequestToSize(bytes), d)
    {
      hide ValidBut, Pieces, NothingFits, Large, SmallChoice, LargeChoice, Leaves, Deferred;
      used, c := 0, (0, 0);
      ghost var m := Chunks();
      var nb := RequestToSize(bytes);
      var p;
      if bytes <= MAX_SMALL_REQUEST {
        p, used, c := SmallRequest(nb);
      } else {
        p, used, c := LargeRequest(nb);
      }
      if p.Some? {
        LiveAligned((p.value, used));
        return Some(p.value + MEM_OFFSET), used, c;
      }
      if nb <= dvsize {
        var q;
        c := (dv, dvsize);
        q, used := UseDv(nb);
        LiveAligned((q, used));
        VictimLeaves(m, nb, Chunks());
        return Some(q + MEM_OFFSET), used, c;
      }
      if nb < topsize {
        c := (top, topsize);
        var q := SplitTop(nb);
        LiveAligned((q, nb));
        TopLeaves(m, nb, Chunks());
        return Some(q + MEM_OFFSET), nb, c;
      }
      NoneDeferred(m, nb);
      NoneLeft(nb);
      NoChoice(m, nb);
      mem := None;
    }

    /** Chunks start at multiples of the alignment. */
    lemma LiveAligned(c: Chunk)
      requires Valid() && c in Live()
      ensures c.0 % 8 == 0
    {
      hide Bins.Valid, Accounted, Ended, Coalesced, Headed, Footed;
      var i :| 0 <= i < |layout| && layout[i] == Piece(c.0, c.1, false);
      AlignedAt(layout, base, limit, top, i);
    }

    /** Small bins, then the tree bins, unless the victim will do. */
    method SmallRequest(nb: nat) returns (p: Option<nat>, ghost used: nat, ghost c: Chunk)
      requires Valid() && IsSmall(nb) && MIN_CHUNK_SIZE <= nb && nb % 8 == 0
      modifies this`head, this`foot, this`layout, this`dv, this`dvsize, bins
      ensures Valid() && (p.Some? ==> Allocated(p.value, used, nb) && c.0 == p.value)
      ensures p.Some? ==> SmallChoice(old(Chunks()), nb, c) && Leaves(old(Chunks()), nb, c, Chunks())
      ensures p.None? ==> layout == old(layout) && Chunks() == old(Chunks()) && Deferred(Chunks(), nb)
    {
      hide Tagged, Sized, Ended, Accounted, Pieces, Bins.Valid, SmallChoice, Leaves, Deferred, Large;
      used, c := 0, (0, 0);
      ghost var m := Chunks();
      FreeApart();
      var idx := SmallIndex(nb);
      var q;
      if idx in bins.smallmap || idx + 1 in bins.smallmap {
        var k := if idx in bins.smallmap then idx else idx + 1;
        ExactBin(nb, k);
        q, used := UseSmallBin(k, nb);
        c := (q, 8 * k);
        ExactLeaves(m, nb, c, Chunks());
        return Some(q), used, c;
      }
      NoExactBin(nb);
      if nb > dvsize {
        MarksBelow();
        var k := LeastFrom(bins.smallmap, idx + 1);
        if k.Some? {
          LeastBin(nb, k.value);
          q, used := UseSmallBin(k.value, nb);
          c := (q, 8 * k.value);
          BinnedLeaves(m, nb, c, Chunks());
          return Some(q), used, c;
        }
        if bins.treemap != {} {
          OnlyLarge(nb);
          q, used := TmallocSmall(nb);
          c := (q, m.binned[q]);
          BestIsSmallest(m, nb, c);
          BinnedLeaves(m, nb, c, Chunks());
          return Some(q), used, c;
        }
        NoBinFits(nb);
      }
      AllDeferred(m, nb);
      p := None;
    }

    /** The bin that the test on two neighbouring bins takes. */
    lemma ExactBin(nb: nat, k: nat)
      requires bins.Valid() && nb % 8 == 0 && k in bins.smallmap
      requires k == if SmallIndex(nb) in bins.smallmap then SmallIndex(nb) else SmallIndex(nb) + 1
      ensures nb <= 8 * k && 8 * k - nb < MIN_CHUNK_SIZE && IsSmall(8 * k) && Chunks().HasSize(8 * k)
      ensures k == SmallIndex(nb) || !Chunks().HasSize(nb) || !IsSmall(nb)
    {
      HasSizeMarked(8 * k);
      if IsSmall(nb) {
        HasSizeMarked(nb);
      }
    }

    /** A small size is binned exactly when its bin is marked. */
    lemma HasSizeMarked(s: nat)
      requires bins.Valid() && s % 8 == 0 && IsSmall(s)
      ensures Chunks().HasSize(s) <==> SmallIndex(s) in bins.smallmap
    {
      hide Trie, TreeIndex;
      assert SmallBin(bins.smallbins[SmallIndex(s)], SmallIndex(s), bins.binned);
      if Chunks().HasSize(s) {
        var x :| Chunks().HasBinned((x, s));
        assert x in bins.smallbins[SmallIndex(s)];
      }
      if SmallIndex(s) in bins.smallmap {
        var x := bins.smallbins[SmallIndex(s)][0];
        assert x in bins.smallbins[SmallIndex(s)];
        assert Chunks().HasBinned((x, s));
      }
    }

    lemma NoExactBin(nb: nat)
      requires bins.Valid() && nb % 8 == 0 && SmallIndex(nb) !in bins.smallmap && SmallIndex(nb) + 1 !in bins.smallmap
      requires IsSmall(nb)
      ensures !Chunks().HasSize(nb) && (IsSmall(nb + 8) ==> !Chunks().HasSize(nb + 8))
    {
      HasSizeMarked(nb);
      if IsSmall(nb + 8) {
        HasSizeMarked(nb + 8);
      }
    }

    /** The least marked bin that is not below that of `nb` has the smallest chunks that fit. */
    lemma LeastBin(nb: nat, k: nat)
      requires bins.Valid() && nb % 8 == 0 && IsSmall(nb) && k in bins.smallmap && k > SmallIndex(nb)
      requires SmallIndex(nb) !in bins.smallmap
      requires forall j :: j in bins.smallmap && j > SmallIndex(nb) ==> k <= j
      ensures nb <= 8 * k && IsSmall(8 * k) && forall d: Chunk :: Chunks().HasBinned(d) && d.1 >= nb ==> 8 * k <= d.1
    {
      forall d: Chunk | Chunks().HasBinned(d) && d.1 >= nb ensures 8 * k <= d.1 {
        if IsSmall(d.1) {
          HasSizeMarked(d.1);
        }
      }
    }

    /** Without a marked small bin, what fits is large. */
    lemma OnlyLarge(nb: nat)
      requires bins.Valid() && nb % 8 == 0 && IsSmall(nb)
      requires forall j :: j in bins.smallmap ==> j < SmallIndex(nb)
      ensures forall d: Chunk :: Chunks().HasBinned(d) && d.1 >= nb ==> d in Large(bins.binned)
    {
      forall d: Chunk | Chunks().HasBinned(d) && d.1 >= nb ensures d in Large(bins.binned) {
        if IsSmall(d.1) {
          HasSizeMarked(d.1);
        }
      }
    }

    lemma MarksBelow()
      requires bins.Valid()
      ensures forall j :: j in bins.smallmap || j in bins.treemap ==> j < 32
    {
      hide SmallBin, TreeBin;
    }

    /** The places of free chunks are apart. */
    lemma FreeApart()
      requires Valid()
      ensures Apart(Chunks())
    {
      hide Tagged, Sized, Ended, Pieces, Bins.Valid;
    }

    /** When no bin from that of `nb` on is marked, everything binned is smaller. */
    lemma NoBinFits(nb: nat)
      requires bins.Valid() && IsSmall(nb) && nb % 8 == 0 && bins.treemap == {}
      requires forall j :: j in bins.smallmap ==> j < SmallIndex(nb)
      ensures forall x :: x in bins.binned ==> bins.binned[x] < nb
    {
      hide Trie, TreeIndex;
      forall x | x in bins.binned ensures bins.binned[x] < nb {
        var s := bins.binned[x];
        if IsSmall(s) {
          assert SmallBin(bins.smallbins[SmallIndex(s)], SmallIndex(s), bins.binned);
          assert x in bins.smallbins[SmallIndex(s)];
          assert SmallIndex(s) in bins.smallmap;
        } else {
          NoTrees(0x100);
        }
      }
    }

    /** The tree bins; requests beyond all sizes are left to fail. */
    method LargeRequest(nb: nat) returns (p: Option<nat>, ghost used: nat, ghost c: Chunk)
      requires Valid() && !IsSmall(nb) && nb % 8 == 0
      modifies this`head, this`foot, this`layout, bins
      ensures Valid() && (p.Some? ==> Allocated(p.value, used, nb) && c.0 == p.value)
      ensures p.Some? ==> LargeChoice(old(Chunks()), nb, c) && Leaves(old(Chunks()), nb, c, Chunks())
      ensures p.None? ==> layout == old(layout) && Chunks() == old(Chunks()) && Deferred(Chunks(), nb)
    {
      hide Tagged, Sized, Ended, Accounted, Pieces, Bins.Valid, LargeChoice, Leaves, Deferred, Large;
      p, used, c := None, 0, (0, 0);
      ghost var m := Chunks();
      FreeApart();
      if nb < MAX_SIZE {
        if bins.treemap == {} {
          NoTrees(nb);
          LargeDeferred(m, nb);
        } else {
          LargeBinnedAll(m, nb);
          p, used := TmallocLarge(nb);
          if p.Some? {
            c := (p.value, m.binned[p.value]);
            LargeLeaves(m, nb, c, Chunks());
          } else {
            TreesDeferred(m, nb);
          }
        }
      } else {
        TooLarge(nb);
        LargeDeferred(m, nb);
      }
    }

    lemma TooLarge(nb: nat)
      requires Valid() && nb >= MAX_SIZE
      ensures forall x :: x in bins.binned ==> bins.binned[x] < nb
      ensures dvsize < nb
    {
      hide Tagged, Ended, Accounted, Pieces, TreeBin, SmallBin;
    }

    lemma NoTrees(nb: nat)
      requires bins.Valid() && !IsSmall(nb) && bins.treemap == {}
      ensures forall x :: x in bins.binned ==> bins.binned[x] < nb
    {
      hide Trie, TreeIndex;
      forall x | x in bins.binned ensures IsSmall(bins.binned[x]) {
        var s := bins.binned[x];
        if !IsSmall(s) {
          IndexRange(s);
          assert TreeBin(bins.treebins[TreeIndex(s)], TreeIndex(s), bins.binned);
          assert (x, s) in Stored(bins.treebins[TreeIndex(s)]);
        }
      }
    }

    lemma NoneLeft(nb: nat)
      requires Valid() && dvsize < nb && topsize <= nb && forall x :: x in bins.binned ==> bins.binned[x] < nb
      ensures NothingFits(nb)
    {
      hide Tagged, Sized, Bins.Valid, Pieces;
    }

    // ----------------------------------------------------------------
    // Freeing
    // ----------------------------------------------------------------

    /** What the tags say of the chunk before. */
    lemma BeforeOf(i: nat)
      requires Tagged(layout, base, limit, head, foot) && 0 < i < |layout|
      ensures layout[i].addr in head && head[layout[i].addr].pinuse == !layout[i - 1].free
      ensures layout[i - 1].free ==> layout[i].addr in foot && foot[layout[i].addr] == layout[i - 1].size
      ensures layout[i].addr == End(layout[i - 1])
      ensures layout[i - 1].free ==> InUseBefore(layout, i - 1)
    {
      if layout[i - 1].free {
        FreeAfterUsed(layout, base, limit, head, foot, i - 1);
      }
    }

    /** What the tags say of the chunk after a chunk in use. */
    lemma AfterOf(i: nat)
      requires Tagged(layout, base, limit, head, foot) && i + 1 < |layout|
      ensures End(layout[i]) == layout[i + 1].addr && layout[i + 1].addr in head
      ensures head[layout[i + 1].addr].cinuse == !layout[i + 1].free &&
              head[layout[i + 1].addr].pinuse == !layout[i].free
      ensures head[layout[i + 1].addr].size == layout[i + 1].size
      ensures layout[i + 1].free && i + 2 < |layout| ==> !layout[i + 2].free
    {
    }

    /** A free chunk that is not the victim, the top or on its way is in a bin. */
    lemma IsBinned(extra: set<Chunk>, i: nat)
      requires ValidBut(extra) && i < |layout| && layout[i].free && layout[i].addr != top
      requires dvsize != 0 ==> layout[i].addr != dv
      requires (layout[i].addr, layout[i].size) !in extra
      ensures layout[i].addr in bins.binned && bins.binned[layout[i].addr] == layout[i].size
    {
      assert layout[i] in layout;
      assert (layout[i].addr, layout[i].size) in Pieces(layout, true);
    }

    /** A free chunk at the victim's address is the victim, one at the top's address the top. */
    lemma IsVictim(extra: set<Chunk>, i: nat)
      requires ValidBut(extra) && i < |layout|
      ensures dvsize != 0 && layout[i].addr == dv ==> layout[i] == Piece(dv, dvsize, true)
      ensures layout[i].addr == top <==> i == |layout| - 1
      ensures i > 0 ==> layout[i].addr > base
    {
      if layout[i].addr == top && i != |layout| - 1 {
        OnePieceOnly(layout, base, limit, i, |layout| - 1);
      }
      if dvsize != 0 && layout[i].addr == dv {
        assert (dv, dvsize) in Pieces(layout, true);
        var k :| 0 <= k < |layout| && layout[k] == Piece(dv, dvsize, true);
        OnePiece(layout, base, limit, i, k);
      }
      if i > 0 {
        Ascending(layout, base, limit, 0, i);
      }
    }

    /** Consolidating backward: a free chunk before joins, and leaves its bin unless it is the victim. */
    method Backward(p0: nat, psize0: nat, ghost i: nat)
      returns (p: nat, psize: nat, ghost at: nat, ghost extra: set<Chunk>)
      requires Valid() && 0 < i && i + 1 < |layout| && layout[i] == Piece(p0, psize0, false)
      modifies bins
      ensures ValidBut(extra) && 0 < at <= i <= at + 1 && (at < i ==> layout[at].free) && InUseBefore(layout, at)
      ensures p == layout[at].addr && p + psize == End(layout[i]) &&
              (p == dv <==> at < i && dvsize != 0 && layout[at].addr == dv)
      ensures extra == if at < i && p != dv then {(p, layout[at].size)} else {}
      ensures bins.binned == if at < i && p != dv then old(bins.binned) - {p} else old(bins.binned)
      ensures at == if layout[i - 1].free then i - 1 else i
    {
      hide Bins.Valid, Tiles, Coalesced, Headed, Footed, Accounted, Pieces;
      p, psize, at, extra := p0, psize0, i, {};
      BeforeOf(i);
      IsVictim({}, i);
      if !head[p].pinuse {
        var prevsize := foot[p];
        psize := psize + prevsize;
        p := p - prevsize;
        at := i - 1;
        IsVictim({}, at);
        if p != dv {
          IsBinned({}, at);
          extra := {(p, prevsize)};
          assert {} + extra == extra;
          Unlink(p, prevsize, {});
        }
      }
    }

    /** The neighbours that are joined, with a chunk in use before them. */
    ghost predicate Joining(p: nat, psize: nat, at: nat, n: nat, i: nat)
      reads this`layout
    {
      && Neighbours(layout, at, n, i) && 0 < at && InUseBefore(layout, at)
      && p == layout[at].addr && p + psize == End(layout[at + n - 1])
    }

    lemma JoinedSize(p: nat, psize: nat, at: nat, n: nat, i: nat)
      requires Tiles(layout, base, limit) && Sized() && Ended() && Joining(p, psize, at, n, i)
      ensures psize % 8 == 0 && psize >= MIN_CHUNK_SIZE && i < |layout| - 1
      ensures PiecesSized([Piece(p, psize, true)], top)
    {
      hide InUseBefore;
      Spanned(layout, base, limit, at, n, i);
      OthersNotTop(layout, base, limit);
      hide Tiles, PiecesSized;
      SizedAt(layout, at, top);
      SizedAt(layout, i, top);
      SizedAt(layout, at + n - 1, top);
      OneSized(Piece(p, psize, true), top);
    }

    /** Of the joined ones, some were on their way, `d` says whether one was the victim, `t` whether one was the top. */
    ghost predicate Comes(extra: set<Chunk>, d: bool, t: bool, at: nat, n: nat, i: nat)
      requires Neighbours(layout, at, n, i)
      reads this`layout, this`dv, this`dvsize, this`top, this`topsize
    {
      FreeOnes(layout, at, n, i) == extra + (if d then DvSet() else {}) + (if t then {(top, topsize)} else {})
    }

    /** What is left when the free ones have gone, and that `p` is then nobody else's. */
    lemma JoinedAccounts(extra: set<Chunk>, d: bool, t: bool, p: nat, psize: nat, at: nat, n: nat, i: nat)
      requires Tiles(layout, base, limit) && Accounted(extra) && Joining(p, psize, at, n, i) &&
               Comes(extra, d, t, at, n, i)
      ensures p !in bins.binned && (!t ==> p != top) && (!d && dvsize != 0 ==> p != dv)
      ensures Pieces(layout, true) - FreeOnes(layout, at, n, i) ==
              AsSet(bins.binned) + (if d then {} else DvSet()) + (if t then {} else {(top, topsize)})
    {
      hide Pieces, Tiles, InUseBefore;
      FreeAt(layout, base, limit, at);
      assert (top, topsize) in Pieces(layout, true);
      assert dvsize != 0 ==> (dv, dvsize) in Pieces(layout, true);
      assert forall y :: y in bins.binned ==> (y, bins.binned[y]) in Pieces(layout, true);
    }

    /** set_free_with_pinuse, with a chunk in use behind. */
    method SetFreeWithPinuse(p: nat, psize: nat, next: nat, ghost at: nat, ghost n: nat)
      requires Tagged(layout, base, limit, head, foot) && 0 < n && at + n < |layout| && InUseBefore(layout, at) &&
               !layout[at + n].free
      requires p == layout[at].addr && next == p + psize == End(layout[at + n - 1])
      modifies this`head, this`foot, this`layout
      ensures Tagged(layout, base, limit, head, foot) && psize > 0
      ensures layout == ChunkLayouts.Replace(old(layout), at, n, [Piece(p, psize, true)])
    {
      hide ChunkLayouts.Replace, Coalesced, Headed, Footed;
      Merged(layout, base, limit, head, foot, at, n);
      head := head[p := Head(psize, false, true)];
      foot := foot[next := psize];
      head := head[next := head[next].(pinuse := false)];
      layout := ChunkLayouts.Replace(layout, at, n, [Piece(p, psize, true)]);
    }

    /** set_size_and_pinuse_of_free_chunk, when what is behind has a clear pinuse bit. */
    method SetSizeAndPinuse(p: nat, psize: nat, ghost at: nat, ghost n: nat)
      requires Tagged(layout, base, limit, head, foot) && 0 < n && at + n < |layout| && InUseBefore(layout, at) &&
               !layout[at + n].free
      requires p == layout[at].addr && p + psize == End(layout[at + n - 1]) && layout[at + n - 1].free
      modifies this`head, this`foot, this`layout
      ensures Tagged(layout, base, limit, head, foot) && psize > 0
      ensures layout == ChunkLayouts.Replace(old(layout), at, n, [Piece(p, psize, true)])
    {
      hide ChunkLayouts.Replace, Coalesced, Headed, Footed;
      MergedAfterFree(layout, base, limit, head, foot, at, n);
      head := head[p := Head(psize, false, true)];
      foot := foot[p + psize := psize];
      layout := ChunkLayouts.Replace(layout, at, n, [Piece(p, psize, true)]);
    }

    /** What joining below the top does to sizes and pieces. */
    lemma JoinedPieces(p: nat, psize: nat, at: nat, n: nat, i: nat)
      requires Tiles(layout, base, limit) && Sized() && Ended() && Joining(p, psize, at, n, i) && at + n < |layout|
      ensures var R := ChunkLayouts.Replace(layout, at, n, [Piece(p, psize, true)]);
              && PiecesSized(R, top) && R[0] == layout[0] && R[|R| - 1] == layout[|layout| - 1] && |R| >= 2
              && Pieces(R, true) == Pieces(layout, true) - FreeOnes(layout, at, n, i) + {(p, psize)}
              && Pieces(R, false) == Live() - {(layout[i].addr, layout[i].size)}
      ensures psize % 8 == 0 && psize >= MIN_CHUNK_SIZE && IsChunkSize(psize)
    {
      hide Pieces, ChunkLayouts.Replace, PiecesSized, FreeOnes;
      JoinedSize(p, psize, at, n, i);
      MergedSets(layout, base, limit, at, n, i, p, psize);
      SizedReplaced(layout, at, n, [Piece(p, psize, true)], top);
      InBounds(layout, base, limit, at);
      InBounds(layout, base, limit, at + n - 1);
    }

    /** The victim, before the freed chunk or one of its neighbours, takes all of it in. */
    method GrowDv(p: nat, psize: nat, after: bool, ghost extra: set<Chunk>, ghost at: nat, ghost n: nat, ghost i: nat)
      requires ValidBut(extra) && Joining(p, psize, at, n, i) && at + n < |layout| && !layout[at + n].free
      requires dvsize != 0 && Comes(extra, true, false, at, n, i) && (after <==> layout[at + n - 1].free)
      modifies this`head, this`foot, this`layout, this`dv, this`dvsize
      ensures Valid() && Live() == old(Live()) - {(old(layout[i].addr), old(layout[i].size))}
      ensures dv == p && dvsize == psize
    {
      hide Pieces, ChunkLayouts.Replace, PiecesSized, FreeOnes, Tiles, Coalesced, Headed, Footed, Bins.Valid;
      JoinedPieces(p, psize, at, n, i);
      JoinedAccounts(extra, true, false, p, psize, at, n, i);
      dvsize, dv := psize, p;
      if after {
        SetSizeAndPinuse(p, psize, at, n);
      } else {
        SetFreeWithPinuse(p, psize, p + psize, at, n);
      }
    }

    /** The freed chunk and its neighbours become one free chunk, on its way into a bin. */
    method JoinFree(p: nat, psize: nat, after: bool, ghost extra: set<Chunk>, ghost at: nat, ghost n: nat, ghost i: nat)
      requires ValidBut(extra) && Joining(p, psize, at, n, i) && at + n < |layout| && !layout[at + n].free
      requires Comes(extra, false, false, at, n, i) && (after <==> layout[at + n - 1].free)
      modifies this`head, this`foot, this`layout
      ensures ValidBut({(p, psize)}) && Live() == old(Live()) - {(old(layout[i].addr), old(layout[i].size))}
    {
      hide Pieces, ChunkLayouts.Replace, PiecesSized, FreeOnes, Tiles, Coalesced, Headed, Footed, Bins.Valid;
      JoinedPieces(p, psize, at, n, i);
      JoinedAccounts(extra, false, false, p, psize, at, n, i);
      if after {
        SetSizeAndPinuse(p, psize, at, n);
      } else {
        SetFreeWithPinuse(p, psize, p + psize, at, n);
      }
    }

    /** The freed chunk lies just below the top: the top moves down. */
    method JoinTop(p: nat, psize: nat, ghost extra: set<Chunk>, ghost at: nat, ghost i: nat)
      requires ValidBut(extra) && i + 2 == |layout| && at <= i && Joining(p, psize + topsize, at, |layout| - at, i)
      requires Comes(extra, p == dv && dvsize != 0, true, at, |layout| - at, i) && (dvsize == 0 ==> p != dv)
      modifies this`head, this`layout, this`top, this`topsize, this`dv, this`dvsize
      ensures Valid() && Live() == old(Live()) - {(old(layout[i].addr), old(layout[i].size))}
      ensures top == p && topsize == old(topsize) + psize
      ensures (dv, dvsize) == if p == old(dv) then (0, 0) else (old(dv), old(dvsize))
    {
      hide Pieces, ChunkLayouts.Replace, FreeOnes, Tiles, Coalesced, Headed, Footed, Bins.Valid, PiecesSized;
      JoinedTop(p, psize, at, i);
      JoinedAccounts(extra, p == dv && dvsize != 0, true, p, psize + topsize, at, |layout| - at, i);
      var tsize := topsize + psize;
      topsize := tsize;
      top := p;
      head := head[p := Head(tsize, false, true)];
      if p == dv {
        dv, dvsize := 0, 0;
      }
      layout := ChunkLayouts.Replace(layout, at, |layout| - at, [Piece(p, tsize, true)]);
    }

    lemma JoinedTop(p: nat, psize: nat, at: nat, i: nat)
      requires Tagged(layout, base, limit, head, foot) && Sized() && Ended()
      requires i + 2 == |layout| && at <= i && Joining(p, psize + topsize, at, |layout| - at, i)
      ensures var R := ChunkLayouts.Replace(layout, at, |layout| - at, [Piece(p, psize + topsize, true)]);
              && PiecesSized(R, p) && R[0] == layout[0] && |R| == at + 1 && R[at] == Piece(p, psize + topsize, true)
              && Tagged(R, base, limit, head[p := Head(psize + topsize, false, true)], foot)
              && Pieces(R, true) == Pieces(layout, true) - FreeOnes(layout, at, |layout| - at, i) +
                 {(p, psize + topsize)}
              && Pieces(R, false) == Live() - {(layout[i].addr, layout[i].size)}
    {
      hide Pieces, ChunkLayouts.Replace, PiecesSized, FreeOnes, Coalesced, Headed, Footed;
      JoinedSize(p, psize + topsize, at, |layout| - at, i);
      MergedTop(layout, base, limit, head, foot, at);
      MergedSets(layout, base, limit, at, |layout| - at, i, p, psize + topsize);
      OthersNotTop(layout, base, limit);
      SizedTop(layout, at, [Piece(p, psize + topsize, true)], top, p);
    }

    /** Where a chunk in use is. */
    lemma LiveIndex(p: nat, s: nat) returns (i: nat)
      requires Tagged(layout, base, limit, head, foot) && Ended() && (p, s) in Live() && p != base
      ensures 0 < i && i + 1 < |layout| && layout[i] == Piece(p, s, false) && p in head && head[p].size == s
    {
      var c := Piece(p, s, false);
      assert c in layout;
      i :| 0 <= i < |layout| && layout[i] == c;
    }

    /** The chunk after one in use, found as the victim or the top. */
    lemma NextOf(i: nat)
      requires Valid() && i + 1 < |layout|
      ensures layout[i + 1].addr == top <==> i + 2 == |layout|
      ensures layout[i + 1].addr == top ==> layout[i + 1].size == topsize
      ensures layout[i + 1].addr == dv ==> dvsize != 0 && layout[i + 1] == Piece(dv, dvsize, true)
    {
      hide Coalesced, Headed, Footed, Bins.Valid;
      IsVictim({}, i + 1);
    }

    /** Where the free neighbours of the chunk at `i` come from, after consolidating backward. */
    lemma WhatComes(extra: set<Chunk>, p: nat, at: nat, i: nat)
      requires ValidBut(extra) && 0 < at <= i <= at + 1 && i + 1 < |layout| && !layout[i].free &&
               (at < i ==> layout[at].free)
      requires p == layout[at].addr && (p == dv <==> at < i && dvsize != 0 && layout[at].addr == dv)
      requires extra == if at < i && p != dv then {(p, layout[at].size)} else {}
      ensures Neighbours(layout, at, i + 1 - at, i) && Comes(extra, p == dv, false, at, i + 1 - at, i)
      ensures layout[i + 1].free ==>
                var next, nsize := layout[i + 1].addr, layout[i + 1].size;
                && Neighbours(layout, at, i + 2 - at, i) && (next, nsize) !in extra
                && (next == top ==> Comes(extra, p == dv, true, at, i + 2 - at, i))
                && (dvsize != 0 && next == dv ==> Comes(extra, true, false, at, i + 2 - at, i))
                && Comes(extra + {(next, nsize)}, p == dv, false, at, i + 2 - at, i)
    {
      hide Pieces, Coalesced, Headed, Footed, Bins.Valid, Sized, Accounted;
      IsVictim(extra, at);
      IsVictim(extra, i + 1);
      OnePieceOnly(layout, base, limit, at, i + 1);
    }

    /** Nothing free starts around the chunk in use at `i` but its neighbours. */
    lemma Around(i: nat, x: nat)
      requires Valid() && 0 < i && i + 1 < |layout| && !layout[i].free
      requires x in bins.binned || x == top || (dvsize != 0 && x == dv)
      ensures layout[i - 1].addr <= x < End(layout[i + 1]) ==>
                (layout[i - 1].free && x == layout[i - 1].addr) || (layout[i + 1].free && x == layout[i + 1].addr)
    {
      hide Bins.Valid, Coalesced, Headed, Footed, Sized;
      var s := if x in bins.binned then bins.binned[x] else if x == top then topsize else dvsize;
      assert (x, s) in Pieces(layout, true);
      var k :| 0 <= k < |layout| && layout[k] == Piece(x, s, true);
      if k < i - 1 {
        Ascending(layout, base, limit, k, i - 1);
      } else if k > i + 1 {
        Ascending(layout, base, limit, i + 1, k);
      }
    }

    /** The chunk at `i` with its free neighbours. */
    ghost function Joined(i: nat): (j: Chunk)
      requires 0 < i && i + 1 < |layout| && Tiles(layout, base, limit)
      reads this`layout
    {
      var lo := if layout[i - 1].free then layout[i - 1].addr else layout[i].addr;
      var hi := if layout[i + 1].free then End(layout[i + 1]) else End(layout[i]);
      (lo, if lo < hi then hi - lo else 0)
    }

    ghost function FreeBefore(i: nat): Option<nat>
      requires 0 < i < |layout|
      reads this`layout
    {
      if layout[i - 1].free then Some(layout[i - 1].addr) else None
    }

    ghost function FreeAfter(i: nat): Option<nat>
      requires i + 1 < |layout|
      reads this`layout
    {
      if layout[i + 1].free then Some(layout[i + 1].addr) else None
    }

    lemma JoinedHolds(i: nat)
      requires Valid() && 0 < i && i + 1 < |layout| && !layout[i].free
      ensures Holds(Chunks(), Joined(i), FreeBefore(i), FreeAfter(i))
      ensures var j := Joined(i);
              && j.0 <= layout[i].addr && End(layout[i]) <= j.0 + j.1
              && j.0 == (if layout[i - 1].free then layout[i - 1].addr else layout[i].addr)
              && j.0 + j.1 == if layout[i + 1].free then End(layout[i + 1]) else End(layout[i])
      ensures FreeBefore(i) != Some(top)
    {
      hide Bins.Valid, Coalesced, Headed, Footed, Sized, Accounted;
      Sizes(i);
      IsVictim({}, i - 1);
      IsVictim({}, i + 1);
      var j, a, b := Joined(i), FreeBefore(i), FreeAfter(i);
      forall x: nat | x in bins.binned || x == top || (dvsize != 0 && x == dv)
        ensures Inside(x, j) <==> a == Some(x) || b == Some(x)
      {
        Around(i, x);
      }
    }

    lemma Sizes(i: nat)
      requires Tiles(layout, base, limit) && 0 < i && i + 1 < |layout|
      ensures layout[i - 1].size > 0 && layout[i].size > 0 && layout[i + 1].size > 0
      ensures End(layout[i - 1]) == layout[i].addr && End(layout[i]) == layout[i + 1].addr
    {
      InBounds(layout, base, limit, i - 1);
      InBounds(layout, base, limit, i);
      InBounds(layout, base, limit, i + 1);
    }

    /** What there is to know of the chunk that is freed. */
    lemma InUse(p: nat, s: nat) returns (i: nat)
      requires Valid() && (p, s) in Live() && p != base
      ensures 0 < i && i + 1 < |layout| && layout[i] == Piece(p, s, false) && p in head && head[p].size == s
      ensures End(layout[i]) == layout[i + 1].addr && layout[i + 1].addr in head
      ensures head[layout[i + 1].addr].cinuse == !layout[i + 1].free && head[layout[i + 1].addr].pinuse
      ensures head[layout[i + 1].addr].size == layout[i + 1].size
      ensures layout[i + 1].free && i + 2 < |layout| ==> !layout[i + 2].free
      ensures layout[i + 1].addr == top <==> i + 2 == |layout|
      ensures layout[i + 1].addr == top ==> layout[i + 1].size == topsize && layout[i + 1].free
      ensures layout[i + 1].addr == dv ==> dvsize != 0 && layout[i + 1] == Piece(dv, dvsize, true)
      ensures Tiles(layout, base, limit) && Holds(Chunks(), Joined(i), FreeBefore(i), FreeAfter(i))
      ensures var j := Joined(i);
              && j.0 <= p && p + s <= j.0 + j.1
              && j.0 == (if layout[i - 1].free then layout[i - 1].addr else p)
              && j.0 + j.1 == if layout[i + 1].free then End(layout[i + 1]) else p + s
      ensures FreeBefore(i) != Some(top)
    {
      hide Pieces, Tiles, Coalesced, Headed, Footed, Bins.Valid, Sized, Accounted, Holds, Joined;
      i := LiveIndex(p, s);
      AfterOf(i);
      NextOf(i);
      JoinedHolds(i);
    }

    /**
     mspace_free of a chunk in use other than the one that holds the state: it goes out
     of use, nothing else does, and everything free is put away again where it belongs.
     */
    method Free(mem: nat, ghost s: nat) returns (ghost j: Chunk)
      requires Valid() && mem >= MEM_OFFSET && (mem - MEM_OFFSET, s) in Live() && mem - MEM_OFFSET != base
      modifies this, bins
      ensures Valid() && Live() == old(Live()) - {(mem - MEM_OFFSET, s)}
      ensures Returns(old(Chunks()), (mem - MEM_OFFSET, s), j, Chunks())
    {
      hide ValidBut, Pieces, Tiles, FreeOnes, Returns, Holds, Apart, InUseBefore, Comes;
      var p := mem - MEM_OFFSET;
      ghost var m := Chunks();
      FreeApart();
      ghost var i := InUse(p, s);
      var psize := head[p].size;
      var next := p + psize;
      j := Joined(i);
      ghost var a, b := FreeBefore(i), FreeAfter(i);
      ghost var at, extra;
      p, psize, at, extra := Backward(p, psize, i);
      ReturnsPrevious(m, a, at < i, p, bins.binned);
      WhatComes(extra, p, at, i);
      if p == dv && head[next].cinuse && head[next].pinuse {
        GrowDv(p, psize, false, extra, at, i + 1 - at, i);
        ReturnsVictim(m, (mem - MEM_OFFSET, s), j, a, b, Chunks());
        return;
      }
      if !head[next].cinuse {
        if next == top {
          JoinTop(p, psize, extra, at, i);
          ReturnsTop(m, (mem - MEM_OFFSET, s), j, a, Chunks());
          return;
        } else if next == dv {
          GrowDv(p, psize + dvsize, true, extra, at, i + 2 - at, i);
          ReturnsVictim(m, (mem - MEM_OFFSET, s), j, a, b, Chunks());
          return;
        } else {
          JoinNext(p, psize, next, m, (mem - MEM_OFFSET, s), j, a, extra, at, i);
          return;
        }
      }
      JoinFree(p, psize, false, extra, at, i + 1 - at, i);
      InsertRest((p, psize));
      ReturnsBin(m, (mem - MEM_OFFSET, s), j, a, b, Chunks());
    }

    /** A binned chunk behind joins as well. */
    method JoinNext(p: nat, psize0: nat, next: nat, ghost m: Stock, ghost c: Chunk, ghost j: Chunk,
                    ghost a: Option<nat>, ghost extra: set<Chunk>, ghost at: nat, ghost i: nat)
      requires ValidBut(extra) && at <= i && i + 2 < |layout| && !layout[i + 2].free && layout[i + 1].free
      requires next == layout[i + 1].addr && next != top && next != dv && next in head
      requires head[next].size == layout[i + 1].size
      requires (layout[i + 1].addr, layout[i + 1].size) !in extra
      requires Neighbours(layout, at, i + 2 - at, i) && Joining(p, psize0 + layout[i + 1].size, at, i + 2 - at, i)
      requires Comes(extra + {(next, layout[i + 1].size)}, p == dv, false, at, i + 2 - at, i)
      requires (layout[i].addr, layout[i].size) == c && j == (p, psize0 + layout[i + 1].size)
      requires Apart(m) && Holds(m, j, a, Some(next)) && a != Some(m.top)
      requires j.0 <= c.0 && c.0 + c.1 <= j.0 + j.1 && Chunks() == m.(binned := m.binned - Only(a))
      requires (p == dv ==> dvsize != 0 && a == Some(dv)) && (p != dv ==> dvsize == 0 || a != Some(dv))
      modifies this`head, this`foot, this`layout, this`dv, this`dvsize, bins
      ensures Valid() && Live() == old(Live()) - {c} && Returns(m, c, j, Chunks())
    {
      hide ValidBut, Pieces, Tiles, FreeOnes, Returns, Holds, Apart, InUseBefore, Comes, Joining;
      var nsize := head[next].size;
      var psize := psize0 + nsize;
      IsBinned(extra, i + 1);
      Unlink(next, nsize, extra);
      if p == dv {
        GrowDv(p, psize, true, extra + {(next, nsize)}, at, i + 2 - at, i);
        ReturnsVictim(m, c, j, a, Some(next), Chunks());
        return;
      }
      JoinFree(p, psize, true, extra + {(next, nsize)}, at, i + 2 - at, i);
      InsertRest((p, psize));
      ReturnsBin(m, c, j, a, Some(next), Chunks());
    }
  }

  lemma RootStored(t: Tree, lo: nat, w: nat)
    requires t.Node? && Trie(t, lo, w)
    ensures t.ring != [] && (t.ring[0], t.size) in Stored(t)
  {
    assert t.ring[0] in t.ring;
  }

  // ------------------------------------------------------------------
  // Which chunk is used
  // ------------------------------------------------------------------

  predicate Apart(m: Stock) {
    m.top !in m.binned && (m.dvsize != 0 ==> m.dv !in m.binned && m.dv != m.top)
  }

  /** What consolidating backward leaves of the bins. */
  lemma ReturnsPrevious(m: Stock, a: Option<nat>, joined: bool, p: nat, binned: map<nat, nat>)
    requires Apart(m) && (joined <==> a.Some?) && (joined ==> a.value == p)
    requires binned == if joined && p != m.dv then m.binned - {p} else m.binned
    requires joined && p == m.dv ==> m.dvsize != 0
    ensures binned == m.binned - Only(a)
  {
  }

  lemma ReturnsTop(m: Stock, c: Chunk, j: Chunk, a: Option<nat>, after: Stock)
    requires Apart(m) && Holds(m, j, a, Some(m.top)) && j.0 <= c.0 && c.0 + c.1 <= j.0 + j.1
    requires after.binned == m.binned - Only(a) && after.top == j.0 && after.topsize == j.1
    requires (after.dv, after.dvsize) == if m.dvsize != 0 && a == Some(m.dv) then (0, 0) else (m.dv, m.dvsize)
    ensures Returns(m, c, j, after)
  {
    OutsideIs(m, j, a, Some(m.top));
  }

  lemma ReturnsVictim(m: Stock, c: Chunk, j: Chunk, a: Option<nat>, b: Option<nat>, after: Stock)
    requires Apart(m) && Holds(m, j, a, b) && j.0 <= c.0 && c.0 + c.1 <= j.0 + j.1 && m.dvsize != 0
    requires (a == Some(m.dv) || b == Some(m.dv)) && a != Some(m.top) && b != Some(m.top)
    requires after == m.(binned := after.binned, dv := j.0, dvsize := j.1)
    requires after.binned == if b == Some(m.dv) then m.binned - Only(a) else m.binned - Only(a) - Only(b)
    ensures Returns(m, c, j, after)
  {
    OutsideIs(m, j, a, b);
  }

  lemma ReturnsBin(m: Stock, c: Chunk, j: Chunk, a: Option<nat>, b: Option<nat>, after: Stock)
    requires Apart(m) && Holds(m, j, a, b) && j.0 <= c.0 && c.0 + c.1 <= j.0 + j.1
    requires (m.dvsize != 0 ==> a != Some(m.dv) && b != Some(m.dv)) && a != Some(m.top) && b != Some(m.top)
    requires after == m.(binned := (m.binned - Only(a) - Only(b))[j.0 := j.1])
    ensures Returns(m, c, j, after)
  {
    OutsideIs(m, j, a, b);
  }

  /** The bins have nothing for the request that the victim or the top does not serve. */
  ghost predicate Deferred(m: Stock, nb: nat) {
    && Apart(m)
    && (IsSmall(nb) ==> !m.HasSize(nb) && !(IsSmall(nb + 8) && m.HasSize(nb + 8)))
    && (m.dvsize < nb ==> m.NoneBinned(nb))
    && (!IsSmall(nb) ==> forall d: Chunk :: m.HasBinned(d) && d.1 >= nb ==> m.dvsize <= d.1)
  }

  lemma BinnedNotOther(m: Stock, c: Chunk)
    requires Apart(m) && m.HasBinned(c)
    ensures c != (m.top, m.topsize) && !m.HasVictim(c)
  {
  }

  lemma ExactLeaves(m: Stock, nb: nat, c: Chunk, left: Stock)
    requires Apart(m) && IsSmall(nb) && m.HasBinned(c) && nb <= c.1 && c.1 - nb < MIN_CHUNK_SIZE
    requires c.1 == nb || (c.1 == nb + 8 && IsSmall(nb + 8) && !m.HasSize(nb))
    requires left == m.(binned := m.binned - {c.0})
    ensures SmallChoice(m, nb, c) && Leaves(m, nb, c, left)
  {
    BinnedNotOther(m, c);
    assert m.HasBinned((c.0, c.1));
  }

  /** A smallest chunk of the bins serves a small request that the victim cannot. */
  lemma BinnedLeaves(m: Stock, nb: nat, c: Chunk, left: Stock)
    requires Apart(m) && IsSmall(nb) && m.Smallest(c, nb) && m.dvsize < nb
    requires !m.HasSize(nb) && (IsSmall(nb + 8) ==> !m.HasSize(nb + 8))
    requires var size := c.1 - nb;
             left == if size < MIN_CHUNK_SIZE then m.(binned := m.binned - {c.0})
                     else m.(binned := Rebinned(m.binned - {c.0}, m.dv, m.dvsize), dv := c.0 + nb, dvsize := size)
    ensures SmallChoice(m, nb, c) && Leaves(m, nb, c, left)
  {
    BinnedNotOther(m, c);
    assert !m.NoneBinned(nb);
  }

  lemma LargeLeaves(m: Stock, nb: nat, c: Chunk, left: Stock)
    requires Apart(m) && !IsSmall(nb) && BestOf(Large(m.binned), c.0, nb) && m.HasBinned(c)
    requires nb <= m.dvsize ==> c.1 < m.dvsize
    requires forall d: Chunk :: m.HasBinned(d) && d.1 >= nb ==> d in Large(m.binned)
    requires var size := c.1 - nb;
             left == if size < MIN_CHUNK_SIZE then m.(binned := m.binned - {c.0})
                     else m.(binned := (m.binned - {c.0})[c.0 + nb := size])
    ensures LargeChoice(m, nb, c) && Leaves(m, nb, c, left)
  {
    BestIsSmallest(m, nb, c);
    BinnedNotOther(m, c);
    assert !m.NoneBinned(nb);
  }

  lemma BestIsSmallest(m: Stock, nb: nat, c: Chunk)
    requires BestOf(Large(m.binned), c.0, nb) && m.HasBinned(c)
    requires forall d: Chunk :: m.HasBinned(d) && d.1 >= nb ==> d in Large(m.binned)
    ensures m.Smallest(c, nb)
  {
    var s :| (c.0, s) in Large(m.binned) && s >= nb && forall d :: d in Large(m.binned) && d.1 >= nb ==> s <= d.1;
    assert s == c.1;
  }

  lemma LargeBinnedAll(m: Stock, nb: nat)
    requires !IsSmall(nb)
    ensures forall d: Chunk :: m.HasBinned(d) && d.1 >= nb ==> d in Large(m.binned)
  {
  }

  lemma LargeDeferred(m: Stock, nb: nat)
    requires Apart(m) && !IsSmall(nb)
    requires forall x :: x in m.binned ==> m.binned[x] < nb || nb <= m.dvsize <= m.binned[x]
    ensures Deferred(m, nb)
  {
  }

  lemma TreesDeferred(m: Stock, nb: nat)
    requires Apart(m) && !IsSmall(nb)
    requires forall c :: c in Large(m.binned) ==> c.1 < nb || nb <= m.dvsize <= c.1
    ensures Deferred(m, nb)
  {
    forall x | x in m.binned && m.binned[x] >= nb ensures nb <= m.dvsize <= m.binned[x] {
      assert (x, m.binned[x]) in Large(m.binned);
    }
    LargeDeferred(m, nb);
  }

  lemma AllDeferred(m: Stock, nb: nat)
    requires Apart(m) && IsSmall(nb) && !m.HasSize(nb) && (IsSmall(nb + 8) ==> !m.HasSize(nb + 8))
    requires m.dvsize < nb ==> forall x :: x in m.binned ==> m.binned[x] < nb
    ensures Deferred(m, nb)
  {
  }

  lemma VictimLeaves(m: Stock, nb: nat, left: Stock)
    requires Deferred(m, nb) && 0 < nb <= m.dvsize
    requires var size := m.dvsize - nb;
             left == if size < MIN_CHUNK_SIZE then m.(dv := 0, dvsize := 0)
                     else m.(dv := m.dv + nb, dvsize := size)
    ensures IsChoice(m, nb, (m.dv, m.dvsize)) && Leaves(m, nb, (m.dv, m.dvsize), left)
  {
  }

  lemma TopLeaves(m: Stock, nb: nat, left: Stock)
    requires Deferred(m, nb) && m.dvsize < nb < m.topsize && left == m.(top := m.top + nb, topsize := m.topsize - nb)
    ensures IsChoice(m, nb, (m.top, m.topsize)) && Leaves(m, nb, (m.top, m.topsize), left)
  {
  }

  lemma NoneDeferred(m: Stock, nb: nat)
    requires Deferred(m, nb) && m.dvsize < nb
    ensures forall x :: x in m.binned ==> m.binned[x] < nb
  {
    forall x | x in m.binned ensures m.binned[x] < nb {
      assert m.HasBinned((x, m.binned[x]));
    }
  }

  lemma NoChoice(m: Stock, nb: nat)
    requires Deferred(m, nb) && m.dvsize < nb && m.topsize <= nb
    ensures forall c :: !IsChoice(m, nb, c)
  {
  }

  /** A smallest of the chunks that fit. */
  ghost predicate BestOf(S: set<Chunk>, p: nat, nb: nat) {
    exists s :: (p, s) in S && s >= nb && forall d :: d in S && d.1 >= nb ==> s <= d.1
  }

  lemma {:induction false} AlignedAt(L: Layout, base: nat, limit: nat, top: nat, i: nat)
    requires Tiles(L, base, limit) && PiecesSized(L, top) && base % 8 == 0 && i < |L|
    ensures L[i].addr % 8 == 0
    decreases i
  {
    if i > 0 {
      AlignedAt(L, base, limit, top, i - 1);
      assert L[i - 1] in L;
    }
  }

  /** Sizes are multiples of the alignment, and only the top may be small. */
  ghost predicate PiecesSized(L: Layout, top: nat) {
    forall p :: p in L ==> p.size % 8 == 0 && (p.addr != top ==> p.size >= MIN_CHUNK_SIZE)
  }

  /** The bins once the old victim, if there was one, is in its bin. */
  function Rebinned(binned: map<nat, nat>, dv: nat, dvsize: nat): map<nat, nat> {
    if dvsize == 0 then binned else binned[dv := dvsize]
  }

  lemma OthersNotTop(L: Layout, base: nat, limit: nat)
    requires Tiles(L, base, limit)
    ensures forall i :: 0 <= i < |L| - 1 ==> L[i].addr != L[|L| - 1].addr
  {
    forall i | 0 <= i < |L| - 1 ensures L[i].addr != L[|L| - 1].addr {
      OnePieceOnly(L, base, limit, i, |L| - 1);
    }
  }

  lemma SizedAt(L: Layout, i: nat, top: nat)
    requires i < |L| && PiecesSized(L, top)
    ensures L[i].size % 8 == 0 && (L[i].addr != top ==> L[i].size >= MIN_CHUNK_SIZE)
  {
    assert L[i] in L;
  }

  lemma FrontSized(L: Layout, i: nat, nb: nat, top: nat)
    requires i < |L| && PiecesSized(L, top) && MIN_CHUNK_SIZE <= nb && nb + MIN_CHUNK_SIZE <= L[i].size && nb % 8 == 0
    ensures var front, rest := Piece(L[i].addr, nb, false), Piece(L[i].addr + nb, L[i].size - nb, true);
            PiecesSized(ChunkLayouts.Replace(L, i, 1, [front, rest]), top)
  {
    SizedAt(L, i, top);
    SizedReplaced(L, i, 1, [Piece(L[i].addr, nb, false), Piece(L[i].addr + nb, L[i].size - nb, true)], top);
  }

  lemma OneSized(p: Piece, top: nat)
    requires p.size % 8 == 0 && p.size >= MIN_CHUNK_SIZE
    ensures PiecesSized([p], top)
  {
  }

  lemma TwoHeads(head: map<nat, Head>, p: nat, h: Head, q: nat, g: Head)
    requires p != q
    ensures head[p := h][q := g] == head[q := g][p := h]
  {
  }

  lemma SizedTop(L: Layout, at: nat, M: Layout, top: nat, top': nat)
    requires at < |L| && PiecesSized(L, top)
    requires forall i :: 0 <= i < |L| - 1 ==> L[i].addr != top
    requires PiecesSized(M, top')
    ensures PiecesSized(ChunkLayouts.Replace(L, at, |L| - at, M), top')
  {
    var A := L[..at];
    assert A + M + L[|L|..] == A + M;
    forall p | p in A ensures p.size % 8 == 0 && p.size >= MIN_CHUNK_SIZE {
      var i :| 0 <= i < |A| && A[i] == p;
      assert L[i] == p;
    }
  }

  lemma SizedReplaced(L: Layout, i: nat, n: nat, M: Layout, top: nat)
    requires i + n <= |L| && PiecesSized(L, top)
    requires PiecesSized(M, top)
    ensures PiecesSized(ChunkLayouts.Replace(L, i, n, M), top)
  {
    assert forall p :: p in L[..i] + M + L[i + n..] ==> p in L || p in M;
  }

  /** The chunks of a map from addresses to sizes. */
  ghost function AsSet(m: map<nat, nat>): (S: set<Chunk>)
    ensures forall x: nat, s: nat :: (x, s) in S <==> x in m && m[x] == s
  {
    set x | x in m :: (x, m[x])
  }

  lemma ItemsLess(m: map<nat, nat>, p: nat)
    requires p in m
    ensures AsSet(m - {p}) == AsSet(m) - {(p, m[p])} && (p, m[p]) in AsSet(m)
  {
  }

  lemma ItemsMore(m: map<nat, nat>, p: nat, s: nat)
    requires p !in m
    ensures AsSet(m[p := s]) == AsSet(m) + {(p, s)}
  {
    assert p in m[p := s];
  }
}
