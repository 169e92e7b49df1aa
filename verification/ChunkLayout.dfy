/**
 How chunks tile a segment, and the boundary tags that let a chunk find its
 neighbours: what replacing some neighbouring chunks by others does to both.
 */
module ChunkLayouts {

  /** A chunk of the segment; the last is the top chunk, which counts as free. */
  datatype Piece = Piece(addr: nat, size: nat, free: bool)

  type Layout = seq<Piece>

  /** The head word: size, cinuse and pinuse. */
  datatype Head = Head(size: nat, cinuse: bool, pinuse: bool)

  function End(p: Piece): nat { p.addr + p.size }

  /** The pieces follow each other from `base` to `limit`. */
  ghost predicate Tiles(L: Layout, base: nat, limit: nat) {
    && L != [] && L[0].addr == base && End(L[|L| - 1]) == limit
    && (forall i :: 0 <= i < |L| ==> L[i].size > 0)
    && (forall i, j :: 0 <= i < j < |L| && j == i + 1 ==> L[j].addr == End(L[i]))
  }

  /** No two free neighbours. */
  ghost predicate Coalesced(L: Layout) {
    forall i, j :: 0 <= i < j < |L| && j == i + 1 ==> !(L[i].free && L[j].free)
  }

  /** The chunk before is in use, or there is none. */
  ghost predicate InUseBefore(L: Layout, i: int)
    requires 0 <= i < |L|
  {
    i == 0 || !L[i - 1].free
  }

  /** Heads carry size and in-use bits. */
  ghost predicate Headed(L: Layout, head: map<nat, Head>) {
    && (forall i :: 0 <= i < |L| ==>
          L[i].addr in head && head[L[i].addr].size == L[i].size && head[L[i].addr].cinuse == !L[i].free)
    && (L != [] ==> head[L[0].addr].pinuse)
    && (forall i, j :: 0 <= i < j < |L| && j == i + 1 ==> head[L[j].addr].pinuse == !L[i].free)
  }

  /** The foot of a free chunk, in its successor, is its size. */
  ghost predicate Footed(L: Layout, foot: map<nat, nat>) {
    forall i, j :: 0 <= i < j < |L| && j == i + 1 && L[i].free ==> L[j].addr in foot && foot[L[j].addr] == L[i].size
  }

  /** The chunks that are free, or in use, with their sizes. */
  ghost function Pieces(L: Layout, free: bool): set<(nat, nat)> {
    set p | p in L && p.free == free :: (p.addr, p.size)
  }

  lemma {:induction false} Ascending(L: Layout, base: nat, limit: nat, i: int, j: int)
    requires Tiles(L, base, limit) && 0 <= i < j < |L|
    ensures End(L[i]) <= L[j].addr
    decreases j - i
  {
    if i + 1 < j {
      Ascending(L, base, limit, i, j - 1);
      assert L[j].addr == End(L[j - 1]);
    }
  }

  /** In a tiling an address names one piece. */
  lemma OnePiece(L: Layout, base: nat, limit: nat, i: int, j: int)
    requires Tiles(L, base, limit) && 0 <= i < |L| && 0 <= j < |L| && L[i].addr == L[j].addr
    ensures i == j
  {
    if i < j {
      Ascending(L, base, limit, i, j);
    } else if j < i {
      Ascending(L, base, limit, j, i);
    }
  }

  lemma InBounds(L: Layout, base: nat, limit: nat, i: int)
    requires Tiles(L, base, limit) && 0 <= i < |L|
    ensures base <= L[i].addr && End(L[i]) <= limit
  {
    if i > 0 {
      Ascending(L, base, limit, 0, i);
    }
    if i < |L| - 1 {
      Ascending(L, base, limit, i, |L| - 1);
    }
  }

  /** Chunks do not overlap. */
  lemma Disjoint(L: Layout, base: nat, limit: nat, p: Piece, q: Piece)
    requires Tiles(L, base, limit) && p in L && q in L && p != q
    ensures End(p) <= q.addr || End(q) <= p.addr
  {
    var i :| 0 <= i < |L| && L[i] == p;
    var j :| 0 <= j < |L| && L[j] == q;
    if i < j {
      Ascending(L, base, limit, i, j);
    } else {
      Ascending(L, base, limit, j, i);
    }
  }

  /** The bytes of all chunks. */
  ghost function Total(L: Layout): nat {
    if L == [] then 0 else Total(L[..|L| - 1]) + L[|L| - 1].size
  }

  /** The sizes add up to the segment. */
  lemma {:induction false} TotalIsSegment(L: Layout, base: nat, limit: nat)
    requires Tiles(L, base, limit)
    ensures base + Total(L) == limit
    decreases |L|
  {
    if |L| == 1 {
      assert Total(L[..0]) == 0;
    } else {
      var init := L[..|L| - 1];
      TotalIsSegment(init, base, End(init[|init| - 1]));
    }
  }

  // ------------------------------------------------------------------
  // Replacing neighbouring pieces
  // ------------------------------------------------------------------

  ghost function Replace(L: Layout, at: nat, n: nat, M: Layout): (R: Layout)
    requires at + n <= |L|
    ensures |R| == |L| - n + |M|
    ensures forall i :: 0 <= i < at ==> R[i] == L[i]
    ensures forall i :: at <= i < at + |M| ==> R[i] == M[i - at]
    ensures forall i :: at + |M| <= i < |R| ==> R[i] == L[i - |M| + n]
  {
    L[..at] + M + L[at + n..]
  }

  /** The new pieces fill the space of the old ones. */
  ghost predicate FillsIn(L: Layout, at: nat, n: nat, M: Layout) {
    at + n <= |L| && n > 0 && Tiles(M, L[at].addr, End(L[at + n - 1]))
  }

  lemma ReplaceTiles(L: Layout, base: nat, limit: nat, at: nat, n: nat, M: Layout)
    requires Tiles(L, base, limit) && FillsIn(L, at, n, M)
    ensures Tiles(Replace(L, at, n, M), base, limit)
  {
    var R := Replace(L, at, n, M);
    hide Replace;
    forall i, j | 0 <= i < j < |R| && j == i + 1 ensures R[j].addr == End(R[i]) {
      if at + |M| <= j {
        assert R[j] == L[j - |M| + n];
        assert j == at + |M| ==> R[i] == M[|M| - 1] && L[at + n].addr == End(L[at + n - 1]);
        assert j > at + |M| ==> R[i] == L[i - |M| + n];
      } else if j == at {
        assert L[at].addr == End(L[at - 1]);
      } else if j > at {
        assert R[j] == M[j - at] && R[i] == M[i - at];
      }
    }
    assert |L| > at + n ==> R[|R| - 1] == L[|L| - 1];
  }

  lemma ReplaceCoalesced(L: Layout, at: nat, n: nat, M: Layout)
    requires Coalesced(L) && Coalesced(M) && at + n <= |L| && n > 0 && M != []
    requires M[0].free && at > 0 ==> !L[at - 1].free
    requires M[|M| - 1].free && at + n < |L| ==> !L[at + n].free
    ensures Coalesced(Replace(L, at, n, M))
  {
    var R := Replace(L, at, n, M);
    hide Replace;
    forall i, j | 0 <= i < j < |R| && j == i + 1 ensures !(R[i].free && R[j].free) {
      if at + |M| < j {
        assert R[i] == L[i - |M| + n] && R[j] == L[j - |M| + n];
      } else if at < j < at + |M| {
        assert R[i] == M[i - at] && R[j] == M[j - at];
      } else if j == at + |M| {
        assert R[i] == M[|M| - 1] && R[j] == L[at + n];
      } else if j == at {
        assert R[i] == L[at - 1] && R[j] == M[0];
      }
    }
  }

  lemma InOneStretch(L: Layout, base: nat, limit: nat, at: nat, n: nat, p: Piece)
    requires Tiles(L, base, limit) && at + n <= |L| && p in L[at..at + n]
    ensures p !in L[..at] && p !in L[at + n..]
  {
    var k :| 0 <= k < n && L[at..at + n][k] == p;
    forall i | 0 <= i < |L| && L[i] == p ensures i == at + k {
      OnePiece(L, base, limit, i, at + k);
    }
  }

  /** The chunks that were replaced are gone, the new ones have come. */
  lemma ReplacePieces(L: Layout, base: nat, limit: nat, at: nat, n: nat, M: Layout, free: bool)
    requires Tiles(L, base, limit) && at + n <= |L|
    ensures Pieces(Replace(L, at, n, M), free) == Pieces(L, free) - Pieces(L[at..at + n], free) + Pieces(M, free)
  {
    var R, A, O, B := Replace(L, at, n, M), L[..at], L[at..at + n], L[at + n..];
    assert R == A + M + B;
    assert L == A + O + B;
    forall p | p in O ensures p !in A && p !in B {
      InOneStretch(L, base, limit, at, n, p);
    }
    hide Tiles, Replace;
    forall c ensures c in Pieces(R, free) <==> c in Pieces(L, free) - Pieces(O, free) + Pieces(M, free) {
      var p := Piece(c.0, c.1, free);
      assert c in Pieces(R, free) <==> p in R;
      assert c in Pieces(L, free) <==> p in L;
      assert c in Pieces(O, free) <==> p in O;
      assert c in Pieces(M, free) <==> p in M;
    }
  }

  /** Head words that describe the new layout: only the new pieces and the pinuse bit after them have changed. */
  ghost predicate HeadsReplaced(L: Layout, at: nat, n: nat, M: Layout, head: map<nat, Head>, head': map<nat, Head>)
    requires at + n <= |L| && n > 0 && M != [] && Headed(L, head)
  {
    && (forall i :: 0 <= i < at || at + n < i < |L| ==> L[i].addr in head' && head'[L[i].addr] == head[L[i].addr])
    && (at + n < |L| ==>
          && L[at + n].addr in head'
          && head'[L[at + n].addr] == head[L[at + n].addr].(pinuse := !M[|M| - 1].free))
    && (forall k :: 0 <= k < |M| ==>
          M[k].addr in head' && head'[M[k].addr].size == M[k].size && head'[M[k].addr].cinuse == !M[k].free)
    && head'[M[0].addr].pinuse == head[L[at].addr].pinuse
    && (forall k, l :: 0 <= k < l < |M| && l == k + 1 ==> head'[M[l].addr].pinuse == !M[k].free)
  }

  lemma ReplaceHeaded(L: Layout, at: nat, n: nat, M: Layout, head: map<nat, Head>, head': map<nat, Head>)
    requires at + n <= |L| && n > 0 && M != [] && Headed(L, head) && HeadsReplaced(L, at, n, M, head, head')
    ensures Headed(Replace(L, at, n, M), head')
  {
    var R := Replace(L, at, n, M);
    hide Replace;
    forall i | 0 <= i < |R|
      ensures R[i].addr in head' && head'[R[i].addr].size == R[i].size && head'[R[i].addr].cinuse == !R[i].free
    {
      if i < at {
        assert R[i] == L[i];
      } else if i < at + |M| {
        assert R[i] == M[i - at];
      } else {
        assert R[i] == L[i - |M| + n];
      }
    }
    if at == 0 {
      assert R[0] == M[0];
    } else {
      assert R[0] == L[0];
    }
    forall i, j | 0 <= i < j < |R| && j == i + 1 ensures head'[R[j].addr].pinuse == !R[i].free {
      if j < at {
        assert R[i] == L[i] && R[j] == L[j];
      } else if j == at {
        assert R[i] == L[at - 1] && R[j] == M[0];
        assert head[L[at].addr].pinuse == !L[at - 1].free;
      } else if j < at + |M| {
        assert R[i] == M[i - at] && R[j] == M[j - at];
      } else if j == at + |M| {
        assert R[i] == M[|M| - 1] && R[j] == L[at + n];
      } else {
        assert R[i] == L[i - |M| + n] && R[j] == L[j - |M| + n];
      }
    }
  }

  ghost predicate FeetReplaced(L: Layout, at: nat, n: nat, M: Layout, foot: map<nat, nat>, foot': map<nat, nat>)
    requires at + n <= |L| && n > 0 && M != []
  {
    && (forall i, j :: 0 <= i < j < |L| && j == i + 1 && (j <= at || at + n < j) && L[i].free ==>
          L[j].addr in foot' && L[j].addr in foot && foot'[L[j].addr] == foot[L[j].addr])
    && (forall k, l :: 0 <= k < l < |M| && l == k + 1 && M[k].free ==>
        M[l].addr in foot' && foot'[M[l].addr] == M[k].size)
    && (at + n < |L| && M[|M| - 1].free ==> L[at + n].addr in foot' && foot'[L[at + n].addr] == M[|M| - 1].size)
  }

  lemma ReplaceFooted(L: Layout, at: nat, n: nat, M: Layout, foot: map<nat, nat>, foot': map<nat, nat>)
    requires at + n <= |L| && n > 0 && M != [] && Footed(L, foot) && M[0].addr == L[at].addr
    requires FeetReplaced(L, at, n, M, foot, foot')
    ensures Footed(Replace(L, at, n, M), foot')
  {
    var R := Replace(L, at, n, M);
    hide Replace;
    forall i, j | 0 <= i < j < |R| && j == i + 1 && R[i].free
      ensures R[j].addr in foot' && foot'[R[j].addr] == R[i].size
    {
      if j < at {
        assert R[i] == L[i] && R[j] == L[j];
      } else if j == at {
        assert R[i] == L[at - 1] && R[j] == M[0] && R[j].addr == L[at].addr;
      } else if j < at + |M| {
        assert R[i] == M[i - at] && R[j] == M[j - at];
      } else if j == at + |M| {
        assert R[i] == M[|M| - 1] && R[j] == L[at + n];
      } else {
        assert R[i] == L[i - |M| + n] && R[j] == L[j - |M| + n];
      }
    }
  }

  /** No chunk in use starts where a free one does, and none of the others starts inside it. */
  lemma FreeAlone(L: Layout, base: nat, limit: nat, i: int)
    requires Tiles(L, base, limit) && 0 <= i < |L| && L[i].free
    ensures forall x: nat :: (L[i].addr, x) !in Pieces(L, false)
    ensures forall c :: c in Pieces(L, true) && c != (L[i].addr, L[i].size) ==> c.0 < L[i].addr || c.0 >= End(L[i])
  {
    forall x: nat ensures (L[i].addr, x) !in Pieces(L, false) {
      if Piece(L[i].addr, x, false) in L {
        Disjoint(L, base, limit, L[i], Piece(L[i].addr, x, false));
      }
    }
    forall c | c in Pieces(L, true) && c != (L[i].addr, L[i].size) ensures c.0 < L[i].addr || c.0 >= End(L[i]) {
      Disjoint(L, base, limit, L[i], Piece(c.0, c.1, true));
    }
  }

  /** A free chunk at the address of a piece is that piece. */
  lemma FreeAt(L: Layout, base: nat, limit: nat, i: int)
    requires Tiles(L, base, limit) && 0 <= i < |L|
    ensures forall c :: c in Pieces(L, true) && c.0 == L[i].addr ==> L[i] == Piece(c.0, c.1, true)
  {
    forall c | c in Pieces(L, true) && c.0 == L[i].addr ensures L[i] == Piece(c.0, c.1, true) {
      var k :| 0 <= k < |L| && L[k] == Piece(c.0, c.1, true);
      OnePiece(L, base, limit, i, k);
    }
  }

  lemma OnePieces(p: Piece, free: bool)
    ensures Pieces([p], free) == if p.free == free then {(p.addr, p.size)} else {}
  {
    assert p in [p];
  }

  lemma TwoPieces(p: Piece, q: Piece, free: bool)
    ensures Pieces([p, q], free) == Pieces([p], free) + Pieces([q], free)
    ensures Pieces([p], free) == if p.free == free then {(p.addr, p.size)} else {}
    ensures Pieces([q], free) == if q.free == free then {(q.addr, q.size)} else {}
  {
    OnePieces(p, free);
    OnePieces(q, free);
    assert [p, q] == [p] + [q];
  }

  /** A free chunk goes into use. */
  lemma TakenSets(L: Layout, base: nat, limit: nat, i: nat)
    requires Tiles(L, base, limit) && i < |L| && L[i].free
    ensures var R, c := Replace(L, i, 1, [L[i].(free := false)]), (L[i].addr, L[i].size);
            Pieces(R, true) == Pieces(L, true) - {c} && Pieces(R, false) == Pieces(L, false) + {c}
  {
    hide Pieces, Replace, Tiles;
    var M := [L[i].(free := false)];
    OnePieces(M[0], true);
    OnePieces(M[0], false);
    OneReplaced(L, base, limit, i, M, true);
    OneReplaced(L, base, limit, i, M, false);
  }

  /** The front of a free chunk goes into use. */
  lemma FrontSets(L: Layout, base: nat, limit: nat, i: nat, nb: nat)
    requires Tiles(L, base, limit) && i < |L| && L[i].free && 0 < nb < L[i].size
    ensures var p, s := L[i].addr, L[i].size;
            var R := Replace(L, i, 1, [Piece(p, nb, false), Piece(p + nb, s - nb, true)]);
            && Pieces(R, true) == Pieces(L, true) - {(p, s)} + {(p + nb, s - nb)}
            && Pieces(R, false) == Pieces(L, false) + {(p, nb)}
  {
    hide Pieces, Replace, Tiles;
    var p, s := L[i].addr, L[i].size;
    var a, b := Piece(p, nb, false), Piece(p + nb, s - nb, true);
    TwoPieces(a, b, true);
    TwoPieces(a, b, false);
    OneReplaced(L, base, limit, i, [a, b], true);
    OneReplaced(L, base, limit, i, [a, b], false);
    assert {} + {(p + nb, s - nb)} == {(p + nb, s - nb)};
    assert {(p, nb)} + {} == {(p, nb)};
  }

  lemma OneReplaced(L: Layout, base: nat, limit: nat, i: nat, M: Layout, free: bool)
    requires Tiles(L, base, limit) && i < |L|
    ensures Pieces(Replace(L, i, 1, M), free) ==
            if L[i].free == free then Pieces(L, free) - {(L[i].addr, L[i].size)} + Pieces(M, free)
                else Pieces(L, free) + Pieces(M, free)
  {
    hide Pieces, Replace, Tiles;
    assert L[i..i + 1] == [L[i]];
    OnePieces(L[i], free);
    ReplacePieces(L, base, limit, i, 1, M, free);
    assert Pieces(L, free) - {} == Pieces(L, free);
  }

  /** The chunk in use at `i` with its free neighbours, from `at` on. */
  ghost predicate Neighbours(L: Layout, at: nat, n: nat, i: nat) {
    && at <= i <= at + 1 && i < at + n <= i + 2 && at + n <= |L|
    && (forall j :: at <= j < at + n ==> (L[j].free <==> j != i))
  }

  /** The free ones of them. */
  ghost function FreeOnes(L: Layout, at: nat, n: nat, i: nat): set<(nat, nat)>
    requires Neighbours(L, at, n, i)
  {
    (if at < i then {(L[at].addr, L[at].size)} else {}) +
    (if i + 1 < at + n then {(L[i + 1].addr, L[i + 1].size)} else {})
  }

  /** A chunk in use and its free neighbours become one free chunk. */
  lemma MergedSets(L: Layout, base: nat, limit: nat, at: nat, n: nat, i: nat, p: nat, total: nat)
    requires Tiles(L, base, limit) && Neighbours(L, at, n, i) && p == L[at].addr && p + total == End(L[at + n - 1]) &&
             total > 0
    ensures var R := Replace(L, at, n, [Piece(p, total, true)]);
            && Pieces(R, true) == Pieces(L, true) - FreeOnes(L, at, n, i) + {(p, total)}
            && Pieces(R, false) == Pieces(L, false) - {(L[i].addr, L[i].size)}
  {
    hide Replace, Tiles;
    var M := [Piece(p, total, true)];
    OnePieces(M[0], true);
    OnePieces(M[0], false);
    ReplacePieces(L, base, limit, at, n, M, true);
    ReplacePieces(L, base, limit, at, n, M, false);
    UsedIn(L, at, n, i);
    FreeIn(L, at, n, i);
    hide Pieces;
    assert Pieces(L, false) - {(L[i].addr, L[i].size)} + {} == Pieces(L, false) - {(L[i].addr, L[i].size)};
  }

  lemma UsedIn(L: Layout, at: nat, n: nat, i: nat)
    requires Neighbours(L, at, n, i)
    ensures Pieces(L[at..at + n], false) == {(L[i].addr, L[i].size)}
  {
    var O := L[at..at + n];
    assert O[i - at] == L[i] && O[i - at] in O;
    forall q | q in O && !q.free ensures q == L[i] {
      var k :| 0 <= k < |O| && O[k] == q;
      assert O[k] == L[at + k];
    }
  }

  lemma FreeIn(L: Layout, at: nat, n: nat, i: nat)
    requires Neighbours(L, at, n, i)
    ensures Pieces(L[at..at + n], true) == FreeOnes(L, at, n, i)
  {
    var O := L[at..at + n];
    if at < i {
      assert O[0] == L[at] && O[0] in O;
    }
    if i + 1 < at + n {
      assert O[i + 1 - at] == L[i + 1] && O[i + 1 - at] in O;
    }
    forall q | q in O && q.free ensures (at < i && q == L[at]) || (i + 1 < at + n && q == L[i + 1]) {
      var k :| 0 <= k < |O| && O[k] == q;
      assert O[k] == L[at + k];
    }
  }

  /** The bytes of the neighbours together. */
  lemma Spanned(L: Layout, base: nat, limit: nat, at: nat, n: nat, i: nat)
    requires Tiles(L, base, limit) && Neighbours(L, at, n, i)
    ensures End(L[at + n - 1]) - L[at].addr ==
            (if at < i then L[at].size else 0) + L[i].size + (if i + 1 < at + n then L[i + 1].size else 0)
  {
  }

  // ------------------------------------------------------------------
  // Segments with their tags
  // ------------------------------------------------------------------

  ghost predicate Tagged(L: Layout, base: nat, limit: nat, head: map<nat, Head>, foot: map<nat, nat>) {
    Tiles(L, base, limit) && Coalesced(L) && Headed(L, head) && Footed(L, foot)
  }

  /** Outside the replaced stretch, and before its end, no piece starts at an address of the new ones. */
  lemma Untouched(L: Layout, base: nat, limit: nat, at: nat, n: nat, M: Layout, i: int, k: int)
    requires Tiles(L, base, limit) && FillsIn(L, at, n, M) && 0 <= i < |L| && (i < at || i >= at + n) && 0 <= k < |M|
    ensures L[i].addr != M[k].addr && (i > at + n ==> L[i].addr != L[at + n].addr)
    ensures k > 0 ==> M[k].addr != M[0].addr
  {
    InBounds(M, L[at].addr, End(L[at + n - 1]), k);
    if k > 0 {
      Ascending(M, L[at].addr, End(L[at + n - 1]), 0, k);
    }
    if i < at {
      Ascending(L, base, limit, i, at);
    } else {
      Ascending(L, base, limit, at + n - 1, i);
      if i > at + n {
        Ascending(L, base, limit, at + n, i);
      }
    }
  }

  /** Everything about a replacement by one piece, or by a used and a free one. */
  lemma ReplaceTagged(L: Layout, base: nat, limit: nat, head: map<nat, Head>, foot: map<nat, nat>, at: nat, n: nat,
                      M: Layout, head': map<nat, Head>, foot': map<nat, nat>)
    requires Tagged(L, base, limit, head, foot) && FillsIn(L, at, n, M) && Coalesced(M)
    requires M[0].free && at > 0 ==> !L[at - 1].free
    requires M[|M| - 1].free && at + n < |L| ==> !L[at + n].free
    requires HeadsReplaced(L, at, n, M, head, head') && FeetReplaced(L, at, n, M, foot, foot')
    ensures Tagged(Replace(L, at, n, M), base, limit, head', foot')
  {
    ReplaceTiles(L, base, limit, at, n, M);
    ReplaceCoalesced(L, at, n, M);
    ReplaceHeaded(L, at, n, M, head, head');
    ReplaceFooted(L, at, n, M, foot, foot');
  }

  /** set_inuse_and_pinuse on a whole free chunk below the top. */
  lemma TakenWhole(L: Layout, base: nat, limit: nat, head: map<nat, Head>, foot: map<nat, nat>, i: nat)
    requires Tagged(L, base, limit, head, foot) && i + 1 < |L| && L[i].free
    ensures L[i + 1].addr in head && End(L[i]) == L[i + 1].addr
    ensures var head1 := head[L[i].addr := Head(L[i].size, true, true)];
            L[i + 1].addr in head1 &&
            Tagged(Replace(L, i, 1, [L[i].(free := false)]), base, limit,
                   head1[L[i + 1].addr := head1[L[i + 1].addr].(pinuse := true)], foot)
  {
    hide Replace;
    var M := [L[i].(free := false)];
    var head1 := head[L[i].addr := Head(L[i].size, true, true)];
    OnePieceOnly(L, base, limit, i, i + 1);
    var head' := head1[L[i + 1].addr := head1[L[i + 1].addr].(pinuse := true)];
    FreeAfterUsed(L, base, limit, head, foot, i);
    assert L[i].free && !L[i + 1].free;
    forall j | 0 <= j < i || i + 1 < j < |L| ensures L[j].addr in head' && head'[L[j].addr] == head[L[j].addr] {
      Untouched(L, base, limit, i, 1, M, j, 0);
      Untouched(L, base, limit, i, 1, M, i + 1, 0);
      OnePieceOnly(L, base, limit, j, i + 1);
    }
    assert HeadsReplaced(L, i, 1, M, head, head');
    assert FeetReplaced(L, i, 1, M, foot, foot);
    ReplaceTagged(L, base, limit, head, foot, i, 1, M, head', foot);
  }

  lemma FreeAfterUsed(L: Layout, base: nat, limit: nat, head: map<nat, Head>, foot: map<nat, nat>, i: nat)
    requires Tagged(L, base, limit, head, foot) && i < |L| && L[i].free
    ensures L[i].addr in head && head[L[i].addr].pinuse && InUseBefore(L, i)
  {
    if i > 0 {
      assert L[i].free;
      assert !L[i - 1].free;
      assert head[L[i].addr].pinuse == !L[i - 1].free;
    }
  }

  lemma OnePieceOnly(L: Layout, base: nat, limit: nat, i: int, j: int)
    requires Tiles(L, base, limit) && 0 <= i < |L| && 0 <= j < |L| && i != j
    ensures L[i].addr != L[j].addr
  {
    if L[i].addr == L[j].addr {
      OnePiece(L, base, limit, i, j);
    }
  }

  /** A free chunk is split: its front goes into use. */
  lemma TakenFront(L: Layout, base: nat, limit: nat, head: map<nat, Head>, foot: map<nat, nat>, i: nat, nb: nat)
    requires Tagged(L, base, limit, head, foot) && i < |L| && L[i].free && 0 < nb < L[i].size
    ensures var p, s := L[i].addr, L[i].size;
            Tagged(Replace(L, i, 1, [Piece(p, nb, false), Piece(p + nb, s - nb, true)]), base, limit,
                   head[p := Head(nb, true, true)][p + nb := Head(s - nb, false, true)], foot[p + s := s - nb])
  {
    hide Replace, HeadsReplaced, FeetReplaced, Headed, Footed;
    var p, s := L[i].addr, L[i].size;
    var M := [Piece(p, nb, false), Piece(p + nb, s - nb, true)];
    FrontHeads(L, base, limit, head, foot, i, nb);
    FrontFeet(L, base, limit, head, foot, i, nb);
    ReplaceTagged(L, base, limit, head, foot, i, 1, M,
                  head[p := Head(nb, true, true)][p + nb := Head(s - nb, false, true)], foot[p + s := s - nb]);
  }

  lemma FrontHeads(L: Layout, base: nat, limit: nat, head: map<nat, Head>, foot: map<nat, nat>, i: nat, nb: nat)
    requires Tagged(L, base, limit, head, foot) && i < |L| && L[i].free && 0 < nb < L[i].size
    ensures var p, s := L[i].addr, L[i].size;
            HeadsReplaced(L, i, 1, [Piece(p, nb, false), Piece(p + nb, s - nb, true)], head,
                          head[p := Head(nb, true, true)][p + nb := Head(s - nb, false, true)])
  {
    var p, s := L[i].addr, L[i].size;
    var M := [Piece(p, nb, false), Piece(p + nb, s - nb, true)];
    var head' := head[p := Head(nb, true, true)][p + nb := Head(s - nb, false, true)];
    FreeAfterUsed(L, base, limit, head, foot, i);
    forall j | 0 <= j < i || i + 1 <= j < |L| ensures L[j].addr in head' && head'[L[j].addr] == head[L[j].addr] {
      Untouched(L, base, limit, i, 1, M, j, 0);
      Untouched(L, base, limit, i, 1, M, j, 1);
    }
    if i + 1 < |L| {
      assert head[L[i + 1].addr].pinuse == !L[i].free;
    }
  }

  lemma FrontFeet(L: Layout, base: nat, limit: nat, head: map<nat, Head>, foot: map<nat, nat>, i: nat, nb: nat)
    requires Tagged(L, base, limit, head, foot) && i < |L| && L[i].free && 0 < nb < L[i].size
    ensures var p, s := L[i].addr, L[i].size;
            FeetReplaced(L, i, 1, [Piece(p, nb, false), Piece(p + nb, s - nb, true)], foot, foot[p + s := s - nb])
  {
    var p, s := L[i].addr, L[i].size;
    var foot' := foot[p + s := s - nb];
    forall h, j | 0 <= h < j < |L| && j == h + 1 && (j <= i || i + 1 < j) && L[h].free
      ensures L[j].addr in foot' && L[j].addr in foot && foot'[L[j].addr] == foot[L[j].addr]
    {
      if j <= i {
        SmallerStart(L, base, limit, j, i);
      } else {
        Ascending(L, base, limit, i, h);
      }
    }
    assert i + 1 < |L| ==> L[i + 1].addr == p + s;
  }

  lemma SmallerStart(L: Layout, base: nat, limit: nat, j: int, i: int)
    requires Tiles(L, base, limit) && 0 <= j <= i < |L|
    ensures L[j].addr < End(L[i])
  {
    if j < i {
      Ascending(L, base, limit, j, i);
    }
  }

  /** Neighbouring chunks become one free chunk, with a chunk in use on either side. */
  lemma Merged(L: Layout, base: nat, limit: nat, head: map<nat, Head>, foot: map<nat, nat>, at: nat, n: nat)
    requires Tagged(L, base, limit, head, foot) && n > 0 && at + n < |L| && InUseBefore(L, at) && !L[at + n].free
    ensures L[at].addr <= End(L[at + n - 1]) == L[at + n].addr
    ensures var p, next := L[at].addr, L[at + n].addr;
            var head1 := head[p := Head(next - p, false, true)];
            next in head1 && next > p &&
            Tagged(Replace(L, at, n, [Piece(p, next - p, true)]), base, limit,
                   head1[next := head1[next].(pinuse := false)], foot[next := next - p])
  {
    hide Replace;
    Ascending(L, base, limit, at, at + n);
    var p, next := L[at].addr, L[at + n].addr;
    var M := [Piece(p, next - p, true)];
    var head1 := head[p := Head(next - p, false, true)];
    hide HeadsReplaced, FeetReplaced, Footed;
    MergedHeads(L, base, limit, head, at, n);
    MergedFeet(L, base, limit, foot, at, n);
    ReplaceTagged(L, base, limit, head, foot, at, n, M, head1[next := head1[next].(pinuse := false)],
                  foot[next := next - p]);
  }

  lemma MergedHeads(L: Layout, base: nat, limit: nat, head: map<nat, Head>, at: nat, n: nat)
    requires Tiles(L, base, limit) && Headed(L, head) && n > 0 && at + n < |L| && InUseBefore(L, at)
    requires L[at].addr < L[at + n].addr
    ensures var p, next := L[at].addr, L[at + n].addr;
            var head1 := head[p := Head(next - p, false, true)];
            next in head1 &&
            HeadsReplaced(L, at, n, [Piece(p, next - p, true)], head, head1[next := head1[next].(pinuse := false)])
  {
    var p, next := L[at].addr, L[at + n].addr;
    var head1 := head[p := Head(next - p, false, true)];
    var head' := head1[next := head1[next].(pinuse := false)];
    forall j | 0 <= j < at || at + n < j < |L| ensures L[j].addr in head' && head'[L[j].addr] == head[L[j].addr] {
      OnePieceOnly(L, base, limit, at, j);
      OnePieceOnly(L, base, limit, at + n, j);
    }
    assert head[p].pinuse;
  }

  lemma MergedFeet(L: Layout, base: nat, limit: nat, foot: map<nat, nat>, at: nat, n: nat)
    requires Tiles(L, base, limit) && Footed(L, foot) && n > 0 && at + n < |L| && L[at].addr < L[at + n].addr
    ensures var p, next := L[at].addr, L[at + n].addr;
            FeetReplaced(L, at, n, [Piece(p, next - p, true)], foot, foot[next := next - p])
  {
    var p, next := L[at].addr, L[at + n].addr;
    var foot' := foot[next := next - p];
    forall h, j | 0 <= h < j < |L| && j == h + 1 && (j <= at || at + n < j) && L[h].free
      ensures L[j].addr in foot' && L[j].addr in foot && foot'[L[j].addr] == foot[L[j].addr]
    {
      OnePieceOnly(L, base, limit, at + n, j);
    }
  }

  /** Chunks at the end join the top. */
  lemma MergedTop(L: Layout, base: nat, limit: nat, head: map<nat, Head>, foot: map<nat, nat>, at: nat)
    requires Tagged(L, base, limit, head, foot) && at < |L| && InUseBefore(L, at)
    ensures L[at].addr < limit
    ensures Tagged(Replace(L, at, |L| - at, [Piece(L[at].addr, limit - L[at].addr, true)]), base, limit,
                   head[L[at].addr := Head(limit - L[at].addr, false, true)], foot)
  {
    hide Replace;
    InBounds(L, base, limit, at);
    var p := L[at].addr;
    var M := [Piece(p, limit - p, true)];
    hide HeadsReplaced, FeetReplaced;
    MergedTopHeads(L, base, limit, head, at);
    MergedTopFeet(L, base, limit, foot, at);
    hide Footed, Headed;
    ReplaceTagged(L, base, limit, head, foot, at, |L| - at, M, head[p := Head(limit - p, false, true)], foot);
  }

  lemma MergedTopHeads(L: Layout, base: nat, limit: nat, head: map<nat, Head>, at: nat)
    requires Tiles(L, base, limit) && Headed(L, head) && at < |L| && InUseBefore(L, at) && L[at].addr < limit
    ensures HeadsReplaced(L, at, |L| - at, [Piece(L[at].addr, limit - L[at].addr, true)], head,
                          head[L[at].addr := Head(limit - L[at].addr, false, true)])
  {
    var p := L[at].addr;
    var head' := head[p := Head(limit - p, false, true)];
    forall j | 0 <= j < at ensures L[j].addr in head' && head'[L[j].addr] == head[L[j].addr] {
      OnePieceOnly(L, base, limit, at, j);
    }
    assert head[p].pinuse;
  }

  lemma MergedTopFeet(L: Layout, base: nat, limit: nat, foot: map<nat, nat>, at: nat)
    requires Tiles(L, base, limit) && Footed(L, foot) && at < |L| && L[at].addr < limit
    ensures FeetReplaced(L, at, |L| - at, [Piece(L[at].addr, limit - L[at].addr, true)], foot, foot)
  {
  }

  /** A foot at the end of the segment is nobody's. */
  lemma FootAtLimit(L: Layout, base: nat, limit: nat, head: map<nat, Head>, foot: map<nat, nat>, v: nat)
    requires Tagged(L, base, limit, head, foot[limit := v])
    ensures Tagged(L, base, limit, head, foot)
  {
    forall i, j | 0 <= i < j < |L| && j == i + 1 && L[i].free
      ensures L[j].addr in foot && foot[L[j].addr] == L[i].size
    {
      InBounds(L, base, limit, j);
      assert L[j].addr in foot[limit := v];
    }
  }

  /** The same when the last of the merged chunks was free: the pinuse bit after it is clear already. */
  lemma MergedAfterFree(L: Layout, base: nat, limit: nat, head: map<nat, Head>, foot: map<nat, nat>, at: nat, n: nat)
    requires Tagged(L, base, limit, head, foot) && n > 0 && at + n < |L| && InUseBefore(L, at) && !L[at + n].free
    requires L[at + n - 1].free
    ensures L[at].addr < L[at + n].addr
    ensures var p, next := L[at].addr, L[at + n].addr;
            Tagged(Replace(L, at, n, [Piece(p, next - p, true)]), base, limit,
                   head[p := Head(next - p, false, true)], foot[next := next - p])
  {
    hide Replace;
    Merged(L, base, limit, head, foot, at, n);
    OnePieceOnly(L, base, limit, at, at + n);
    var p, next := L[at].addr, L[at + n].addr;
    var head1 := head[p := Head(next - p, false, true)];
    assert !head[next].pinuse;
    assert head1[next := head1[next].(pinuse := false)] == head1;
  }
}
