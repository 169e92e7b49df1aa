/**
 Which tree bin holds which sizes, and the bit tricks on bin maps.
 */
module TreeIndices {
  import opened Optional
  import opened Arithmetic
  import opened SizeTries

  const NTREEBINS: nat := 32
  const NSMALLBINS: nat := 32

  /** Sizes are bounded: compute_tree_index narrows the size without its low byte to 32 bits. */
  const MAX_SIZE: nat := 0x100_0000_0000

  function Log2(x: nat): (k: nat)
    requires x > 0
    ensures Pow2(k) <= x < 2 * Pow2(k)
  {
    if x == 1 then 0 else 1 + Log2(x / 2)
  }

  /** compute_tree_index, for sizes that the narrowing leaves alone. */
  function TreeIndex(s: nat): nat {
    var x := s / 0x100;
    if x == 0 then 0
    else if x > 0xffff then NTREEBINS - 1
    else var k := Log2(x); 2 * k + s / Pow2(k + 7) % 2
  }

  /** minsize_for_tree_index. */
  function MinSize(i: nat): nat {
    Pow2(i / 2 + 8) + i % 2 * Pow2(i / 2 + 7)
  }

  /** Where the sizes of a bin start for its trie; the last bin resolves all bits. */
  function BinLo(i: nat): nat {
    if i == NTREEBINS - 1 then 0 else MinSize(i)
  }

  /** One more than bit_for_tree_index: how many bits a bin resolves. */
  function BinWidth(i: nat): (w: nat)
    ensures w > 0
  {
    if i == NTREEBINS - 1 then 64 else i / 2 + 7
  }

  lemma {:induction false} Pow2Mono(a: nat, b: nat)
    requires a <= b
    ensures Pow2(a) <= Pow2(b)
    decreases b
  {
    if a < b {
      Pow2Mono(a, b - 1);
    }
  }

  /** Bins follow each other without gaps. */
  lemma MinSizeNext(i: nat)
    ensures MinSize(i + 1) == MinSize(i) + Pow2(i / 2 + 7)
  {
    assert Pow2(i / 2 + 8) == 2 * Pow2(i / 2 + 7);
    assert Pow2(i / 2 + 9) == 2 * Pow2(i / 2 + 8);
    if i % 2 == 0 {
      assert (i + 1) / 2 == i / 2 && (i + 1) % 2 == 1;
    } else {
      assert (i + 1) / 2 == i / 2 + 1 && (i + 1) % 2 == 0;
    }
  }

  lemma {:induction false} MinSizeMono(i: nat, j: nat)
    requires i <= j
    ensures MinSize(i) <= MinSize(j)
    decreases j
  {
    if i < j {
      MinSizeMono(i, j - 1);
      MinSizeNext(j - 1);
    }
  }

  /** A size is in the range of its bin. */
  lemma IndexRange(s: nat)
    requires 0x100 <= s < MAX_SIZE
    ensures TreeIndex(s) < NTREEBINS && MinSize(TreeIndex(s)) <= s
    ensures TreeIndex(s) < NTREEBINS - 1 ==> s < MinSize(TreeIndex(s) + 1)
  {
    var x := s / 0x100;
    if x > 0xffff {
      MinSize31();
    } else {
      var k := Log2(x);
      LogBelow16(x);
      var p := Pow2(k + 7);
      PowShift(k);
      OctaveRange(s, k, p);
    }
  }

  lemma OctaveRange(s: nat, k: nat, p: nat)
    requires p == Pow2(k + 7) && 2 * p <= s < 4 * p
    ensures MinSize(2 * k + s / p % 2) <= s < MinSize(2 * k + s / p % 2 + 1)
  {
    HalfOfOctave(s, p);
    OctaveSizes(k);
    hide MinSize, Pow2;
  }

  lemma OctaveSizes(k: nat)
    ensures MinSize(2 * k) == 2 * Pow2(k + 7)
    ensures MinSize(2 * k + 1) == 3 * Pow2(k + 7)
    ensures MinSize(2 * k + 2) == 4 * Pow2(k + 7)
  {
    assert (2 * k + 1) / 2 == k && (2 * k + 1) % 2 == 1;
    MinSizeNext(2 * k);
    MinSizeNext(2 * k + 1);
  }

  lemma PowShift(k: nat)
    ensures Pow2(k + 7) == 128 * Pow2(k) && Pow2(k + 8) == 256 * Pow2(k)
  {
    assert Pow2(k + 2) == 2 * Pow2(k + 1) == 4 * Pow2(k);
    assert Pow2(k + 4) == 2 * Pow2(k + 3) == 4 * Pow2(k + 2);
    assert Pow2(k + 6) == 2 * Pow2(k + 5) == 4 * Pow2(k + 4);
    assert Pow2(k + 8) == 2 * Pow2(k + 7) == 4 * Pow2(k + 6);
  }

  /** Between 2p and 4p, the bit tells the halves apart. */
  lemma HalfOfOctave(s: nat, p: nat)
    requires p > 0 && 2 * p <= s < 4 * p
    ensures s / p % 2 == if s >= 3 * p then 1 else 0
  {
    if s >= 3 * p {
      Quotient(s, p, 3, s - 3 * p);
    } else {
      Quotient(s, p, 2, s - 2 * p);
    }
  }

  lemma LogBelow16(x: nat)
    requires 0 < x <= 0xffff
    ensures Log2(x) < 16
  {
    if Log2(x) >= 16 {
      Pow2Mono(16, Log2(x));
      Pow2At16();
    }
  }

  lemma Pow2At16()
    ensures Pow2(16) == 0x1_0000
  {
    assert Pow2(4) == 16;
    assert Pow2(8) == 256;
    assert Pow2(12) == 4096;
  }

  lemma MinSize31()
    ensures MinSize(31) == 0xc0_0000
  {
    Pow2At16();
    assert Pow2(19) == 8 * Pow2(16);
    assert Pow2(22) == 8 * Pow2(19);
    assert Pow2(23) == 2 * Pow2(22);
  }

  /** Larger sizes are not in smaller bins. */
  lemma IndexMono(a: nat, b: nat)
    requires 0x100 <= a <= b < MAX_SIZE
    ensures TreeIndex(a) <= TreeIndex(b)
  {
    IndexRange(a);
    IndexRange(b);
    if TreeIndex(b) < TreeIndex(a) {
      MinSizeMono(TreeIndex(b) + 1, TreeIndex(a));
    }
  }

  /** The trie of a bin starts at a multiple of its range, and holds the sizes of the bin. */
  lemma BinHolds(s: nat)
    requires 0x100 <= s < MAX_SIZE
    ensures var i := TreeIndex(s);
            i < NTREEBINS && BinLo(i) <= s < BinLo(i) + Pow2(BinWidth(i)) && BinLo(i) % Pow2(BinWidth(i)) == 0
  {
    IndexRange(s);
    var i := TreeIndex(s);
    hide TreeIndex;
    if i < NTREEBINS - 1 {
      MinSizeNext(i);
      OctaveAligned(i);
    } else {
      Pow2At64();
    }
  }

  lemma OctaveAligned(i: nat)
    ensures MinSize(i) % Pow2(i / 2 + 7) == 0
  {
    var p := Pow2(i / 2 + 7);
    assert MinSize(i) == p * (2 + i % 2);
    Quotient(MinSize(i), p, 2 + i % 2, 0);
  }

  lemma Pow2At64()
    ensures Pow2(64) == 0x1_0000_0000_0000_0000
  {
    Pow2Sum(16, 16);
    Pow2Sum(32, 32);
    Pow2At16();
  }

  lemma {:induction false} Pow2Sum(a: nat, b: nat)
    ensures Pow2(a + b) == Pow2(a) * Pow2(b)
    decreases b
  {
    if b > 0 {
      Pow2Sum(a, b - 1);
      assert Pow2(a + b) == 2 * Pow2(a + b - 1);
    }
  }

  // ------------------------------------------------------------------
  // Bin maps
  // ------------------------------------------------------------------

  /** The bit of bin `i`, for words as wide as a bin map. */
  predicate Marked(m: bv32, i: bv32)
    requires i < 32
  {
    (m >> i) & 1 == 1
  }

  function IdxToBit(i: bv32): bv32
    requires i < 32
  {
    1 << i
  }

  function LeastBitOf(x: bv32): bv32 { x & -x }

  function LeftBitsOf(x: bv32): bv32 { (x << 1) | -(x << 1) }

  function Masked(m: bv32, n: bv32): bv32 { m & n }

  function Mark(m: bv32, i: bv32): bv32
    requires i < 32
  {
    m | (1 << i)
  }

  function Clear(m: bv32, i: bv32): bv32
    requires i < 32
  {
    m & !(1 << i)
  }

  /** The marks before `i`, moved to the top. */
  function LowBits(x: bv32, i: bv32): bv32
    requires i < 32
  {
    x << (32 - i)
  }

  /** least_bit leaves the lowest mark only. */
  lemma LeastBit(x: bv32, i: bv32)
    requires i < 32 && Marked(x, i) && LowBits(x, i) == 0
    ensures LeastBitOf(x) == IdxToBit(i) && x != 0
  {
  }

  /** left_bits of the bit of `i` marks all bins after `i`. */
  lemma LeftBits(i: bv32, j: bv32)
    requires i < 32 && j < 32
    ensures Marked(LeftBitsOf(IdxToBit(i)), j) <==> i < j
  {
  }

  /** mark and clear change one bit. */
  lemma MarkClear(m: bv32, i: bv32, j: bv32)
    requires i < 32 && j < 32
    ensures Marked(Mark(m, i), j) <==> j == i || Marked(m, j)
    ensures Marked(Clear(m, i), j) <==> j != i && Marked(m, j)
  {
    OneBit(m, i, j);
  }

  lemma OneBit(m: bv32, i: bv32, j: bv32)
    requires i < 32 && j < 32
    ensures Marked(m | (1 << i), j) <==> j == i || Marked(m, j)
    ensures Marked(m & !(1 << i), j) <==> j != i && Marked(m, j)
  {
  }

  lemma MaskedMarks(m: bv32, n: bv32, j: bv32)
    requires j < 32
    ensures Marked(Masked(m, n), j) <==> Marked(m, j) && Marked(n, j)
  {
  }

  lemma OneMoreClear(x: bv32, n: bv32)
    requires n < 31 && !Marked(x, n) && LowBits(x, n) == 0
    ensures LowBits(x, n + 1) == 0
  {
  }

  lemma NoneBefore(x: bv32)
    ensures LowBits(x, 0) == 0
  {
  }

  lemma AllClear(x: bv32)
    requires LowBits(x, 31) == 0 && !Marked(x, 31)
    ensures x == 0
  {
  }

  lemma TwoBits(m: bv32, i: bv32)
    requires i < 31
    ensures (m >> i) & 3 != 0 <==> Marked(m, i) || Marked(m, i + 1)
    ensures !(m >> i) & 1 == (if Marked(m, i) then 0 else 1)
  {
  }

  /** The number of a bin as a word. */
  function Pos(i: nat): (b: bv32)
    ensures b < 32
  {
    if i == 0 then 0 else if Pos(i - 1) < 31 then Pos(i - 1) + 1 else 31
  }

  lemma PosValues()
    ensures Pos(0) == 0 && Pos(1) == 1 && Pos(2) == 2 && Pos(3) == 3 && Pos(4) == 4 && Pos(5) == 5 && Pos(6) == 6 &&
            Pos(7) == 7
    ensures Pos(8) == 8 && Pos(9) == 9 && Pos(10) == 10 && Pos(11) == 11 && Pos(12) == 12 && Pos(13) == 13 &&
            Pos(14) == 14 && Pos(15) == 15
    ensures Pos(16) == 16 && Pos(17) == 17 && Pos(18) == 18 && Pos(19) == 19 && Pos(20) == 20 && Pos(21) == 21 &&
            Pos(22) == 22 && Pos(23) == 23
    ensures Pos(24) == 24 && Pos(25) == 25 && Pos(26) == 26 && Pos(27) == 27 && Pos(28) == 28 && Pos(29) == 29 &&
            Pos(30) == 30 && Pos(31) == 31
  {
    assert Pos(0) == 0 && Pos(1) == 1 && Pos(2) == 2 && Pos(3) == 3 && Pos(4) == 4 && Pos(5) == 5 && Pos(6) == 6 &&
        Pos(7) == 7;
    assert Pos(8) == 8 && Pos(9) == 9 && Pos(10) == 10 && Pos(11) == 11 && Pos(12) == 12 && Pos(13) == 13 &&
        Pos(14) == 14 && Pos(15) == 15;
    assert Pos(16) == 16 && Pos(17) == 17 && Pos(18) == 18 && Pos(19) == 19 && Pos(20) == 20 && Pos(21) == 21 &&
        Pos(22) == 22 && Pos(23) == 23;
    assert Pos(24) == 24 && Pos(25) == 25 && Pos(26) == 26 && Pos(27) == 27 && Pos(28) == 28 && Pos(29) == 29 &&
        Pos(30) == 30 && Pos(31) == 31;
  }

  lemma PosStep(j: nat)
    requires 0 < j < 32
    ensures Pos(j) == Pos(j - 1) + 1 && Pos(j - 1) < 31
  {
    PosValues();
  }

  lemma {:induction false} PosOrder(i: nat, j: nat)
    requires i < j < 32
    ensures Pos(i) < Pos(j)
    decreases j
  {
    PosStep(j);
    if i < j - 1 {
      PosOrder(i, j - 1);
    }
  }

  lemma PosApart(i: nat, j: nat)
    requires i < 32 && j < 32
    ensures (Pos(i) == Pos(j) <==> i == j) && (Pos(i) < Pos(j) <==> i < j)
  {
    if i < j {
      PosOrder(i, j);
    } else if j < i {
      PosOrder(j, i);
    }
  }

  /** The set that a bin map stands for. */
  ghost function Marks(m: bv32): set<nat> {
    set i: nat | i < 32 && Marked(m, Pos(i))
  }

  /** Marking adds a bin to the set, clearing takes it out. */
  lemma MarksChange(m: bv32, i: nat)
    requires i < 32
    ensures Marks(Mark(m, Pos(i))) == Marks(m) + {i}
    ensures Marks(Clear(m, Pos(i))) == Marks(m) - {i}
  {
    hide Marked, Pos, Mark, Clear;
    forall j: nat | j < 32
      ensures Marked(Mark(m, Pos(i)), Pos(j)) <==> j == i || Marked(m, Pos(j))
      ensures Marked(Clear(m, Pos(i)), Pos(j)) <==> j != i && Marked(m, Pos(j))
    {
      PosApart(i, j);
      MarkClear(m, Pos(i), Pos(j));
    }
  }

  lemma {:induction false} LowClear(x: bv32, n: nat)
    requires n < 32 && forall j: nat :: j < n ==> !Marked(x, Pos(j))
    ensures LowBits(x, Pos(n)) == 0
    decreases n
  {
    hide Marked, LowBits;
    if n > 0 {
      LowClear(x, n - 1);
      PosStep(n);
      OneMoreClear(x, Pos(n - 1));
    } else {
      NoneBefore(x);
    }
  }

  /** What least_bit computes is the bit of the least member. */
  lemma MarksOf(x: bv32, r: Option<nat>)
    requires match r
             case Some(j) => j in Marks(x) && forall i: nat :: i < j ==> i !in Marks(x)
             case None => Marks(x) == {}
    ensures r.None? <==> x == 0
    ensures r.Some? ==> r.value < 32 && LeastBitOf(x) == IdxToBit(Pos(r.value))
  {
    hide Marked, Pos, LowBits, LeastBitOf, IdxToBit;
    var n := if r.Some? then r.value else 31;
    forall i: nat | i < n ensures !Marked(x, Pos(i)) {
      assert i !in Marks(x);
    }
    LowClear(x, n);
    if r.Some? {
      LeastBit(x, Pos(n));
    } else {
      assert 31 !in Marks(x);
      PosValues();
      AllClear(x);
    }
  }

  /** What the search for the next marked bin after `k` computes on the words. */
  lemma NextMark(m: bv32, k: nat, r: Option<nat>)
    requires k < 32
    requires match r
             case Some(j) => j in Marks(m) && j > k && forall i :: i in Marks(m) && i > k ==> j <= i
             case None => forall i :: i in Marks(m) ==> i <= k
    ensures var x := Masked(LeftBitsOf(IdxToBit(Pos(k))), m);
            && (r.None? <==> x == 0)
            && (r.Some? ==> r.value < 32 && LeastBitOf(x) == IdxToBit(Pos(r.value)))
  {
    hide Marked, Pos, LeastBitOf, LeftBitsOf, IdxToBit, Masked;
    var left := LeftBitsOf(IdxToBit(Pos(k)));
    forall j: nat | j < 32 ensures Marked(Masked(left, m), Pos(j)) <==> Marked(m, Pos(j)) && k < j {
      PosApart(k, j);
      LeftBits(Pos(k), Pos(j));
      MaskedMarks(left, m, Pos(j));
    }
    forall i: nat | i in Marks(Masked(left, m)) ensures i in Marks(m) && k < i {
    }
    MarksOf(Masked(left, m), r);
  }

  /** The test on two neighbouring small bins, and which of them is taken. */
  lemma TwoBins(m: bv32, i: nat)
    requires i + 1 < 32
    ensures (m >> Pos(i)) & 3 != 0 <==> i in Marks(m) || i + 1 in Marks(m)
    ensures !(m >> Pos(i)) & 1 == (if i in Marks(m) then 0 else 1)
  {
    hide Marked, Pos;
    PosStep(i + 1);
    TwoBits(m, Pos(i));
  }
}
