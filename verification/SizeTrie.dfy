/**
 The bitwise tries that hold large free chunks by size. A node resolves one bit of
 the size; the chunks of one size hang in a ring at one node.
 */
module SizeTries {
  import opened Arithmetic
  import opened Optional

  /** A chunk: its address and its size. */
  type Chunk = (nat, nat)

  /** tchunkptr: the ring of equal-sized chunks in `fd` order from the one with parent links, and the two children. */
  datatype Tree = Leaf | Node(size: nat, ring: seq<nat>, left: Tree, right: Tree)

  ghost function Stored(t: Tree): set<Chunk> {
    match t
    case Leaf => {}
    case Node(s, ring, l, r) => (set x | x in ring :: (x, s)) + Stored(l) + Stored(r)
  }

  ghost predicate Sizes(t: Tree, lo: nat, hi: nat) {
    forall c :: c in Stored(t) ==> lo <= c.1 < hi
  }

  ghost predicate Distinct(ring: seq<nat>) {
    forall i, j :: 0 <= i < j < |ring| ==> ring[i] != ring[j]
  }

  ghost predicate Absent(t: Tree, s: nat) {
    forall c :: c in Stored(t) ==> c.1 != s
  }

  /** Sizes run from `lo` on; their `w` low bits are not resolved above this tree. */
  ghost predicate Trie(t: Tree, lo: nat, w: nat) {
    match t
    case Leaf => true
    case Node(s, ring, l, r) =>
      && lo <= s < lo + Pow2(w) && ring != [] && Distinct(ring) && Absent(l, s) && Absent(r, s)
      && if w == 0 then l == Leaf && r == Leaf
         else Trie(l, lo, w - 1) && Trie(r, lo + Pow2(w - 1), w - 1)
  }

  lemma {:induction false} TrieSizes(t: Tree, lo: nat, w: nat)
    requires Trie(t, lo, w)
    ensures Sizes(t, lo, lo + Pow2(w))
  {
    if t.Node? && w > 0 {
      TrieSizes(t.left, lo, w - 1);
      TrieSizes(t.right, lo + Pow2(w - 1), w - 1);
    }
  }

  /** The bit that decides between the children. */
  function Bit(s: nat, w: nat): (b: nat)
    requires w > 0
    ensures b < 2
  {
    s / Pow2(w - 1) % 2
  }

  /** Below a node whose range starts at a multiple, the bit tells the halves apart. */
  lemma BitTells(s: nat, lo: nat, w: nat)
    requires w > 0 && lo % Pow2(w) == 0 && lo <= s < lo + Pow2(w)
    ensures Bit(s, w) == 1 <==> s >= lo + Pow2(w - 1)
    ensures lo % Pow2(w - 1) == 0 && (lo + Pow2(w - 1)) % Pow2(w - 1) == 0
  {
    var p, q := Pow2(w - 1), lo / Pow2(w);
    Doubled(p, q);
    Halves(s, p, 2 * q, lo);
  }

  lemma Doubled(p: nat, q: nat)
    ensures p * (2 * q) == (2 * p) * q
  {
  }

  lemma Halves(s: nat, p: nat, e: nat, lo: nat)
    requires p > 0 && lo == p * e && e % 2 == 0 && lo <= s < lo + 2 * p
    ensures s / p % 2 == 1 <==> s >= lo + p
    ensures lo % p == 0 && (lo + p) % p == 0
  {
    Product(p, e);
    Quotient(lo, p, e, 0);
    Quotient(lo + p, p, e + 1, 0);
    if s >= lo + p {
      Quotient(s, p, e + 1, s - lo - p);
    } else {
      Quotient(s, p, e, s - lo);
    }
  }

  // ------------------------------------------------------------------
  // Insertion
  // ------------------------------------------------------------------

  /** insert_large_chunk below a tree that is not empty, or into an empty place. */
  function Insert(t: Tree, x: nat, s: nat, w: nat): (t': Tree) {
    match t
    case Leaf => Node(s, [x], Leaf, Leaf)
    case Node(size, ring, l, r) =>
      if size == s && ring != [] then Node(size, [ring[0], x] + ring[1..], l, r)
      else if w == 0 then t
      else if Bit(s, w) == 1 then Node(size, ring, l, Insert(r, x, s, w - 1))
      else Node(size, ring, Insert(l, x, s, w - 1), r)
  }

  /** Insertion keeps the trie and adds the chunk. */
  lemma {:induction false} InsertTrie(t: Tree, x: nat, s: nat, lo: nat, w: nat)
    requires Trie(t, lo, w) && lo % Pow2(w) == 0 && lo <= s < lo + Pow2(w) && (x, s) !in Stored(t)
    ensures Trie(Insert(t, x, s, w), lo, w) && Stored(Insert(t, x, s, w)) == Stored(t) + {(x, s)}
  {
    if t.Node? {
      if t.size == s {
        RingInsert(t.ring, x, s);
      } else {
        BitTells(s, lo, w);
        if Bit(s, w) == 1 {
          InsertTrie(t.right, x, s, lo + Pow2(w - 1), w - 1);
        } else {
          InsertTrie(t.left, x, s, lo, w - 1);
        }
      }
    }
  }

  lemma RingInsert(ring: seq<nat>, x: nat, s: nat)
    requires ring != [] && Distinct(ring)
    ensures (x !in ring ==> Distinct([ring[0], x] + ring[1..]))
    ensures (set y | y in [ring[0], x] + ring[1..] :: (y, s)) == (set y | y in ring :: (y, s)) + {(x, s)}
    ensures x in ring ==> (x, s) in (set y | y in ring :: (y, s))
  {
    var more := [ring[0], x] + ring[1..];
    assert ring == [ring[0]] + ring[1..];
    forall y ensures y in more <==> y in ring || y == x {
    }
    if x !in ring {
      forall i, j | 0 <= i < j < |more| ensures more[i] != more[j] {
        assert more[j] == if j == 1 then x else ring[j - 1];
        assert more[i] == if i == 0 then ring[0] else if i == 1 then x else ring[i - 1];
      }
    }
  }

  // ------------------------------------------------------------------
  // Removal
  // ------------------------------------------------------------------

  /** The leaf that is taken to replace a removed node: down to the right while possible. */
  function TakeLeaf(t: Tree): (r: (Tree, Tree))
    requires t.Node?
    ensures r.1.Node? && r.1.left == Leaf && r.1.right == Leaf
    decreases t
  {
    if t.right.Node? then var (rest, leaf) := TakeLeaf(t.right); (t.(right := rest), leaf)
    else if t.left.Node? then var (rest, leaf) := TakeLeaf(t.left); (t.(left := rest), leaf)
    else (Leaf, t)
  }

  /** The leaf is out, everything else is still in. */
  ghost predicate Taken(t: Tree, rest: Tree, leaf: Tree, lo: nat, w: nat) {
    && leaf.Node? && Trie(rest, lo, w) && lo <= leaf.size < lo + Pow2(w) && leaf.ring != [] && Distinct(leaf.ring)
    && Stored(leaf) == (set x | x in leaf.ring :: (x, leaf.size)) && Absent(rest, leaf.size)
    && Stored(rest) == Stored(t) - Stored(leaf) && Stored(leaf) <= Stored(t)
  }

  lemma {:induction false} TakeLeafTrie(t: Tree, lo: nat, w: nat)
    requires t.Node? && Trie(t, lo, w)
    ensures Taken(t, TakeLeaf(t).0, TakeLeaf(t).1, lo, w)
    decreases t
  {
    if t.right.Node? {
      TakeLeafTrie(t.right, lo + Pow2(w - 1), w - 1);
      TakenRight(t, TakeLeaf(t.right).0, TakeLeaf(t.right).1, lo, w);
    } else if t.left.Node? {
      TakeLeafTrie(t.left, lo, w - 1);
      TakenLeft(t, TakeLeaf(t.left).0, TakeLeaf(t.left).1, lo, w);
    }
  }

  lemma TakenRight(t: Tree, rest: Tree, leaf: Tree, lo: nat, w: nat)
    requires t.Node? && Trie(t, lo, w) && w > 0 && Taken(t.right, rest, leaf, lo + Pow2(w - 1), w - 1)
    ensures Taken(t, t.(right := rest), leaf, lo, w)
  {
    TrieSizes(t.left, lo, w - 1);
    Foremost(leaf);
  }

  lemma TakenLeft(t: Tree, rest: Tree, leaf: Tree, lo: nat, w: nat)
    requires t.Node? && Trie(t, lo, w) && w > 0 && Taken(t.left, rest, leaf, lo, w - 1)
    ensures Taken(t, t.(left := rest), leaf, lo, w)
  {
    TrieSizes(t.right, lo + Pow2(w - 1), w - 1);
    Foremost(leaf);
  }

  lemma Foremost(leaf: Tree)
    requires leaf.Node? && leaf.ring != []
    ensures (leaf.ring[0], leaf.size) in Stored(leaf)
  {
    assert leaf.ring[0] in leaf.ring;
  }

  /** What unlinking the chunk `x` leaves of a ring: its predecessor `bk` takes over when `x` had the parent links. */
  function RingWithout(ring: seq<nat>, i: nat): seq<nat>
    requires i < |ring|
  {
    if i == 0 && |ring| > 1 then [ring[|ring| - 1]] + ring[1..|ring| - 1] else ring[..i] + ring[i + 1..]
  }

  lemma RingRemove(ring: seq<nat>, i: nat)
    requires i < |ring| && Distinct(ring)
    ensures Distinct(RingWithout(ring, i)) && |RingWithout(ring, i)| == |ring| - 1
    ensures forall x :: x in RingWithout(ring, i) <==> x in ring && x != ring[i]
  {
    var less := RingWithout(ring, i);
    if i == 0 && |ring| > 1 {
      assert forall k :: 0 <= k < |less| ==> less[k] == if k == 0 then ring[|ring| - 1] else ring[k];
      forall x | x in ring && x != ring[0] ensures x in less {
        var k :| 0 <= k < |ring| && ring[k] == x;
        assert less[if k == |ring| - 1 then 0 else k] == x;
      }
    } else {
      assert forall k :: 0 <= k < |less| ==> less[k] == if k < i then ring[k] else ring[k + 1];
      forall x | x in ring && x != ring[i] ensures x in less {
        var k :| 0 <= k < |ring| && ring[k] == x;
        assert less[if k < i then k else k - 1] == x;
      }
    }
  }

  function IndexOf(ring: seq<nat>, x: nat): (i: nat)
    requires x in ring
    ensures i < |ring| && ring[i] == x
  {
    if ring[0] == x then 0 else 1 + IndexOf(ring[1..], x)
  }

  /** The tree in place of a node whose ring has become empty. */
  function Replace(l: Tree, r: Tree): Tree {
    if r.Node? then var (rest, leaf) := TakeLeaf(r); Node(leaf.size, leaf.ring, l, rest)
    else if l.Node? then var (rest, leaf) := TakeLeaf(l); Node(leaf.size, leaf.ring, rest, r)
    else Leaf
  }

  /** unlink_large_chunk on the chunk `x` of size `s`. */
  function Unlink(t: Tree, x: nat, s: nat, w: nat): Tree {
    match t
    case Leaf => Leaf
    case Node(size, ring, l, r) =>
      if size == s then
        if x !in ring then t
        else if |ring| > 1 then Node(size, RingWithout(ring, IndexOf(ring, x)), l, r)
        else Replace(l, r)
      else if w == 0 then t
      else if Bit(s, w) == 1 then Node(size, ring, l, Unlink(r, x, s, w - 1))
      else Node(size, ring, Unlink(l, x, s, w - 1), r)
  }

  /** Removal keeps the trie and takes exactly the chunk away. */
  lemma {:induction false} UnlinkTrie(t: Tree, x: nat, s: nat, lo: nat, w: nat)
    requires Trie(t, lo, w) && lo % Pow2(w) == 0 && (x, s) in Stored(t)
    ensures Trie(Unlink(t, x, s, w), lo, w) && Stored(Unlink(t, x, s, w)) == Stored(t) - {(x, s)}
    decreases t
  {
    TrieSizes(t, lo, w);
    if t.size == s {
      UnlinkHere(t, x, lo, w);
    } else {
      BitTells(s, lo, w);
      TrieSizes(t.left, lo, w - 1);
      TrieSizes(t.right, lo + Pow2(w - 1), w - 1);
      if Bit(s, w) == 1 {
        UnlinkTrie(t.right, x, s, lo + Pow2(w - 1), w - 1);
      } else {
        UnlinkTrie(t.left, x, s, lo, w - 1);
      }
    }
  }

  lemma UnlinkHere(t: Tree, x: nat, lo: nat, w: nat)
    requires t.Node? && Trie(t, lo, w) && (x, t.size) in Stored(t)
    ensures Trie(Unlink(t, x, t.size, w), lo, w) && Stored(Unlink(t, x, t.size, w)) == Stored(t) - {(x, t.size)}
  {
    var Node(s, ring, l, r) := t;
    assert x in ring;
    var i := IndexOf(ring, x);
    RingRemove(ring, i);
    if |ring| > 1 {
      var less := RingWithout(ring, i);
      assert (set y | y in less :: (y, s)) == (set y | y in ring :: (y, s)) - {(x, s)};
    } else {
      assert ring == [x];
      assert (set y | y in ring :: (y, s)) == {(x, s)};
      assert Stored(t) - {(x, s)} == Stored(l) + Stored(r);
      ReplaceTrie(l, r, lo, w);
    }
  }

  lemma ReplaceTrie(l: Tree, r: Tree, lo: nat, w: nat)
    requires if w == 0 then l == Leaf && r == Leaf else Trie(l, lo, w - 1) && Trie(r, lo + Pow2(w - 1), w - 1)
    ensures Trie(Replace(l, r), lo, w) && Stored(Replace(l, r)) == Stored(l) + Stored(r)
  {
    if w > 0 {
      TrieSizes(l, lo, w - 1);
      TrieSizes(r, lo + Pow2(w - 1), w - 1);
      if r.Node? {
        TakeLeafTrie(r, lo + Pow2(w - 1), w - 1);
      } else if l.Node? {
        TakeLeafTrie(l, lo, w - 1);
      }
    }
  }
}
