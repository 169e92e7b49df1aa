/**
 The open-addressing hash table: linear probing in a table of power-of-two size
 that is doubled when more than half full. It behaves as a finite map, and every
 probe ends.
 */
module HashTables {
  import opened Arithmetic
  import opened Digraph

  /** hashlistnode; key 0 marks an empty slot. */
  datatype Bin<V> = Bin(key: nat, val: V)

  /** The slot looked at in probe `d` for a key with hash `h`. */
  function Slot(h: nat, d: nat, n: nat): (i: nat)
    requires n > 0
    ensures i < n
  {
    (h + d) % n
  }

  /** Stepping on and masking again is the next probe. */
  lemma SlotNext(h: nat, d: nat, n: nat)
    requires n > 0
    ensures (Slot(h, d, n) + 1) % n == Slot(h, d + 1, n)
  {
    var q, r := (h + d) / n, (h + d) % n;
    assert h + d == n * q + r;
    if r + 1 < n {
      Quotient(h + d + 1, n, q, r + 1);
      Quotient(r + 1, n, 0, r + 1);
    } else {
      assert n * (q + 1) == n * q + n;
      Quotient(h + d + 1, n, q + 1, 0);
      Quotient(r + 1, n, 1, 0);
    }
  }

  /** Probing comes past every slot. */
  lemma SlotComes(h: nat, n: nat, i: nat) returns (d: nat)
    requires i < n
    ensures d < n && Slot(h, d, n) == i
  {
    var x := i - h;
    d := x % n;
    assert x == n * (x / n) + d;
    assert n * -(x / n) == -(n * (x / n));
    Quotient(h + d, n, -(x / n), i);
  }

  function Used<V>(t: seq<Bin<V>>): (used: set<nat>)
    ensures forall i: nat :: i in used <==> i < |t| && t[i].key != 0
  {
    set i | 0 <= i < |t| && t[i].key != 0
  }

  /** Some probe finds an empty slot. */
  lemma EmptyComes<V>(t: seq<Bin<V>>, h: nat) returns (d: nat)
    requires |Used(t)| < |t|
    ensures d < |t| && t[Slot(h, d, |t|)].key == 0
  {
    if forall i: nat :: i < |t| ==> i in Used(t) {
      assert Used(t) == Below(|t|);
      BelowSize(|t|);
    }
    var i: nat :| i < |t| && i !in Used(t);
    d := SlotComes(h, |t|, i);
  }

  lemma {:induction false} BelowSize(n: nat)
    ensures |Below(n)| == n
  {
    if n > 0 {
      BelowSize(n - 1);
    }
  }

  function Hash(key: nat, unit: nat): nat
    requires unit > 0
  {
    key / unit
  }

  /** Key `k` is in its `d`-th slot, and no probe before finds an empty one. */
  ghost predicate Located<V>(t: seq<Bin<V>>, unit: nat, k: nat, d: nat) {
    && unit > 0 && d < |t| && t[Slot(Hash(k, unit), d, |t|)].key == k
    && forall e: nat :: e < d ==> t[Slot(Hash(k, unit), e, |t|)].key != 0
  }

  /** The table holds the map: every key is in the one slot where it is found, and empty slots hold the zero value. */
  ghost predicate Holds<V>(t: seq<Bin<V>>, unit: nat, zero: V, m: map<nat, V>, dist: map<nat, nat>) {
    && |t| > 0 && unit > 0 && m.Keys == dist.Keys && 0 !in m
    && (forall k: nat :: k in m ==> Located(t, unit, k, dist[k]) && t[Slot(Hash(k, unit), dist[k], |t|)].val == m[k])
    && (forall i: nat :: i < |t| && t[i].key != 0 ==>
        t[i].key in m && i == Slot(Hash(t[i].key, unit), dist[t[i].key], |t|))
    && (forall i: nat :: i < |t| && t[i].key == 0 ==> t[i].val == zero)
    && |Used(t)| == |m|
  }

  /** A new key in the first empty slot of its probes. */
  lemma HoldsInsert<V>(t: seq<Bin<V>>, unit: nat, zero: V, m: map<nat, V>, dist: map<nat, nat>, k: nat, v: V, d: nat)
    requires Holds(t, unit, zero, m, dist) && k != 0 && k !in m && d < |t|
    requires t[Slot(Hash(k, unit), d, |t|)].key == 0 && forall e: nat :: e < d ==>
               t[Slot(Hash(k, unit), e, |t|)].key != 0
    ensures Holds(t[Slot(Hash(k, unit), d, |t|) := Bin(k, v)], unit, zero, m[k := v], dist[k := d])
  {
    hide Slot, Hash, Located, Used;
    var i := Slot(Hash(k, unit), d, |t|);
    var t' := t[i := Bin(k, v)];
    UsedInsert(t, i, Bin(k, v));
    MoreKeys(m, k, v);
    forall j: nat | j in m
      ensures Located(t', unit, j, dist[j]) && t'[Slot(Hash(j, unit), dist[j], |t|)].val == m[j]
    {
      LocatedKept(t, unit, j, dist[j], i, Bin(k, v));
    }
    LocatedNew(t, unit, k, d, v);
  }

  lemma UsedInsert<V>(t: seq<Bin<V>>, i: nat, b: Bin<V>)
    requires i < |t| && t[i].key == 0 && b.key != 0
    ensures |Used(t[i := b])| == |Used(t)| + 1
  {
    assert Used(t[i := b]) == Used(t) + {i};
  }

  lemma MoreKeys<V>(m: map<nat, V>, k: nat, v: V)
    requires k !in m
    ensures |m[k := v]| == |m| + 1
  {
  }

  lemma LocatedKept<V>(t: seq<Bin<V>>, unit: nat, j: nat, d: nat, i: nat, b: Bin<V>)
    requires Located(t, unit, j, d) && j != 0 && i < |t| && t[i].key == 0 && b.key != 0
    ensures d < |t| && Located(t[i := b], unit, j, d) && Slot(Hash(j, unit), d, |t|) != i
  {
    hide Slot, Hash;
  }

  lemma LocatedNew<V>(t: seq<Bin<V>>, unit: nat, k: nat, d: nat, v: V)
    requires unit > 0 && k != 0 && d < |t|
    requires forall e: nat :: e < d ==> t[Slot(Hash(k, unit), e, |t|)].key != 0
    ensures Located(t[Slot(Hash(k, unit), d, |t|) := Bin(k, v)], unit, k, d)
  {
    hide Slot, Hash;
  }

  /** A known key gets another value. */
  lemma HoldsUpdate<V>(t: seq<Bin<V>>, unit: nat, zero: V, m: map<nat, V>, dist: map<nat, nat>, k: nat, v: V)
    requires Holds(t, unit, zero, m, dist) && k in m
    ensures Located(t, unit, k, dist[k])
    ensures Holds(t[Slot(Hash(k, unit), dist[k], |t|) := Bin(k, v)], unit, zero, m[k := v], dist)
  {
    hide Slot, Hash;
    assert Located(t, unit, k, dist[k]);
    var i := Slot(Hash(k, unit), dist[k], |t|);
    var t' := t[i := Bin(k, v)];
    assert Used(t') == Used(t);
    forall j: nat | j in m ensures Located(t', unit, j, dist[j]) {
      assert Located(t, unit, j, dist[j]);
    }
  }

  /** A search that meets an empty slot before the key says that the key is missing. */
  lemma NotLocated<V>(t: seq<Bin<V>>, unit: nat, zero: V, m: map<nat, V>, dist: map<nat, nat>, k: nat, d: nat)
    requires Holds(t, unit, zero, m, dist) && t[Slot(Hash(k, unit), d, |t|)].key == 0
    requires forall e: nat :: e < d ==> t[Slot(Hash(k, unit), e, |t|)].key != k
    ensures k !in m
  {
    hide Slot, Hash, Located;
    if k in m {
      MetBefore(t, unit, zero, m, dist, k, d);
    }
  }

  /** A known key is met before any empty slot. */
  lemma MetBefore<V>(t: seq<Bin<V>>, unit: nat, zero: V, m: map<nat, V>, dist: map<nat, nat>, k: nat, d: nat)
    requires Holds(t, unit, zero, m, dist) && k in m && t[Slot(Hash(k, unit), d, |t|)].key == 0
    ensures exists e: nat :: e < d && t[Slot(Hash(k, unit), e, |t|)].key == k
  {
    hide Slot, Hash;
    assert Located(t, unit, k, dist[k]);
  }

  lemma EmptyHolds<V>(t: seq<Bin<V>>, unit: nat, zero: V)
    requires |t| > 0 && unit > 0 && forall i :: 0 <= i < |t| ==> t[i] == Bin(0, zero)
    ensures Holds(t, unit, zero, map[], map[])
  {
    assert Used(t) == {};
  }

  class HashTable<V(==)> {
    /** Two to the power of the shift applied to keys. */
    const unit: nat
    const zero: V
    var table: array<Bin<V>>
    var size: nat
    var threshold: nat

    ghost var contents: map<nat, V>
    ghost var dist: map<nat, nat>

    /** Capacity at least 4 and load factor one half: a slot is always empty. */
    ghost predicate Valid()
      reads this, table
    {
      && table.Length >= 4 && threshold == table.Length / 2
      && Holds(table[..], unit, zero, contents, dist)
      && size == |contents| <= threshold + 1
    }

    constructor (capacity: nat, unit: nat, zero: V)
      requires capacity >= 4 && unit > 0
      ensures Valid() && contents == map[] && fresh(table) && this.zero == zero
    {
      hide Holds;
      this.unit, this.zero := unit, zero;
      table := new Bin<V>[capacity](i => Bin(0, zero));
      size, threshold := 0, capacity / 2;
      contents, dist := map[], map[];
      new;
      EmptyHolds(table[..], unit, zero);
    }

    /** HashTable::reset. */
    method Reset()
      requires Valid()
      modifies this`size, this`contents, this`dist, table
      ensures Valid() && contents == map[]
    {
      hide Holds;
      UnitPositive();
      var i := 0;
      while i < table.Length
        invariant 0 <= i <= table.Length
        invariant forall j :: 0 <= j < i ==> table[j] == Bin(0, zero)
      {
        table[i] := Bin(0, zero);
        i := i + 1;
      }
      size := 0;
      contents, dist := map[], map[];
      EmptyHolds(table[..], unit, zero);
    }

    lemma UnitPositive()
      requires Valid()
      ensures unit > 0 && |Used(table[..])| < table.Length
    {
    }

    /** The probing loop of put, get and contains: the slot of the key, or the empty slot where the search ends. */
    method Find(key: nat) returns (index: nat, found: bool)
      requires Valid() && key != 0
      ensures index < table.Length && (found <==> key in contents)
      ensures found ==> table[index] == Bin(key, contents[key]) && key in dist &&
                        index == Slot(Hash(key, unit), dist[key], table.Length)
      ensures !found ==> table[index].key == 0 && exists d: nat :: FirstEmpty(key, d, index)
    {
      hide Holds, Slot, Hash;
      UnitPositive();
      ghost var t, d := table[..], 0;
      ghost var last := EmptyComes(t, Hash(key, unit));
      index := Start(key);
      while table[index].key != 0
        invariant d <= last && index == Slot(Hash(key, unit), d, table.Length)
        invariant forall e: nat :: e < d ==> t[Slot(Hash(key, unit), e, |t|)].key != 0
        invariant forall e: nat :: e < d ==> t[Slot(Hash(key, unit), e, |t|)].key != key
        decreases last - d
      {
        if table[index].key == key {
          FoundIsLocated(t, unit, zero, contents, dist, key, index);
          return index, true;
        }
        SlotNext(Hash(key, unit), d, table.Length);
        index := (index + 1) % table.Length;
        d := d + 1;
      }
      NotLocated(t, unit, zero, contents, dist, key, d);
      assert FirstEmpty(key, d, index);
      found := false;
    }

    /** The key's first slot. */
    function Start(key: nat): (i: nat)
      requires unit > 0 && table.Length > 0
      reads this
      ensures i == Slot(Hash(key, unit), 0, table.Length)
    {
      Hash(key, unit) % table.Length
    }

    ghost predicate FirstEmpty(key: nat, d: nat, index: nat)
      reads this, table
    {
      && unit > 0 && d < table.Length && index == Slot(Hash(key, unit), d, table.Length) && table[index].key == 0
      && forall e: nat :: e < d ==> table[..][Slot(Hash(key, unit), e, table.Length)].key != 0
    }

    /** HashTable::get: the zero value for a missing key. */
    method Get(key: nat) returns (val: V)
      requires Valid() && key != 0
      ensures val == if key in contents then contents[key] else zero
    {
      hide Holds, FirstEmpty;
      var index, found := Find(key);
      val := if found then table[index].val else zero;
    }

    /** HashTable::contains. */
    method Contains(key: nat) returns (found: bool)
      requires Valid() && key != 0
      ensures found <==> key in contents
    {
      hide Holds, FirstEmpty;
      var index;
      index, found := Find(key);
    }

    /** HashTable::put. */
    method Put(key: nat, val: V)
      requires Valid() && key != 0
      modifies this, table
      ensures Valid() && contents == old(contents)[key := val]
      ensures fresh(table) || table == old(table)
    {
      hide Holds, Slot, Hash;
      if size > threshold {
        Resize(table.Length * 2);
      }
      var index, found := Find(key);
      ghost var t := table[..];
      if found {
        HoldsUpdate(t, unit, zero, contents, dist, key, val);
      } else {
        ghost var d: nat :| FirstEmpty(key, d, index);
        HoldsInsert(t, unit, zero, contents, dist, key, val, d);
        dist := dist[key := d];
        size := size + 1;
      }
      table[index] := Bin(key, val);
      contents := contents[key := val];
      assert table[..] == t[index := Bin(key, val)];
    }

    /** HashTable::resize: the empty bins are put into the new table as well, where they change nothing. */
    method Resize(newSize: nat)
      requires Valid() && newSize == table.Length * 2
      modifies this`table, this`threshold, this`dist
      ensures Valid() && fresh(table) && table.Length == newSize
    {
      hide Holds, Slot, Hash, KeysBefore, Used;
      UnitPositive();
      var oldTable := table;
      ghost var t, m, dist0 := table[..], contents, dist;
      NoKeysBefore(t, m);
      var newTable := new Bin<V>[newSize](i => Bin(0, zero));
      EmptyHolds(newTable[..], unit, zero);
      ghost var done: map<nat, V>, at: map<nat, nat> := map[], map[];
      var bin := 0;
      while bin < oldTable.Length
        invariant 0 <= bin <= oldTable.Length && oldTable[..] == t
        invariant Holds(newTable[..], unit, zero, done, at)
        invariant done == KeysBefore(t, m, bin)
      {
        var key := oldTable[bin].key;
        BinKnown(t, unit, zero, m, dist0, bin);
        FewKeys(t, m, bin);
        HoldsCount(newTable[..], unit, zero, done, at);
        ghost var nt := newTable[..];
        var index, d := FindEmpty(newTable, key);
        newTable[index] := oldTable[bin];
        assert newTable[..] == nt[index := oldTable[bin]];
        if key != 0 {
          NotBefore(t, unit, zero, m, dist0, bin);
          HoldsInsert(nt, unit, zero, done, at, key, oldTable[bin].val, d);
          done, at := done[key := oldTable[bin].val], at[key := d];
        } else {
          EmptySame(nt, unit, zero, done, at, index);
        }
        bin := bin + 1;
      }
      AllKeys(t, unit, zero, m, dist0);
      table, threshold, dist := newTable, newSize / 2, at;
    }

    /** The probing loop of resize. */
    method FindEmpty(t: array<Bin<V>>, key: nat) returns (index: nat, ghost d: nat)
      requires unit > 0 && |Used(t[..])| < t.Length
      ensures d < t.Length && index == Slot(Hash(key, unit), d, t.Length) && t[index].key == 0
      ensures forall e: nat :: e < d ==> t[..][Slot(Hash(key, unit), e, t.Length)].key != 0
    {
      hide Slot, Hash;
      ghost var last := EmptyComes(t[..], Hash(key, unit));
      d := 0;
      index := FirstSlot(key, t.Length);
      while t[index].key != 0
        invariant d <= last && index == Slot(Hash(key, unit), d, t.Length)
        invariant forall e: nat :: e < d ==> t[..][Slot(Hash(key, unit), e, t.Length)].key != 0
        decreases last - d
      {
        SlotNext(Hash(key, unit), d, t.Length);
        index := (index + 1) % t.Length;
        d := d + 1;
      }
    }

    function FirstSlot(key: nat, n: nat): (i: nat)
      requires unit > 0 && n > 0
      ensures i == Slot(Hash(key, unit), 0, n)
    {
      Hash(key, unit) % n
    }
  }

  lemma FoundIsLocated<V>(t: seq<Bin<V>>, unit: nat, zero: V, m: map<nat, V>, dist: map<nat, nat>, key: nat, index: nat)
    requires Holds(t, unit, zero, m, dist) && key != 0 && index < |t| && t[index].key == key
    ensures key in m && key in dist && index == Slot(Hash(key, unit), dist[key], |t|) && t[index].val == m[key]
  {
    hide Slot, Hash, Located;
  }

  /** The part of the map whose keys are in the bins before `k`. */
  ghost function KeysBefore<V>(t: seq<Bin<V>>, m: map<nat, V>, k: nat): map<nat, V>
    requires k <= |t|
  {
    map key | key in m && exists i :: 0 <= i < k && t[i].key == key :: m[key]
  }

  lemma BinKnown<V>(t: seq<Bin<V>>, unit: nat, zero: V, m: map<nat, V>, dist: map<nat, nat>, i: nat)
    requires Holds(t, unit, zero, m, dist) && i < |t|
    ensures if t[i].key == 0 then t[i] == Bin(0, zero) && KeysBefore(t, m, i + 1) == KeysBefore(t, m, i)
            else t[i].key in m && t[i].val == m[t[i].key] &&
                 KeysBefore(t, m, i + 1) == KeysBefore(t, m, i)[t[i].key := t[i].val]
  {
    hide Slot, Hash, Located;
  }

  lemma NotBefore<V>(t: seq<Bin<V>>, unit: nat, zero: V, m: map<nat, V>, dist: map<nat, nat>, i: nat)
    requires Holds(t, unit, zero, m, dist) && i < |t| && t[i].key != 0
    ensures t[i].key !in KeysBefore(t, m, i)
  {
    hide Slot, Hash, Located;
  }

  lemma AllKeys<V>(t: seq<Bin<V>>, unit: nat, zero: V, m: map<nat, V>, dist: map<nat, nat>)
    requires Holds(t, unit, zero, m, dist)
    ensures KeysBefore(t, m, |t|) == m
  {
    hide Slot, Hash;
    forall key: nat | key in m ensures exists i :: 0 <= i < |t| && t[i].key == key {
      assert Located(t, unit, key, dist[key]);
    }
  }

  lemma NoKeysBefore<V>(t: seq<Bin<V>>, m: map<nat, V>)
    ensures KeysBefore(t, m, 0) == map[]
  {
  }

  lemma FewKeys<V>(t: seq<Bin<V>>, m: map<nat, V>, k: nat)
    requires k <= |t|
    ensures |KeysBefore(t, m, k)| <= |m|
  {
    var part := KeysBefore(t, m, k);
    SubsetCardinality(part.Keys, m.Keys);
    assert |part.Keys| == |part| && |m.Keys| == |m|;
  }

  lemma HoldsCount<V>(t: seq<Bin<V>>, unit: nat, zero: V, m: map<nat, V>, dist: map<nat, nat>)
    requires Holds(t, unit, zero, m, dist)
    ensures |Used(t)| == |m|
  {
  }

  lemma EmptySame<V>(t: seq<Bin<V>>, unit: nat, zero: V, m: map<nat, V>, dist: map<nat, nat>, i: nat)
    requires Holds(t, unit, zero, m, dist) && i < |t| && t[i].key == 0
    ensures t[i := Bin(0, zero)] == t
  {
    hide Slot, Hash, Located;
    assert t[i].val == zero;
  }
}
