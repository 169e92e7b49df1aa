/**
 Snapshots of memory by page protection: a log of page copies, made at the first
 write to each page after a snapshot. Rolling back to a snapshot restores every
 page it covered, whatever was written and whichever snapshots came later.
 */
module SnapshotLog {
  import opened Optional

  /** The contents of a page. */
  type Contents = seq<bv8>

  /** A run of pages. */
  datatype MemoryRegion = MemoryRegion(base: nat, sizeInPages: nat)

  /** The first copy of page `x` in the log from `from` on, or what it holds now. */
  ghost function Original(records: seq<nat>, store: seq<Contents>, from: nat, x: nat, now: Contents): Contents
    requires |records| == |store| && from <= |records|
    decreases |records| - from
  {
    if from == |records| then now
    else if records[from] == x then store[from]
    else Original(records, store, from + 1, x, now)
  }

  /** Another log entry counts only for pages without an earlier one. */
  lemma {:induction false} OriginalAppend(records: seq<nat>, store: seq<Contents>, from: nat, x: nat, now: Contents,
                                          y: nat, c: Contents)
    requires |records| == |store| && from <= |records|
    ensures Original(records + [y], store + [c], from, x, now) ==
            if x in records[from..] then Original(records, store, from, x, now)
            else if x == y then c else now
    ensures x !in records[from..] ==> Original(records, store, from, x, now) == now
    decreases |records| - from
  {
    if from < |records| {
      OriginalAppend(records, store, from + 1, x, now, y, c);
      assert records[from..] == [records[from]] + records[from + 1..];
    } else {
      assert (records + [y])[from] == y && (store + [c])[from] == c;
      if x != y {
        assert Original(records + [y], store + [c], from + 1, x, now) == now;
      }
    }
  }

  /** What a page holds now does not matter once it has a copy. */
  lemma {:induction false} OriginalKept(records: seq<nat>, store: seq<Contents>, from: nat, x: nat, now: Contents,
                                        later: Contents)
    requires |records| == |store| && from <= |records| && x in records[from..]
    ensures Original(records, store, from, x, now) == Original(records, store, from, x, later)
    decreases |records| - from
  {
    assert records[from..] == [records[from]] + records[from + 1..];
    if records[from] != x {
      OriginalKept(records, store, from + 1, x, now, later);
    }
  }

  /** Entry `p` of the log is the first copy of its page from `from` on. */
  ghost predicate FirstOf(records: seq<nat>, from: nat, p: nat) {
    from <= p < |records| && forall i :: from <= i < p ==> records[i] != records[p]
  }

  lemma {:induction false} OriginalIs(records: seq<nat>, store: seq<Contents>, from: nat, p: nat, now: Contents)
    requires |records| == |store| && FirstOf(records, from, p)
    ensures Original(records, store, from, records[p], now) == store[p]
    decreases p - from
  {
    if from < p {
      OriginalIs(records, store, from + 1, p, now);
    }
  }

  // ------------------------------------------------------------------
  // What the log says, as values
  // ------------------------------------------------------------------

  ghost predicate Covers(region: MemoryRegion, x: nat) {
    region.base <= x < region.base + region.sizeInPages
  }

  ghost predicate Registered(regions: seq<MemoryRegion>, x: nat) {
    exists i :: 0 <= i < |regions| && Covers(regions[i], x)
  }

  /** The log from `from` on leads back to what was taken. */
  ghost predicate Restorable(memory: map<nat, Contents>, records: seq<nat>, store: seq<Contents>, from: nat,
                             t: map<nat, Contents>)
    requires |records| == |store|
  {
    from <= |records| && forall x: nat :: x in t ==> x in memory && Original(records, store, from, x, memory[x]) == t[x]
  }

  /**
   Since the latest snapshot, the covered pages that can be written are those with a
   copy, and there is one copy of each.
   */
  ghost predicate Latest(readOnly: set<nat>, records: seq<nat>, from: nat, t: map<nat, Contents>) {
    && from <= |records|
    && (forall x: nat :: x in t ==> x in readOnly || x in records[from..])
    && (forall x: nat :: x in readOnly ==> x in t && x !in records[from..])
    && (forall i, j :: from <= i < j < |records| ==> records[i] != records[j])
  }

  /** Later snapshots cover more, and their part of the log is shorter. */
  ghost predicate InOrder(firsts: seq<nat>, taken: seq<map<nat, Contents>>) {
    && |firsts| == |taken|
    && forall k: nat, j: nat :: k <= j < |firsts| ==> firsts[k] <= firsts[j] && taken[k].Keys <= taken[j].Keys
  }

  datatype Log = Log(memory: map<nat, Contents>, readOnly: set<nat>, regions: seq<MemoryRegion>,
                     records: seq<nat>, store: seq<Contents>, firsts: seq<nat>, taken: seq<map<nat, Contents>>) {
    ghost predicate Valid() {
      && Settled()
      && (if taken == [] then readOnly == {} else Latest(readOnly, records, firsts[|firsts| - 1], taken[|taken| - 1]))
    }

    /** The invariant apart from which pages are protected. */
    ghost predicate Settled() {
      && |records| == |store| && InOrder(firsts, taken)
      && (forall x: nat :: Registered(regions, x) ==> x in memory)
      && (forall x: nat :: x in readOnly ==> Registered(regions, x))
      && (forall i :: 0 <= i < |records| ==> records[i] in memory)
      && (forall k: nat, x: nat :: k < |taken| && x in taken[k] ==> Registered(regions, x))
      && (forall k: nat :: k < |taken| ==> Restorable(memory, records, store, firsts[k], taken[k]))
    }
  }

  /** A page fault. */
  lemma LogFault(l: Log, x: nat)
    requires l.Valid() && x in l.readOnly
    ensures x in l.memory
    ensures l.(records := l.records + [x], store := l.store + [l.memory[x]], readOnly := l.readOnly - {x}).Valid()
  {
    var last := |l.taken| - 1;
    assert Restorable(l.memory, l.records, l.store, l.firsts[last], l.taken[last]);
    var records, store := l.records + [x], l.store + [l.memory[x]];
    forall k: nat | k < |l.taken| ensures Restorable(l.memory, records, store, l.firsts[k], l.taken[k]) {
      FaultRestorable(l, x, k);
    }
    hide Restorable;
    var from := l.firsts[last];
    assert records[from..] == l.records[from..] + [x];
    assert forall i :: from <= i < |l.records| ==> l.records[i] in l.records[from..];
  }

  lemma FaultRestorable(l: Log, x: nat, k: nat)
    requires l.Valid() && x in l.memory && k < |l.taken|
    ensures Restorable(l.memory, l.records + [x], l.store + [l.memory[x]], l.firsts[k], l.taken[k])
  {
    hide Latest, Registered;
    var records, store := l.records + [x], l.store + [l.memory[x]];
    assert Restorable(l.memory, l.records, l.store, l.firsts[k], l.taken[k]);
    forall y: nat | y in l.taken[k] ensures Original(records, store, l.firsts[k], y, l.memory[y]) == l.taken[k][y] {
      OriginalAppend(l.records, l.store, l.firsts[k], y, l.memory[y], x, l.memory[x]);
    }
  }

  /** A write to a page that is not protected. */
  lemma LogWrite(l: Log, x: nat, c: Contents)
    requires l.Valid() && x !in l.readOnly
    ensures l.(memory := l.memory[x := c]).Valid()
  {
    hide Original, Latest, Registered;
    var memory := l.memory[x := c];
    forall k: nat | k < |l.taken| ensures Restorable(memory, l.records, l.store, l.firsts[k], l.taken[k]) {
      assert Restorable(l.memory, l.records, l.store, l.firsts[k], l.taken[k]);
      if x in l.taken[k] {
        LoggedSince(l, k, x);
        OriginalKept(l.records, l.store, l.firsts[k], x, l.memory[x], c);
      }
    }
  }

  /** A covered page that can be written has a copy since the snapshot. */
  lemma LoggedSince(l: Log, k: nat, x: nat)
    requires l.Valid() && k < |l.taken| && x in l.taken[k] && x !in l.readOnly
    ensures l.firsts[k] <= |l.records| && x in l.records[l.firsts[k]..]
  {
    hide Restorable, Original, Registered;
    var last := |l.taken| - 1;
    var from := l.firsts[last];
    assert l.firsts[k] <= from && l.taken[k].Keys <= l.taken[last].Keys;
    assert x in l.taken[last].Keys;
    var i :| 0 <= i < |l.records[from..]| && l.records[from..][i] == x;
    assert l.records[l.firsts[k]..][i + from - l.firsts[k]] == x;
  }

  ghost function Contained(memory: map<nat, Contents>, regions: seq<MemoryRegion>): map<nat, Contents> {
    map x | x in memory && Registered(regions, x) :: memory[x]
  }

  lemma OriginalNow(records: seq<nat>, store: seq<Contents>)
    requires |records| == |store|
    ensures forall x, now {:trigger Original(records, store, |records|, x, now)} :: Original(records, store, |records|,
            x, now) == now
  {
  }

  /** A new snapshot, with all registered pages protected. */
  lemma LogTake(l: Log, readOnly: set<nat>)
    requires l.Settled() && (forall x: nat :: x in readOnly <==> Registered(l.regions, x))
    ensures l.(readOnly := readOnly, firsts := l.firsts + [|l.records|], taken := l.taken +
               [Contained(l.memory, l.regions)]).Valid()
  {
    hide Registered, Original;
    var t := Contained(l.memory, l.regions);
    OriginalNow(l.records, l.store);
    var firsts, taken := l.firsts + [|l.records|], l.taken + [t];
    forall k: nat | k < |taken| ensures Restorable(l.memory, l.records, l.store, firsts[k], taken[k]) {
      if k < |l.taken| {
        assert Restorable(l.memory, l.records, l.store, l.firsts[k], l.taken[k]);
      }
    }
    forall k: nat, j: nat | k <= j < |firsts| ensures firsts[k] <= firsts[j] && taken[k].Keys <= taken[j].Keys {
      if j == |l.taken| && k < j {
        assert Restorable(l.memory, l.records, l.store, l.firsts[k], l.taken[k]);
        assert forall x :: x in taken[k].Keys ==> x in l.taken[k] && x in t;
      }
    }
  }

  /** Registering another region. */
  lemma LogRegion(l: Log, region: MemoryRegion)
    requires l.Valid() && forall x: nat :: Covers(region, x) ==> x in l.memory
    ensures l.(regions := l.regions + [region]).Valid()
  {
    hide Original, Latest, InOrder, Restorable, Covers;
    var regions := l.regions + [region];
    forall x: nat | Registered(regions, x) ensures x in l.memory {
      var i :| 0 <= i < |regions| && Covers(regions[i], x);
      if i < |l.regions| {
        assert Registered(l.regions, x);
      }
    }
    forall x: nat | Registered(l.regions, x) ensures Registered(regions, x) {
      var i :| 0 <= i < |l.regions| && Covers(l.regions[i], x);
      assert Covers(regions[i], x);
    }
  }

  /** Memory after the copies from `from` on were written back, first copy first. */
  ghost predicate WrittenBack(memory: map<nat, Contents>, records: seq<nat>, store: seq<Contents>, from: nat,
                              memory': map<nat, Contents>)
    requires |records| == |store| && from <= |records|
  {
    memory'.Keys == memory.Keys && forall x: nat :: x in memory ==>
          memory'[x] == Original(records, store, from, x, memory[x])
  }

  /** Rolling back to the latest snapshot leaves the log as it is. */
  lemma LogRollFast(l: Log, memory: map<nat, Contents>)
    requires l.Valid() && l.taken != []
    requires l.firsts[|l.taken| - 1] <= |l.records| &&
             WrittenBack(l.memory, l.records, l.store, l.firsts[|l.taken| - 1], memory)
    ensures l.(memory := memory).Valid()
    ensures forall x: nat :: x in l.taken[|l.taken| - 1] ==> x in memory && memory[x] == l.taken[|l.taken| - 1][x]
  {
    hide Original, Registered, Latest;
    var last := |l.taken| - 1;
    forall k: nat | k < |l.taken| ensures Restorable(memory, l.records, l.store, l.firsts[k], l.taken[k]) {
      assert Restorable(l.memory, l.records, l.store, l.firsts[k], l.taken[k]);
      forall x: nat | x in l.taken[k] ensures Original(l.records, l.store, l.firsts[k], x, memory[x]) == l.taken[k][x] {
        RestoredAgain(l, k, last, x, memory[x]);
      }
    }
    assert Restorable(l.memory, l.records, l.store, l.firsts[last], l.taken[last]);
  }

  /** What was written back to a page agrees with every earlier part of the log. */
  lemma RestoredAgain(l: Log, k: nat, j: nat, x: nat, now: Contents)
    requires l.Valid() && k <= j < |l.taken| && x in l.memory && l.firsts[j] <= |l.records|
    requires now == Original(l.records, l.store, l.firsts[j], x, l.memory[x])
    ensures l.firsts[k] <= |l.records| &&
            Original(l.records, l.store, l.firsts[k], x, now) ==
                Original(l.records, l.store, l.firsts[k], x, l.memory[x])
  {
    hide Latest, Registered, Restorable;
    assert l.firsts[k] <= l.firsts[j];
    FirstCopy(l.records, l.store, l.firsts[k], l.firsts[j], x, l.memory[x]);
  }

  /** Searching from an earlier entry, with what a search from a later one found as the current contents. */
  lemma {:induction false} FirstCopy(records: seq<nat>, store: seq<Contents>, from: nat, later: nat, x: nat,
                                     now: Contents)
    requires |records| == |store| && from <= later <= |records|
    ensures Original(records, store, from, x, Original(records, store, later, x, now)) ==
            Original(records, store, from, x, now)
    decreases |records| - from
  {
    if x in records[from..] {
      OriginalKept(records, store, from, x, Original(records, store, later, x, now), now);
    } else {
      assert forall i :: later <= i < |records| ==> records[i] in records[from..];
      NoCopy(records, store, later, x, now);
    }
  }

  lemma {:induction false} NoCopy(records: seq<nat>, store: seq<Contents>, from: nat, x: nat, now: Contents)
    requires |records| == |store| && from <= |records| && forall i :: from <= i < |records| ==> records[i] != x
    ensures Original(records, store, from, x, now) == now
    decreases |records| - from
  {
    if from < |records| {
      NoCopy(records, store, from + 1, x, now);
    }
  }

  /** Rolling back further cuts the log and the later snapshots off; the snapshot is taken again afterwards. */
  lemma LogRollSlow(l: Log, id: nat, memory: map<nat, Contents>)
    requires l.Valid() && id < |l.taken| && l.firsts[id] <= |l.records|
    requires WrittenBack(l.memory, l.records, l.store, l.firsts[id], memory)
    ensures forall x: nat :: x in l.taken[id] ==> x in memory && memory[x] == l.taken[id][x]
    ensures Cut(l, id, memory).Settled()
  {
    hide Registered;
    assert Restorable(l.memory, l.records, l.store, l.firsts[id], l.taken[id]);
    var cut := Cut(l, id, memory);
    forall k: nat | k < id ensures Restorable(memory, cut.records, cut.store, l.firsts[k], l.taken[k]) {
      assert Restorable(l.memory, l.records, l.store, l.firsts[k], l.taken[k]);
      assert l.firsts[k] <= l.firsts[id];
      forall x: nat | x in l.taken[k]
        ensures x in memory && Original(cut.records, cut.store, l.firsts[k], x, memory[x]) == l.taken[k][x]
      {
        CutLog(l.records, l.store, l.firsts[k], l.firsts[id], x, l.memory[x]);
      }
    }
  }

  /** The log before snapshot `id`, with everything unprotected. */
  ghost function Cut(l: Log, id: nat, memory: map<nat, Contents>): Log
    requires |l.firsts| == |l.taken| && |l.records| == |l.store| && id < |l.taken| && l.firsts[id] <= |l.records|
  {
    Log(memory, {}, l.regions, l.records[..l.firsts[id]], l.store[..l.firsts[id]], l.firsts[..id], l.taken[..id])
  }

  /** The log cut off at `cut`, with what the rest leads back to as the current contents, says the same. */
  lemma {:induction false} CutLog(records: seq<nat>, store: seq<Contents>, from: nat, cut: nat, x: nat, now: Contents)
    requires |records| == |store| && from <= cut <= |records|
    ensures Original(records[..cut], store[..cut], from, x, Original(records, store, cut, x, now)) ==
            Original(records, store, from, x, now)
    decreases cut - from
  {
    if from < cut {
      CutLog(records, store, from + 1, cut, x, now);
    }
  }

  // ------------------------------------------------------------------
  // The snapshotter
  // ------------------------------------------------------------------

  function PagesOf(region: MemoryRegion): (pages: set<nat>)
    ensures forall x: nat :: x in pages <==> Covers(region, x)
    decreases region.sizeInPages
  {
    if region.sizeInPages == 0 then {}
    else PagesOf(region.(sizeInPages := region.sizeInPages - 1)) + {region.base + region.sizeInPages - 1}
  }

  class Snapshotter {
    /** USE_MPROTECT_SNAPSHOT == 2. */
    const fastPath: bool
    const maxRegions: nat
    var memory: map<nat, Contents>
    /** Page protection. */
    var readOnly: set<nat>
    var regions: seq<MemoryRegion>
    var backingStore: array<Contents>
    var backingRecords: array<nat>
    var snapShots: array<nat>
    var lastSnapShot: nat
    var lastBackingPage: nat

    /** The registered pages with their contents, when each snapshot was taken. */
    ghost var taken: seq<map<nat, Contents>>

    ghost predicate Shape()
      reads this
    {
      && backingStore.Length == backingRecords.Length && backingRecords != snapShots
      && |taken| == lastSnapShot <= snapShots.Length && lastBackingPage <= backingStore.Length
      && |regions| <= maxRegions
    }

    ghost function Current(): (l: Log)
      requires Shape()
      reads this, backingStore, backingRecords, snapShots
    {
      Log(memory, readOnly, regions, backingRecords[..lastBackingPage], backingStore[..lastBackingPage],
          snapShots[..lastSnapShot], taken)
    }

    ghost predicate Valid()
      reads this, backingStore, backingRecords, snapShots
    {
      Shape() && Current().Valid()
    }

    constructor (backingPages: nat, snapshots: nat, maxRegions: nat, fastPath: bool, memory: map<nat, Contents>)
      ensures Valid() && lastSnapShot == 0 && regions == [] && this.memory == memory
      ensures fresh(backingStore) && fresh(backingRecords) && fresh(snapShots)
    {
      this.fastPath, this.maxRegions, this.memory := fastPath, maxRegions, memory;
      readOnly, regions, taken := {}, [], [];
      lastSnapShot, lastBackingPage := 0, 0;
      backingStore := new Contents[backingPages](i => []);
      backingRecords := new nat[backingPages](i => 0);
      snapShots := new nat[snapshots](i => 0);
    }

    /** mprot_add_to_snapshot; false when there are too many regions. */
    method AddToSnapshot(region: MemoryRegion) returns (ok: bool)
      requires Valid() && forall x: nat :: Covers(region, x) ==> x in memory
      modifies this`regions
      ensures Valid() && (ok <==> |old(regions)| < maxRegions)
      ensures regions == if ok then old(regions) + [region] else old(regions)
    {
      hide Log.Valid;
      if |regions| == maxRegions {
        return false;
      }
      LogRegion(Current(), region);
      regions := regions + [region];
      ok := true;
    }

    lemma PageKnown(x: nat)
      requires Valid() && x in readOnly
      ensures x in memory
    {
      Unprotected(Current());
    }

    /** mprot_handle_pf: keeps a copy of the page and lets it be written. False when there is no room for the copy. */
    method HandlePageFault(x: nat) returns (ok: bool)
      requires Valid() && x in readOnly
      modifies this`lastBackingPage, this`readOnly, backingStore, backingRecords
      ensures Valid() && (ok <==> old(lastBackingPage) < backingStore.Length)
      ensures readOnly == if ok then old(readOnly) - {x} else old(readOnly)
      ensures !ok ==> lastBackingPage == old(lastBackingPage)
      ensures ok ==> lastBackingPage == old(lastBackingPage) + 1 &&
                     backingRecords[..lastBackingPage] == old(backingRecords[..lastBackingPage]) + [x] &&
                     backingStore[..lastBackingPage] == old(backingStore[..lastBackingPage]) + [memory[x]]
    {
      hide Log.Valid;
      PageKnown(x);
      if lastBackingPage == backingStore.Length {
        return false;
      }
      ghost var l := Current();
      LogFault(l, x);
      backingStore[lastBackingPage] := memory[x];
      backingRecords[lastBackingPage] := x;
      lastBackingPage := lastBackingPage + 1;
      readOnly := readOnly - {x};
      assert Current() == l.(records := l.records + [x], store := l.store + [l.memory[x]], readOnly := l.readOnly -
                             {x});
      ok := true;
    }

    /** A write by the program: a protected page faults first. */
    method Write(x: nat, c: Contents) returns (ok: bool)
      requires Valid()
      modifies this`memory, this`lastBackingPage, this`readOnly, backingStore, backingRecords
      ensures Valid() && memory == if ok then old(memory)[x := c] else old(memory)
      ensures ok <==> x !in old(readOnly) || old(lastBackingPage) < backingStore.Length
      ensures lastBackingPage == old(lastBackingPage) + if ok && x in old(readOnly) then 1 else 0
    {
      hide Log.Valid;
      if x in readOnly {
        ok := HandlePageFault(x);
        if !ok {
          return;
        }
      }
      LogWrite(Current(), x, c);
      memory := memory[x := c];
      ok := true;
    }

    /** mprot_take_snapshot; none when there are too many. */
    method TakeSnapshot() returns (id: Option<nat>)
      requires Shape() && Current().Settled()
      modifies this`readOnly, this`lastSnapShot, this`taken, snapShots
      ensures id.None? <==> old(lastSnapShot) == snapShots.Length
      ensures id.Some? ==> Valid() && id.value == old(lastSnapShot) && lastSnapShot == id.value + 1
      ensures id.Some? ==> taken == old(taken) + [Contained(memory, regions)]
      ensures id.Some? ==> snapShots[..id.value] == old(snapShots[..lastSnapShot])
      ensures id.Some? ==> snapShots[id.value] == lastBackingPage
      ensures forall x: nat :: x in readOnly <==> Registered(regions, x)
    {
      hide Log.Valid, Log.Settled, Covers;
      ghost var l := Current();
      ProtectedRegistered(l);
      ProtectAll();
      if lastSnapShot == snapShots.Length {
        return None;
      }
      LogTake(l, readOnly);
      id := Some(lastSnapShot);
      snapShots[lastSnapShot] := lastBackingPage;
      lastSnapShot := lastSnapShot + 1;
      taken := taken + [Contained(memory, regions)];
      assert snapShots[..lastSnapShot] == l.firsts + [|l.records|];
    }

    /** Protects all regions, one after the other. */
    method ProtectAll()
      requires forall x: nat :: x in readOnly ==> Registered(regions, x)
      modifies this`readOnly
      ensures forall x: nat :: x in readOnly <==> Registered(regions, x)
    {
      hide Covers;
      var region := 0;
      while region < |regions|
        invariant 0 <= region <= |regions|
        invariant forall x: nat :: Registered(regions[..region], x) ==> x in readOnly
        invariant forall x: nat :: x in readOnly ==> Registered(regions, x)
      {
        RegisteredMore(regions, region);
        RegisteredOne(regions, region);
        readOnly := readOnly + PagesOf(regions[region]);
        region := region + 1;
      }
      assert regions[..region] == regions;
    }

    /**
     mprot_roll_back. Every page that snapshot `id` covered holds again what it held when
     the snapshot was taken, and so does every earlier snapshot stay good. A page without a copy
     since then stays as it is, any other one gets its first copy; and the copies are forgotten
     unless the fast path is taken.
     */
    method RollBack(id: nat)
      requires Valid() && id < lastSnapShot
      modifies this`memory, this`readOnly, this`lastSnapShot, this`lastBackingPage, this`taken, snapShots
      ensures Valid() && lastSnapShot == id + 1 && memory.Keys == old(memory).Keys
      ensures forall x: nat :: x in old(taken)[id] ==> x in memory && memory[x] == old(taken)[id][x]
      ensures taken[..id] == old(taken)[..id]
      ensures forall x: nat :: x in old(taken)[id] ==> x in taken[id] && taken[id][x] == old(taken)[id][x]
      ensures PagesRestored(old(Current()), old(snapShots[id]), memory)
      ensures snapShots[..id + 1] == old(snapShots[..id + 1])
      ensures if fastPath && old(lastSnapShot) == id + 1
              then lastBackingPage == old(lastBackingPage) && readOnly == old(readOnly) && taken == old(taken)
              else lastBackingPage == snapShots[id] && taken[id] == Contained(memory, regions) &&
                   forall x: nat :: x in readOnly <==> Registered(regions, x)
    {
      hide Log.Valid, Log.Settled, Original, Registered, PagesRestored;
      ghost var l := Current();
      FirstsBounded(l, id);
      assert l.firsts[id] == snapShots[id];
      ghost var before := snapShots[..id + 1];
      if fastPath && lastSnapShot == id + 1 {
        WriteAllBack(id);
        WrittenPages(l, snapShots[id], memory);
        LogRollFast(l, memory);
        return;
      }
      Unprotected(l);
      readOnly := {};
      assert Current() == l.(readOnly := {});
      WriteFirstBack(id);
      WrittenPages(l, snapShots[id], memory);
      LogRollSlow(l, id, memory);
      lastSnapShot := id;
      lastBackingPage := snapShots[id];
      taken := taken[..id];
      assert Current() == Cut(l, id, memory);
      var again := TakeSnapshot();
      CoveredStay(l, id, memory, taken[id]);
      assert snapShots[..id + 1] == snapShots[..id] + [snapShots[id]];
      assert before == before[..id] + [before[id]];
      assert before[..id] == l.firsts[..id];
    }

    /** The fast path: every copy since the latest snapshot is written back. */
    method WriteAllBack(id: nat)
      requires Valid() && id + 1 == lastSnapShot && snapShots[id] <= lastBackingPage
      modifies this`memory
      ensures WrittenBack(old(memory), backingRecords[..lastBackingPage], backingStore[..lastBackingPage],
                          snapShots[id], memory)
    {
      hide Log.Valid, Original;
      ghost var l := Current();
      var page := snapShots[id];
      NothingWritten(l.memory, l.records, l.store, snapShots[id]);
      while page < lastBackingPage
        invariant snapShots[id] <= page <= lastBackingPage
        invariant WrittenBack(l.memory, l.records[..page], l.store[..page], snapShots[id], memory)
      {
        Unprotected(l);
        WriteBackNext(l, snapShots[id], page, memory);
        FreshRecord(l, page);
        memory := memory[backingRecords[page] := backingStore[page]];
        page := page + 1;
      }
      assert l.records[..page] == l.records && l.store[..page] == l.store;
    }

    /** The other path: of several copies of a page the first one counts. */
    method WriteFirstBack(id: nat)
      requires Shape() && id < lastSnapShot && snapShots[id] <= lastBackingPage && Current().Settled()
      modifies this`memory
      ensures WrittenBack(old(memory), backingRecords[..lastBackingPage], backingStore[..lastBackingPage],
                          snapShots[id], memory)
    {
      hide Log.Settled, Original;
      ghost var l := Current();
      var duplicates := {};
      var page := snapShots[id];
      NothingWritten(l.memory, l.records, l.store, snapShots[id]);
      while page < lastBackingPage
        invariant snapShots[id] <= page <= lastBackingPage
        invariant duplicates == set i | snapShots[id] <= i < page :: l.records[i]
        invariant WrittenBack(l.memory, l.records[..page], l.store[..page], snapShots[id], memory)
      {
        WriteBackNext(l, snapShots[id], page, memory);
        if backingRecords[page] !in duplicates {
          duplicates := duplicates + {backingRecords[page]};
          memory := memory[backingRecords[page] := backingStore[page]];
        }
        page := page + 1;
      }
      assert l.records[..page] == l.records && l.store[..page] == l.store;
    }
  }

  /** Pages without a copy since entry `from` are as they were, all others have their first copy. */
  ghost predicate PagesRestored(l: Log, from: nat, memory: map<nat, Contents>) {
    && |l.records| == |l.store| && from <= |l.records|
    && (forall x: nat :: x in l.memory && x !in l.records[from..] ==> x in memory && memory[x] == l.memory[x])
    && forall p: nat :: p < |l.records| && FirstOf(l.records, from, p) ==>
         l.records[p] in memory && memory[l.records[p]] == l.store[p]
  }

  /** Which pages writing back changes, and to what. */
  lemma WrittenPages(l: Log, from: nat, memory: map<nat, Contents>)
    requires l.Valid() && |l.records| == |l.store| && from <= |l.records|
    requires WrittenBack(l.memory, l.records, l.store, from, memory)
    ensures PagesRestored(l, from, memory)
  {
    hide Original, FirstOf;
    forall x: nat | x in l.memory && x !in l.records[from..] ensures x in memory && memory[x] == l.memory[x] {
      assert forall i :: from <= i < |l.records| ==> l.records[i] in l.records[from..];
      NoCopy(l.records, l.store, from, x, l.memory[x]);
    }
    forall p: nat | p < |l.records| && FirstOf(l.records, from, p)
      ensures l.records[p] in memory && memory[l.records[p]] == l.store[p]
    {
      assert l.records[p] in l.memory;
      OriginalIs(l.records, l.store, from, p, l.memory[l.records[p]]);
    }
  }

  lemma ProtectedRegistered(l: Log)
    requires l.Settled()
    ensures forall x: nat :: x in l.readOnly ==> Registered(l.regions, x)
  {
  }

  lemma Unprotected(l: Log)
    requires l.Valid()
    ensures l.Settled() && l.(readOnly := {}).Settled()
  {
  }

  lemma RegisteredOne(regions: seq<MemoryRegion>, k: nat)
    requires k < |regions|
    ensures forall x: nat :: Covers(regions[k], x) ==> Registered(regions, x)
  {
  }

  lemma FirstsBounded(l: Log, id: nat)
    requires l.Valid() && id < |l.taken|
    ensures |l.firsts| == |l.taken| && |l.records| == |l.store| && l.firsts[id] <= |l.records|
  {
    assert Restorable(l.memory, l.records, l.store, l.firsts[id], l.taken[id]);
  }

  lemma NothingWritten(memory: map<nat, Contents>, records: seq<nat>, store: seq<Contents>, from: nat)
    requires |records| == |store| && from <= |records|
    ensures WrittenBack(memory, records[..from], store[..from], from, memory)
  {
    OriginalNow(records[..from], store[..from]);
  }

  /** The next copy is written back only if it is the first for its page. */
  lemma WriteBackNext(l: Log, from: nat, page: nat, memory: map<nat, Contents>)
    requires l.Settled() && |l.records| == |l.store| && from <= page < |l.records|
    requires WrittenBack(l.memory, l.records[..page], l.store[..page], from, memory)
    ensures var done := set i | from <= i < page :: l.records[i];
            var next := if l.records[page] in done then memory else memory[l.records[page] := l.store[page]];
            WrittenBack(l.memory, l.records[..page + 1], l.store[..page + 1], from, next)
  {
    hide Original;
    assert l.records[..page + 1] == l.records[..page] + [l.records[page]];
    assert l.store[..page + 1] == l.store[..page] + [l.store[page]];
    var done := set i | from <= i < page :: l.records[i];
    forall x: nat ensures x in done <==> x in l.records[..page][from..] {
      if x in done {
        var i :| from <= i < page && l.records[i] == x;
        assert l.records[..page][from..][i - from] == x;
      }
    }
    forall x: nat | x in l.memory {
      OriginalAppend(l.records[..page], l.store[..page], from, x, l.memory[x], l.records[page], l.store[page]);
    }
  }

  /** Since the latest snapshot no page was copied twice. */
  lemma FreshRecord(l: Log, page: nat)
    requires l.Valid() && l.taken != [] && |l.firsts| == |l.taken| && l.firsts[|l.taken| - 1] <= page < |l.records|
    ensures l.records[page] !in set i | l.firsts[|l.taken| - 1] <= i < page :: l.records[i]
  {
  }

  /** The snapshot taken again covers what it covered, with the same contents. */
  lemma CoveredStay(l: Log, id: nat, memory: map<nat, Contents>, again: map<nat, Contents>)
    requires l.Valid() && id < |l.taken| && again == Contained(memory, l.regions)
    requires forall x: nat :: x in l.taken[id] ==> x in memory && memory[x] == l.taken[id][x]
    ensures forall x: nat :: x in l.taken[id] ==> x in again && again[x] == l.taken[id][x]
  {
  }

  lemma RegisteredMore(regions: seq<MemoryRegion>, k: nat)
    requires k < |regions|
    ensures forall x: nat :: Registered(regions[..k + 1], x) <==> Registered(regions[..k], x) || Covers(regions[k], x)
  {
    hide Covers;
    forall x: nat ensures Registered(regions[..k + 1], x) <==> Registered(regions[..k], x) || Covers(regions[k], x) {
      if i :| 0 <= i < k && Covers(regions[i], x) {
        assert Covers(regions[..k + 1][i], x) && Covers(regions[..k][i], x);
      }
      if Covers(regions[k], x) {
        assert Covers(regions[..k + 1][k], x);
      }
    }
  }
}
