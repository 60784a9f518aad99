/**
 * The log-structured merge tree of cpp/storage/lsm_tree.cpp: a memtable and a
 * stack of sorted tables, refining a plain map from keys to values.
 */
module Lsm {
  import opened Basics
  import opened LsmModel

  /** The least key of a set, as an ordered map's iteration meets it. */
  method LeastKey(keys: set<Key>) returns (least: Key)
    requires keys != {}
    ensures least in keys && forall k :: k in keys && k != least ==> Less(least, k)
  {
    least :| least in keys;
    var rest := keys - {least};
    while rest != {}
      invariant rest <= keys && least in keys - rest
      invariant forall k :: k in keys - rest && k != least ==> Less(least, k)
      decreases rest
    {
      var k :| k in rest;
      LessTotal(k, least);
      if Less(k, least) {
        forall x | x in keys - rest && x != least ensures Less(k, x) { LessTransitive(k, least, x); }
        least := k;
      }
      rest := rest - {k};
    }
  }

  /** The versions of an ordered map, in key order: `MemTable::flush` and the end of `compact`. */
  method InKeyOrder(m: MemTable) returns (t: Table)
    requires Keyed(m)
    ensures Lists(t, m)
    ensures forall i :: 0 <= i < |t| ==> t[i].key in m && t[i] == m[t[i].key]
  {
    t := [];
    var rest := m.Keys;
    while rest != {}
      invariant rest <= m.Keys && Sorted(t)
      invariant forall i :: 0 <= i < |t| ==> t[i].key in m.Keys - rest && t[i] == m[t[i].key]
      invariant forall k :: Find(t, k) == if k in m.Keys - rest then Some(m[k]) else None
      invariant forall i, k :: 0 <= i < |t| && k in rest ==> Less(t[i].key, k)
      decreases rest
    {
      var k := LeastKey(rest);
      forall x ensures Find(t + [m[k]], x) == if x == k then Some(m[k]) else Find(t, x) { FindPush(t, m[k], x); }
      t := t + [m[k]];
      rest := rest - {k};
    }
  }

  /** `std::lower_bound`: the first position whose key is not below the given one. */
  method LowerBound(t: Table, key: Key) returns (pos: nat)
    requires Sorted(t)
    ensures pos <= |t|
    ensures forall i :: 0 <= i < pos ==> Less(t[i].key, key)
    ensures forall i :: pos <= i < |t| ==> !Less(t[i].key, key)
  {
    var lo, hi := 0, |t|;
    while lo < hi
      invariant 0 <= lo <= hi <= |t|
      invariant forall i :: 0 <= i < lo ==> Less(t[i].key, key)
      invariant forall i :: hi <= i < |t| ==> !Less(t[i].key, key)
    {
      var mid := (lo + hi) / 2;
      if Less(t[mid].key, key) {
        forall i | 0 <= i < mid ensures Less(t[i].key, key) { LessTransitive(t[i].key, t[mid].key, key); }
        lo := mid + 1;
      } else {
        forall i | mid < i < |t| ensures !Less(t[i].key, key) {
          if Less(t[i].key, key) { LessTransitive(t[mid].key, t[i].key, key); }
        }
        hi := mid;
      }
    }
    pos := lo;
  }

  /** `SSTable::get`: the range check, then a binary search. */
  method TableGet(t: Table, key: Key) returns (r: Option<Version>)
    requires Sorted(t)
    ensures r == Find(t, key)
  {
    if t == [] { return None; }
    if Less(key, t[0].key) || Less(t[|t| - 1].key, key) {
      OutsideRange(t, key);
      return None;
    }
    var pos := LowerBound(t, key);
    if pos < |t| && t[pos].key == key {
      FindAt(t, pos);
      return Some(t[pos]);
    }
    forall i | 0 <= i < |t| ensures t[i].key != key {
      LessTotal(key, key);
      assert i > pos ==> Less(t[pos].key, t[i].key);
      LessTotal(t[if pos < |t| then pos else 0].key, key);
    }
    return None;
  }

  lemma OutsideRange(t: Table, key: Key)
    requires Sorted(t) && t != [] && (Less(key, t[0].key) || Less(t[|t| - 1].key, key))
    ensures Find(t, key).None?
  {
    forall i | 0 <= i < |t| ensures t[i].key != key {
      LessTotal(key, t[0].key);
      LessTotal(key, t[|t| - 1].key);
      LessTotal(key, key);
      assert i > 0 ==> Less(t[0].key, t[i].key);
      assert i < |t| - 1 ==> Less(t[i].key, t[|t| - 1].key);
    }
  }

  /** The loop of `SSTable::scan` from the empty key to the bound. */
  method TableScan(t: Table) returns (found: Table)
    requires Sorted(t)
    ensures found == Scan(t)
  {
    found := [];
    var i := 0;
    while i < |t| && InScan(t[i].key)
      invariant 0 <= i <= |t| && found == Scan(t[..i])
    {
      assert t[..i + 1][..i] == t[..i];
      if !t[i].deleted { found := found + [t[i]]; }
      i := i + 1;
    }
    ScanStops(t, i);
  }

  lemma {:induction false} ScanStops(t: Table, i: nat)
    requires Sorted(t) && i <= |t| && (i < |t| ==> !InScan(t[i].key))
    ensures Scan(t) == Scan(t[..i])
    decreases |t|
  {
    if i < |t| {
      var n := |t| - 1;
      if i < n { LessTransitive(BOUND, t[i].key, t[n].key); }
      ScanStops(t[..n], i);
      assert t[..n][..i] == t[..i];
    } else {
      assert t[..i] == t;
    }
  }

  /** How many entries the scans of some tables return. */
  function ScannedIn(ts: seq<Table>): nat {
    if ts == [] then 0 else ScannedIn(ts[..|ts| - 1]) + |Scan(ts[|ts| - 1])|
  }

  /** The merge loop of `compact`, over every table from the oldest to the newest. */
  method MergeAll(ts: seq<Table>) returns (merged: MemTable, read: nat)
    requires Stacked(ts)
    ensures merged == Merged(ts) && read == ScannedIn(ts)
  {
    merged, read := map[], 0;
    for i := 0 to |ts|
      invariant merged == Merged(ts[..i]) && read == ScannedIn(ts[..i])
    {
      assert ts[..i + 1][..i] == ts[..i];
      var found := TableScan(ts[i]);
      read := read + |found|;
      for j := 0 to |found|
        invariant merged == MergeTable(Merged(ts[..i]), found[..j])
      {
        assert found[..j + 1][..j] == found[..j];
        merged := MergeOne(merged, found[j]);
      }
      assert found[..|found|] == found;
      assert ts[..i + 1][..i] == ts[..i];
    }
    assert ts[..|ts|] == ts;
  }

  function Alive(t: Table): (r: Table)
    ensures |r| <= |t|
  {
    if t == [] then []
    else if t[|t| - 1].deleted then Alive(t[..|t| - 1])
    else Alive(t[..|t| - 1]) + [t[|t| - 1]]
  }

  lemma {:induction false} AllAlive(t: Table)
    requires forall i :: 0 <= i < |t| ==> !t[i].deleted
    ensures Alive(t) == t
  {
    if t != [] { AllAlive(t[..|t| - 1]); }
  }

  /** The live versions, and how many tombstones were left out. */
  method KeepLive(t: Table) returns (kept: Table, dropped: nat)
    ensures kept == Alive(t) && dropped == |t| - |kept|
  {
    kept, dropped := [], 0;
    for i := 0 to |t|
      invariant kept == Alive(t[..i]) && dropped == i - |kept|
    {
      assert t[..i + 1][..i] == t[..i];
      if !t[i].deleted { kept := kept + [t[i]]; } else { dropped := dropped + 1; }
    }
    assert t[..|t|] == t;
  }

  class MemTableStore {
    var entries: MemTable
    var sizeBytes: nat
    const maxSizeBytes: nat

    constructor (maxSize: nat)
      ensures entries == map[] && sizeBytes == 0 && maxSizeBytes == maxSize
    {
      entries, sizeBytes, maxSizeBytes := map[], 0, maxSize;
    }

    method Put(key: Key, value: Key, seqNum: nat)
      modifies this
      ensures entries == old(entries)[key := Version(key, value, false, seqNum)]
      ensures sizeBytes == old(sizeBytes) + |key| + |value|
    {
      sizeBytes := sizeBytes + |key| + |value|;
      entries := entries[key := Version(key, value, false, seqNum)];
    }

    method Del(key: Key, seqNum: nat)
      modifies this
      ensures entries == old(entries)[key := Version(key, [], true, seqNum)]
      ensures sizeBytes == old(sizeBytes)
    {
      entries := entries[key := Version(key, [], true, seqNum)];
    }

    method Clear()
      modifies this
      ensures entries == map[] && sizeBytes == 0
    {
      entries, sizeBytes := map[], 0;
    }

    predicate IsFull()
      reads this
    {
      sizeBytes >= maxSizeBytes
    }
  }

  ghost function Answer(contents: map<Key, Key>, k: Key): Option<Key> {
    if k in contents then Some(contents[k]) else None
  }

  /** What the tree answers is what a plain map answers. */
  ghost predicate Refines(mem: MemTable, ts: seq<Table>, contents: map<Key, Key>) {
    forall k :: Visible(mem, ts, k) == Answer(contents, k)
  }

  /** Writing one version to the memtable is one update of the plain map. */
  lemma WriteRefines(mem: MemTable, ts: seq<Table>, contents: map<Key, Key>, v: Version)
    requires Refines(mem, ts, contents)
    ensures Refines(mem[v.key := v], ts, if v.deleted then contents - {v.key} else contents[v.key := v.value])
  {
    var contents' := if v.deleted then contents - {v.key} else contents[v.key := v.value];
    forall k ensures Visible(mem[v.key := v], ts, k) == Answer(contents', k) {
      assert Visible(mem, ts, k) == Answer(contents, k);
    }
  }

  /** The plain map that a memtable and some tables stand for. */
  ghost function Contents(mem: MemTable, ts: seq<Table>, keys: set<Key>): map<Key, Key> {
    map k | k in keys && Visible(mem, ts, k).Some? :: Visible(mem, ts, k).value
  }

  datatype CompactionStats = CompactionStats(
    skipped: bool, sstablesMerged: nat, entriesRead: nat, entriesWritten: nat, entriesDeleted: nat)

  /** The body of `compact` up to the new table; `limit` bounds the sequence numbers in use. */
  method MergeTables(ts: seq<Table>, ghost limit: nat) returns (compacted: Table, stats: CompactionStats)
    requires Stacked(ts)
    requires forall i, j :: 0 <= i < |ts| && 0 <= j < |ts[i]| ==> ts[i][j].seqNum < limit
    ensures Lists(compacted, Merged(ts))
    ensures forall i :: 0 <= i < |compacted| ==> compacted[i].key in Merged(ts) && compacted[i] == Merged(ts)[compacted[i].key]
    ensures !stats.skipped && stats.entriesDeleted == 0
    ensures stats.sstablesMerged == |ts| && stats.entriesRead == ScannedIn(ts) && stats.entriesWritten == |compacted|
  {
    var merged, read := MergeAll(ts);
    MergedKeyed(ts, limit);
    var listed := InKeyOrder(merged);
    var dropped;
    compacted, dropped := KeepLive(listed);
    AllAlive(listed);
    stats := CompactionStats(false, |ts|, read, |compacted|, dropped);
  }

  class LSMTree {
    const memtable: MemTableStore
    var sstables: seq<Table>
    var next: nat
    /** The plain map that the tree stands for. */
    ghost var contents: map<Key, Key>

    ghost predicate Valid()
      reads this, memtable
    {
      && Ordered(memtable.entries, sstables, next)
      && Refines(memtable.entries, sstables, contents)
    }

    /** The memtable has gone into a new table on top of the others. */
    ghost predicate Flushed(entries: MemTable, ts: seq<Table>)
      reads this, memtable
    {
      && memtable.entries == map[] && memtable.sizeBytes == 0
      && |sstables| == |ts| + 1 && sstables[..|ts|] == ts && Lists(sstables[|ts|], entries)
    }

    constructor (memtableSize: nat)
      ensures Valid() && fresh(memtable) && contents == map[]
      ensures memtable.entries == map[] && memtable.sizeBytes == 0 && memtable.maxSizeBytes == memtableSize && sstables == []
    {
      memtable := new MemTableStore(memtableSize);
      sstables, next, contents := [], 1, map[];
    }

    method Put(key: Key, value: Key)
      requires Valid()
      modifies this, memtable
      ensures Valid() && contents == old(contents)[key := value] && next == old(next) + 1
      ensures var entries := old(memtable.entries)[key := Version(key, value, false, old(next))];
        if old(memtable.sizeBytes) + |key| + |value| >= memtable.maxSizeBytes then Flushed(entries, old(sstables))
        else memtable.entries == entries && sstables == old(sstables)
    {
      WriteRefines(memtable.entries, sstables, contents, Version(key, value, false, next));
      memtable.Put(key, value, next);
      next := next + 1;
      contents := contents[key := value];
      assert key in memtable.entries;
      if memtable.IsFull() { FlushMemTable(); }
    }

    method Del(key: Key)
      requires Valid()
      modifies this, memtable
      ensures Valid() && contents == old(contents) - {key} && next == old(next) + 1
      ensures memtable.entries == old(memtable.entries)[key := Version(key, [], true, old(next))]
      ensures memtable.sizeBytes == old(memtable.sizeBytes) && sstables == old(sstables)
    {
      WriteRefines(memtable.entries, sstables, contents, Version(key, [], true, next));
      memtable.Del(key, next);
      next := next + 1;
      contents := contents - {key};
    }

    method Get(key: Key) returns (r: Option<Key>)
      requires Valid()
      ensures r == Answer(contents, key)
    {
      if key in memtable.entries { return Live(Some(memtable.entries[key])); }
      var i := |sstables|;
      assert sstables[..i] == sstables;
      while i > 0
        invariant 0 <= i <= |sstables|
        invariant Newest(sstables, key) == Newest(sstables[..i], key)
      {
        i := i - 1;
        assert sstables[..i + 1][..i] == sstables[..i];
        var v := TableGet(sstables[i], key);
        if v.Some? { return Live(v); }
      }
      return None;
    }

    method FlushMemTable()
      requires Valid()
      modifies this, memtable
      ensures Valid() && contents == old(contents) && next == old(next)
      ensures old(memtable.entries) == map[] ==> sstables == old(sstables) && memtable.entries == map[]
      ensures old(memtable.entries) != map[] ==> Flushed(old(memtable.entries), old(sstables))
    {
      ghost var entries := memtable.entries;
      var t := InKeyOrder(memtable.entries);
      ListsEmpty(t, entries);
      if t == [] { return; }
      FlushKeepsOrder(memtable.entries, sstables, t, next);
      forall k ensures Visible(map[], sstables + [t], k) == Visible(memtable.entries, sstables, k) {
        FlushKeepsVisible(memtable.entries, sstables, t, k);
      }
      sstables := sstables + [t];
      memtable.Clear();
    }

    /**
     * The answer for a key changes exactly when the key does not survive: whatever was
     * there stays, except under keys that go on after five bytes 0xff. No tombstone is
     * ever counted as removed, because the scan has already dropped them all.
     */
    method Compact() returns (stats: CompactionStats)
      requires Valid()
      modifies this
      ensures Valid() && stats.entriesDeleted == 0
      ensures stats.skipped == (|old(sstables)| < 2)
      ensures stats.skipped ==> contents == old(contents)
      ensures !stats.skipped ==> IsCompaction(old(sstables), sstables)
      ensures !stats.skipped ==> forall k :: Answer(contents, k) == Answer(old(contents), k) <==>
                                             Survives(old(memtable.entries), old(sstables), k)
      ensures forall k :: k in old(contents) && !(|k| > 5 && k[..5] == [255, 255, 255, 255, 255]) ==>
                          k in contents && contents[k] == old(contents)[k]
    {
      if |sstables| < 2 { return CompactionStats(true, 0, 0, 0, 0); }
      var compacted;
      compacted, stats := MergeTables(sstables, next);
      StackOrdered(memtable.entries, sstables, compacted, next);
      contents := AfterCompaction(memtable.entries, sstables, compacted, contents);
      sstables := Stack(compacted);
    }
  }

  /**
   * A run in which a deleted key comes back: it is put and flushed, deleted, and the
   * tombstone is flushed along with another key; then the tree is compacted.
   */
  method DeletedKeyRun(size: nat, k: Key, v: Key, x: Key, w: Key) returns (before: Option<Key>, after: Option<Key>)
    requires k != x && InScan(k) && size <= |k| + |v| && size <= |x| + |w|
    ensures before == None && after == Some(v)
  {
    var tree := new LSMTree(size);
    tree.Put(k, v);
    ghost var live := tree.sstables[0];
    tree.Del(k);
    tree.Put(x, w);
    before := tree.Get(k);
    ghost var ts := tree.sstables;
    assert ts[..1] == [live] && |ts| == 2;
    NewestOfPair(live, ts[1], k);
    var stats := tree.Compact();
    NewestAfterCompaction(ts, tree.sstables, k);
    after := tree.Get(k);
  }

  /** Under a tombstone the newest live version of two tables is that of the older. */
  lemma NewestOfPair(older: Table, newer: Table, k: Key)
    requires Find(newer, k).Some? && Find(newer, k).value.deleted && Find(older, k).Some? && !Find(older, k).value.deleted
    ensures NewestLive([older, newer], k) == Find(older, k)
  {
    assert [older, newer][..1] == [older] && [older][..0] == [];
  }

  /** The new list of tables; an empty table is not kept. */
  function Stack(t: Table): seq<Table> {
    if t == [] then [] else [t]
  }

  lemma StackOrdered(mem: MemTable, ts: seq<Table>, t: Table, next: nat)
    requires Ordered(mem, ts, next) && Lists(t, Merged(ts))
    requires forall i :: 0 <= i < |t| ==> t[i].key in Merged(ts) && t[i] == Merged(ts)[t[i].key]
    ensures Ordered(mem, Stack(t), next)
  {
    CompactionKeepsOrder(mem, ts, t, next);
  }

  /** The plain map that the compacted tree stands for, and which keys it changes. */
  lemma AfterCompaction(mem: MemTable, ts: seq<Table>, t: Table, before: map<Key, Key>) returns (after: map<Key, Key>)
    requires Stacked(ts) && Lists(t, Merged(ts)) && Refines(mem, ts, before)
    ensures IsCompaction(ts, Stack(t)) && Refines(mem, Stack(t), after)
    ensures forall k :: Answer(after, k) == Answer(before, k) <==> Survives(mem, ts, k)
    ensures forall k :: k in before && !(|k| > 5 && k[..5] == [255, 255, 255, 255, 255]) ==>
                        k in after && after[k] == before[k]
  {
    ListsEmpty(t, Merged(ts));
    after := Contents(mem, Stack(t), mem.Keys + Merged(ts).Keys);
    forall k ensures Visible(mem, Stack(t), k) == Answer(after, k) {
      assert Find(t, k) == Lookup(Merged(ts), k);
      NewestOfStack(t, k);
    }
    forall k ensures Answer(after, k) == Answer(before, k) <==> Survives(mem, ts, k) {
      CompactionExact(mem, ts, Stack(t), k);
      assert Visible(mem, ts, k) == Answer(before, k);
      assert Visible(mem, Stack(t), k) == Answer(after, k);
    }
    forall k | k in before && !(|k| > 5 && k[..5] == [255, 255, 255, 255, 255])
      ensures k in after && after[k] == before[k]
    {
      assert Visible(mem, ts, k) == Answer(before, k);
      VisibleSurvives(mem, ts, k);
      assert Answer(after, k) == Answer(before, k);
    }
  }

  lemma NewestOfStack(t: Table, k: Key)
    ensures Newest(Stack(t), k) == Find(t, k)
  {
    if t != [] { assert [t][..0] == []; }
  }

  lemma ListsEmpty(t: Table, m: MemTable)
    requires Lists(t, m)
    ensures t == [] <==> m == map[]
  {
    if t == [] {
      forall k ensures k !in m { assert Find(t, k) == Lookup(m, k); }
    } else {
      FindAt(t, 0);
      assert Lookup(m, t[0].key).Some?;
    }
  }
}
