/**
 * Versions, sorted tables and lookups of the log-structured merge tree of
 * cpp/storage/lsm_tree.cpp, as values: what a key's newest version is, and
 * what merging the tables makes of it.
 */
module LsmModel {
  import opened Basics

  type Key = seq<Byte>

  /** `std::string`'s order: byte by byte, a proper prefix first. */
  predicate Less(a: Key, b: Key) {
    b != [] && (a == [] || a[0] < b[0] || (a[0] == b[0] && Less(a[1..], b[1..])))
  }

  lemma {:induction false} LessTotal(a: Key, b: Key)
    ensures Less(a, b) || a == b || Less(b, a)
    ensures !(Less(a, b) && Less(b, a)) && !Less(a, a)
  {
    if a != [] { LessTotal(a[1..], a[1..]); }
    if a != [] && b != [] && a[0] == b[0] {
      LessTotal(a[1..], b[1..]);
      if a[1..] == b[1..] { assert a == [a[0]] + a[1..] && b == [b[0]] + b[1..]; }
    }
  }

  lemma {:induction false} LessTransitive(a: Key, b: Key, c: Key)
    requires Less(a, b) && Less(b, c)
    ensures Less(a, c)
  {
    if a != [] && a[0] == b[0] == c[0] { LessTransitive(a[1..], b[1..], c[1..]); }
  }

  /** A stored version of a key; `deleted` marks a tombstone. */
  datatype Version = Version(key: Key, value: Key, deleted: bool, seqNum: nat)

  /** A table's entries, in strictly increasing key order. */
  type Table = seq<Version>

  predicate Sorted(t: Table) {
    forall i, j :: 0 <= i < j < |t| ==> Less(t[i].key, t[j].key)
  }

  /** The entry of a table for a key. */
  function Find(t: Table, k: Key): (r: Option<Version>)
    ensures r.Some? ==> r.value in t && r.value.key == k
    ensures r.None? ==> forall i :: 0 <= i < |t| ==> t[i].key != k
  {
    if t == [] then None
    else if t[|t| - 1].key == k then Some(t[|t| - 1])
    else Find(t[..|t| - 1], k)
  }

  lemma FindAt(t: Table, i: nat)
    requires Sorted(t) && i < |t|
    ensures Find(t, t[i].key) == Some(t[i])
  {
    var r := Find(t, t[i].key);
    var j :| 0 <= j < |t| && t[j] == r.value;
    LessTotal(t[i].key, t[i].key);
  }

  lemma FindPush(t: Table, v: Version, k: Key)
    ensures Find(t + [v], k) == if v.key == k then Some(v) else Find(t, k)
  {
    assert (t + [v])[..|t|] == t;
  }

  /** The version of a key in the newest table that has one. */
  function Newest(ts: seq<Table>, k: Key): Option<Version> {
    if ts == [] then None
    else if Find(ts[|ts| - 1], k).Some? then Find(ts[|ts| - 1], k)
    else Newest(ts[..|ts| - 1], k)
  }

  /** The newest version of a key that is not a tombstone. */
  function NewestLive(ts: seq<Table>, k: Key): Option<Version> {
    if ts == [] then None
    else
      var v := Find(ts[|ts| - 1], k);
      if v.Some? && !v.value.deleted then v else NewestLive(ts[..|ts| - 1], k)
  }

  type MemTable = map<Key, Version>

  function Live(v: Option<Version>): Option<Key> {
    if v.Some? && !v.value.deleted then Some(v.value.value) else None
  }

  /** What `get` answers for a key: the memtable first, then the tables from newest to oldest. */
  function Visible(mem: MemTable, ts: seq<Table>, k: Key): Option<Key> {
    if k in mem then Live(Some(mem[k])) else Live(Newest(ts, k))
  }

  // ----- flushing

  predicate Keyed(m: MemTable) {
    forall k :: k in m ==> m[k].key == k
  }

  /** Every version in the tables is older than every version in the memtable, and all are older than `next`. */
  predicate Ordered(mem: MemTable, ts: seq<Table>, next: nat) {
    && Keyed(mem) && Stacked(ts)
    && (forall k :: k in mem ==> mem[k].seqNum < next)
    && (forall i, j :: 0 <= i < |ts| && 0 <= j < |ts[i]| ==> ts[i][j].seqNum < next)
    && (forall i, j, k :: 0 <= i < |ts| && 0 <= j < |ts[i]| && k in mem ==> ts[i][j].seqNum < mem[k].seqNum)
  }

  /** Moving the memtable into a new table on top changes no answer. */
  lemma FlushKeepsVisible(mem: MemTable, ts: seq<Table>, t: Table, k: Key)
    requires Lists(t, mem)
    ensures Visible(map[], ts + [t], k) == Visible(mem, ts, k)
  {
    assert (ts + [t])[..|ts|] == ts;
    assert Find(t, k) == Lookup(mem, k);
  }

  lemma FlushKeepsOrder(mem: MemTable, ts: seq<Table>, t: Table, next: nat)
    requires Ordered(mem, ts, next) && Sorted(t)
    requires forall i :: 0 <= i < |t| ==> t[i].key in mem && t[i] == mem[t[i].key]
    ensures Ordered(map[], ts + [t], next)
  {
  }

  // ----- merging

  /** The upper end of the scan that `compact` makes: five bytes 0xff. */
  const BOUND: Key := [255, 255, 255, 255, 255]

  predicate InScan(k: Key) {
    !Less(BOUND, k)
  }

  lemma {:induction false} LessAfterPrefix(k: Key, i: nat, bound: Key)
    requires i <= |k| && i <= |bound| && k[..i] == bound[..i]
    ensures Less(bound, k) <==> Less(bound[i..], k[i..])
  {
    if i > 0 {
      assert k[0] == k[..i][0] && bound[0] == bound[..i][0];
      assert k[1..][..i - 1] == k[..i][1..] && bound[1..][..i - 1] == bound[..i][1..];
      LessAfterPrefix(k[1..], i - 1, bound[1..]);
      assert k[1..][i - 1..] == k[i..] && bound[1..][i - 1..] == bound[i..];
    }
  }

  lemma PrefixOfBound(i: nat, k: Key)
    requires i <= 5 && i <= |k| && forall j :: 0 <= j < i ==> k[j] == 255
    ensures k[..i] == BOUND[..i]
  {
  }

  /** The scan takes in every key but those that go on after five bytes 0xff. */
  lemma InScanIff(k: Key)
    ensures InScan(k) <==> !(|k| > 5 && k[..5] == [255, 255, 255, 255, 255])
  {
    var i := 0;
    while i < 5 && i < |k| && k[i] == 255
      invariant i <= 5 && i <= |k| && forall j :: 0 <= j < i ==> k[j] == 255
    {
      i := i + 1;
    }
    PrefixOfBound(i, k);
    LessAfterPrefix(k, i, BOUND);
    if |k| > 5 && k[..5] == [255, 255, 255, 255, 255] { assert forall j :: 0 <= j < 5 ==> k[..5][j] == k[j]; }
  }

  /** What `scan("", BOUND)` returns: entries up to the bound, tombstones left out. */
  function Scan(t: Table): Table {
    if t == [] then []
    else Scan(t[..|t| - 1]) + if InScan(t[|t| - 1].key) && !t[|t| - 1].deleted then [t[|t| - 1]] else []
  }

  /** A scanned entry enters the merge unless a version with as high a sequence number is there. */
  function MergeOne(m: MemTable, v: Version): MemTable {
    if v.key !in m || m[v.key].seqNum < v.seqNum then m[v.key := v] else m
  }

  function MergeTable(m: MemTable, t: Table): MemTable {
    if t == [] then m else MergeOne(MergeTable(m, t[..|t| - 1]), t[|t| - 1])
  }

  function Merged(ts: seq<Table>): MemTable {
    if ts == [] then map[] else MergeTable(Merged(ts[..|ts| - 1]), Scan(ts[|ts| - 1]))
  }

  function Lookup(m: MemTable, k: Key): Option<Version> {
    if k in m then Some(m[k]) else None
  }

  /** Every version of the first is older than every version of the second. */
  predicate Older(a: Table, b: Table) {
    forall i, j :: 0 <= i < |a| && 0 <= j < |b| ==> a[i].seqNum < b[j].seqNum
  }

  /** Tables are sorted, and a newer table holds only newer versions. */
  predicate Stacked(ts: seq<Table>) {
    && (forall i :: 0 <= i < |ts| ==> Sorted(ts[i]))
    && (forall i, j :: 0 <= i < j < |ts| ==> Older(ts[i], ts[j]))
  }

  lemma {:induction false} ScanMembers(t: Table)
    ensures forall i :: 0 <= i < |Scan(t)| ==> Scan(t)[i] in t
  {
    if t != [] { ScanMembers(t[..|t| - 1]); }
  }

  lemma {:induction false} ScanSorted(t: Table)
    requires Sorted(t)
    ensures Sorted(Scan(t))
  {
    if t != [] {
      var front := t[..|t| - 1];
      ScanSorted(front);
      ScanMembers(front);
    }
  }

  lemma {:induction false} ScanFind(t: Table, k: Key)
    requires Sorted(t)
    ensures Find(Scan(t), k) == if InScan(k) && Find(t, k).Some? && !Find(t, k).value.deleted then Find(t, k) else None
  {
    if t != [] {
      var front, last := t[..|t| - 1], t[|t| - 1];
      ScanFind(front, k);
      if last.key == k {
        FindAt(t, |t| - 1);
        assert Find(front, k).None? by {
          LessTotal(k, k);
        }
      }
      if InScan(last.key) && !last.deleted {
        assert Scan(t)[..|Scan(t)| - 1] == Scan(front);
      } else {
        assert Scan(t) == Scan(front);
      }
    }
  }

  /** A table of newer versions overrides what was merged before, key by key. */
  lemma {:induction false} MergeTableFind(m: MemTable, t: Table, k: Key)
    requires Sorted(t)
    requires forall x, i :: x in m && 0 <= i < |t| ==> m[x].seqNum < t[i].seqNum
    ensures Lookup(MergeTable(m, t), k) == if Find(t, k).Some? then Find(t, k) else Lookup(m, k)
  {
    if t != [] {
      var front, last := t[..|t| - 1], t[|t| - 1];
      MergeTableFind(m, front, k);
      MergeTableFind(m, front, last.key);
      if Find(front, last.key).Some? {
        LessTotal(last.key, last.key);
      }
    }
  }

  /** The merge keeps, for each key in the scan range, its newest version that is not a tombstone. */
  lemma {:induction false} MergedIsNewestLive(ts: seq<Table>, k: Key)
    requires Stacked(ts)
    ensures Lookup(Merged(ts), k) == if InScan(k) then NewestLive(ts, k) else None
  {
    if ts != [] {
      var front, last := ts[..|ts| - 1], ts[|ts| - 1];
      MergedIsNewestLive(front, k);
      ScanFind(last, k);
      ScanSorted(last);
      ScanMembers(last);
      forall x, i | x in Merged(front) && 0 <= i < |Scan(last)|
        ensures Merged(front)[x].seqNum < Scan(last)[i].seqNum
      {
        MergedIsNewestLive(front, x);
        NewestLiveIsOlder(front, last, x);
      }
      MergeTableFind(Merged(front), Scan(last), k);
    }
  }

  lemma {:induction false} NewestLiveIsOlder(ts: seq<Table>, t: Table, k: Key)
    requires forall i :: 0 <= i < |ts| ==> Older(ts[i], t)
    requires NewestLive(ts, k).Some?
    ensures forall j :: 0 <= j < |t| ==> NewestLive(ts, k).value.seqNum < t[j].seqNum
  {
    var v := Find(ts[|ts| - 1], k);
    if v.Some? && !v.value.deleted {
      assert Older(ts[|ts| - 1], t);
    } else {
      NewestLiveIsOlder(ts[..|ts| - 1], t, k);
    }
  }

  // ----- compaction

  /** The table holds exactly the versions of the map, in key order. */
  ghost predicate Lists(t: Table, m: MemTable) {
    Sorted(t) && forall k :: Find(t, k) == Lookup(m, k)
  }

  /** The tables that `compact` leaves: one that lists the merge, or none when nothing was merged. */
  ghost predicate IsCompaction(ts: seq<Table>, ts': seq<Table>) {
    if Merged(ts) == map[] then ts' == [] else |ts'| == 1 && Lists(ts'[0], Merged(ts))
  }

  /**
   * When compaction leaves a key alone: the memtable has it; or it is in the scan
   * range and its newest version is not a tombstone over an older live one; or it is
   * beyond the scan range and not visible anyway.
   */
  predicate Survives(mem: MemTable, ts: seq<Table>, k: Key) {
    || k in mem
    || (InScan(k) && !(Newest(ts, k).Some? && Newest(ts, k).value.deleted && NewestLive(ts, k).Some?))
    || (!InScan(k) && Live(Newest(ts, k)).None?)
  }

  lemma {:induction false} NewestLiveOfLive(ts: seq<Table>, k: Key)
    requires Newest(ts, k).None? || !Newest(ts, k).value.deleted
    ensures NewestLive(ts, k) == Newest(ts, k)
  {
    if ts != [] && Find(ts[|ts| - 1], k).None? { NewestLiveOfLive(ts[..|ts| - 1], k); }
  }

  lemma {:induction false} NewestLiveIsLive(ts: seq<Table>, k: Key)
    ensures NewestLive(ts, k).Some? ==> !NewestLive(ts, k).value.deleted
  {
    if ts != [] { NewestLiveIsLive(ts[..|ts| - 1], k); }
  }

  lemma NewestAfterCompaction(ts: seq<Table>, ts': seq<Table>, k: Key)
    requires Stacked(ts) && IsCompaction(ts, ts')
    ensures Newest(ts', k) == if InScan(k) then NewestLive(ts, k) else None
  {
    MergedIsNewestLive(ts, k);
    if ts' != [] {
      assert Find(ts'[0], k) == Lookup(Merged(ts), k);
      assert Newest(ts'[..0], k) == None;
    }
  }

  /** Compaction leaves what `get` answers for a key unchanged exactly when the key survives. */
  lemma CompactionExact(mem: MemTable, ts: seq<Table>, ts': seq<Table>, k: Key)
    requires Stacked(ts) && IsCompaction(ts, ts')
    ensures Visible(mem, ts', k) == Visible(mem, ts, k) <==> Survives(mem, ts, k)
  {
    NewestAfterCompaction(ts, ts', k);
    NewestLiveIsLive(ts, k);
    if Newest(ts, k).None? || !Newest(ts, k).value.deleted { NewestLiveOfLive(ts, k); }
  }

  /** A visible key survives unless five bytes 0xff lead it and more follow. */
  lemma VisibleSurvives(mem: MemTable, ts: seq<Table>, k: Key)
    requires Visible(mem, ts, k).Some? && !(|k| > 5 && k[..5] == [255, 255, 255, 255, 255])
    ensures Survives(mem, ts, k)
  {
    InScanIff(k);
  }

  /**
   * A key that is not visible comes back exactly when the tables have a tombstone on
   * top of a live version: the tombstone is dropped before it can hide the version.
   */
  lemma DeletedKeyReturns(mem: MemTable, ts: seq<Table>, ts': seq<Table>, k: Key)
    requires Stacked(ts) && IsCompaction(ts, ts')
    ensures Visible(mem, ts, k).None? && Visible(mem, ts', k).Some? <==>
            k !in mem && InScan(k) && Newest(ts, k).Some? && Newest(ts, k).value.deleted && NewestLive(ts, k).Some?
  {
    NewestAfterCompaction(ts, ts', k);
    NewestLiveIsLive(ts, k);
    if Newest(ts, k).None? || !Newest(ts, k).value.deleted { NewestLiveOfLive(ts, k); }
  }

  lemma {:induction false} NewestLiveBelow(ts: seq<Table>, k: Key, limit: nat)
    requires forall i, j :: 0 <= i < |ts| && 0 <= j < |ts[i]| ==> ts[i][j].seqNum < limit
    ensures NewestLive(ts, k).Some? ==> NewestLive(ts, k).value.seqNum < limit && NewestLive(ts, k).value.key == k
  {
    if ts != [] {
      NewestLiveBelow(ts[..|ts| - 1], k, limit);
    }
  }

  lemma MergedVersion(ts: seq<Table>, k: Key, limit: nat)
    requires Stacked(ts) && k in Merged(ts)
    requires forall i, j :: 0 <= i < |ts| && 0 <= j < |ts[i]| ==> ts[i][j].seqNum < limit
    ensures var v := Merged(ts)[k]; v.key == k && !v.deleted && v.seqNum < limit
  {
    MergedIsNewestLive(ts, k);
    NewestLiveIsLive(ts, k);
    NewestLiveBelow(ts, k, limit);
  }

  lemma MergedKeyed(ts: seq<Table>, limit: nat)
    requires Stacked(ts)
    requires forall i, j :: 0 <= i < |ts| && 0 <= j < |ts[i]| ==> ts[i][j].seqNum < limit
    ensures Keyed(Merged(ts)) && forall k :: k in Merged(ts) ==> !Merged(ts)[k].deleted
  {
    forall k | k in Merged(ts) ensures Merged(ts)[k].key == k && !Merged(ts)[k].deleted {
      MergedVersion(ts, k, limit);
    }
  }

  lemma CompactionKeepsOrder(mem: MemTable, ts: seq<Table>, t: Table, next: nat)
    requires Ordered(mem, ts, next) && Sorted(t)
    requires forall i :: 0 <= i < |t| ==> t[i].key in Merged(ts) && t[i] == Merged(ts)[t[i].key]
    ensures Ordered(mem, [t], next)
  {
    forall i | 0 <= i < |t| ensures t[i].seqNum < next && forall k :: k in mem ==> t[i].seqNum < mem[k].seqNum {
      MergedVersion(ts, t[i].key, next);
      forall k | k in mem ensures t[i].seqNum < mem[k].seqNum { MergedVersion(ts, t[i].key, mem[k].seqNum); }
    }
  }
}
