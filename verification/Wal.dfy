/**
 * The write-ahead log of cpp/storage/wal.cpp: the byte format, what a log cut
 * by a crash replays to, and the log as it is appended to and synced.
 */
module Wal {
  import opened Basics
  import opened Records
  import opened Streams

  /** An operation byte, then a record whose names are the collection and the id. */
  datatype WalEntry = WalEntry(op: Byte, rec: Record)

  function EntryBytes(e: WalEntry): Bytes {
    [e.op] + RecordBytes(e.rec)
  }

  function ReadEntry(bs: Bytes): Option<(WalEntry, Bytes)> {
    if bs == [] then None
    else
      var (rec, rest) :- ReadRecord(bs[1..]);
      Some((WalEntry(bs[0], rec), rest))
  }

  predicate SmallEntry(e: WalEntry) {
    Small(e.rec)
  }

  function LogBytes(es: seq<WalEntry>): Bytes {
    WriteAll(EntryBytes, es)
  }

  /** The entries `replay` hands on; a file holds at most one entry per byte. */
  function Replay(file: Bytes): seq<WalEntry> {
    ReadAll(ReadEntry, file, |file|)
  }

  lemma ReadEntryBack(e: WalEntry, rest: Bytes)
    requires SmallEntry(e)
    ensures ReadEntry(EntryBytes(e) + rest) == Some((e, rest))
  {
    assert (EntryBytes(e) + rest)[1..] == RecordBytes(e.rec) + rest;
    ReadRecordBack(e.rec, rest);
  }

  lemma ReadEntryShort(e: WalEntry, n: nat)
    requires SmallEntry(e) && n < |EntryBytes(e)|
    ensures ReadEntry(EntryBytes(e)[..n]) == None
  {
    if n > 0 {
      assert EntryBytes(e)[..n][1..] == RecordBytes(e.rec)[..n - 1];
      ReadRecordShort(e.rec, n - 1);
    }
  }

  lemma EntryCodec()
    ensures Codec(EntryBytes, ReadEntry, SmallEntry)
  {
    forall e, rest | SmallEntry(e) ensures ReadEntry(EntryBytes(e) + rest) == Some((e, rest)) { ReadEntryBack(e, rest); }
    forall e, n | SmallEntry(e) && 0 <= n < |EntryBytes(e)| ensures ReadEntry(EntryBytes(e)[..n]) == None {
      ReadEntryShort(e, n);
    }
  }

  /** Names of up to 1024 bytes go out whole, each behind its length, the collection before the id. */
  lemma EntryLayout(op: Byte, collection: Bytes, id: Bytes, lat: Word, lon: Word, timestamp: Word)
    requires |collection| <= 1024 && |id| <= 1024
    ensures EntryBytes(WalEntry(op, Record(collection, id, lat, lon, timestamp))) ==
            [op] + ([(|collection| % 256) as Byte, (|collection| / 256) as Byte] + collection +
                    ([(|id| % 256) as Byte, (|id| / 256) as Byte] + id) +
                    (Encode(lat, 8) + Encode(lon, 8) + Encode(timestamp, 8)))
  {
    WholeName(collection);
    WholeName(id);
    TwoBytes(|collection|);
    TwoBytes(|id|);
  }

  lemma TwoBytes(n: nat)
    requires n < 0x1_0000
    ensures Encode(n, 2) == [(n % 256) as Byte, (n / 256) as Byte]
  {
    assert Encode(n, 2) == [(n % 256) as Byte] + Encode(n / 256, 1);
  }

  /** A log replays to what was appended exactly when every name is within the limit. */
  lemma ReplayExact(es: seq<WalEntry>)
    ensures Replay(LogBytes(es)) == es <==> AllGood(SmallEntry, es)
    ensures Replay(LogBytes(es)) == es <==>
            forall i :: 0 <= i < |es| ==> |es[i].rec.first| <= 1024 && |es[i].rec.second| <= 1024
  {
    EntryCodec();
    WriteAllGrows(EntryBytes, ReadEntry, SmallEntry, es);
    StreamExact(EntryBytes, ReadEntry, SmallEntry, es, |LogBytes(es)|);
  }

  /** A log whose first k entries are whole and whose rest is cut anywhere replays to a prefix with those k. */
  lemma TornLog(es: seq<WalEntry>, k: nat, n: nat) returns (m: nat)
    requires AllGood(SmallEntry, es) && k <= |es| && n <= |LogBytes(es[k..])|
    ensures k <= m <= |es|
    ensures Replay(LogBytes(es[..k]) + LogBytes(es[k..])[..n]) == es[..m]
  {
    EntryCodec();
    m := TornTail(EntryBytes, ReadEntry, SmallEntry, es, k, n);
  }

  lemma ReplayNext(bs: Bytes)
    requires ReadEntry(bs).Some?
    ensures |ReadEntry(bs).value.1| < |bs|
    ensures Replay(bs) == [ReadEntry(bs).value.0] + Replay(ReadEntry(bs).value.1)
  {
    EntryCodec();
    ReadAllNext(EntryBytes, ReadEntry, SmallEntry, bs);
  }

  /** The `replay` loop over the file. */
  method ReplayFile(file: Bytes) returns (handled: seq<WalEntry>)
    ensures handled == Replay(file)
  {
    handled := [];
    var rest := file;
    var r := ReadEntry(rest);
    while r.Some?
      invariant r == ReadEntry(rest)
      invariant Replay(file) == handled + Replay(rest)
      decreases |rest|
    {
      ReplayNext(rest);
      handled := handled + [r.value.0];
      rest := r.value.1;
      r := ReadEntry(rest);
    }
  }

  class WAL {
    /** Bytes that have reached the disk, and bytes written since the last sync that succeeded. */
    var disk: Bytes
    var buffered: Bytes
    var pending: nat
    const syncEvery: nat
    /** What was appended since the log was last truncated, how many entries of it are synced, and whether a sync has failed since one did not. */
    ghost var appended: seq<WalEntry>
    ghost var synced: nat
    ghost var missed: bool

    /** The synced entries are on the disk and the others are buffered. */
    ghost predicate Stored()
      reads this
    {
      synced <= |appended| && disk == LogBytes(appended[..synced]) && buffered == LogBytes(appended[synced..])
    }

    /** Unless a sync has failed, the counter covers what is not synced, and more after a truncation, and is below the limit. */
    ghost predicate Valid()
      reads this
    {
      Stored() && (!missed ==> |appended| - synced <= pending && (pending == 0 || pending < syncEvery))
    }

    constructor (every: nat)
      ensures Valid() && appended == [] && !missed
    {
      disk, buffered, pending, syncEvery := [], [], 0, every;
      appended, synced, missed := [], 0, false;
    }

    /** `writeEntry`: the bytes go to the stream. */
    method WriteEntry(e: WalEntry)
      requires Stored()
      modifies this`buffered, this`appended
      ensures Stored() && appended == old(appended) + [e]
    {
      AppendOne(appended, synced, e);
      buffered := buffered + EntryBytes(e);
      appended := appended + [e];
    }

    /** `append`; whether the sync succeeds, if one is due, is for the disk to say. */
    method Append(e: WalEntry, syncs: bool) returns (ok: bool)
      requires Valid()
      modifies this
      ensures Valid() && appended == old(appended) + [e]
      ensures ok == (old(pending) + 1 < syncEvery || syncs)
      ensures old(pending) + 1 >= syncEvery && syncs ==> synced == |appended| && pending == 0 && !missed
      ensures old(pending) + 1 < syncEvery || !syncs ==>
        synced == old(synced) && pending == old(pending) + 1 && disk == old(disk) && missed == (old(missed) || !ok)
    {
      WriteEntry(e);
      pending := pending + 1;
      if pending >= syncEvery {
        if !syncs {
          missed := true;
          return false;
        }
        Sync();
        pending := 0;
      }
      return true;
    }

    /** `flush`, which starts the count again even when the sync fails. */
    method Flush(syncs: bool) returns (ok: bool)
      requires Valid()
      modifies this
      ensures Valid() && appended == old(appended) && pending == 0 && ok == syncs
      ensures syncs ==> synced == |appended| && !missed
      ensures !syncs ==> synced == old(synced) && disk == old(disk) && missed
    {
      if syncs { Sync(); } else { missed := true; }
      pending := 0;
      ok := syncs;
    }

    /** Everything written reaches the disk. */
    method Sync()
      requires Stored()
      modifies this`disk, this`buffered, this`synced, this`missed
      ensures Stored() && synced == |appended| && !missed
    {
      SyncAll(appended, synced, |appended|);
      disk, buffered := disk + buffered, [];
      synced, missed := |appended|, false;
    }

    /** `truncate`, which leaves the counter as it was. */
    method Truncate()
      requires Valid()
      modifies this
      ensures Valid() && appended == [] && disk == [] && synced == 0 && pending == old(pending) && missed == old(missed)
    {
      disk, buffered := [], [];
      appended, synced := [], 0;
    }

    /**
     * Whatever part of the unsynced bytes a crash leaves behind, replay gives back a
     * prefix of what was appended, and everything that was synced is in it: all but the
     * last `syncEvery - 1` entries at most, unless a sync has failed since.
     */
    lemma CrashKeepsPrefix(n: nat) returns (m: nat)
      requires Valid() && AllGood(SmallEntry, appended) && n <= |buffered|
      ensures synced <= m <= |appended|
      ensures missed || m == |appended| || |appended| - m < syncEvery
      ensures Replay(disk + buffered[..n]) == appended[..m]
    {
      m := TornLog(appended, synced, n);
    }
  }

  lemma SyncAll(es: seq<WalEntry>, k: nat, n: nat)
    requires k <= n == |es|
    ensures LogBytes(es[..k]) + LogBytes(es[k..]) == LogBytes(es[..n]) && LogBytes(es[n..]) == []
  {
    WriteSplit(EntryBytes, es, k);
    assert es[..n] == es && es[n..] == [];
  }

  lemma AppendOne(es: seq<WalEntry>, k: nat, e: WalEntry)
    requires k <= |es|
    ensures (es + [e])[..k] == es[..k]
    ensures LogBytes((es + [e])[k..]) == LogBytes(es[k..]) + EntryBytes(e)
  {
    assert (es + [e])[k..] == es[k..] + [e];
    WriteAllConcat(EntryBytes, es[k..], [e]);
    assert [e][1..] == [];
  }
}
