/**
 * `Compactor::compact` (cpp/storage/compactor.cpp): dump, snapshot, rename,
 * truncate, and what a restart recovers after a crash at any point of it, while
 * other threads append to the log at any time.
 */
module Compactor {
  import opened Basics
  import opened Records
  import opened Streams
  import opened Wal
  import opened Snapshot
  import opened Recovery
  import opened Disks
  import opened SnapshotWriting

  /** The records that a snapshot of a dump loads. */
  function ReadBack(dump: seq<Record>): seq<Record> {
    ReadAll(ReadRecord, WriteAll(RecordBytes, dump), |dump|)
  }

  /** The entries that a restart reads from the log with more bytes in it. */
  function LogWith(fs: Files, bs: Bytes): seq<WalEntry> {
    Replay(fs.log + bs)
  }

  /**
   * What a restart may find after k more bytes have reached the log: all of that on the old
   * snapshot or on the dump; or the dump alone.
   */
  ghost predicate Finds(found: Files, fs: Files, dump: seq<Record>, extra: Bytes, k: nat) {
    && k <= |extra|
    && (|| Recover(found) == ApplyAll(BaseOf(fs), LogWith(fs, extra[..k]))
        || Recover(found) == ApplyAll(Loaded(ReadBack(dump)), LogWith(fs, extra[..k]))
        || Recover(found) == Loaded(ReadBack(dump)))
  }

  /** The same, while other threads append some bytes to the log. */
  ghost predicate CrashState(found: Files, fs: Files, dump: seq<Record>, extra: Bytes) {
    exists k :: Finds(found, fs, dump, extra, k)
  }

  // ----- the states of the disk

  /** Before the rename, after it, and after the truncation. */
  predicate Stage(state: Files, fs: Files, coming: Bytes, image: Bytes) {
    || Amid(state, fs, coming)
    || Amid(state, Renamed(fs, image), coming)
    || (state.snapshot == Some(image) && state.log == [])
  }

  /** Every new state is at one of those stages. */
  ghost predicate Staged(before: seq<Files>, after: seq<Files>, fs: Files, coming: Bytes, image: Bytes) {
    before <= after && forall i :: |before| <= i < |after| ==> Stage(after[i], fs, coming, image)
  }

  lemma LoadImage(timestamp: Word, checksum: nat, dump: seq<Record>)
    requires |dump| < COUNT_LIMIT
    ensures Load(Image(timestamp, checksum, dump)) == Some(ReadBack(dump))
  {
    HeaderBack(timestamp, |dump|, checksum, WriteAll(RecordBytes, dump));
  }

  lemma GrownBy(log: Bytes, start: Bytes, extra: Bytes) returns (k: nat)
    requires start <= log <= start + extra
    ensures k <= |extra| && log == start + extra[..k]
  {
    k := |log| - |start|;
    assert log == (start + extra)[..|log|];
  }

  /** At every stage a restart finds one of three states. */
  lemma StageFound(state: Files, fs: Files, coming: Bytes, image: Bytes, dump: seq<Record>)
    requires Stage(state, fs, coming, image) && Load(image) == Some(ReadBack(dump))
    ensures CrashState(state, fs, dump, coming)
  {
    if fs.log <= state.log <= fs.log + coming && state.snapshot in {fs.snapshot, Some(image)} {
      var k := GrownBy(state.log, fs.log, coming);
      assert Finds(state, fs, dump, coming, k);
    } else {
      assert Finds(state, fs, dump, coming, 0);
    }
  }

  // ----- the code

  lemma StagedBefore(m: Moment, n: Moment, image: Bytes)
    requires Grew(m, n)
    ensures Staged(m.history, n.history, m.files, m.coming, image)
  {
  }

  /** The rename, and appends after it, come after a snapshot written in the temporary file. */
  lemma StagedAfter(m: Moment, n: Moment, o: Moment, image: Bytes)
    requires Grew(m, n) && Grew(Moment(Renamed(n.files, image), n.history + [Renamed(n.files, image)], n.coming), o)
    ensures Staged(m.history, o.history, m.files, m.coming, image)
  {
    var r := Renamed(n.files, image);
    assert Amid(r, Renamed(m.files, image), m.coming);
    forall i | |m.history| <= i < |o.history| ensures Stage(o.history[i], m.files, m.coming, image) {
      if i < |n.history| {
        assert o.history[i] == (n.history + [r])[i] == n.history[i];
      } else if i == |n.history| {
        assert o.history[i] == (n.history + [r])[i] == r;
      } else {
        assert Amid(o.history[i], r, n.coming);
      }
    }
  }

  /**
   * `compact`: dump, snapshot, rename, truncate, while other threads append to the log at
   * any time. Every state the disk passes through is at one of the stages. Neither the
   * result nor the truncation depends on whether the entries could be written.
   */
  method Compact<T(!new)>(
    writer: SnapshotWriter<T>, dump: seq<Record>, now: Word, opens: bool, headerRoom: nat, room: nat -> nat, commitOk: bool)
    returns (success: bool, ghost image: Bytes)
    requires Chunkwise(writer.update, writer.zero) && |dump| < COUNT_LIMIT
    modifies writer, writer.disk
    ensures success == (opens && headerRoom >= HEADER_SIZE && commitOk)
    ensures Staged(old(writer.disk.history), writer.disk.history, old(writer.disk.files), old(writer.disk.coming), image)
    ensures !success ==> Grew(old(writer.disk.Now()), writer.disk.Now())
    ensures success ==> writer.disk.files.snapshot == Some(image) && writer.disk.files.log == []
    ensures opens && headerRoom >= HEADER_SIZE ==> Written(writer, image, now, dump, room)
  {
    ghost var m := writer.disk.Now();
    image := [];
    var ok := writer.Begin(now, opens, headerRoom);
    StagedBefore(m, writer.disk.Now(), image);
    if !ok { return false, image; }
    ghost var begun := writer.disk.Now();
    WriteSnapshot(writer, dump, now, room);
    ghost var n := writer.disk.Now();
    GrewOn(m, begun, n);
    image := writer.disk.files.temp;
    StagedBefore(m, n, image);
    if !commitOk { return false, image; }
    writer.disk.RenameTemp();
    StagedAfter(m, n, writer.disk.Now(), image);
    writer.disk.TruncateLog();
    success := true;
  }

  /** A snapshot of a dump whose names fit loads to the dump exactly when every entry could be written. */
  lemma WrittenExact<T(!new)>(writer: SnapshotWriter<T>, image: Bytes, now: Word, dump: seq<Record>, room: nat -> nat)
    requires Written(writer, image, now, dump, room) && AllGood(Small, dump) && |dump| < COUNT_LIMIT
    ensures Load(image) == Some(dump) <==> AllFit(dump, room)
  {
    if AllFit(dump, room) { LoadExact(now, SumOf(writer, dump), dump); }
  }

  // ----- what a crash loses

  lemma ReadBackExact(dump: seq<Record>)
    ensures ReadBack(dump) == dump <==> AllGood(Small, dump)
  {
    StoredExact(dump, |dump|);
  }

  /** A dump of what a restart would find reads back. */
  lemma DumpReadsBack(fs: Files, dump: seq<Record>)
    requires Loaded(dump) == Recover(fs)
    ensures ReadBack(dump) == dump
  {
    RecoverSmall(fs);
    DumpIsSmall(dump);
    ReadBackExact(dump);
  }

  /** A crash at any point of a compaction loses nothing and adds nothing, when the dump is the state on disk. */
  lemma CompactionCrashSafe(found: Files, fs: Files, dump: seq<Record>)
    requires Loaded(dump) == Recover(fs) && CrashState(found, fs, dump, [])
    ensures Recover(found) == Recover(fs)
  {
    DumpReadsBack(fs, dump);
    ReplayTwice(BaseOf(fs), LogOf(fs));
    var none: Bytes := [];
    var k: nat :| Finds(found, fs, dump, none, k);
    assert fs.log + none[..k] == fs.log;
  }

  lemma LogGrown(fs: Files, es: seq<WalEntry>, ex: seq<WalEntry>, k: nat) returns (m: nat)
    requires fs.log == LogBytes(es) && AllGood(SmallEntry, es + ex) && k <= |LogBytes(ex)|
    ensures m <= |ex| && LogWith(fs, LogBytes(ex)[..k]) == es + ex[..m] && LogOf(fs) == es
  {
    var all := es + ex;
    assert all[..|es|] == es && all[|es|..] == ex;
    m := TornLog(all, |es|, k);
    assert all[..m] == es + ex[..m - |es|];
    m := m - |es|;
    assert forall i :: 0 <= i < |es| ==> es[i] == all[i];
    ReplayExact(es);
  }

  /** A restart finds the state of some files with the first of some entries on top. */
  ghost predicate Prefixed(found: Files, fs: Files, ex: seq<WalEntry>) {
    exists m :: 0 <= m <= |ex| && Recover(found) == ApplyAll(Recover(fs), ex[..m])
  }

  /** While others append entries during a compaction, a crash finds the state on disk with some of them, in order. */
  lemma CrashAmidAppends(found: Files, fs: Files, dump: seq<Record>, es: seq<WalEntry>, ex: seq<WalEntry>)
    requires fs.log == LogBytes(es) && AllGood(SmallEntry, es + ex)
    requires Loaded(dump) == Recover(fs) && CrashState(found, fs, dump, LogBytes(ex))
    ensures Prefixed(found, fs, ex)
  {
    DumpReadsBack(fs, dump);
    var k: nat :| Finds(found, fs, dump, LogBytes(ex), k);
    if Recover(found) == Recover(fs) {
      assert ApplyAll(Recover(fs), ex[..0]) == Recover(found);
    } else {
      var m := LogGrown(fs, es, ex, k);
      ApplyAllConcat(BaseOf(fs), es, ex[..m]);
      ApplyAllConcat(Recover(fs), es, ex[..m]);
      ReplayTwice(BaseOf(fs), es);
      assert Recover(found) == ApplyAll(Recover(fs), ex[..m]);
    }
  }

  /**
   * `compact` while others append entries: before the truncation a crash keeps what had
   * reached the log; the compacted store has the entries if and only if they change nothing.
   */
  method CompactAmid<T(!new)>(
    writer: SnapshotWriter<T>, dump: seq<Record>, now: Word, room: nat -> nat, ghost es: seq<WalEntry>, ghost ex: seq<WalEntry>)
    requires Chunkwise(writer.update, writer.zero) && |dump| < COUNT_LIMIT && AllFit(dump, room)
    requires writer.disk.files.log == LogBytes(es) && writer.disk.coming == LogBytes(ex) && AllGood(SmallEntry, es + ex)
    requires Loaded(dump) == Recover(writer.disk.files)
    modifies writer, writer.disk
    ensures |old(writer.disk.history)| <= |writer.disk.history|
    ensures forall i :: |old(writer.disk.history)| <= i < |writer.disk.history| ==>
      Prefixed(writer.disk.history[i], old(writer.disk.files), ex)
    ensures Recover(writer.disk.files) == Recover(old(writer.disk.files))
    ensures Recover(writer.disk.files) == ApplyAll(Recover(old(writer.disk.files)), ex) <==>
            Shows(Recover(old(writer.disk.files)), ex)
  {
    ghost var fs := writer.disk.files;
    LoadImage(now, SumOf(writer, dump), dump);
    ghost var image;
    var success;
    success, image := Compact(writer, dump, now, true, HEADER_SIZE, room, true);
    StagedIsPrefixed(old(writer.disk.history), writer.disk.history, fs, image, dump, es, ex);
    DumpReadsBack(fs, dump);
    EmptyLog(writer.disk.files);
    ReplayChangesNothing(Recover(fs), ex);
  }

  lemma EmptyLog(fs: Files)
    requires fs.log == []
    ensures Recover(fs) == BaseOf(fs)
  {
  }

  lemma StagedIsPrefixed(
    before: seq<Files>, after: seq<Files>, fs: Files, image: Bytes, dump: seq<Record>, es: seq<WalEntry>, ex: seq<WalEntry>)
    requires fs.log == LogBytes(es) && AllGood(SmallEntry, es + ex) && Loaded(dump) == Recover(fs)
    requires Load(image) == Some(ReadBack(dump)) && Staged(before, after, fs, LogBytes(ex), image)
    ensures forall i :: |before| <= i < |after| ==> Prefixed(after[i], fs, ex)
  {
    forall i | |before| <= i < |after| ensures Prefixed(after[i], fs, ex) {
      StageFound(after[i], fs, LogBytes(ex), image, dump);
      CrashAmidAppends(after[i], fs, dump, es, ex);
    }
  }

  /**
   * Between rename and truncation a restart replays the log onto the dump; that gives
   * the dump back exactly when the dump shows everything the log does.
   */
  lemma CrashBeforeTruncation(fs: Files, timestamp: Word, checksum: nat, dump: seq<Record>)
    requires AllGood(Small, dump) && |dump| < COUNT_LIMIT
    ensures Recover(Renamed(fs, Image(timestamp, checksum, dump))) == Loaded(dump) <==> Shows(Loaded(dump), LogOf(fs))
  {
    ReadBackExact(dump);
    LoadImage(timestamp, checksum, dump);
    ReplayChangesNothing(Loaded(dump), LogOf(fs));
  }

  /**
   * In that window the log on disk has the last word: a key that it touches goes back to
   * what the log says, even where the dump holds a later entry that was never synced.
   */
  lemma UnsyncedEntryGoesBack(fs: Files, timestamp: Word, checksum: nat, dump: seq<Record>, k: Key)
    requires AllGood(Small, dump) && |dump| < COUNT_LIMIT
    ensures Lookup(Recover(Renamed(fs, Image(timestamp, checksum, dump))), k) ==
            if EffectOf(LogOf(fs), k) == Untouched then Lookup(Loaded(dump), k) else EffectOf(LogOf(fs), k).place
  {
    ReadBackExact(dump);
    LoadImage(timestamp, checksum, dump);
    ApplyAllEffect(Loaded(dump), LogOf(fs), k);
  }
}
