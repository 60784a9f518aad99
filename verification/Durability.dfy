/**
 * The log, the snapshot and the compactor together (cpp/storage/wal.cpp,
 * cpp/storage/snapshot.cpp, cpp/storage/compactor.cpp): runs of appends, syncs,
 * compactions and restarts, and what a crash leaves at any point of them.
 */
module Durability {
  import opened Basics
  import opened Records
  import opened Streams
  import opened Wal
  import opened Snapshot
  import opened Recovery
  import opened Disks
  import opened Compactor
  import opened SnapshotWriting

  /**
   * The files, the bytes appended to the log that have not reached its file, the dump of a
   * compaction under way and whether its snapshot is in place; then, for the statement, the
   * state the last restart found, every entry appended since, and how many of them are synced.
   */
  datatype Server = Server(files: Files, buffer: Bytes, dump: Option<seq<Record>>, renamed: bool,
                           start: State, all: seq<WalEntry>, synced: nat)

  datatype Event =
    | Append(e: WalEntry)
    | Spill(n: nat)
    | Sync
    | Dump(es: seq<Record>)
    | Fail
    | Rename(timestamp: Word, checksum: nat)
    | Truncate
    | Restart

  /** Four precautions. The code takes none of them. */
  datatype Policy = Policy(flushesFirst: bool, holdsAppends: bool, trimsLog: bool, limitsNames: bool)

  const CAREFUL: Policy := Policy(true, true, true, true)

  function Live(s: Server): State {
    ApplyAll(s.start, s.all)
  }

  /**
   * A compaction dumps the live state, writes it to the temporary file, renames that and
   * truncates the log; it may fail before the rename. A restart may come at any time.
   */
  ghost predicate Allowed(p: Policy, s: Server, ev: Event) {
    match ev
    case Append(e) => (p.limitsNames ==> SmallEntry(e)) && (p.holdsAppends ==> s.dump.None?)
    case Spill(n) => n <= |s.buffer|
    case Sync => true
    case Dump(es) =>
      s.dump.None? && Loaded(es) == Live(s) && |es| < COUNT_LIMIT && (p.flushesFirst ==> s.synced == |s.all|)
    case Fail => !s.renamed
    case Rename(_, _) => s.dump.Some? && !s.renamed
    case Truncate => s.renamed
    case Restart => true
  }

  /** The log without what follows its last whole entry. */
  function Trimmed(fs: Files): Files {
    fs.(log := LogBytes(LogOf(fs)))
  }

  /** One event. The buffer is in memory: a truncation leaves it, a restart does not. */
  function After(p: Policy, s: Server, ev: Event): Server {
    match ev
    case Append(e) => s.(buffer := s.buffer + EntryBytes(e), all := s.all + [e])
    case Spill(n) =>
      if n <= |s.buffer| then s.(files := WithLog(s.files, s.buffer[..n]), buffer := s.buffer[n..]) else s
    case Sync => s.(files := WithLog(s.files, s.buffer), buffer := [], synced := |s.all|)
    case Dump(es) => s.(dump := Some(es))
    case Fail => s.(dump := None)
    case Rename(timestamp, checksum) =>
      if s.dump.Some? then s.(files := Renamed(s.files, Image(timestamp, checksum, s.dump.value)), renamed := true) else s
    case Truncate => s.(files := s.files.(log := []), dump := None, renamed := false)
    case Restart =>
      Server(if p.trimsLog then Trimmed(s.files) else s.files, [], None, false, Recover(s.files), [], 0)
  }

  const EMPTY: Server := Server(Files(None, [], []), [], None, false, map[], [], 0)

  function StateAfter(p: Policy, evs: seq<Event>): Server {
    if evs == [] then EMPTY else After(p, StateAfter(p, evs[..|evs| - 1]), evs[|evs| - 1])
  }

  ghost predicate Runs(p: Policy, evs: seq<Event>) {
    evs != [] ==> Runs(p, evs[..|evs| - 1]) && Allowed(p, StateAfter(p, evs[..|evs| - 1]), evs[|evs| - 1])
  }

  /** A crash now is followed by a restart that finds the first j entries, every synced one among them, and nothing else. */
  ghost predicate FindsPrefix(s: Server, j: nat) {
    s.synced <= j <= |s.all| && Recover(s.files) == ApplyAll(s.start, s.all[..j])
  }

  ghost predicate Durable(s: Server) {
    exists j :: FindsPrefix(s, j)
  }

  ghost predicate AlwaysDurable(p: Policy) {
    forall evs :: Runs(p, evs) ==> Durable(StateAfter(p, evs))
  }

  // ----- what the precautions keep

  /** The log on its way to the disk: some earlier entries, and those appended since the first f. */
  function Stream(s: Server, head: seq<WalEntry>, f: nat): seq<WalEntry>
    requires f <= |s.all|
  {
    head + s.all[f..]
  }

  /** The log and the buffer hold that stream, up to the synced entries in the log; before it lies the state of the first f. */
  ghost predicate Logged(s: Server, head: seq<WalEntry>, f: nat) {
    && f <= s.synced <= |s.all|
    && AllGood(SmallEntry, Stream(s, head, f))
    && s.files.log + s.buffer == LogBytes(Stream(s, head, f))
    && |LogBytes(head + s.all[f..s.synced])| <= |s.files.log|
    && ApplyAll(BaseOf(s.files), head) == ApplyAll(s.start, s.all[..f])
  }

  /** While a compaction is under way everything is synced, and the dump is the live state. */
  ghost predicate Compacting(s: Server) {
    && (s.dump.Some? ==> s.synced == |s.all| && Loaded(s.dump.value) == Live(s) && |s.dump.value| < COUNT_LIMIT)
    && (s.renamed ==> s.dump.Some? && BaseOf(s.files) == Live(s))
  }

  lemma StreamPush(head: seq<WalEntry>, all: seq<WalEntry>, f: nat, e: WalEntry)
    requires f <= |all|
    ensures head + (all + [e])[f..] == head + all[f..] + [e]
  {
  }

  lemma PushEntry(es: seq<WalEntry>, e: WalEntry)
    ensures LogBytes(es + [e]) == LogBytes(es) + EntryBytes(e)
  {
    AppendOne(es, 0, e);
    assert es[0..] == es && (es + [e])[0..] == es + [e];
  }

  lemma AppendKeeps(s: Server, e: WalEntry, head: seq<WalEntry>, f: nat)
    requires Logged(s, head, f) && SmallEntry(e)
    ensures Logged(s.(buffer := s.buffer + EntryBytes(e), all := s.all + [e]), head, f)
  {
    StreamPush(head, s.all, f, e);
    PushEntry(Stream(s, head, f), e);
    Associates(s.files.log, s.buffer, EntryBytes(e));
    var all := s.all + [e];
    assert all[f..s.synced] == s.all[f..s.synced];
    assert all[..f] == s.all[..f];
  }

  lemma SpillKeeps(s: Server, n: nat, head: seq<WalEntry>, f: nat)
    requires Logged(s, head, f) && n <= |s.buffer|
    ensures Logged(s.(files := WithLog(s.files, s.buffer[..n]), buffer := s.buffer[n..]), head, f)
  {
    assert s.files.log + s.buffer[..n] + s.buffer[n..] == s.files.log + s.buffer;
  }

  lemma SyncKeeps(s: Server, head: seq<WalEntry>, f: nat)
    requires Logged(s, head, f)
    ensures Logged(s.(files := WithLog(s.files, s.buffer), buffer := [], synced := |s.all|), head, f)
  {
    assert s.files.log + s.buffer + [] == s.files.log + s.buffer;
    assert s.all[f..|s.all|] == s.all[f..];
  }

  /** When everything is synced, the buffer is empty. */
  lemma AllSynced(s: Server, head: seq<WalEntry>, f: nat)
    requires Logged(s, head, f) && s.synced == |s.all|
    ensures s.buffer == []
  {
    assert s.all[f..s.synced] == s.all[f..];
    assert |s.files.log + s.buffer| == |s.files.log| + |s.buffer|;
  }

  /** The base and the stream's first entries make the state of as many appended ones. */
  lemma StreamState(s: Server, head: seq<WalEntry>, f: nat, j: nat)
    requires Logged(s, head, f) && f <= j <= |s.all|
    ensures ApplyAll(BaseOf(s.files), head + s.all[f..j]) == ApplyAll(s.start, s.all[..j])
  {
    Rejoin(s.all, f, j);
    SameFrom(BaseOf(s.files), s.start, head, s.all[..f], s.all[f..j]);
  }

  lemma SameFrom(base: State, start: State, head: seq<WalEntry>, front: seq<WalEntry>, more: seq<WalEntry>)
    requires ApplyAll(base, head) == ApplyAll(start, front)
    ensures ApplyAll(base, head + more) == ApplyAll(start, front + more)
  {
    ApplyAllConcat(base, head, more);
    ApplyAllConcat(start, front, more);
  }

  lemma BaseIs(fs: Files, image: Bytes, dump: seq<Record>)
    requires Load(image) == Some(dump)
    ensures BaseOf(Renamed(fs, image)) == Loaded(dump)
  {
  }

  lemma RenamedBase(fs: Files, timestamp: Word, checksum: nat, dump: seq<Record>)
    requires AllGood(Small, dump) && |dump| < COUNT_LIMIT
    ensures BaseOf(Renamed(fs, Image(timestamp, checksum, dump))) == Loaded(dump)
  {
    LoadExact(timestamp, checksum, dump);
    BaseIs(fs, Image(timestamp, checksum, dump), dump);
  }

  /** A dump of the live state has short names. */
  lemma LiveIsSmall(s: Server, head: seq<WalEntry>, f: nat, dump: seq<Record>)
    requires Logged(s, head, f) && Loaded(dump) == Live(s)
    ensures AllGood(Small, dump)
  {
    StreamState(s, head, f, |s.all|);
    assert s.all[..|s.all|] == s.all && s.all[f..|s.all|] == s.all[f..];
    if s.files.snapshot.Some? && Load(s.files.snapshot.value).Some? { LoadedFromFile(s.files.snapshot.value); }
    ApplyAllSmall(BaseOf(s.files), Stream(s, head, f));
    DumpIsSmall(dump);
  }

  /** After the rename the whole log stands before the next entry, and changes nothing. */
  lemma RenameKeeps(s: Server, timestamp: Word, checksum: nat, head: seq<WalEntry>, f: nat)
    requires Logged(s, head, f) && Compacting(s) && s.dump.Some?
    ensures var t := s.(files := Renamed(s.files, Image(timestamp, checksum, s.dump.value)), renamed := true);
            Logged(t, Stream(s, head, f), |s.all|) && Compacting(t)
  {
    var t := s.(files := Renamed(s.files, Image(timestamp, checksum, s.dump.value)), renamed := true);
    var whole := Stream(s, head, f);
    LiveIsSmall(s, head, f, s.dump.value);
    RenamedBase(s.files, timestamp, checksum, s.dump.value);
    StreamState(s, head, f, |s.all|);
    assert s.all[..|s.all|] == s.all && s.all[f..|s.all|] == s.all[f..];
    ReplayTwice(BaseOf(s.files), whole);
    assert Stream(t, whole, |s.all|) == whole && whole + t.all[|s.all|..|s.all|] == whole;
    AllSynced(s, head, f);
    assert s.files.log + s.buffer == s.files.log;
  }

  lemma TruncateKeeps(s: Server, head: seq<WalEntry>, f: nat)
    requires Logged(s, head, f) && Compacting(s) && s.renamed
    ensures Logged(s.(files := s.files.(log := []), dump := None, renamed := false), [], |s.all|)
  {
    AllSynced(s, head, f);
    var t := s.(files := s.files.(log := []), dump := None, renamed := false);
    assert Stream(t, [], |s.all|) == [] && s.all[..|s.all|] == s.all && [] + t.all[|s.all|..|s.all|] == [];
  }

  /** A restart that trims the log begins with the entries it read. */
  lemma RestartKeeps(fs: Files)
    ensures Logged(Server(Trimmed(fs), [], None, false, Recover(fs), [], 0), LogOf(fs), 0)
  {
    ReplayedSmall(fs.log);
    var s := Server(Trimmed(fs), [], None, false, Recover(fs), [], 0);
    assert Stream(s, LogOf(fs), 0) == LogOf(fs) && LogOf(fs) + s.all[0..0] == LogOf(fs);
    assert s.files.log + [] == s.files.log;
  }

  /** With the precautions every event keeps the log and the compaction in order. */
  lemma EventKeeps(p: Policy, s: Server, ev: Event, head: seq<WalEntry>, f: nat) returns (head': seq<WalEntry>, f': nat)
    requires p == CAREFUL && Logged(s, head, f) && Compacting(s) && Allowed(p, s, ev)
    ensures Logged(After(p, s, ev), head', f') && Compacting(After(p, s, ev))
  {
    head', f' := head, f;
    match ev
    case Append(e) => AppendKeeps(s, e, head, f);
    case Spill(n) => SpillKeeps(s, n, head, f);
    case Sync => SyncKeeps(s, head, f);
    case Dump(es) =>
    case Fail =>
    case Rename(timestamp, checksum) =>
      RenameKeeps(s, timestamp, checksum, head, f);
      head', f' := Stream(s, head, f), |s.all|;
    case Truncate =>
      TruncateKeeps(s, head, f);
      head', f' := [], |s.all|;
    case Restart =>
      RestartKeeps(s.files);
      head', f' := LogOf(s.files), 0;
  }

  lemma {:induction false} RunKeeps(p: Policy, evs: seq<Event>) returns (head: seq<WalEntry>, f: nat)
    requires p == CAREFUL && Runs(p, evs)
    ensures Logged(StateAfter(p, evs), head, f) && Compacting(StateAfter(p, evs))
    decreases |evs|
  {
    if evs == [] {
      head, f := [], 0;
      assert Stream(EMPTY, [], 0) == [] && [] + EMPTY.all[0..0] == [];
    } else {
      head, f := RunKeeps(p, evs[..|evs| - 1]);
      head, f := EventKeeps(p, StateAfter(p, evs[..|evs| - 1]), evs[|evs| - 1], head, f);
    }
  }

  lemma Cut(a: Bytes, b: Bytes, c: Bytes, d: Bytes, n: nat)
    requires a + b == c + d && |a| == |c| + n
    ensures n <= |d| && a == c + d[..n]
  {
    assert a == (a + b)[..|a|];
    assert c + d[..n] == (c + d)[..|c| + n];
  }

  /** A log file that holds the first part of a stream, its first k entries whole. */
  lemma ReplayPart(log: Bytes, rest: Bytes, es: seq<WalEntry>, k: nat) returns (m: nat)
    requires log + rest == LogBytes(es) && AllGood(SmallEntry, es)
    requires k <= |es| && |LogBytes(es[..k])| <= |log|
    ensures k <= m <= |es| && Replay(log) == es[..m]
  {
    WriteSplit(EntryBytes, es, k);
    var n := |log| - |LogBytes(es[..k])|;
    Cut(log, rest, LogBytes(es[..k]), LogBytes(es[k..]), n);
    m := TornLog(es, k, n);
  }

  lemma StreamCut(head: seq<WalEntry>, all: seq<WalEntry>, f: nat, j: nat)
    requires f <= j <= |all|
    ensures (head + all[f..])[..|head| + j - f] == head + all[f..j]
  {
  }

  lemma FoundPrefix(s: Server, head: seq<WalEntry>, f: nat, j: nat)
    requires Logged(s, head, f) && s.synced <= j <= |s.all| && LogOf(s.files) == head + s.all[f..j]
    ensures FindsPrefix(s, j)
  {
    StreamState(s, head, f, j);
  }

  /** A log in order is found again, whatever part of the unsynced bytes reached the disk. */
  lemma LoggedIsDurable(s: Server, head: seq<WalEntry>, f: nat)
    requires Logged(s, head, f)
    ensures Durable(s)
  {
    StreamCut(head, s.all, f, s.synced);
    var m := ReplayPart(s.files.log, s.buffer, Stream(s, head, f), |head| + s.synced - f);
    var j := m - |head| + f;
    StreamCut(head, s.all, f, j);
    FoundPrefix(s, head, f, j);
  }

  // ----- what happens without one of them

  ghost predicate Reached(p: Policy, evs: seq<Event>, s: Server) {
    Runs(p, evs) && StateAfter(p, evs) == s
  }

  lemma Extend(p: Policy, evs: seq<Event>, s: Server, ev: Event) returns (more: seq<Event>, t: Server)
    requires Reached(p, evs, s) && Allowed(p, s, ev)
    ensures t == After(p, s, ev) && Reached(p, more, t)
  {
    more, t := evs + [ev], After(p, s, ev);
    assert more[..|more| - 1] == evs;
  }

  lemma ApplyOne(s: State, e: WalEntry)
    ensures ApplyAll(s, [e]) == Apply(s, e)
  {
    assert [e][..0] == [];
  }

  /** When everything is synced, a restart must find it all. */
  lemma MustFindAll(s: Server)
    requires s.synced == |s.all| && Recover(s.files) != Live(s)
    ensures !Durable(s)
  {
    assert s.all[..|s.all|] == s.all;
  }

  /** With one entry, and that synced, a restart must find its key. */
  lemma OnlyWhole(s: Server, e: WalEntry)
    requires s.all == [e] && s.synced == 1 && e.op == SET && KeyOf(e) !in Recover(s.files)
    ensures !Durable(s)
  {
    ApplyOne(s.start, e);
    MustFindAll(s);
  }

  lemma LiveAfter(s: Server, e: WalEntry)
    ensures ApplyAll(s.start, s.all + [e]) == Apply(Live(s), e)
  {
    ApplyAllConcat(s.start, s.all, [e]);
    ApplyOne(Live(s), e);
  }

  /** The snapshot of a dump is put in place, and the log is cut away. */
  lemma CompactionEnds(p: Policy, evs: seq<Event>, s: Server, timestamp: Word, checksum: nat) returns (more: seq<Event>, t: Server)
    requires Reached(p, evs, s) && s.dump.Some? && !s.renamed && AllGood(Small, s.dump.value) && |s.dump.value| < COUNT_LIMIT
    ensures Reached(p, more, t) && t.start == s.start && t.all == s.all && t.synced == s.synced
    ensures Recover(t.files) == Loaded(s.dump.value)
  {
    more, t := Extend(p, evs, s, Rename(timestamp, checksum));
    RenamedBase(s.files, timestamp, checksum, s.dump.value);
    more, t := Extend(p, more, t, Truncate);
    EmptyLog(t.files);
  }

  /**
   * At any time, any entry that changes the store can be lost although it is synced: it is
   * appended after the dump, and the log with it is cut away.
   */
  lemma AppendLost(p: Policy, evs: seq<Event>, s: Server, e: WalEntry, dump: seq<Record>, timestamp: Word, checksum: nat)
    returns (more: seq<Event>, t: Server)
    requires Reached(p, evs, s) && s.dump.None? && !s.renamed && !p.holdsAppends
    requires Loaded(dump) == Live(s) && |dump| < COUNT_LIMIT && AllGood(Small, dump)
    requires SmallEntry(e) && Apply(Live(s), e) != Live(s)
    ensures Reached(p, more, t) && t.all == s.all + [e] && t.synced == |t.all| && !Durable(t)
  {
    more, t := Extend(p, evs, s, Sync);
    more, t := Extend(p, more, t, Dump(dump));
    more, t := Extend(p, more, t, Append(e));
    more, t := Extend(p, more, t, Sync);
    more, t := CompactionEnds(p, more, t, timestamp, checksum);
    LiveAfter(s, e);
    MustFindAll(t);
  }

  /** An entry with a name beyond the limit is not found again. */
  lemma LongNameLost(p: Policy, e: WalEntry) returns (evs: seq<Event>, s: Server)
    requires !p.limitsNames && e.op == SET && !SmallEntry(e)
    ensures Reached(p, evs, s) && s.all == [e] && s.synced == 1 && !Durable(s)
  {
    evs, s := Extend(p, [], EMPTY, Append(e));
    evs, s := Extend(p, evs, s, Sync);
    RecoverSmall(s.files);
    assert !SmallKey(KeyOf(e));
    OnlyWhole(s, e);
  }

  /** Before the truncation, what the log does is done again to a dump in which it was undone by entries not yet synced. */
  lemma ClearedComesBack(p: Policy, a: WalEntry, clear: WalEntry, b: WalEntry, dump: seq<Record>, timestamp: Word, checksum: nat)
    returns (evs: seq<Event>, s: Server)
    requires !p.flushesFirst && SmallEntry(a) && SmallEntry(b) && SmallEntry(clear)
    requires a.op == b.op == SET && clear.op == FLUSH && KeyOf(a) != KeyOf(b)
    requires Loaded(dump) == Apply(map[], b) && |dump| < COUNT_LIMIT && AllGood(Small, dump)
    ensures Reached(p, evs, s) && !Durable(s)
  {
    ThreeStates(a, clear, b);
    evs, s := Extend(p, [], EMPTY, Append(a));
    evs, s := Extend(p, evs, s, Sync);
    evs, s := Extend(p, evs, s, Append(clear));
    evs, s := Extend(p, evs, s, Append(b));
    assert s.all == [a, clear, b];
    evs, s := Extend(p, evs, s, Dump(dump));
    OneLogged(s.files.log, a);
    RenamedBase(s.files, timestamp, checksum, dump);
    evs, s := Extend(p, evs, s, Rename(timestamp, checksum));
    ApplyOne(Loaded(dump), a);
    BothThere(s, a, clear, b);
  }

  lemma OneLogged(log: Bytes, e: WalEntry)
    requires SmallEntry(e) && log == [] + ([] + EntryBytes(e))
    ensures Replay(log) == [e]
  {
    PushEntry([], e);
    assert [] + [e] == [e] && [] + EntryBytes(e) == log;
    ReplayExact([e]);
  }

  lemma ThreeStates(a: WalEntry, clear: WalEntry, b: WalEntry)
    requires a.op == b.op == SET && clear.op == FLUSH
    ensures ApplyAll(map[], [a]) == Apply(map[], a) && ApplyAll(map[], [a, clear]) == map[]
    ensures ApplyAll(map[], [a, clear, b]) == Apply(map[], b)
  {
    ApplyOne(map[], a);
    assert [a, clear][..1] == [a] && [a, clear, b][..2] == [a, clear];
  }

  lemma BothThere(s: Server, a: WalEntry, clear: WalEntry, b: WalEntry)
    requires a.op == b.op == SET && clear.op == FLUSH && KeyOf(a) != KeyOf(b)
    requires s.start == map[] && s.all == [a, clear, b] && s.synced == 1
    requires KeyOf(a) in Recover(s.files) && KeyOf(b) in Recover(s.files)
    ensures !Durable(s)
  {
    ThreeStates(a, clear, b);
    forall j ensures !FindsPrefix(s, j) {
      if j == 1 { assert s.all[..1] == [a]; }
      if j == 2 { assert s.all[..2] == [a, clear]; }
      if j == 3 { assert s.all[..3] == [a, clear, b]; }
    }
  }

  /** An entry cut short by a crash takes the first bytes of the next one for its own. */
  lemma NextSpoilt(p: Policy, torn: WalEntry, e: WalEntry) returns (evs: seq<Event>, s: Server)
    requires !p.trimsLog && SmallEntry(torn) && SmallEntry(e) && e.op == SET && |e.rec.first| == 4
    ensures Reached(p, evs, s) && !Durable(s)
  {
    evs, s := Extend(p, [], EMPTY, Append(torn));
    evs, s := Extend(p, evs, s, Spill(1));
    evs, s := Extend(p, evs, s, Restart);
    OneByte(s.files.log);
    evs, s := Extend(p, evs, s, Append(e));
    evs, s := Extend(p, evs, s, Sync);
    Spoilt(s.files.log, e);
    OnlyWhole(s, e);
  }

  lemma OneByte(log: Bytes)
    requires |log| == 1
    ensures Replay(log) == []
  {
    assert log[1..] == [];
  }

  /** The operation byte is taken for the low byte of a length, which is then beyond the limit. */
  lemma Spoilt(log: Bytes, e: WalEntry)
    requires |log| == |EntryBytes(e)| + 1 && log[1..] == EntryBytes(e) && e.op == SET && |e.rec.first| == 4
    ensures Replay(log) == []
  {
    var bs := log[1..];
    LengthByte(e.rec);
    assert bs[..2] == [SET, RecordBytes(e.rec)[0]];
    DecodeTwo(bs[..2]);
  }

  lemma DecodeTwo(bs: Bytes)
    requires |bs| == 2
    ensures Decode(bs) == bs[0] as nat + 256 * bs[1] as nat
  {
    var high := bs[1..];
    assert high[1..] == [];
    assert Decode(high) == high[0] as nat;
  }

  lemma LengthByte(r: Record)
    requires |r.first| == 4
    ensures RecordBytes(r)[0] == 4
  {
    assert RecordBytes(r)[0] == NameBytes(r.first)[0] == Encode(|r.first|, 2)[0];
  }

  lemma Careless(p: Policy)
    requires p != CAREFUL
    ensures !AlwaysDurable(p)
  {
    var a, clear, b := WalEntry(SET, Record([], [], 0, 0, 0)), WalEntry(FLUSH, Record([], [], 0, 0, 0)),
      WalEntry(SET, Record([0, 0, 0, 0], [], 0, 0, 0));
    if !p.holdsAppends {
      assert Live(EMPTY) == map[] == Loaded([]) && KeyOf(a) in Apply(map[], a);
      var evs, s := AppendLost(p, [], EMPTY, a, [], 0, 0);
    } else if !p.flushesFirst {
      var dump := [Record([], [0, 0, 0, 0], 0, 0, 0)];
      assert dump[..0] == [];
      var evs, s := ClearedComesBack(p, a, clear, b, dump, 0, 0);
    } else if !p.trimsLog {
      var evs, s := NextSpoilt(p, a, b);
    } else {
      var evs, s := LongNameLost(p, WalEntry(SET, Record(seq(MAX_NAME + 1, i => 0), [], 0, 0, 0)));
    }
  }

  /** A run of appends, syncs, compactions and restarts is durable throughout if and only if all four precautions are taken. */
  lemma DurableIff(p: Policy)
    ensures AlwaysDurable(p) <==> p.flushesFirst && p.holdsAppends && p.trimsLog && p.limitsNames
  {
    if p == CAREFUL {
      forall evs | Runs(p, evs) ensures Durable(StateAfter(p, evs)) {
        var head, f := RunKeeps(p, evs);
        LoggedIsDurable(StateAfter(p, evs), head, f);
      }
    } else {
      Careless(p);
    }
  }

  // ----- the compaction is such a run

  function Appended(s: Server, ex: seq<WalEntry>): Server {
    s.(buffer := s.buffer + LogBytes(ex), all := s.all + ex)
  }

  lemma AppendedNone(s: Server, ex: seq<WalEntry>)
    requires ex == []
    ensures Appended(s, ex) == s
  {
    assert s.buffer + [] == s.buffer && s.all + ex == s.all;
  }

  lemma AppendedFirst(s: Server, ex: seq<WalEntry>)
    requires ex != []
    ensures Appended(s.(buffer := s.buffer + EntryBytes(ex[0]), all := s.all + [ex[0]]), ex[1..]) == Appended(s, ex)
  {
    Associates(s.buffer, EntryBytes(ex[0]), LogBytes(ex[1..]));
    Associates(s.all, [ex[0]], ex[1..]);
    assert [ex[0]] + ex[1..] == ex;
  }

  lemma {:induction false} AppendEach(p: Policy, evs: seq<Event>, s: Server, ex: seq<WalEntry>) returns (more: seq<Event>, t: Server)
    requires Reached(p, evs, s) && (p.limitsNames ==> AllGood(SmallEntry, ex)) && (p.holdsAppends ==> s.dump.None? || ex == [])
    ensures Reached(p, more, t) && t == Appended(s, ex)
    decreases |ex|
  {
    if ex == [] {
      more, t := evs, s;
      AppendedNone(s, ex);
    } else {
      more, t := Extend(p, evs, s, Append(ex[0]));
      more, t := AppendEach(p, more, t, ex[1..]);
      AppendedFirst(s, ex);
    }
  }

  /** Every stage of a compaction is reached by a run, as far as a restart can tell. */
  lemma StageReached(p: Policy, evs: seq<Event>, s: Server, ex: seq<WalEntry>, dump: seq<Record>, timestamp: Word, checksum: nat, found: Files)
    returns (more: seq<Event>, t: Server)
    requires Reached(p, evs, s) && Allowed(p, s, Dump(dump)) && !s.renamed
    requires (p.limitsNames ==> AllGood(SmallEntry, ex)) && (p.holdsAppends ==> ex == [])
    requires Stage(found, s.files, s.buffer + LogBytes(ex), Image(timestamp, checksum, dump))
    ensures Reached(p, more, t) && Alike(t.files, found)
  {
    more, t := Extend(p, evs, s, Dump(dump));
    more, t := AppendEach(p, more, t, ex);
    if Amid(found, s.files, t.buffer) {
      var k := GrownBy(found.log, s.files.log, t.buffer);
      more, t := Extend(p, more, t, Spill(k));
    } else if Amid(found, Renamed(s.files, Image(timestamp, checksum, dump)), t.buffer) {
      var k := GrownBy(found.log, s.files.log, t.buffer);
      more, t := Extend(p, more, t, Spill(k));
      more, t := Extend(p, more, t, Rename(timestamp, checksum));
    } else {
      more, t := Extend(p, more, t, Rename(timestamp, checksum));
      more, t := Extend(p, more, t, Truncate);
    }
  }

  /** Some run leaves files that a restart cannot tell from these. */
  ghost predicate Reachable(p: Policy, fs: Files) {
    exists evs, s :: Reached(p, evs, s) && Alike(s.files, fs)
  }

  /** Whatever `compact` comes to, every state it takes the disk through is one of a run that goes on from the server's. */
  method CompactIsRun<T(!new)>(
    writer: SnapshotWriter<T>, dump: seq<Record>, now: Word, opens: bool, headerRoom: nat, room: nat -> nat, commitOk: bool,
    ghost p: Policy, ghost evs: seq<Event>, ghost s: Server, ghost ex: seq<WalEntry>)
    returns (success: bool)
    requires Chunkwise(writer.update, writer.zero) && AllFit(dump, room)
    requires Reached(p, evs, s) && Allowed(p, s, Dump(dump)) && !s.renamed
    requires (p.limitsNames ==> AllGood(SmallEntry, ex)) && (p.holdsAppends ==> ex == [])
    requires writer.disk.files == s.files && writer.disk.coming == s.buffer + LogBytes(ex)
    modifies writer, writer.disk
    ensures |old(writer.disk.history)| <= |writer.disk.history|
    ensures forall i :: |old(writer.disk.history)| <= i < |writer.disk.history| ==> Reachable(p, writer.disk.history[i])
  {
    ghost var image, m := [], writer.disk.Now();
    success, image := Compact(writer, dump, now, opens, headerRoom, room, commitOk);
    if !success { StagedBefore(m, writer.disk.Now(), Image(now, SumOf(writer, dump), dump)); }
    StagedIsReachable(p, evs, s, ex, dump, now, SumOf(writer, dump), m.history, writer.disk.history);
  }

  lemma StagedIsReachable(p: Policy, evs: seq<Event>, s: Server, ex: seq<WalEntry>, dump: seq<Record>, timestamp: Word,
                          checksum: nat, before: seq<Files>, after: seq<Files>)
    requires Reached(p, evs, s) && Allowed(p, s, Dump(dump)) && !s.renamed
    requires (p.limitsNames ==> AllGood(SmallEntry, ex)) && (p.holdsAppends ==> ex == [])
    requires Staged(before, after, s.files, s.buffer + LogBytes(ex), Image(timestamp, checksum, dump))
    ensures forall i :: |before| <= i < |after| ==> Reachable(p, after[i])
  {
    forall i | |before| <= i < |after| ensures Reachable(p, after[i]) {
      var more, t := StageReached(p, evs, s, ex, dump, timestamp, checksum, after[i]);
    }
  }
}
