/**
 * What a restart rebuilds: the snapshot is loaded and the log is replayed onto
 * it, last writer wins.
 */
module Recovery {
  import opened Basics
  import opened Records
  import opened Streams
  import opened Wal
  import opened Snapshot

  /** Collection and id. */
  type Key = (Bytes, Bytes)
  datatype Place = Place(lat: Word, lon: Word, timestamp: Word)
  type State = map<Key, Place>

  const SET: Byte := 1
  const DELETE: Byte := 2
  const FLUSH: Byte := 3

  function KeyOf(e: WalEntry): Key { (e.rec.first, e.rec.second) }

  function PlaceOf(r: Record): Place { Place(r.lat, r.lon, r.timestamp) }

  /** One log entry applied: a flush empties the store, an unknown operation does nothing. */
  function Apply(s: State, e: WalEntry): State {
    if e.op == SET then s[KeyOf(e) := PlaceOf(e.rec)]
    else if e.op == DELETE then s - {KeyOf(e)}
    else if e.op == FLUSH then map[]
    else s
  }

  function ApplyAll(s: State, log: seq<WalEntry>): State {
    if log == [] then s else Apply(ApplyAll(s, log[..|log| - 1]), log[|log| - 1])
  }

  /** A snapshot entry carries the id first and the collection second. */
  function Loaded(es: seq<Record>): State {
    if es == [] then map[]
    else
      var r := es[|es| - 1];
      Loaded(es[..|es| - 1])[(r.second, r.first) := PlaceOf(r)]
  }

  function Lookup(s: State, k: Key): Option<Place> {
    if k in s then Some(s[k]) else None
  }

  /** What a log does to a key, whatever was there before. */
  datatype Effect = Untouched | Leaves(place: Option<Place>)

  function EffectOf(log: seq<WalEntry>, k: Key): Effect {
    if log == [] then Untouched
    else
      var e := log[|log| - 1];
      if e.op == SET && KeyOf(e) == k then Leaves(Some(PlaceOf(e.rec)))
      else if e.op == DELETE && KeyOf(e) == k then Leaves(None)
      else if e.op == FLUSH then Leaves(None)
      else EffectOf(log[..|log| - 1], k)
  }

  lemma {:induction false} ApplyAllEffect(s: State, log: seq<WalEntry>, k: Key)
    ensures Lookup(ApplyAll(s, log), k) == if EffectOf(log, k) == Untouched then Lookup(s, k) else EffectOf(log, k).place
  {
    if log != [] { ApplyAllEffect(s, log[..|log| - 1], k); }
  }

  /** An entry that neither sets nor deletes the key, nor empties the store. */
  predicate LeavesAlone(e: WalEntry, k: Key) {
    e.op != 3 && ((e.op == 1 || e.op == 2) ==> k != (e.rec.first, e.rec.second))
  }

  lemma {:induction false} QuietLog(log: seq<WalEntry>, k: Key)
    requires forall i :: 0 <= i < |log| ==> LeavesAlone(log[i], k)
    ensures EffectOf(log, k) == Untouched
  {
    if log != [] { QuietLog(log[..|log| - 1], k); }
  }

  /** Operation 1 sets the key, 2 deletes it and 3 empties the store, and the last entry that bears on a key decides. */
  lemma LastEntryDecides(s: State, before: seq<WalEntry>, e: WalEntry, after: seq<WalEntry>, k: Key)
    requires !LeavesAlone(e, k) && forall i :: 0 <= i < |after| ==> LeavesAlone(after[i], k)
    ensures Lookup(ApplyAll(s, before + [e] + after), k) ==
            if e.op == 1 then Some(Place(e.rec.lat, e.rec.lon, e.rec.timestamp)) else None
  {
    QuietLog(after, k);
    ApplyAllConcat(s, before + [e], after);
    ApplyAllEffect(ApplyAll(s, before + [e]), after, k);
    ApplyAllConcat(s, before, [e]);
    assert [e][..0] == [];
  }

  /** A snapshot record with the id and then the collection leaves its place under that key, unless a later one does. */
  lemma {:induction false} LastRecordDecides(before: seq<Record>, r: Record, after: seq<Record>)
    requires forall i :: 0 <= i < |after| ==> after[i].first != r.first || after[i].second != r.second
    ensures Lookup(Loaded(before + [r] + after), (r.second, r.first)) == Some(Place(r.lat, r.lon, r.timestamp))
    decreases |after|
  {
    var es := before + [r] + after;
    if after == [] {
      assert es == before + [r];
    } else {
      LastRecordDecides(before, r, after[..|after| - 1]);
      assert es[..|es| - 1] == before + [r] + after[..|after| - 1];
    }
  }

  /** The state already shows everything the log does. */
  ghost predicate Shows(s: State, log: seq<WalEntry>) {
    forall k :: EffectOf(log, k) == Untouched || EffectOf(log, k).place == Lookup(s, k)
  }

  lemma SameLookups(a: State, b: State)
    requires forall k :: Lookup(a, k) == Lookup(b, k)
    ensures a == b
  {
    forall k ensures k in a <==> k in b { assert Lookup(a, k) == Lookup(b, k); }
    forall k | k in a ensures a[k] == b[k] { assert Lookup(a, k) == Lookup(b, k); }
  }

  /** Replaying a log changes nothing exactly when the state already shows what the log does. */
  lemma ReplayChangesNothing(s: State, log: seq<WalEntry>)
    ensures ApplyAll(s, log) == s <==> Shows(s, log)
  {
    if Shows(s, log) {
      forall k ensures Lookup(ApplyAll(s, log), k) == Lookup(s, k) { ApplyAllEffect(s, log, k); }
      SameLookups(ApplyAll(s, log), s);
    }
    if ApplyAll(s, log) == s {
      forall k ensures EffectOf(log, k) == Untouched || EffectOf(log, k).place == Lookup(s, k) {
        ApplyAllEffect(s, log, k);
      }
    }
  }

  /** Replaying a log onto its own final state changes nothing. */
  lemma ReplayTwice(s: State, log: seq<WalEntry>)
    ensures ApplyAll(ApplyAll(s, log), log) == ApplyAll(s, log)
  {
    forall k ensures EffectOf(log, k) == Untouched || EffectOf(log, k).place == Lookup(ApplyAll(s, log), k) {
      ApplyAllEffect(s, log, k);
    }
    ReplayChangesNothing(ApplyAll(s, log), log);
  }

  lemma {:induction false} ApplyAllConcat(s: State, a: seq<WalEntry>, b: seq<WalEntry>)
    ensures ApplyAll(s, a + b) == ApplyAll(ApplyAll(s, a), b)
  {
    if b == [] {
      assert a + b == a;
    } else {
      ApplyAllConcat(s, a, b[..|b| - 1]);
      assert (a + b)[..|a + b| - 1] == a + b[..|b| - 1];
    }
  }

  // ----- the lengths of names

  predicate SmallKey(k: Key) {
    |k.0| <= MAX_NAME && |k.1| <= MAX_NAME
  }

  ghost predicate SmallKeys(s: State) {
    forall k :: k in s ==> SmallKey(k)
  }

  lemma {:induction false} LoadedHas(es: seq<Record>, i: nat)
    requires i < |es|
    ensures (es[i].second, es[i].first) in Loaded(es)
    decreases |es|
  {
    if i < |es| - 1 { LoadedHas(es[..|es| - 1], i); }
  }

  lemma {:induction false} LoadedSmall(es: seq<Record>)
    requires AllGood(Small, es)
    ensures SmallKeys(Loaded(es))
  {
    if es != [] { LoadedSmall(es[..|es| - 1]); }
  }

  lemma {:induction false} ApplyAllSmall(s: State, log: seq<WalEntry>)
    requires SmallKeys(s) && AllGood(SmallEntry, log)
    ensures SmallKeys(ApplyAll(s, log))
  {
    if log != [] { ApplyAllSmall(s, log[..|log| - 1]); }
  }

  /** A dump of a state with short names has short names. */
  lemma DumpIsSmall(es: seq<Record>)
    requires SmallKeys(Loaded(es))
    ensures AllGood(Small, es)
  {
    forall i | 0 <= i < |es| ensures Small(es[i]) {
      LoadedHas(es, i);
    }
  }

  // ----- the files

  /** The snapshot, if there is one, the temporary file and the log; a missing log is as good as an empty one. */
  datatype Files = Files(snapshot: Option<Bytes>, temp: Bytes, log: Bytes)

  function LogOf(fs: Files): seq<WalEntry> {
    Replay(fs.log)
  }

  function BaseOf(fs: Files): State {
    if fs.snapshot.Some? && Load(fs.snapshot.value).Some? then Loaded(Load(fs.snapshot.value).value) else map[]
  }

  /** The state a restart rebuilds from the files. */
  function Recover(fs: Files): State {
    ApplyAll(BaseOf(fs), LogOf(fs))
  }

  /** The two file systems agree on everything a restart looks at. */
  predicate Alike(fs: Files, gs: Files) {
    fs.snapshot == gs.snapshot && fs.log == gs.log
  }

  lemma LoadedFromFile(file: Bytes)
    requires Load(file).Some?
    ensures SmallKeys(Loaded(Load(file).value))
  {
    RecordCodec();
    AllReadAreGood(RecordBytes, ReadRecord, Small, file[32..], Decode(file[16..24]));
    LoadedSmall(Load(file).value);
  }

  lemma ReplayedSmall(file: Bytes)
    ensures AllGood(SmallEntry, Replay(file))
  {
    EntryCodec();
    AllReadAreGood(EntryBytes, ReadEntry, SmallEntry, file, |file|);
  }

  /** A restart finds short names only, because the readers accept no other. */
  lemma RecoverSmall(fs: Files)
    ensures SmallKeys(Recover(fs))
  {
    if fs.snapshot.Some? && Load(fs.snapshot.value).Some? { LoadedFromFile(fs.snapshot.value); }
    ReplayedSmall(fs.log);
    ApplyAllSmall(BaseOf(fs), LogOf(fs));
  }
}
