/**
 * `SnapshotWriter` (cpp/storage/snapshot.cpp): a header, the entries in pieces
 * with a running checksum over them, and the header again.
 */
module SnapshotWriting {
  import opened Basics
  import opened Records
  import opened Streams
  import opened Snapshot
  import opened Disks
  import opened Crc32

  function Bits(bs: Bytes): seq<bv8> {
    seq(|bs|, i requires 0 <= i < |bs| => bs[i] as bv8)
  }

  /** The seven pieces an entry is written in and summed in. */
  function Pieces(r: Record): (ps: seq<Bytes>)
    ensures |ps| == 7
  {
    var n, m := Cut16(|r.first|), Cut16(|r.second|);
    [Encode(n, 2), r.first[..n], Encode(m, 2), r.second[..m], Encode(r.lat, 8), Encode(r.lon, 8), Encode(r.timestamp, 8)]
  }

  function Joined(ps: seq<Bytes>): Bytes {
    if ps == [] then [] else Joined(ps[..|ps| - 1]) + ps[|ps| - 1]
  }

  lemma JoinedPieces(r: Record)
    ensures Joined(Pieces(r)) == RecordBytes(r)
  {
    var ps := Pieces(r);
    JoinedSeven(ps[0], ps[1], ps[2], ps[3], ps[4], ps[5], ps[6]);
    assert ps == [ps[0], ps[1], ps[2], ps[3], ps[4], ps[5], ps[6]];
  }

  lemma JoinedPush(ps: seq<Bytes>, p: Bytes)
    ensures Joined(ps + [p]) == Joined(ps) + p
  {
    assert (ps + [p])[..|ps|] == ps;
  }

  lemma JoinedStart(ps: seq<Bytes>, was: Bytes)
    ensures was + Joined(ps[..0]) == was
  {
  }

  lemma JoinedNext(ps: seq<Bytes>, was: Bytes, i: nat)
    requires i < |ps|
    ensures was + Joined(ps[..i]) + ps[i] == was + Joined(ps[..i + 1])
  {
    assert ps[..i + 1] == ps[..i] + [ps[i]];
    JoinedPush(ps[..i], ps[i]);
  }

  lemma JoinedEnd(ps: seq<Bytes>)
    ensures Joined(ps[..|ps|]) == Joined(ps)
  {
    assert ps[..|ps|] == ps;
  }

  lemma {:induction false} JoinedSplit(ps: seq<Bytes>, i: nat)
    requires i <= |ps|
    ensures Joined(ps) == Joined(ps[..i]) + Joined(ps[i..])
    decreases |ps|
  {
    if i == |ps| {
      assert ps[..i] == ps && ps[i..] == [];
    } else {
      var front, last := ps[..|ps| - 1], ps[|ps| - 1];
      JoinedSplit(front, i);
      assert front[..i] == ps[..i] && ps[i..] == front[i..] + [last];
      JoinedPush(front[i..], last);
      Associates(Joined(ps[..i]), Joined(front[i..]), last);
    }
  }

  /** The pieces up to one that does not fit, and then what fits of that one. */
  lemma JoinedCut(ps: seq<Bytes>, i: nat, n: nat)
    requires i < |ps| && n < |ps[i]|
    ensures |Joined(ps[..i])| + n < |Joined(ps)|
    ensures Joined(ps)[..|Joined(ps[..i])| + n] == Joined(ps[..i]) + ps[i][..n]
  {
    JoinedSplit(ps, i + 1);
    assert ps[..i + 1] == ps[..i] + [ps[i]];
    JoinedPush(ps[..i], ps[i]);
    CutSecond(Joined(ps[..i]), ps[i], Joined(ps[i + 1..]), n);
  }

  lemma CutSecond(a: Bytes, b: Bytes, c: Bytes, n: nat)
    requires n <= |b|
    ensures (a + b + c)[..|a| + n] == a + b[..n]
  {
  }

  lemma JoinedSeven(a: Bytes, b: Bytes, c: Bytes, d: Bytes, e: Bytes, f: Bytes, g: Bytes)
    ensures Joined([a, b, c, d, e, f, g]) == (a + b) + (c + d) + (e + f + g)
  {
    JoinedPush([], a);
    JoinedPush([a], b);
    JoinedPush([a, b], c);
    JoinedPush([a, b, c], d);
    JoinedPush([a, b, c, d], e);
    JoinedPush([a, b, c, d, e], f);
    JoinedPush([a, b, c, d, e, f], g);
    assert [] + [a] == [a] && [a] + [b] == [a, b] && [a, b] + [c] == [a, b, c] && [a, b, c] + [d] == [a, b, c, d];
    assert [a, b, c, d] + [e] == [a, b, c, d, e] && [a, b, c, d, e] + [f] == [a, b, c, d, e, f];
    assert [a, b, c, d, e, f] + [g] == [a, b, c, d, e, f, g];
  }

  lemma PushRecord(es: seq<Record>, r: Record)
    ensures WriteAll(RecordBytes, es + [r]) == WriteAll(RecordBytes, es) + RecordBytes(r)
  {
    WriteAllConcat(RecordBytes, es, [r]);
    assert [r][1..] == [];
  }

  // ----- the checksum of what was written

  /** A running checksum that does not depend on how the bytes are cut up. */
  ghost predicate Chunkwise<T(!new)>(update: (T, Bytes) -> T, zero: T) {
    && update(zero, []) == zero
    && forall c, a, b {:trigger update(update(c, a), b)} :: update(update(c, a), b) == update(c, a + b)
  }

  /** `updateCRC` as the writer uses it. */
  function CrcUpdate(crc: bv32, bs: Bytes): bv32 {
    Crc(crc, Bits(bs))
  }

  lemma CrcUpdateTwice(crc: bv32, a: Bytes, b: Bytes)
    ensures CrcUpdate(CrcUpdate(crc, a), b) == CrcUpdate(crc, a + b)
  {
    CrcConcat(crc, Bits(a), Bits(b));
    BitsConcat(a, b);
  }

  lemma BitsConcat(a: Bytes, b: Bytes)
    ensures Bits(a) + Bits(b) == Bits(a + b)
  {
  }

  /** The CRC-32 of the snapshot is such a checksum. */
  lemma CrcIsChunkwise()
    ensures Chunkwise(CrcUpdate, 0)
  {
    assert Bits([]) == [];
    DoubleNot(0);
    forall c, a, b ensures CrcUpdate(CrcUpdate(c, a), b) == CrcUpdate(c, a + b) { CrcUpdateTwice(c, a, b); }
  }

  /** The count and the checksum until the header is finished. */
  const BLANK: nat := 0

  /** The bytes in the temporary file after some entries, and what the checksum covers. */
  function Unfinished(timestamp: Word, body: Bytes): Bytes {
    Header(timestamp, BLANK, BLANK) + body
  }

  /** What is written of an entry. */
  function Fitting(r: Record, room: nat): Bytes {
    if |RecordBytes(r)| <= room then RecordBytes(r) else RecordBytes(r)[..room]
  }

  /** The snapshot writer, over any running checksum. */
  class SnapshotWriter<T(!new)> {
    const disk: Disk
    const update: (T, Bytes) -> T
    const zero: T
    const code: T -> nat
    var timestamp: Word
    var written: nat
    var crc: T
    /** The entries that were written whole, and every byte behind the header. */
    ghost var whole: seq<Record>
    ghost var body: Bytes

    /** The temporary file holds an unfinished header and the bytes so far; count and checksum are of the whole entries. */
    ghost predicate Writing()
      reads this, disk
    {
      && Chunkwise(update, zero)
      && disk.files.temp == Unfinished(timestamp, body)
      && crc == update(zero, WriteAll(RecordBytes, whole))
      && written == |whole|
    }

    constructor (d: Disk, u: (T, Bytes) -> T, z: T, c: T -> nat)
      ensures disk == d && update == u && zero == z && code == c
    {
      disk, update, zero, code := d, u, z, c;
      timestamp, written, crc, whole, body := 0, 0, z, [], [];
    }

    /**
     * `begin` and `writeHeader`: the temporary file is made anew, with a blank header. The
     * file may not open, or have no room for the header.
     */
    method Begin(now: Word, opens: bool, room: nat) returns (ok: bool)
      requires Chunkwise(update, zero)
      modifies this, disk
      ensures ok == (opens && room >= HEADER_SIZE) && Grew(old(disk.Now()), disk.Now())
      ensures ok ==> Writing() && whole == [] && body == [] && timestamp == now
    {
      if !opens { return false; }
      timestamp, written, crc, whole, body := now, 0, zero, [], [];
      disk.WriteTemp([]);
      ghost var before := disk.Now();
      var header := Header(timestamp, BLANK, BLANK);
      disk.AppendToTemp(if room < |header| then header[..room] else header);
      GrewOn(old(disk.Now()), before, disk.Now());
      assert [] + header == Unfinished(timestamp, []);
      ok := room >= |header|;
    }

    /** `writeEntry`, with room on the disk for so many bytes: an entry that does not fit is neither counted nor summed. */
    method WriteEntry(r: Record, room: nat) returns (ok: bool)
      requires Writing()
      modifies this, disk
      ensures Writing() && timestamp == old(timestamp) && Grew(old(disk.Now()), disk.Now())
      ensures ok == (|RecordBytes(r)| <= room)
      ensures body == old(body) + Fitting(r, room) && whole == if ok then old(whole) + [r] else old(whole)
    {
      JoinedPieces(r);
      Associates(Header(timestamp, BLANK, BLANK), body, Fitting(r, room));
      ok := WritePieces(Pieces(r), room);
      body := body + Fitting(r, room);
      if !ok { return; }
      PushRecord(whole, r);
      SumPieces(Pieces(r), WriteAll(RecordBytes, whole));
      written, whole := written + 1, whole + [r];
    }

    method WritePieces(ps: seq<Bytes>, room: nat) returns (ok: bool)
      modifies disk
      ensures Grew(old(disk.Now()), disk.Now()) && ok == (|Joined(ps)| <= room)
      ensures disk.files.temp == old(disk.files).temp + if ok then Joined(ps) else Joined(ps)[..room]
    {
      JoinedStart(ps, disk.files.temp);
      var left: nat := room;
      for i := 0 to |ps|
        invariant Grew(old(disk.Now()), disk.Now()) && disk.files.temp == old(disk.files).temp + Joined(ps[..i])
        invariant left + |Joined(ps[..i])| == room
      {
        ghost var before := disk.Now();
        if left < |ps[i]| {
          JoinedCut(ps, i, left);
          Associates(old(disk.files).temp, Joined(ps[..i]), ps[i][..left]);
          disk.AppendToTemp(ps[i][..left]);
          GrewOn(old(disk.Now()), before, disk.Now());
          return false;
        }
        disk.AppendToTemp(ps[i]);
        GrewOn(old(disk.Now()), before, disk.Now());
        JoinedNext(ps, old(disk.files).temp, i);
        left := left - |ps[i]|;
      }
      JoinedEnd(ps);
      return true;
    }

    method SumPieces(ps: seq<Bytes>, ghost done: Bytes)
      requires Chunkwise(update, zero) && crc == update(zero, done)
      modifies this`crc
      ensures crc == update(zero, done + Joined(ps))
    {
      JoinedStart(ps, done);
      for i := 0 to |ps|
        invariant crc == update(zero, done + Joined(ps[..i]))
      {
        JoinedNext(ps, done, i);
        crc := update(crc, ps[i]);
      }
      JoinedEnd(ps);
    }

    /** `finalizeHeader`: the count and the checksum are filled in, still in the temporary file. */
    method Finalize()
      requires Writing()
      modifies disk
      ensures disk.files.temp == Header(timestamp, |whole|, SumOf(this, whole)) + body
      ensures Grew(old(disk.Now()), disk.Now())
    {
      assert Unfinished(timestamp, body)[HEADER_SIZE..] == body;
      disk.OverwriteTemp(Header(timestamp, written, code(crc)));
    }
  }

  /** The checksum of some entries. */
  ghost function SumOf<T(!new)>(writer: SnapshotWriter<T>, es: seq<Record>): nat {
    writer.code(writer.update(writer.zero, WriteAll(RecordBytes, es)))
  }

  /** The disk has room for every entry at its time. */
  predicate AllFit(dump: seq<Record>, room: nat -> nat) {
    forall i :: 0 <= i < |dump| ==> |RecordBytes(dump[i])| <= room(i)
  }

  /** What has been written of the first entries of a dump. */
  ghost predicate Progress(done: seq<Record>, room: nat -> nat, whole: seq<Record>, body: Bytes) {
    && (AllFit(done, room) ==> whole == done && body == WriteAll(RecordBytes, done))
    && (!AllFit(done, room) ==> |whole| < |done|)
  }

  lemma FitMore(done: seq<Record>, r: Record, room: nat -> nat)
    ensures AllFit(done + [r], room) <==> AllFit(done, room) && |RecordBytes(r)| <= room(|done|)
  {
    var more := done + [r];
    assert more[|done|] == r && forall i :: 0 <= i < |done| ==> more[i] == done[i];
  }

  lemma ProgressMore(done: seq<Record>, r: Record, room: nat -> nat, whole: seq<Record>, body: Bytes)
    requires Progress(done, room, whole, body)
    ensures Progress(done + [r], room, if |RecordBytes(r)| <= room(|done|) then whole + [r] else whole, body + Fitting(r, room(|done|)))
  {
    FitMore(done, r, room);
    PushRecord(done, r);
  }

  /** Writes the next entry; what becomes of one that does not fit is not looked at. */
  method WriteNext<T(!new)>(writer: SnapshotWriter<T>, r: Record, space: nat, ghost done: seq<Record>, ghost room: nat -> nat)
    requires writer.Writing() && Progress(done, room, writer.whole, writer.body) && space == room(|done|)
    modifies writer, writer.disk
    ensures writer.Writing() && writer.timestamp == old(writer.timestamp) && Progress(done + [r], room, writer.whole, writer.body)
    ensures Grew(old(writer.disk.Now()), writer.disk.Now())
  {
    ProgressMore(done, r, room, writer.whole, writer.body);
    var ok := writer.WriteEntry(r, space);
  }

  lemma TakeMore<E>(s: seq<E>, i: nat)
    requires i < |s|
    ensures s[..i + 1] == s[..i] + [s[i]]
  {
  }

  /** Writes the entries of the dump, one by one. */
  method WriteEntries<T(!new)>(writer: SnapshotWriter<T>, dump: seq<Record>, room: nat -> nat)
    requires writer.Writing() && writer.whole == [] && writer.body == []
    modifies writer, writer.disk
    ensures writer.Writing() && writer.timestamp == old(writer.timestamp) && Progress(dump, room, writer.whole, writer.body)
    ensures Grew(old(writer.disk.Now()), writer.disk.Now())
  {
    for i := 0 to |dump|
      invariant writer.Writing() && writer.timestamp == old(writer.timestamp)
      invariant Progress(dump[..i], room, writer.whole, writer.body)
      invariant Grew(old(writer.disk.Now()), writer.disk.Now())
    {
      ghost var before := writer.disk.Now();
      TakeMore(dump, i);
      WriteNext(writer, dump[i], room(i), dump[..i], room);
      GrewOn(old(writer.disk.Now()), before, writer.disk.Now());
    }
    assert dump[..|dump|] == dump;
  }

  /** A file that is the image of a dump when all of it was written, and otherwise loads to fewer entries. */
  ghost predicate Written<T(!new)>(writer: SnapshotWriter<T>, file: Bytes, now: Word, dump: seq<Record>, room: nat -> nat) {
    && (AllFit(dump, room) ==> file == Image(now, SumOf(writer, dump), dump))
    && Load(file).Some? && (!AllFit(dump, room) ==> |Load(file).value| < |dump|)
  }

  lemma ProgressWritten<T(!new)>(writer: SnapshotWriter<T>, now: Word, dump: seq<Record>, room: nat -> nat, whole: seq<Record>, body: Bytes)
    requires Progress(dump, room, whole, body) && |dump| < COUNT_LIMIT
    ensures Written(writer, Header(now, |whole|, SumOf(writer, whole)) + body, now, dump, room)
  {
    LoadCounts(now, |whole|, SumOf(writer, whole), body);
  }

  /** Writes the dump to the temporary file. */
  method WriteSnapshot<T(!new)>(writer: SnapshotWriter<T>, dump: seq<Record>, now: Word, room: nat -> nat)
    requires writer.Writing() && writer.whole == [] && writer.body == [] && writer.timestamp == now && |dump| < COUNT_LIMIT
    modifies writer, writer.disk
    ensures Written(writer, writer.disk.files.temp, now, dump, room)
    ensures Grew(old(writer.disk.Now()), writer.disk.Now())
  {
    WriteEntries(writer, dump, room);
    ghost var before := writer.disk.Now();
    writer.Finalize();
    GrewOn(old(writer.disk.Now()), before, writer.disk.Now());
    ProgressWritten(writer, now, dump, room, writer.whole, writer.body);
  }

  /** The writer with `updateCRC`: the header of a snapshot that fits holds the CRC-32 of its entries. */
  method WriteChecked(disk: Disk, dump: seq<Record>, now: Word, room: nat -> nat)
    requires AllFit(dump, room) && |dump| < COUNT_LIMIT
    modifies disk
    ensures disk.files.temp == Image(now, Crc(0, Bits(WriteAll(RecordBytes, dump))) as nat, dump)
    ensures Grew(old(disk.Now()), disk.Now())
  {
    CrcIsChunkwise();
    var writer := new SnapshotWriter(disk, CrcUpdate, 0, (c: bv32) => c as nat);
    var ok := writer.Begin(now, true, HEADER_SIZE);
    ghost var before := disk.Now();
    WriteSnapshot(writer, dump, now, room);
    GrewOn(old(disk.Now()), before, disk.Now());
  }
}
