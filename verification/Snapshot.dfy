/**
 * The snapshot file of cpp/storage/snapshot.cpp: a 32-byte header, then one
 * record per entry whose names are the id and the collection.
 */
module Snapshot {
  import opened Basics
  import opened Records
  import opened Streams

  const MAGIC: nat := 0x5350_4442
  const VERSION: nat := 1

  const PADDING: nat := 0
  const HEADER_SIZE: nat := 32
  const COUNT_LIMIT: nat := 0x1_0000_0000_0000_0000

  /** The header structure as it lies in memory, with four bytes of padding at the end. */
  function Header(timestamp: Word, count: nat, checksum: nat): (bs: Bytes)
    ensures |bs| == HEADER_SIZE
  {
    Encode(MAGIC, 4) + Encode(VERSION, 4) + Encode(timestamp, 8) + Encode(count, 8) + Encode(checksum, 4) + Encode(PADDING, 4)
  }

  function Image(timestamp: Word, checksum: nat, es: seq<Record>): Bytes {
    Header(timestamp, |es|, checksum) + WriteAll(RecordBytes, es)
  }

  /** What `load` hands on, or None when it refuses the file. The stored checksum is not looked at. */
  function Load(file: Bytes): Option<seq<Record>> {
    if |file| < 32 || Decode(file[..4]) != MAGIC then None
    else Some(ReadAll(ReadRecord, file[32..], Decode(file[16..24])))
  }

  lemma RecordCodec()
    ensures Codec(RecordBytes, ReadRecord, Small)
  {
    forall r, rest | Small(r) ensures ReadRecord(RecordBytes(r) + rest) == Some((r, rest)) { ReadRecordBack(r, rest); }
    forall r, n | Small(r) && 0 <= n < |RecordBytes(r)| ensures ReadRecord(RecordBytes(r)[..n]) == None {
      ReadRecordShort(r, n);
    }
  }

  lemma HeaderBack(timestamp: Word, count: nat, checksum: nat, rest: Bytes)
    requires count < COUNT_LIMIT
    ensures var file := Header(timestamp, count, checksum) + rest;
            Decode(file[..4]) == MAGIC && Decode(file[16..24]) == count && file[32..] == rest
  {
    LimitValues();
    assert Limit(4) == 0x1_0000_0000;
    DecodeEncode(MAGIC, 4);
    DecodeEncode(count, 8);
    HeaderParts(Encode(MAGIC, 4), Encode(VERSION, 4), Encode(timestamp, 8), Encode(count, 8), Encode(checksum, 4),
                Encode(0, 4), rest);
  }

  lemma HeaderParts(a: Bytes, b: Bytes, c: Bytes, d: Bytes, e: Bytes, f: Bytes, rest: Bytes)
    requires |a| == |b| == |e| == |f| == 4 && |c| == |d| == 8
    ensures var file := a + b + c + d + e + f + rest;
            file[..4] == a && file[16..24] == d && file[32..] == rest
  {
  }

  /** The first bytes are BDPS, then the version, the time, the count and the checksum, the lowest byte of each first. */
  lemma HeaderLayout(timestamp: Word, count: nat, checksum: nat)
    ensures Header(timestamp, count, checksum) ==
            [0x42, 0x44, 0x50, 0x53] + [1, 0, 0, 0] + Encode(timestamp, 8) + Encode(count, 8) + Encode(checksum, 4) + [0, 0, 0, 0]
  {
    FourBytes(MAGIC);
    FourBytes(1);
    FourBytes(0);
  }

  lemma FourBytes(n: nat)
    ensures Encode(n, 4) == [(n % 256) as Byte, (n / 256 % 256) as Byte, (n / 256 / 256 % 256) as Byte, (n / 256 / 256 / 256 % 256) as Byte]
  {
    assert Encode(n, 4) == [(n % 256) as Byte, (n / 256 % 256) as Byte] + Encode(n / 256 / 256, 2);
    assert Encode(n / 256 / 256, 2) == [(n / 256 / 256 % 256) as Byte] + Encode(n / 256 / 256 / 256, 1);
  }

  /** A file loads, whatever else it holds, if and only if a whole header is there and starts with BDPS. */
  lemma LoadsIff(file: Bytes)
    ensures Load(file).Some? <==> |file| >= 32 && file[..4] == [0x42, 0x44, 0x50, 0x53]
  {
    if |file| >= 32 {
      EncodeDecode(file[..4]);
      FourBytes(MAGIC);
      assert Limit(4) == 0x1_0000_0000;
      DecodeEncode(MAGIC, 4);
    }
  }

  /** A file loads to the entries behind its header, at most as many as the header counts. */
  lemma LoadCounts(timestamp: Word, count: nat, checksum: nat, body: Bytes)
    requires count < COUNT_LIMIT
    ensures var file := Header(timestamp, count, checksum) + body;
            Load(file) == Some(ReadAll(ReadRecord, body, count)) && |Load(file).value| <= count
  {
    HeaderBack(timestamp, count, checksum, body);
    RecordCodec();
    AllReadAreGood(RecordBytes, ReadRecord, Small, body, count);
  }

  lemma StoredExact(es: seq<Record>, limit: nat)
    requires limit >= |es|
    ensures ReadAll(ReadRecord, WriteAll(RecordBytes, es), limit) == es <==> AllGood(Small, es)
  {
    RecordCodec();
    StreamExact(RecordBytes, ReadRecord, Small, es, limit);
  }

  /** A snapshot loads to what was written exactly when every name is within the limit. */
  lemma LoadExact(timestamp: Word, checksum: nat, es: seq<Record>)
    requires |es| < COUNT_LIMIT
    ensures Load(Image(timestamp, checksum, es)) == Some(es) <==> AllGood(Small, es)
    ensures Load(Image(timestamp, checksum, es)) == Some(es) <==>
            forall i :: 0 <= i < |es| ==> |es[i].first| <= 1024 && |es[i].second| <= 1024
  {
    HeaderBack(timestamp, |es|, checksum, WriteAll(RecordBytes, es));
    StoredExact(es, |es|);
  }
}
