/**
 * The binary records that cpp/storage/wal.cpp and cpp/storage/snapshot.cpp
 * share: two length-prefixed names and three 64-bit words, little-endian.
 */
module Records {
  import opened Basics
  import opened Powers

  type Bytes = seq<Byte>

  /** A `uint64_t`, or the bit pattern of a `double`. */
  type Word = w: nat | w < 0x1_0000_0000_0000_0000

  /** The longest name the readers accept. */
  const MAX_NAME: nat := 1024

  datatype Record = Record(first: Bytes, second: Bytes, lat: Word, lon: Word, timestamp: Word)

  predicate Small(r: Record) {
    |r.first| <= MAX_NAME && |r.second| <= MAX_NAME
  }

  // ----- numbers

  function Limit(k: nat): nat {
    if k == 0 then 1 else 256 * Limit(k - 1)
  }

  /** The k low bytes of a number, lowest first. */
  function Encode(n: nat, k: nat): (r: Bytes)
    ensures |r| == k
  {
    if k == 0 then [] else [(n % 256) as Byte] + Encode(n / 256, k - 1)
  }

  function Decode(bs: Bytes): nat {
    if bs == [] then 0 else bs[0] as nat + 256 * Decode(bs[1..])
  }

  lemma {:induction false} DecodeEncode(n: nat, k: nat)
    requires n < Limit(k)
    ensures Decode(Encode(n, k)) == n
  {
    if k > 0 { DecodeEncode(n / 256, k - 1); }
  }

  lemma {:induction false} DecodeFits(bs: Bytes)
    ensures Decode(bs) < Limit(|bs|)
  {
    if bs != [] { DecodeFits(bs[1..]); }
  }

  lemma {:induction false} EncodeDecode(bs: Bytes)
    ensures Encode(Decode(bs), |bs|) == bs
  {
    if bs != [] {
      EncodeDecode(bs[1..]);
      EncodeNext(bs[0], Decode(bs[1..]), |bs| - 1);
    }
  }

  lemma LowAndHigh(low: nat, high: nat)
    requires low < 256
    ensures (low + 256 * high) % 256 == low && (low + 256 * high) / 256 == high
  {
  }

  lemma EncodeNext(low: Byte, high: nat, k: nat)
    ensures Encode(low as nat + 256 * high, k + 1) == [low] + Encode(high, k)
  {
    LowAndHigh(low as nat, high);
  }

  lemma {:induction false} LimitPositive(k: nat)
    ensures Limit(k) > 0
  {
    if k > 0 { LimitPositive(k - 1); }
  }

  lemma DivideTwice(n: nat, m: nat)
    requires m > 0
    ensures n / 256 / m == n / (256 * m)
  {
    var q, r := n / 256 / m, n / 256 % m;
    assert n == 256 * (q * m + r) + n % 256;
    assert q * (256 * m) == 256 * (q * m);
    DivModUnique(q, 256 * r + n % 256, 256 * m);
  }

  /** Byte number i has weight 256^i. */
  lemma {:induction false} ByteAt(n: nat, k: nat, i: nat)
    requires i < k
    ensures Limit(i) > 0 && Encode(n, k)[i] as nat == n / Limit(i) % 256
    decreases i
  {
    LimitPositive(i);
    if i > 0 {
      ByteAt(n / 256, k - 1, i - 1);
      DivideTwice(n, Limit(i - 1));
    }
  }

  lemma LimitValues()
    ensures Limit(2) == 0x1_0000 && Limit(8) == 0x1_0000_0000_0000_0000
  {
    assert Limit(4) == 0x1_0000_0000;
    assert Limit(6) == 0x1_0000_0000_0000;
  }

  // ----- names

  /** A length as a `uint16_t`. */
  function Cut16(n: nat): (r: nat)
    ensures r <= n
  {
    if n < 0x1_0000 then n else n % 0x1_0000
  }

  /** The length is cut to 16 bits, and that many bytes of the name follow. */
  function NameBytes(s: Bytes): Bytes {
    Encode(Cut16(|s|), 2) + s[..Cut16(|s|)]
  }

  /** Nothing is read when the length is beyond the limit or the bytes run out. */
  function ReadName(bs: Bytes): (r: Option<(Bytes, Bytes)>)
    ensures r.Some? ==> |r.value.0| <= MAX_NAME && |r.value.1| < |bs|
  {
    if |bs| < 2 then None
    else
      var len := Decode(bs[..2]);
      if len > MAX_NAME || |bs| - 2 < len then None
      else Some((bs[2..2 + len], bs[2 + len..]))
  }

  /** A short name is framed by its length. */
  predicate Framed(len: Bytes, s: Bytes) {
    |len| == 2 && |s| <= MAX_NAME && Decode(len) == |s|
  }

  lemma LengthBack(n: nat)
    requires n <= MAX_NAME
    ensures Decode(Encode(n, 2)) == n
  {
    LimitValues();
    DecodeEncode(n, 2);
  }

  lemma WholeName(s: Bytes)
    requires |s| <= MAX_NAME
    ensures NameBytes(s) == Encode(|s|, 2) + s
  {
    assert Cut16(|s|) == |s| && s[..|s|] == s;
  }

  lemma NameFramed(s: Bytes)
    requires |s| <= MAX_NAME
    ensures NameBytes(s) == Encode(|s|, 2) + s && Framed(Encode(|s|, 2), s)
  {
    WholeName(s);
    LengthBack(|s|);
  }

  lemma FramedBack(len: Bytes, s: Bytes, rest: Bytes)
    requires Framed(len, s)
    ensures ReadName(len + s + rest) == Some((s, rest))
  {
    var bs := len + s + rest;
    assert bs[..2] == len && bs[2..2 + |s|] == s && bs[2 + |s|..] == rest;
  }

  lemma FramedShort(len: Bytes, s: Bytes, n: nat)
    requires Framed(len, s) && n < 2 + |s|
    ensures ReadName((len + s)[..n]) == None
  {
    if n >= 2 { assert (len + s)[..n][..2] == len; }
  }

  lemma ReadNameBack(s: Bytes, rest: Bytes)
    requires |s| <= MAX_NAME
    ensures ReadName(NameBytes(s) + rest) == Some((s, rest))
  {
    NameFramed(s);
    FramedBack(Encode(|s|, 2), s, rest);
  }

  lemma ReadNameShort(s: Bytes, n: nat)
    requires |s| <= MAX_NAME && n < |NameBytes(s)|
    ensures ReadName(NameBytes(s)[..n]) == None
  {
    NameFramed(s);
    FramedShort(Encode(|s|, 2), s, n);
  }

  // ----- words

  function WordBytes(r: Record): (bs: Bytes)
    ensures |bs| == 24
  {
    Encode(r.lat, 8) + Encode(r.lon, 8) + Encode(r.timestamp, 8)
  }

  function WordAt(bs: Bytes, i: nat): Word
    requires i + 8 <= |bs|
  {
    DecodeFits(bs[i..i + 8]);
    LimitValues();
    Decode(bs[i..i + 8])
  }

  lemma ThreeWords(a: Bytes, b: Bytes, c: Bytes, rest: Bytes)
    requires |a| == |b| == |c| == 8
    ensures var bs := a + b + c + rest; bs[0..8] == a && bs[8..16] == b && bs[16..24] == c && bs[24..] == rest
  {
  }

  lemma WordBack(w: Word)
    ensures Decode(Encode(w, 8)) == w
  {
    LimitValues();
    DecodeEncode(w, 8);
  }

  lemma WordsBack(r: Record, rest: Bytes)
    ensures var bs := WordBytes(r) + rest;
            WordAt(bs, 0) == r.lat && WordAt(bs, 8) == r.lon && WordAt(bs, 16) == r.timestamp && bs[24..] == rest
  {
    WordBack(r.lat);
    WordBack(r.lon);
    WordBack(r.timestamp);
    ThreeWords(Encode(r.lat, 8), Encode(r.lon, 8), Encode(r.timestamp, 8), rest);
  }

  // ----- whole records

  function RecordBytes(r: Record): (bs: Bytes)
    ensures |bs| > 0
  {
    NameBytes(r.first) + NameBytes(r.second) + WordBytes(r)
  }

  function ReadRecord(bs: Bytes): (r: Option<(Record, Bytes)>)
    ensures r.Some? ==> Small(r.value.0) && |r.value.1| < |bs|
  {
    var (first, rest) :- ReadName(bs);
    var (second, words) :- ReadName(rest);
    if |words| < 24 then None
    else Some((Record(first, second, WordAt(words, 0), WordAt(words, 8), WordAt(words, 16)), words[24..]))
  }

  lemma JoinFour(a: Bytes, b: Bytes, c: Bytes, d: Bytes)
    ensures a + b + c + d == a + (b + (c + d))
  {
  }

  lemma ReadRecordParts(bs: Bytes, rest: Bytes, words: Bytes, r: Record)
    requires ReadName(bs) == Some((r.first, rest)) && ReadName(rest) == Some((r.second, words)) && |words| >= 24
    requires WordAt(words, 0) == r.lat && WordAt(words, 8) == r.lon && WordAt(words, 16) == r.timestamp
    ensures ReadRecord(bs) == Some((r, words[24..]))
  {
  }

  /** A written record reads back, whatever follows it. */
  lemma ReadRecordBack(r: Record, rest: Bytes)
    requires Small(r)
    ensures ReadRecord(RecordBytes(r) + rest) == Some((r, rest))
  {
    var words := WordBytes(r) + rest;
    ReadNameBack(r.first, NameBytes(r.second) + words);
    ReadNameBack(r.second, words);
    WordsBack(r, rest);
    JoinFour(NameBytes(r.first), NameBytes(r.second), WordBytes(r), rest);
    ReadRecordParts(RecordBytes(r) + rest, NameBytes(r.second) + words, words, r);
  }

  lemma CutThree(a: Bytes, b: Bytes, c: Bytes, n: nat)
    requires n < |a + b + c|
    ensures (a + b + c)[..n] == if n < |a| then a[..n]
                                else if n < |a| + |b| then a + b[..n - |a|]
                                else a + (b + c[..n - |a| - |b|])
  {
  }

  /** A record cut short reads as nothing. */
  lemma ReadRecordShort(r: Record, n: nat)
    requires Small(r) && n < |RecordBytes(r)|
    ensures ReadRecord(RecordBytes(r)[..n]) == None
  {
    var a, b, c := NameBytes(r.first), NameBytes(r.second), WordBytes(r);
    CutThree(a, b, c, n);
    if n < |a| {
      ReadNameShort(r.first, n);
    } else if n < |a| + |b| {
      ReadNameBack(r.first, b[..n - |a|]);
      ReadNameShort(r.second, n - |a|);
    } else {
      var cut := c[..n - |a| - |b|];
      ReadNameBack(r.first, b + cut);
      ReadNameBack(r.second, cut);
    }
  }
}
