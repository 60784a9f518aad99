/**
 * The records of a shapefile one after the other (`ReadSHPRecord` and the loop
 * of `ReadSHP`, internal/formats/shapefile/shp.go). A file that ends inside a
 * record reads like one that ends before it.
 */
module ShapefileFile {
  import opened Basics
  import opened Records
  import opened ShapefileContent
  import opened ShapefileShape
  import opened ShapefileReader
  import opened Shapefile

  // ----- numbers with the highest byte first

  function EncodeHigh(n: nat, k: nat): (bs: Bytes)
    ensures |bs| == k
  {
    if k == 0 then [] else EncodeHigh(n / 256, k - 1) + [(n % 256) as Byte]
  }

  function DecodeHigh(bs: Bytes): nat {
    if bs == [] then 0 else 256 * DecodeHigh(bs[..|bs| - 1]) + bs[|bs| - 1] as nat
  }

  lemma {:induction false} DecodeEncodeHigh(n: nat, k: nat)
    requires n < Limit(k)
    ensures DecodeHigh(EncodeHigh(n, k)) == n
  {
    if k > 0 {
      DecodeEncodeHigh(n / 256, k - 1);
      assert EncodeHigh(n, k)[..k - 1] == EncodeHigh(n / 256, k - 1);
    }
  }

  // ----- one record

  datatype Outcome<T> = EndOfFile | Invalid | Read(number: nat, what: T, rest: Bytes)

  /** The number and the length in the header of a record. */
  function NumberIn(data: Bytes): nat
    requires |data| >= 8
  {
    DecodeHigh(data[..4])
  }

  function LengthIn(data: Bytes): nat
    requires |data| >= 8
  {
    2 * DecodeHigh(data[4..8])
  }

  /** The number of a record and its length in 16-bit words lie with their highest byte first. */
  lemma HeaderRead(data: Bytes)
    requires |data| >= 8
    ensures NumberIn(data) == 0x100_0000 * data[0] as nat + 0x1_0000 * data[1] as nat + 0x100 * data[2] as nat + data[3] as nat
    ensures LengthIn(data) ==
            2 * (0x100_0000 * data[4] as nat + 0x1_0000 * data[5] as nat + 0x100 * data[6] as nat + data[7] as nat)
  {
    FourHigh(data[..4]);
    FourHigh(data[4..8]);
  }

  lemma FourHigh(bs: Bytes)
    requires |bs| == 4
    ensures DecodeHigh(bs) == 0x100_0000 * bs[0] as nat + 0x1_0000 * bs[1] as nat + 0x100 * bs[2] as nat + bs[3] as nat
  {
    assert bs[..3][..2] == bs[..2] && bs[..2][..1] == bs[..1] && bs[..1][..0] == [];
    assert DecodeHigh(bs[..1]) == bs[0] as nat;
    assert DecodeHigh(bs[..2]) == 0x100 * bs[0] as nat + bs[1] as nat;
    assert DecodeHigh(bs[..3]) == 0x100 * DecodeHigh(bs[..2]) + bs[2] as nat;
  }

  /** A record whose content a function reads. */
  ghost function Framed<T>(data: Bytes, maxSize: int, parse: Bytes -> Option<T>): (o: Outcome<T>)
    ensures o.Read? ==> |o.rest| < |data|
  {
    if |data| < 8 then EndOfFile
    else if LengthIn(data) < 4 || Over(maxSize, LengthIn(data)) then Invalid
    else if |data| < 8 + LengthIn(data) then EndOfFile
    else
      match parse(data[8..8 + LengthIn(data)])
      case None => Invalid
      case Some(s) => Read(NumberIn(data), s, data[8 + LengthIn(data)..])
  }

  ghost function ParseRecord(data: Bytes, opt: Options, value: nat -> real): (o: Outcome<Shape>)
    ensures o.Read? ==> |o.rest| < |data|
  {
    Framed(data, opt.maxRecordSize, c => ParseContent(c, opt, value))
  }

  method ReadRecord(data: Bytes, opt: Options, value: nat -> real) returns (o: Outcome<Geometry>)
    ensures var p := ParseRecord(data, opt, value);
      && o.EndOfFile? == p.EndOfFile? && o.Invalid? == p.Invalid?
      && (o.Read? ==> o.number == p.number && o.rest == p.rest && o.what.shape == p.what && Placed(o.what, value))
  {
    if |data| < 8 { return EndOfFile; }
    var number, contentLength := DecodeHigh(data[..4]), 2 * DecodeHigh(data[4..8]);
    if contentLength < 4 { return Invalid; }
    if Over(opt.maxRecordSize, contentLength) { return Invalid; }
    if |data| < 8 + contentLength { return EndOfFile; }
    var g := ReadContent(data[8..8 + contentLength], opt, value);
    if g.None? { return Invalid; }
    o := Read(number, g.value, data[8 + contentLength..]);
  }

  // ----- the file

  /** The records up to the end of the data, if they are numbered from k on. */
  ghost function ParseRecords(data: Bytes, k: nat, opt: Options, value: nat -> real): Option<seq<Shape>>
    decreases |data|
  {
    match ParseRecord(data, opt, value)
    case EndOfFile => Some([])
    case Invalid => None
    case Read(number, s, rest) =>
      if number != k then None
      else
        var more :- ParseRecords(rest, k + 1, opt, value);
        Some([s] + more)
  }

  ghost function ShapesOf(gs: seq<Geometry>): (ss: seq<Shape>)
    ensures |ss| == |gs|
  {
    seq(|gs|, i requires 0 <= i < |gs| => gs[i].shape)
  }

  /** What is left to read continues what has been read. */
  ghost predicate Continues(all: Option<seq<Shape>>, read: seq<Shape>, left: Option<seq<Shape>>) {
    all == if left.None? then None else Some(read + left.value)
  }

  /** The loop of `ReadSHP`. */
  method ReadRecords(data: Bytes, opt: Options, value: nat -> real) returns (r: Option<seq<Geometry>>)
    ensures r.Some? <==> ParseRecords(data, 1, opt, value).Some?
    ensures r.Some? ==> ShapesOf(r.value) == ParseRecords(data, 1, opt, value).value
    ensures r.Some? ==> forall i :: 0 <= i < |r.value| ==> Placed(r.value[i], value)
  {
    var records: seq<Geometry> := [];
    var rest := data;
    var recordNumber := 1;
    ghost var all := ParseRecords(data, 1, opt, value);
    NothingRead(all);
    while true
      invariant recordNumber > 0
      invariant Continues(all, ShapesOf(records), ParseRecords(rest, recordNumber, opt, value))
      invariant forall i :: 0 <= i < |records| ==> Placed(records[i], value)
      decreases |rest|
    {
      var o := ReadRecord(rest, opt, value);
      ghost var left := ParseRecords(rest, recordNumber, opt, value);
      match o
      case EndOfFile =>
        AllRead(all, ShapesOf(records), left);
        return Some(records);
      case Invalid => return None;
      case Read(number, g, after) =>
        if number != recordNumber { return None; }
        ContinuesOn(all, ShapesOf(records), g.shape, ParseRecords(after, recordNumber + 1, opt, value));
        ShapesMore(records, g);
        records, rest, recordNumber := records + [g], after, recordNumber + 1;
    }
  }

  lemma NothingRead(all: Option<seq<Shape>>)
    ensures Continues(all, ShapesOf([]), all)
  {
    if all.Some? { assert ShapesOf([]) + all.value == all.value; }
  }

  lemma AllRead(all: Option<seq<Shape>>, read: seq<Shape>, left: Option<seq<Shape>>)
    requires Continues(all, read, left) && left == Some([])
    ensures all == Some(read)
  {
    assert read + [] == read;
  }

  lemma ShapesMore(gs: seq<Geometry>, g: Geometry)
    ensures ShapesOf(gs + [g]) == ShapesOf(gs) + [g.shape]
  {
  }

  lemma ContinuesOn(all: Option<seq<Shape>>, read: seq<Shape>, s: Shape, left: Option<seq<Shape>>)
    requires Continues(all, read, if left.None? then None else Some([s] + left.value))
    ensures Continues(all, read + [s], left)
  {
    if left.Some? { assert read + ([s] + left.value) == read + [s] + left.value; }
  }

  // ----- writing and reading back

  lemma EvenBytes(us: seq<nat>)
    ensures |BytesOf(us, 4)| % 2 == 0 && |BytesOf(us, 8)| % 2 == 0
  {
    Sizes(|us|);
  }

  lemma EvenParts(a: Bytes, b: Bytes, c: Bytes, d: Bytes, e: Bytes)
    requires |a| % 2 == 0 && |b| % 2 == 0 && |c| % 2 == 0 && |d| % 2 == 0 && |e| % 2 == 0
    ensures |a + (b + (c + (d + e)))| % 2 == 0
  {
  }

  lemma ContentLength(s: Shape, opt: Options, value: nat -> real)
    requires Valid(s, opt, value)
    ensures |ContentOf(s, opt, value)| >= 4 && |ContentOf(s, opt, value)| % 2 == 0
  {
    match s
    case NullShape =>
    case PointShape(t, coords) => EvenBytes(coords);
    case MultiShape(t, box, ranges, n, parts, flat) => MultiLength(s, opt, value);
  }

  lemma MultiLength(s: Shape, opt: Options, value: nat -> real)
    requires Valid(s, opt, value) && s.MultiShape?
    ensures |ContentOf(s, opt, value)| >= 4 && |ContentOf(s, opt, value)| % 2 == 0
  {
    var body := BodyOf(s.flat, s.ranges, Stride(s.shapeType), s.numPoints);
    EvenBytes([s.shapeType]);
    EvenBytes(s.box);
    EvenBytes(NumbersOf(s));
    EvenBytes(StartsOf(s));
    EvenBytes(body);
    EvenParts(BytesOf([s.shapeType], 4), BytesOf(s.box, 8), BytesOf(NumbersOf(s), 4), BytesOf(StartsOf(s), 4), BytesOf(body, 8));
  }

  /** A shape whose record has room for its number and its length. */
  ghost predicate Writable(k: nat, s: Shape, opt: Options, value: nat -> real) {
    && k < Limit(4) && Valid(s, opt, value)
    && |ContentOf(s, opt, value)| / 2 < Limit(4) && !Over(opt.maxRecordSize, |ContentOf(s, opt, value)|)
  }

  ghost function RecordOf(k: nat, s: Shape, opt: Options, value: nat -> real): Bytes
    requires Writable(k, s, opt, value)
  {
    HeaderOf(k, |ContentOf(s, opt, value)|) + ContentOf(s, opt, value)
  }

  function HeaderOf(k: nat, length: nat): (h: Bytes)
    ensures |h| == 8
  {
    EncodeHigh(k, 4) + EncodeHigh(length / 2, 4)
  }

  lemma HeaderBack(k: nat, length: nat, more: Bytes)
    requires k < Limit(4) && length / 2 < Limit(4) && length % 2 == 0
    ensures NumberIn(HeaderOf(k, length) + more) == k && LengthIn(HeaderOf(k, length) + more) == length
  {
    var data := HeaderOf(k, length) + more;
    assert data[..4] == EncodeHigh(k, 4) && data[4..8] == EncodeHigh(length / 2, 4);
    DecodeEncodeHigh(k, 4);
    DecodeEncodeHigh(length / 2, 4);
  }

  lemma FrameBack<T>(k: nat, c: Bytes, rest: Bytes, maxSize: int, parse: Bytes -> Option<T>)
    requires k < Limit(4) && |c| / 2 < Limit(4) && |c| % 2 == 0 && |c| >= 4 && !Over(maxSize, |c|) && parse(c).Some?
    ensures Framed(HeaderOf(k, |c|) + c + rest, maxSize, parse) == Read(k, parse(c).value, rest)
  {
    var data := HeaderOf(k, |c|) + c + rest;
    assert data == HeaderOf(k, |c|) + (c + rest);
    HeaderBack(k, |c|, c + rest);
    assert data[8..8 + |c|] == c && data[8 + |c|..] == rest;
  }

  lemma RecordBack(k: nat, s: Shape, rest: Bytes, opt: Options, value: nat -> real)
    requires Writable(k, s, opt, value)
    ensures ParseRecord(RecordOf(k, s, opt, value) + rest, opt, value) == Read(k, s, rest)
  {
    ContentLength(s, opt, value);
    ReadsBack(s, opt, value);
    FrameBack(k, ContentOf(s, opt, value), rest, opt.maxRecordSize, c => ParseContent(c, opt, value));
  }

  lemma FrameCut<T>(k: nat, c: Bytes, n: nat, maxSize: int, parse: Bytes -> Option<T>)
    requires k < Limit(4) && |c| / 2 < Limit(4) && |c| % 2 == 0 && |c| >= 4 && !Over(maxSize, |c|) && n < 8 + |c|
    ensures Framed((HeaderOf(k, |c|) + c)[..n], maxSize, parse) == EndOfFile
  {
    if n >= 8 {
      HeaderBack(k, |c|, c[..n - 8]);
      assert (HeaderOf(k, |c|) + c)[..n] == HeaderOf(k, |c|) + c[..n - 8];
    }
  }

  /** A record that is cut short reads as the end of the file. */
  lemma RecordCut(k: nat, s: Shape, n: nat, opt: Options, value: nat -> real)
    requires Writable(k, s, opt, value) && n < |RecordOf(k, s, opt, value)|
    ensures ParseRecord(RecordOf(k, s, opt, value)[..n], opt, value) == EndOfFile
  {
    ContentLength(s, opt, value);
    FrameCut(k, ContentOf(s, opt, value), n, opt.maxRecordSize, c => ParseContent(c, opt, value));
  }

  ghost predicate AllWritable(k: nat, ss: seq<Shape>, opt: Options, value: nat -> real) {
    forall i :: 0 <= i < |ss| ==> Writable(k + i, ss[i], opt, value)
  }

  lemma RestWritable(k: nat, ss: seq<Shape>, opt: Options, value: nat -> real)
    requires ss != [] && AllWritable(k, ss, opt, value)
    ensures AllWritable(k + 1, ss[1..], opt, value) && Writable(k, ss[0], opt, value)
  {
    assert Writable(k + 0, ss[0], opt, value);
    forall i | 0 <= i < |ss| - 1 ensures Writable(k + 1 + i, ss[1..][i], opt, value) {
      assert Writable(k + (i + 1), ss[i + 1], opt, value);
    }
  }

  /** The records of shapes, numbered from k on. */
  ghost function RecordsOf(k: nat, ss: seq<Shape>, opt: Options, value: nat -> real): Bytes
    requires AllWritable(k, ss, opt, value)
    decreases |ss|
  {
    if ss == [] then []
    else
      RestWritable(k, ss, opt, value);
      RecordOf(k, ss[0], opt, value) + RecordsOf(k + 1, ss[1..], opt, value)
  }

  /** Shapes written one after the other read back, and so they do before whatever reads as the end of the file. */
  lemma {:induction false} FileBack(k: nat, ss: seq<Shape>, tail: Bytes, opt: Options, value: nat -> real)
    requires AllWritable(k, ss, opt, value) && ParseRecord(tail, opt, value) == EndOfFile
    ensures ParseRecords(RecordsOf(k, ss, opt, value) + tail, k, opt, value) == Some(ss)
    decreases |ss|
  {
    if ss == [] {
      assert RecordsOf(k, ss, opt, value) + tail == tail;
    } else {
      RestWritable(k, ss, opt, value);
      var more := RecordsOf(k + 1, ss[1..], opt, value) + tail;
      var first := RecordOf(k, ss[0], opt, value);
      FileBack(k + 1, ss[1..], tail, opt, value);
      RecordBack(k, ss[0], more, opt, value);
      Associates(first, RecordsOf(k + 1, ss[1..], opt, value), tail);
      NextRecord(first + more, k, ss[0], more, opt, value);
      assert ss == [ss[0]] + ss[1..];
    }
  }

  lemma NextRecord(data: Bytes, k: nat, s: Shape, more: Bytes, opt: Options, value: nat -> real)
    requires ParseRecord(data, opt, value) == Read(k, s, more) && ParseRecords(more, k + 1, opt, value).Some?
    ensures ParseRecords(data, k, opt, value) == Some([s] + ParseRecords(more, k + 1, opt, value).value)
  {
  }

  /** A file cut inside its last record reads, without an error, as the records before it. */
  lemma TornFile(ss: seq<Shape>, s: Shape, n: nat, opt: Options, value: nat -> real)
    requires AllWritable(1, ss, opt, value) && Writable(|ss| + 1, s, opt, value) && n < |RecordOf(|ss| + 1, s, opt, value)|
    ensures ParseRecords(RecordsOf(1, ss, opt, value) + RecordOf(|ss| + 1, s, opt, value)[..n], 1, opt, value) == Some(ss)
  {
    RecordCut(|ss| + 1, s, n, opt, value);
    FileBack(1, ss, RecordOf(|ss| + 1, s, opt, value)[..n], opt, value);
  }
}
