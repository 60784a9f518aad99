/**
 * The shape types of the ESRI Shapefile Technical Description by their codes:
 * what a record of each type holds and how long it is, and which way a ring
 * turns (internal/formats/shapefile/shp.go).
 */
module ShapefileTypes {
  import opened Basics
  import opened Records
  import opened ShapefileRings
  import opened ShapefileContent
  import opened ShapefileShape
  import opened ShapefileReader

  /** The code at the front of a record. */
  function CodeOf(c: Bytes): nat
    requires |c| >= 4
  {
    c[0] as nat + 0x100 * c[1] as nat + 0x1_0000 * c[2] as nat + 0x100_0000 * c[3] as nat
  }

  /** Below 10 a point has x and y; from 10 also z and m; from 20 also m. */
  function Coordinates(code: nat): nat {
    if code < 10 then 2 else if code < 20 then 4 else 3
  }

  lemma FourDecoded(bs: Bytes)
    requires |bs| == 4
    ensures Decode(bs) == CodeOf(bs)
  {
    assert bs[1..][1..] == bs[2..] && bs[2..][1..] == bs[3..] && bs[3..][1..] == [];
    assert Decode(bs[3..]) == bs[3] as nat;
    assert Decode(bs[2..]) == bs[2] as nat + 0x100 * bs[3] as nat;
    assert Decode(bs[1..]) == bs[1] as nat + 0x100 * Decode(bs[2..]);
  }

  lemma CodeRead(c: Bytes)
    requires |c| >= 4
    ensures Fields(c, 4, 1) == [CodeOf(c)]
  {
    assert c[Start(4, 0)..Start(4, 1)] == c[..4];
    FourDecoded(c[..4]);
  }

  lemma BodyBytes(t: nat, n: nat, body: Bytes)
    requires IsLayout(Stride(t)) && |body| == Start(8, BodySize(Stride(t), n))
    ensures |body| == 8 * (Stride(t) * n + 2 * (Stride(t) - 2))
  {
    StartIsProduct(8, BodySize(Stride(t), n));
  }

  /** A record of points or of parts is as long as what it holds. */
  predicate Measured(c: Bytes, s: Shape)
    requires s.MultiShape?
  {
    && |s.box| == 4
    && |s.flat| == Coordinates(s.shapeType) * s.numPoints && |s.ranges| == 2 * (Coordinates(s.shapeType) - 2)
    && |c| == 40 + (if s.shapeType in {8, 18, 28} then 0 else 4 + 4 * |s.parts|) + 8 * (|s.flat| + |s.ranges|)
  }

  lemma MultiMeasured(c: Bytes, t: nat, box: seq<nat>, n: nat, parts: seq<nat>, body: Bytes)
    requires IsLayout(Stride(t)) && |body| == Start(8, BodySize(Stride(t), n)) && |box| == 4
    requires |c| == 40 + (if t in {8, 18, 28} then 0 else 4 + 4 * |parts|) + |body|
    ensures Measured(c, MultiOf(t, box, n, parts, body))
  {
    BodyBytes(t, n, body);
    StartIsProduct(Stride(t), n);
  }

  /** What a record with code t gives, and how long it is. */
  predicate Formed(c: Bytes, t: nat, s: Shape) {
    match s
    case NullShape => t == 0 && |c| == 4
    case PointShape(code, coords) => code == t && t in {1, 11, 21} && |coords| == Coordinates(t) && |c| == 4 + 8 * |coords|
    case MultiShape(code, _, _, _, parts, _) =>
      && code == t && t in {3, 5, 8, 13, 15, 18, 23, 25, 28} && (parts == [] <==> t in {8, 18, 28})
      && Measured(c, s)
    case NoGeometry(code) => code == t && t !in {0, 1, 3, 5, 8, 11, 13, 15, 18, 21, 23, 25, 28} && |c| == 40
  }

  lemma PointsFormed(c: Bytes, t: nat, box: seq<nat>, r: Bytes, opt: Options)
    requires t != 0 && !IsPoint(t) && !HasParts(t) && |box| == 4 && |c| == 36 + |r| && ParsePoints(t, box, r, opt).Some?
    ensures Formed(c, t, ParsePoints(t, box, r, opt).value)
  {
    var n, body := Fields(r, 4, 1)[0], r[4..];
    if Stride(t) != 0 { MultiMeasured(c, t, box, n, [], body); }
  }

  lemma PartsFormed(c: Bytes, t: nat, box: seq<nat>, r: Bytes, opt: Options, value: nat -> real)
    requires HasParts(t) && |box| == 4 && |c| == 36 + |r| && ParseParts(t, box, r, opt, value).Some?
    ensures Formed(c, t, ParseParts(t, box, r, opt, value).value)
  {
    var k, n, more := Fields(r, 4, 2)[0], Fields(r, 4, 2)[1], r[8..];
    StartIsProduct(4, k);
    MultiMeasured(c, t, box, n, Fields(more, 4, k)[1..] + [n], more[Start(4, k)..]);
  }

  /** What is read of a record is what its code says, and the record has the length that this takes. */
  lemma FormByType(c: Bytes, opt: Options, value: nat -> real)
    requires ParseContent(c, opt, value).Some?
    ensures |c| >= 4 && Formed(c, CodeOf(c), ParseContent(c, opt, value).value)
  {
    CodeRead(c);
    var t, r := CodeOf(c), c[4..];
    if IsPoint(t) {
      StartIsProduct(8, Stride(t));
    } else if t != 0 {
      var box := Fields(r, 8, 4);
      if HasParts(t) { PartsFormed(c, t, box, r[32..], opt, value); } else { PointsFormed(c, t, box, r[32..], opt); }
    }
  }

  // ----- where the coordinates lie

  /** The number at a place of a record, lowest byte first. */
  function WordIn(c: Bytes, at: nat): nat {
    if at + 8 <= |c| then Decode(c[at..at + 8]) else 0
  }

  /**
   * From `base` on a record has x and y of its points in turn, then two words of range and the
   * third coordinates, and then two words of range and the fourth. Here point i is looked at.
   */
  predicate Lies(c: Bytes, base: nat, d: nat, n: nat, flat: seq<nat>, i: nat) {
    var at := Start(d, i);
    && d >= 2 && at + d <= |flat| && base + 16 * n <= |c|
    && flat[at] == WordIn(c, base + 16 * i) && flat[at + 1] == WordIn(c, base + 16 * i + 8)
    && (d >= 3 ==> base + 24 * n + 16 <= |c| && flat[at + 2] == WordIn(c, base + 16 * n + 16 + 8 * i))
    && (d == 4 ==> base + 32 * n + 32 <= |c| && flat[at + 3] == WordIn(c, base + 24 * n + 32 + 8 * i))
  }

  lemma WordOf(body: Bytes, size: nat, k: nat, at: nat)
    requires |body| == Start(8, size) && k < size && at == 8 * k
    ensures |body| == 8 * size && Fields(body, 8, size)[k] == WordIn(body, at)
  {
    Sizes(size);
    OneWord(body, size, k);
  }

  lemma WordsOf(body: Bytes, size: nat)
    requires |body| == Start(8, size)
    ensures |body| == 8 * size && forall k :: 0 <= k < size ==> Fields(body, 8, size)[k] == WordIn(body, 8 * k)
  {
    Sizes(size);
    forall k | 0 <= k < size ensures Fields(body, 8, size)[k] == WordIn(body, 8 * k) { WordOf(body, size, k, 8 * k); }
  }

  lemma LiesInBody(d: nat, n: nat, body: Bytes, flat: seq<nat>, words: seq<nat>, i: nat)
    requires IsLayout(d) && |words| == BodySize(d, n) && |body| == 8 * |words| && i < n && CarriesAt(flat, words, d, n, i)
    requires forall k :: 0 <= k < |words| ==> words[k] == WordIn(body, 8 * k)
    ensures Lies(body, 0, d, n, flat, i)
  {
    assert 8 * (2 * i) == 16 * i && 8 * (2 * i + 1) == 16 * i + 8;
    assert 8 * (2 * n + 2 + i) == 16 * n + 16 + 8 * i && 8 * (3 * n + 4 + i) == 24 * n + 32 + 8 * i;
  }

  lemma WordShift(c: Bytes, base: nat, at: nat)
    requires base <= |c|
    ensures WordIn(c[base..], at) == WordIn(c, base + at)
  {
    if base + at + 8 <= |c| { assert c[base..][at..at + 8] == c[base + at..base + at + 8]; }
  }

  lemma LiesFurther(c: Bytes, base: nat, d: nat, n: nat, flat: seq<nat>, i: nat)
    requires base <= |c| && Lies(c[base..], 0, d, n, flat, i)
    ensures Lies(c, base, d, n, flat, i)
  {
    WordShift(c, base, 16 * i);
    WordShift(c, base, 16 * i + 8);
    WordShift(c, base, 16 * n + 16 + 8 * i);
    WordShift(c, base, 24 * n + 32 + 8 * i);
  }

  /** The points of a shape whose body is what the record has from `base` on. */
  lemma MultiLies(c: Bytes, base: nat, t: nat, box: seq<nat>, n: nat, parts: seq<nat>, body: Bytes, i: nat)
    requires base <= |c| && body == c[base..] && IsLayout(Stride(t)) && |body| == Start(8, BodySize(Stride(t), n)) && i < n
    ensures Lies(c, base, Stride(t), n, MultiOf(t, box, n, parts, body).flat, i)
  {
    var d, words := Stride(t), Fields(body, 8, BodySize(Stride(t), n));
    FlatAt(words, d, n, n, i);
    WordsOf(body, BodySize(d, n));
    LiesInBody(d, n, body, FlatOf(words, d, n, n), words, i);
    LiesFurther(c, base, d, n, FlatOf(words, d, n, n), i);
  }

  lemma Later(c: Bytes, a: nat, b: nat)
    requires a + b <= |c|
    ensures c[a..][b..] == c[a + b..]
  {
  }

  /** Point i of a shape lies where a record of its type has it. */
  predicate LiesByType(c: Bytes, s: Shape, i: nat)
    requires s.MultiShape?
  {
    Lies(c, if s.shapeType in {8, 18, 28} then 40 else 44 + 4 * |s.parts|, Coordinates(s.shapeType), s.numPoints, s.flat, i)
  }

  lemma PointsLie(c: Bytes, t: nat, box: seq<nat>, r: Bytes, opt: Options, i: nat)
    requires |c| >= 36 && r == c[36..] && t != 0 && !IsPoint(t) && !HasParts(t)
    requires var p := ParsePoints(t, box, r, opt); p.Some? && p.value.MultiShape? && i < p.value.numPoints
    ensures LiesByType(c, ParsePoints(t, box, r, opt).value, i)
  {
    Later(c, 36, 4);
    MultiLies(c, 40, t, box, Fields(r, 4, 1)[0], [], r[4..], i);
  }

  lemma ShapeOfParts(t: nat, box: seq<nat>, r: Bytes, opt: Options, value: nat -> real) returns (n: nat, parts: seq<nat>)
    requires HasParts(t) && ParseParts(t, box, r, opt, value).Some?
    ensures IsLayout(Stride(t)) && 8 + Start(4, |parts|) <= |r|
    ensures var body := r[8..][Start(4, |parts|)..];
      |body| == Start(8, BodySize(Stride(t), n)) && ParseParts(t, box, r, opt, value).value == MultiOf(t, box, n, parts, body)
  {
    var k := Fields(r, 4, 2)[0];
    n := Fields(r, 4, 2)[1];
    parts := Fields(r[8..], 4, k)[1..] + [n];
  }

  lemma PartsLie(c: Bytes, t: nat, box: seq<nat>, r: Bytes, opt: Options, value: nat -> real, i: nat)
    requires |c| >= 36 && r == c[36..] && HasParts(t)
    requires var p := ParseParts(t, box, r, opt, value); p.Some? && i < p.value.numPoints
    ensures LiesByType(c, ParseParts(t, box, r, opt, value).value, i)
  {
    var n, parts := ShapeOfParts(t, box, r, opt, value);
    var body := r[8..][Start(4, |parts|)..];
    Sizes(|parts|);
    Later(c, 36, 8);
    Later(c, 44, Start(4, |parts|));
    MultiLiesByType(c, t, box, n, parts, body, i);
  }

  lemma MultiLiesByType(c: Bytes, t: nat, box: seq<nat>, n: nat, parts: seq<nat>, body: Bytes, i: nat)
    requires HasParts(t) && 44 + 4 * |parts| <= |c| && body == c[44 + 4 * |parts|..]
    requires IsLayout(Stride(t)) && |body| == Start(8, BodySize(Stride(t), n)) && i < n
    ensures LiesByType(c, MultiOf(t, box, n, parts, body), i)
  {
    MultiLies(c, 44 + 4 * |parts|, t, box, n, parts, body, i);
  }

  /** Where every coordinate of every point of a record is read from. */
  lemma CoordinatesLie(c: Bytes, opt: Options, value: nat -> real, i: nat)
    requires var p := ParseContent(c, opt, value); p.Some? && p.value.MultiShape? && i < p.value.numPoints
    ensures LiesByType(c, ParseContent(c, opt, value).value, i)
  {
    var t, r := Fields(c, 4, 1)[0], c[4..];
    Later(c, 4, 32);
    if HasParts(t) { PartsLie(c, t, Fields(r, 8, 4), r[32..], opt, value, i); }
    else { PointsLie(c, t, Fields(r, 8, 4), r[32..], opt, i); }
  }

  /** What the coordinates stand for bears on polygons only: of other records they are not looked at. */
  lemma OnlyPolygonsLookAtValues(c: Bytes, opt: Options, value: nat -> real, other: nat -> real)
    requires |c| >= 4 && CodeOf(c) !in {5, 15, 25}
    ensures ParseContent(c, opt, value) == ParseContent(c, opt, other)
  {
    CodeRead(c);
  }

  /** A ring that goes up, right, down and left again is a clockwise one, and the other way round is not. */
  lemma RectangleTurns(x: real, y: real, w: real, h: real)
    requires w > 0.0 && h > 0.0
    ensures Clockwise([x, y, x, y + h, x + w, y + h, x + w, y, x, y], 2, [5]) == [true]
    ensures Clockwise([x, y, x + w, y, x + w, y + h, x, y + h, x, y], 2, [5]) == [false]
  {
    var a, b, c, d := XY(x, y), XY(x, y + h), XY(x + w, y + h), XY(x + w, y);
    RingOfFive([x, y, x, y + h, x + w, y + h, x + w, y, x, y], a, b, c, d, a);
    RingOfFive([x, y, x + w, y, x + w, y + h, x, y + h, x, y], a, d, c, b, a);
    RectangleShares(x, y, w, h);
  }

  lemma RingOfFive(flat: seq<real>, p: XY, q: XY, r: XY, s: XY, t: XY)
    requires flat == [p.x, p.y, q.x, q.y, r.x, r.y, s.x, s.y, t.x, t.y]
    ensures EndsFit(flat, 2, [5])
    ensures Clockwise(flat, 2, [5]) == [Share(p, q) + Share(q, r) + Share(r, s) + Share(s, t) < 0.0]
  {
    StartIsProduct(2, 5);
    StartIsProduct(2, 4);
    StartIsProduct(2, 3);
    StartIsProduct(2, 2);
    StartIsProduct(2, 1);
    assert RingArea(flat, 2, 0, 3) == Share(p, q) + Share(q, r) by { assert RingArea(flat, 2, 0, 2) == Share(p, q); }
    assert RingArea(flat, 2, 0, 4) == Share(p, q) + Share(q, r) + Share(r, s);
    assert RingArea(flat, 2, 0, 5) == Share(p, q) + Share(q, r) + Share(r, s) + Share(s, t);
  }

  lemma RectangleShares(x: real, y: real, w: real, h: real)
    requires w > 0.0 && h > 0.0
    ensures var a, b, c, d := XY(x, y), XY(x, y + h), XY(x + w, y + h), XY(x + w, y);
      && Share(a, b) + Share(b, c) + Share(c, d) + Share(d, a) == -2.0 * (w * h) < 0.0
      && Share(a, d) + Share(d, c) + Share(c, b) + Share(b, a) == 2.0 * (w * h) > 0.0
  {
    var p, q := h * x, h * (x + w);
    assert q == p + w * h;
    assert h * (x + x) == 2.0 * p && h * (x + w + (x + w)) == 2.0 * q;
    assert (0.0 - h) * (x + w + (x + w)) == -2.0 * q && (0.0 - h) * (x + x) == -2.0 * p;
  }
}
