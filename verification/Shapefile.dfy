/**
 * `ReadSHPRecord` (internal/formats/shapefile/shp.go): the length arithmetic
 * makes every later read be in range and use up the content, and the record is
 * exactly what the content describes.
 */
module Shapefile {
  import opened Basics
  import opened Records
  import opened ShapefileRings
  import opened ShapefileContent
  import opened ShapefileShape
  import opened ShapefileReader

  // ----- coordinates

  lemma {:induction false} StartAdds(w: nat, a: nat, b: nat)
    ensures Start(w, a + b) == Start(w, a) + Start(w, b)
    decreases b
  {
    if b > 0 { StartAdds(w, a, b - 1); }
  }

  lemma {:induction false} FieldsShift(bs: Bytes, w: nat, a: nat, m: nat, k: nat)
    requires k == a + m && Start(w, k) <= |bs|
    ensures Start(w, k) == Start(w, a) + Start(w, m)
    ensures Fields(bs[Start(w, a)..], w, m) == Fields(bs, w, k)[a..]
    decreases m
  {
    StartAdds(w, a, m);
    if m > 0 {
      FieldsShift(bs, w, a, m - 1, k - 1);
      SliceOfTail(bs, Start(w, a), Start(w, m - 1), Start(w, m));
      TailMore(Fields(bs, w, k - 1), a, Decode(bs[Start(w, k - 1)..Start(w, k)]));
    }
  }

  lemma {:induction false} FieldsFewer(bs: Bytes, w: nat, k: nat, n: nat)
    requires Start(w, n) <= |bs| && k <= n
    ensures Start(w, k) <= Start(w, n) && Fields(bs, w, k) == Fields(bs, w, n)[..k]
    decreases n
  {
    if k < n { FieldsFewer(bs, w, k, n - 1); }
  }

  /** Numbers a up to a + m of a longer run. */
  lemma FieldsBetween(bs: Bytes, w: nat, a: nat, m: nat, k: nat, n: nat)
    requires Start(w, n) <= |bs| && k == a + m <= n
    ensures Start(w, a) + Start(w, m) <= |bs|
    ensures Fields(bs[Start(w, a)..], w, m) == Fields(bs, w, n)[a..k]
  {
    FieldsFewer(bs, w, k, n);
    FieldsShift(bs, w, a, m, k);
  }

  lemma SliceOfTail(bs: Bytes, at: nat, i: nat, j: nat)
    requires i <= j && at + j <= |bs|
    ensures bs[at..][i..j] == bs[at + i..at + j]
  {
  }

  lemma TailMore(us: seq<nat>, a: nat, u: nat)
    requires a <= |us|
    ensures (us + [u])[a..] == us[a..] + [u]
  {
  }

  lemma WrittenXY(flat: seq<nat>, xy: seq<nat>, stride: nat, n: nat, i: nat)
    requires stride >= 2 && |flat| == Start(stride, n) && |xy| == 2 * n && i < n
    ensures Start(stride, i) + stride <= |flat|
    ensures var f, at := WriteXYs(flat, xy, stride, n), Start(stride, i); f[at] == xy[2 * i] && f[at + 1] == xy[2 * i + 1]
  {
    WroteXYs(flat, xy, stride, n, i);
  }

  lemma WrittenThird(flat: seq<nat>, xy: seq<nat>, third: seq<nat>, stride: nat, n: nat, i: nat)
    requires stride >= 3 && |flat| == Start(stride, n) && |xy| == 2 * n && |third| == n && i < n
    ensures Start(stride, i) + stride <= |flat|
    ensures var f, at := WriteOrdinates(WriteXYs(flat, xy, stride, n), third, stride, 2, n), Start(stride, i);
      f[at] == xy[2 * i] && f[at + 1] == xy[2 * i + 1] && f[at + 2] == third[i]
  {
    var f := WriteXYs(flat, xy, stride, n);
    WrittenXY(flat, xy, stride, n, i);
    WroteOrdinates(f, third, stride, 2, n, i, 0);
    WroteOrdinates(f, third, stride, 2, n, i, 1);
    WroteOrdinates(f, third, stride, 2, n, i, 2);
  }

  lemma WrittenFourth(flat: seq<nat>, xy: seq<nat>, third: seq<nat>, fourth: seq<nat>, stride: nat, n: nat, i: nat)
    requires stride >= 4 && |flat| == Start(stride, n) && |xy| == 2 * n && |third| == |fourth| == n && i < n
    ensures Start(stride, i) + stride <= |flat|
    ensures var f := WriteOrdinates(WriteXYs(flat, xy, stride, n), third, stride, 2, n);
      var g, at := WriteOrdinates(f, fourth, stride, 3, n), Start(stride, i);
      g[at] == xy[2 * i] && g[at + 1] == xy[2 * i + 1] && g[at + 2] == third[i] && g[at + 3] == fourth[i]
  {
    var f := WriteOrdinates(WriteXYs(flat, xy, stride, n), third, stride, 2, n);
    WrittenThird(flat, xy, third, stride, n, i);
    WroteOrdinates(f, fourth, stride, 3, n, i, 0);
    WroteOrdinates(f, fourth, stride, 3, n, i, 1);
    WroteOrdinates(f, fourth, stride, 3, n, i, 2);
    WroteOrdinates(f, fourth, stride, 3, n, i, 3);
  }

  /** The kinds of coordinates in a body. */
  function XYPart(words: seq<nat>, n: nat): seq<nat>
    requires 2 * n <= |words|
  {
    words[..2 * n]
  }

  function KindPart(words: seq<nat>, n: nat, j: nat): seq<nat>
    requires KindStart(n, j) + n <= |words|
  {
    words[KindStart(n, j)..KindStart(n, j) + n]
  }

  /** The writes of the further kinds, and all the writes for a layout, one after the other. */
  function Further(f: seq<nat>, words: seq<nat>, stride: nat, n: nat): (g: seq<nat>)
    requires IsLayout(stride) && |f| == Start(stride, n) && |words| == BodySize(stride, n)
    ensures |g| == |f|
  {
    if stride == 2 then f
    else
      var g := WriteOrdinates(f, KindPart(words, n, 2), stride, 2, n);
      if stride == 3 then g else WriteOrdinates(g, KindPart(words, n, 3), stride, 3, n)
  }

  function Written(flat: seq<nat>, words: seq<nat>, stride: nat, n: nat): (f: seq<nat>)
    requires IsLayout(stride) && |flat| == Start(stride, n) && |words| == BodySize(stride, n)
    ensures |f| == |flat|
  {
    Further(WriteXYs(flat, XYPart(words, n), stride, n), words, stride, n)
  }

  lemma WrittenCarries(flat: seq<nat>, words: seq<nat>, stride: nat, n: nat, i: nat)
    requires IsLayout(stride) && |flat| == Start(stride, n) && |words| == BodySize(stride, n) && i < n
    ensures CarriesAt(Written(flat, words, stride, n), words, stride, n, i)
  {
    if stride == 2 {
      WrittenXY(flat, XYPart(words, n), stride, n, i);
    } else if stride == 3 {
      ThirdCarries(flat, words, stride, n, i);
    } else {
      FourthCarries(flat, words, stride, n, i);
    }
  }

  lemma ThirdCarries(flat: seq<nat>, words: seq<nat>, stride: nat, n: nat, i: nat)
    requires stride == 3 && |flat| == Start(stride, n) && |words| == BodySize(stride, n) && i < n
    ensures CarriesAt(Written(flat, words, stride, n), words, stride, n, i)
  {
    WrittenThird(flat, XYPart(words, n), KindPart(words, n, 2), stride, n, i);
  }

  lemma FourthCarries(flat: seq<nat>, words: seq<nat>, stride: nat, n: nat, i: nat)
    requires stride == 4 && |flat| == Start(stride, n) && |words| == BodySize(stride, n) && i < n
    ensures CarriesAt(Written(flat, words, stride, n), words, stride, n, i)
  {
    WrittenFourth(flat, XYPart(words, n), KindPart(words, n, 2), KindPart(words, n, 3), stride, n, i);
  }

  /** The reads of the coordinates put them where they belong. */
  lemma WrittenIsFlat(flat: seq<nat>, words: seq<nat>, stride: nat, n: nat)
    requires IsLayout(stride) && |flat| == Start(stride, n) && |words| == BodySize(stride, n)
    ensures Written(flat, words, stride, n) == FlatOf(words, stride, n, n)
  {
    var f := Written(flat, words, stride, n);
    forall i | 0 <= i < n ensures CarriesAt(f, words, stride, n, i) {
      WrittenCarries(flat, words, stride, n, i);
    }
    CarriesIsFlat(f, words, stride, n, n);
    assert f[..|f|] == f;
  }

  /** The range and the values of a further kind of coordinates. */
  method ReadKind(r: ByteSliceReader, flat: array<nat>, n: nat, stride: nat, j: nat) returns (lo: nat, hi: nat)
    requires r.Has(16 + 8 * n) && j < stride && flat.Length == Start(stride, n)
    modifies r, flat
    ensures !r.failed && r.rest == old(r.rest)[16 + 8 * n..]
    ensures Start(8, n) == 8 * n && [lo, hi] == Fields(old(r.rest), 8, 2)
    ensures flat[..] == WriteOrdinates(old(flat[..]), Fields(old(r.rest)[16..], 8, n), stride, j, n)
  {
    lo, hi := r.ReadFloat64Pair();
    r.ReadOrdinates(flat, n, stride, j);
    assert old(r.rest)[16..][8 * n..] == old(r.rest)[16 + 8 * n..];
  }

  /** The x and y of a body are in front, and after them each kind with its range before it. */
  lemma XYFields(bs: Bytes, n: nat, size: nat)
    requires |bs| == Start(8, size) && 2 * n <= size
    ensures |bs| == 8 * size && Start(8, 2 * n) == 16 * n
    ensures Fields(bs, 8, 2 * n) == XYPart(Fields(bs, 8, size), n)
  {
    Sizes(size);
    Sizes(2 * n);
    FieldsFewer(bs, 8, 2 * n, size);
  }

  lemma KindFields(bs: Bytes, n: nat, size: nat, at: nat)
    requires |bs| == Start(8, size) && 2 <= at && at + n <= size
    ensures |bs| == 8 * size && Start(8, n) == 8 * n
    ensures Fields(bs[8 * (at - 2)..], 8, 2) == Fields(bs, 8, size)[at - 2..at]
    ensures Fields(bs[8 * at..], 8, n) == Fields(bs, 8, size)[at..at + n]
  {
    WordsBetween(bs, at - 2, 2, size);
    WordsBetween(bs, at, n, size);
  }

  lemma WordsBetween(bs: Bytes, a: nat, m: nat, size: nat)
    requires |bs| == Start(8, size) && a + m <= size
    ensures |bs| == 8 * size && Start(8, m) == 8 * m
    ensures Fields(bs[8 * a..], 8, m) == Fields(bs, 8, size)[a..a + m]
  {
    Sizes(size);
    Sizes(m);
    Sizes(a);
    FieldsBetween(bs, 8, a, m, a + m, size);
  }

  /** `make` and `readXYs`. */
  method ReadFlat(r: ByteSliceReader, n: nat, stride: nat, ghost size: nat) returns (flat: array<nat>, ghost zeros: seq<nat>)
    requires stride >= 2 && !r.failed && |r.rest| == Start(8, size) && 2 * n <= size
    modifies r
    ensures fresh(flat) && flat.Length == |zeros| == Start(stride, n)
    ensures !r.failed && |old(r.rest)| == 8 * size && r.rest == old(r.rest)[16 * n..]
    ensures flat[..] == WriteXYs(zeros, XYPart(Fields(old(r.rest), 8, size), n), stride, n)
  {
    XYFields(r.rest, n, size);
    StartIsProduct(stride, n);
    flat := new nat[stride * n](_ => 0);
    zeros := flat[..];
    r.ReadXYs(flat, n, stride);
  }

  /** A kind with its range, from its place in the body. */
  method ReadKindAt(r: ByteSliceReader, flat: array<nat>, n: nat, stride: nat, j: nat, ghost bs: Bytes, ghost size: nat, ghost at: nat)
    returns (lo: nat, hi: nat)
    requires !r.failed && |bs| == Start(8, size) == 8 * size && 2 <= at && at + n <= size && r.rest == bs[8 * (at - 2)..]
    requires j < stride && flat.Length == Start(stride, n)
    modifies r, flat
    ensures !r.failed && r.rest == bs[8 * (at + n)..]
    ensures [lo, hi] == Fields(bs, 8, size)[at - 2..at]
    ensures flat[..] == WriteOrdinates(old(flat[..]), Fields(bs, 8, size)[at..at + n], stride, j, n)
  {
    KindFields(bs, n, size, at);
    assert r.rest[16..] == bs[8 * at..] && r.rest[16 + 8 * n..] == bs[8 * (at + n)..];
    lo, hi := ReadKind(r, flat, n, stride, j);
  }

  /** The reads of the further kinds of an XYM layout. */
  method ReadM(r: ByteSliceReader, flat: array<nat>, n: nat, ghost bs: Bytes, ghost words: seq<nat>) returns (ranges: seq<nat>)
    requires !r.failed && |bs| == Start(8, BodySize(3, n)) == 8 * BodySize(3, n) && words == Fields(bs, 8, BodySize(3, n))
    requires r.rest == bs[16 * n..] && flat.Length == Start(3, n)
    modifies r, flat
    ensures !r.failed && r.rest == []
    ensures flat[..] == Further(old(flat[..]), words, 3, n) && ranges == RangesOf(words, 3, n)
  {
    RangeAt(words, 3, n);
    var minM, maxM := ReadKindAt(r, flat, n, 3, 2, bs, BodySize(3, n), KindStart(n, 2));
    assert |r.rest| == 0;
    ranges := [minM, maxM];
  }

  /** The reads of the further kinds of an XYZM layout. */
  method ReadZM(r: ByteSliceReader, flat: array<nat>, n: nat, ghost bs: Bytes, ghost words: seq<nat>) returns (ranges: seq<nat>)
    requires !r.failed && |bs| == Start(8, BodySize(4, n)) == 8 * BodySize(4, n) && words == Fields(bs, 8, BodySize(4, n))
    requires r.rest == bs[16 * n..] && flat.Length == Start(4, n)
    modifies r, flat
    ensures !r.failed && r.rest == []
    ensures flat[..] == Further(old(flat[..]), words, 4, n) && ranges == RangesOf(words, 4, n)
  {
    ghost var size, z, m := BodySize(4, n), KindStart(n, 2), KindStart(n, 3);
    RangeAt(words, 4, n);
    var minZ, maxZ := ReadKindAt(r, flat, n, 4, 2, bs, size, z);
    assert z + n == m - 2 && m + n == size;
    var minM, maxM := ReadKindAt(r, flat, n, 4, 3, bs, size, m);
    assert |r.rest| == 0;
    ranges := [minZ, maxZ] + [minM, maxM];
  }

  lemma RangeAt(words: seq<nat>, stride: nat, n: nat)
    requires 3 <= stride <= 4 && |words| == BodySize(stride, n)
    ensures var at, at' := KindStart(n, 2), KindStart(n, 3); stride == 4 ==> at' <= |words|
    ensures var at, at' := KindStart(n, 2), KindStart(n, 3);
      RangesOf(words, stride, n) == if stride == 3 then words[at - 2..at] else words[at - 2..at] + words[at' - 2..at']
  {
  }

  /** The coordinates use up the rest, and come out by point. */
  method ReadCoords(r: ByteSliceReader, n: nat, stride: nat) returns (flat: array<nat>, ranges: seq<nat>)
    requires IsLayout(stride) && !r.failed && |r.rest| == Start(8, BodySize(stride, n))
    modifies r
    ensures !r.failed && r.rest == [] && fresh(flat)
    ensures var words := Fields(old(r.rest), 8, BodySize(stride, n));
      flat[..] == FlatOf(words, stride, n, n) && ranges == RangesOf(words, stride, n)
  {
    ghost var bs := r.rest;
    ghost var words := Fields(bs, 8, BodySize(stride, n));
    ghost var zeros;
    flat, zeros := ReadFlat(r, n, stride, BodySize(stride, n));
    ranges := [];
    if stride == 3 {
      ranges := ReadM(r, flat, n, bs, words);
    } else if stride == 4 {
      ranges := ReadZM(r, flat, n, bs, words);
    }
    WrittenIsFlat(zeros, words, stride, n);
  }

  // ----- shapes

  /** A shape, with the ends of its parts in flat coordinates and their grouping into polygons. */
  datatype Geometry = Geometry(shape: Shape, ends: seq<nat>, endss: seq<seq<nat>>)

  ghost predicate Placed(g: Geometry, value: nat -> real) {
    g.shape.MultiShape? && HasParts(g.shape.shapeType) ==>
      var stride, parts, flat := Stride(g.shape.shapeType), g.shape.parts, Reals(value, g.shape.flat);
      && EndsAt(stride, parts, g.ends) && EndsFit(flat, stride, parts)
      && (IsPolygon(g.shape.shapeType) ==> Grouped(Clockwise(flat, stride, parts), g.ends, g.endss))
  }

  /** What is read is what is there: nothing for nothing, and otherwise the shape and the ends of its parts. */
  ghost predicate Reads(g: Option<Geometry>, s: Option<Shape>, value: nat -> real) {
    (g.Some? <==> s.Some?) && (g.Some? ==> g.value.shape == s.value && Placed(g.value, value))
  }

  /** The length of the coordinates, as the `switch` on the layout adds it up. */
  function CoordsLength(stride: nat, n: nat): (r: nat)
    requires stride == 0 || IsLayout(stride)
    ensures r == 8 * BodySize(stride, n)
  {
    if stride == 2 then 8 * 2 * n
    else if stride == 3 then 8 * 2 * n + 8 * 2 + 8 * n
    else if stride == 4 then 8 * 2 * n + 8 * 2 + 8 * n + 8 * 2 + 8 * n
    else 0
  }

  lemma TwoCounts(bs: Bytes)
    requires |bs| >= 8
    ensures Fields(bs, 4, 2) == [Fields(bs, 4, 1)[0], Fields(bs[4..], 4, 1)[0]]
  {
    assert bs[4..][0..4] == bs[4..8];
  }

  lemma PartsFit(value: nat -> real, flat: seq<nat>, stride: nat, n: nat, parts: seq<nat>)
    requires stride >= 2 && |flat| == Start(stride, n) && forall i :: 0 <= i < |parts| ==> parts[i] <= n
    ensures EndsFit(Reals(value, flat), stride, parts)
  {
    forall i | 0 <= i < |parts| ensures Start(stride, parts[i]) <= |flat| {
      if parts[i] < n { StartOrder(stride, parts[i], n); }
    }
  }

  /** The reads after the checks; here no read is out of range. */
  method ReadPartsBody(r: ByteSliceReader, t: nat, box: seq<nat>, k: nat, n: nat, value: nat -> real)
    returns (g: Option<Geometry>)
    requires HasParts(t) && k > 0 && !r.failed && |r.rest| == Start(4, k) + Start(8, BodySize(Stride(t), n))
    modifies r
    ensures Reads(g, PartsShape(t, box, n, old(r.rest), k, value), value)
    ensures g.Some? ==> r.rest == []
  {
    // The shape keeps the ends in points, so that it does not depend on the layout.
    var starts := Fields(r.rest, 4, k);
    var stride := Stride(t);
    var ends := r.ReadEnds(stride, k, n);
    if r.failed { return None; }
    var flat, ranges := ReadCoords(r, n, stride);
    var parts := starts[1..] + [n];
    PartsFit(value, flat[..], stride, n, parts);
    var shape := MultiShape(t, box, ranges, n, parts, flat[..]);
    g := Some(Geometry(shape, ends, []));
    if IsPolygon(t) {
      var endss := MakeMultiPolygonEndss(Reals(value, flat[..]), ends, stride, parts);
      if endss.None? { return None; }
      g := Some(Geometry(shape, ends, endss.value));
    }
  }

  /** A record with parts, from its counts on. */
  method ReadParts(r: ByteSliceReader, t: nat, box: seq<nat>, contentLength: nat, opt: Options, value: nat -> real)
    returns (g: Option<Geometry>)
    requires HasParts(t) && (r.failed || contentLength == 36 + |r.rest|)
    modifies r
    ensures old(r.failed) ==> g.None?
    ensures !old(r.failed) ==> Reads(g, ParseParts(t, box, old(r.rest), opt, value), value)
    ensures g.Some? ==> r.rest == []
  {
    ghost var bs, bad := r.rest, r.failed;
    var numParts := r.ReadUint32();
    if numParts == 0 || Over(opt.maxParts, numParts) {
      if !bad && |bs| >= 8 { TwoCounts(bs); }
      return None;
    }
    var numPoints := r.ReadUint32();
    if |bs| >= 8 { TwoCounts(bs); }
    if Over(opt.maxPoints, numPoints) { return None; }
    var expected := 4 + 8 * 4 + 4 + 4 * numParts + 4 + CoordsLength(Stride(t), numPoints);
    Sizes(numParts);
    Sizes(BodySize(Stride(t), numPoints));
    if contentLength != expected { return None; }
    assert bs[4..][4..] == bs[8..];
    g := ReadPartsBody(r, t, box, numParts, numPoints, value);
  }

  /** A multipoint, or a type without a layout, from its count on. */
  method ReadPoints(r: ByteSliceReader, t: nat, box: seq<nat>, contentLength: nat, opt: Options)
    returns (g: Option<Geometry>)
    requires !HasParts(t) && (r.failed || contentLength == 36 + |r.rest|) && (r.failed ==> contentLength < 36)
    modifies r
    ensures old(r.failed) ==> g.None?
    ensures !old(r.failed) ==> (g.Some? <==> ParsePoints(t, box, old(r.rest), opt).Some?)
    ensures g.Some? ==> g.value.shape == ParsePoints(t, box, old(r.rest), opt).value && r.rest == []
  {
    var numPoints := r.ReadUint32();
    if Over(opt.maxPoints, numPoints) { return None; }
    var stride := Stride(t);
    var expected := 4 + 8 * 4 + 4 + CoordsLength(stride, numPoints);
    Sizes(BodySize(stride, numPoints));
    if contentLength != expected { return None; }
    if stride == 0 {
      var flat := new nat[0];
      r.ReadXYs(flat, numPoints, 0);
      if r.failed { return None; }
      return Some(Geometry(NoGeometry(t), [], []));
    }
    var flat, ranges := ReadCoords(r, numPoints, stride);
    g := Some(Geometry(MultiShape(t, box, ranges, numPoints, [], flat[..]), [], []));
  }

  method ReadBox(r: ByteSliceReader) returns (box: seq<nat>)
    requires !r.failed
    modifies r
    ensures |old(r.rest)| >= 32 ==> !r.failed && r.rest == old(r.rest)[32..] && box == Fields(old(r.rest), 8, 4)
    ensures |old(r.rest)| < 32 ==> r.failed
  {
    if |r.rest| >= 32 { FourWords(r.rest); }
    var minX, minY := r.ReadFloat64Pair();
    var maxX, maxY := r.ReadFloat64Pair();
    box := [minX, minY] + [maxX, maxY];
  }

  /** A shape of many points, from its box on. */
  method ReadMany(r: ByteSliceReader, t: nat, contentLength: nat, opt: Options, value: nat -> real)
    returns (g: Option<Geometry>)
    requires !r.failed && contentLength == 4 + |r.rest|
    modifies r
    ensures |old(r.rest)| < 32 ==> g.None?
    ensures |old(r.rest)| >= 32 && HasParts(t) ==>
      Reads(g, ParseParts(t, Fields(old(r.rest), 8, 4), old(r.rest)[32..], opt, value), value)
    ensures |old(r.rest)| >= 32 && !HasParts(t) ==>
      Reads(g, ParsePoints(t, Fields(old(r.rest), 8, 4), old(r.rest)[32..], opt), value)
    ensures g.Some? ==> r.rest == []
  {
    var box := ReadBox(r);
    if HasParts(t) {
      g := ReadParts(r, t, box, contentLength, opt, value);
    } else {
      g := ReadPoints(r, t, box, contentLength, opt);
    }
  }

  /** `ReadSHPRecord` after the record header: what is read is what the content says. */
  method ReadContent(c: Bytes, opt: Options, value: nat -> real) returns (g: Option<Geometry>)
    ensures Reads(g, ParseContent(c, opt, value), value)
  {
    var r := new ByteSliceReader(c);
    var t := r.ReadUint32();
    if t == 0 {
      if |c| != 4 { return None; }
      return Some(Geometry(NullShape, [], []));
    }
    if IsPoint(t) {
      var coords := r.ReadFloat64s(Stride(t));
      Sizes(Stride(t));
      if |c| != 4 + 8 * Stride(t) { return None; }
      return Some(Geometry(PointShape(t, coords), [], []));
    }
    g := ReadMany(r, t, |c|, opt, value);
  }

  lemma TwoRuns(bs: Bytes, w: nat, a: nat, m: nat)
    requires Start(w, a + m) <= |bs|
    ensures Start(w, a) + Start(w, m) <= |bs|
    ensures Fields(bs, w, a + m) == Fields(bs, w, a) + Fields(bs[Start(w, a)..], w, m)
  {
    FieldsShift(bs, w, a, m, a + m);
    FieldsFewer(bs, w, a, a + m);
  }

  lemma FourWords(bs: Bytes)
    requires |bs| >= 32
    ensures Fields(bs, 8, 4) == Fields(bs, 8, 2) + Fields(bs[16..], 8, 2) && bs[16..][16..] == bs[32..]
  {
    TwoRuns(bs, 8, 2, 2);
  }
}
