/**
 * What `ReadSHPRecord` makes of the content of a record
 * (internal/formats/shapefile/shp.go), and that it reads back every shape from
 * the bytes of its description in the ESRI Shapefile Technical Description.
 */
module ShapefileShape {
  import opened Basics
  import opened Records
  import opened ShapefileRings
  import opened ShapefileContent

  /** `ReadSHPOptions`; a limit of zero is none. */
  datatype Options = Options(maxParts: int, maxPoints: int, maxRecordSize: int)

  predicate Over(limit: int, n: int) {
    limit != 0 && n > limit
  }

  /** Coordinates are bit patterns of doubles; parts are ring or line ends, counted in points. */
  datatype Shape =
    | NullShape
    | PointShape(shapeType: nat, coords: seq<nat>)
    | MultiShape(shapeType: nat, box: seq<nat>, ranges: seq<nat>, numPoints: nat, parts: seq<nat>, flat: seq<nat>)
    | NoGeometry(shapeType: nat)

  /** The values that bit patterns stand for. */
  function Reals(value: nat -> real, ws: seq<nat>): (rs: seq<real>)
    ensures |rs| == |ws|
  {
    seq(|ws|, i requires 0 <= i < |ws| => value(ws[i]))
  }

  ghost predicate RingsGood(value: nat -> real, flat: seq<nat>, stride: nat, parts: seq<nat>)
    requires stride >= 2 && EndsFit(Reals(value, flat), stride, parts)
  {
    forall i :: 0 <= i < |parts| ==> GoodRing(Reals(value, flat), stride, parts, i)
  }

  // ----- from bytes

  ghost function ParseContent(c: Bytes, opt: Options, value: nat -> real): Option<Shape> {
    if |c| < 4 then None
    else
      var t, r := Fields(c, 4, 1)[0], c[4..];
      if t == 0 then if r == [] then Some(NullShape) else None
      else if IsPoint(t) then
        if |r| != Start(8, Stride(t)) then None else Some(PointShape(t, Fields(r, 8, Stride(t))))
      else if |r| < 32 then None
      else if HasParts(t) then ParseParts(t, Fields(r, 8, 4), r[32..], opt, value)
      else ParsePoints(t, Fields(r, 8, 4), r[32..], opt)
  }

  /** A multipoint, or a type without a layout. */
  ghost function ParsePoints(t: nat, box: seq<nat>, r: Bytes, opt: Options): Option<Shape> {
    if |r| < 4 then None
    else
      var n, body := Fields(r, 4, 1)[0], r[4..];
      if Over(opt.maxPoints, n) || |body| != Start(8, BodySize(Stride(t), n)) then None
      else if Stride(t) == 0 then if n > 0 then None else Some(NoGeometry(t))
      else Some(MultiOf(t, box, n, [], body))
  }

  /** Lines or rings. */
  ghost function ParseParts(t: nat, box: seq<nat>, r: Bytes, opt: Options, value: nat -> real): Option<Shape>
    requires HasParts(t)
  {
    if |r| < 8 then None
    else
      var k, n, more := Fields(r, 4, 2)[0], Fields(r, 4, 2)[1], r[8..];
      if k == 0 || Over(opt.maxParts, k) || Over(opt.maxPoints, n) then None
      else if |more| != Start(4, k) + Start(8, BodySize(Stride(t), n)) then None
      else
        PartsShape(t, box, n, more, k, value)
  }

  /** The shape, once the counts and the length are right. */
  ghost function PartsShape(t: nat, box: seq<nat>, n: nat, more: Bytes, k: nat, value: nat -> real): Option<Shape>
    requires HasParts(t) && |more| == Start(4, k) + Start(8, BodySize(Stride(t), n))
  {
    var starts := Fields(more, 4, k);
    if !StartsFit(starts, n) then None
    else
      var s := MultiOf(t, box, n, starts[1..] + [n], more[Start(4, k)..]);
      if IsPolygon(t) && !PolygonGood(s, value) then None else Some(s)
  }

  predicate StartsFit(starts: seq<nat>, n: nat) {
    starts != [] && starts[0] == 0 && forall i :: 0 <= i < |starts| ==> starts[i] <= n
  }

  function MultiOf(t: nat, box: seq<nat>, n: nat, parts: seq<nat>, body: Bytes): Shape
    requires IsLayout(Stride(t)) && |body| == Start(8, BodySize(Stride(t), n))
  {
    var stride, words := Stride(t), Fields(body, 8, BodySize(Stride(t), n));
    MultiShape(t, box, RangesOf(words, stride, n), n, parts, FlatOf(words, stride, n, n))
  }

  ghost predicate PolygonGood(s: Shape, value: nat -> real)
    requires s.MultiShape? && Stride(s.shapeType) >= 2
  {
    && EndsFit(Reals(value, s.flat), Stride(s.shapeType), s.parts)
    && RingsGood(value, s.flat, Stride(s.shapeType), s.parts)
  }

  // ----- to bytes

  /** The shapes that have a description within the limits. */
  ghost predicate Valid(s: Shape, opt: Options, value: nat -> real) {
    match s
    case NullShape => true
    case NoGeometry(_) => false
    case PointShape(t, coords) => IsPoint(t) && |coords| == Stride(t) && Fit(coords, 8)
    case MultiShape(t, box, ranges, n, parts, flat) =>
      && !IsPoint(t) && IsLayout(Stride(t))
      && |box| == 4 && Fit(box, 8)
      && |ranges| == 2 * (Stride(t) - 2) && |flat| == Start(Stride(t), n)
      && Fit(BodyOf(flat, ranges, Stride(t), n), 8)
      && n < Limit(4) && !Over(opt.maxPoints, n)
      && (if HasParts(t) then PartsValid(s, opt, value) else parts == [])
  }

  ghost predicate PartsValid(s: Shape, opt: Options, value: nat -> real)
    requires s.MultiShape? && IsLayout(Stride(s.shapeType))
  {
    var k := |s.parts|;
    && 0 < k < Limit(4) && !Over(opt.maxParts, k)
    && s.parts[k - 1] == s.numPoints && (forall i :: 0 <= i < k ==> s.parts[i] <= s.numPoints)
    && (IsPolygon(s.shapeType) ==> PolygonGood(s, value))
  }

  /** The counts, and where each part starts. */
  function NumbersOf(s: Shape): seq<nat>
    requires s.MultiShape? && (HasParts(s.shapeType) ==> s.parts != [])
  {
    if HasParts(s.shapeType) then [|s.parts|, s.numPoints] else [s.numPoints]
  }

  function StartsOf(s: Shape): seq<nat>
    requires s.MultiShape? && (HasParts(s.shapeType) ==> s.parts != [])
  {
    if HasParts(s.shapeType) then [0] + s.parts[..|s.parts| - 1] else []
  }

  ghost function ContentOf(s: Shape, opt: Options, value: nat -> real): Bytes
    requires Valid(s, opt, value)
  {
    match s
    case NullShape => BytesOf([0], 4)
    case PointShape(t, coords) => BytesOf([t], 4) + BytesOf(coords, 8)
    case MultiShape(t, box, ranges, n, parts, flat) =>
      BytesOf([t], 4) + (BytesOf(box, 8) + (BytesOf(NumbersOf(s), 4) +
        (BytesOf(StartsOf(s), 4) + BytesOf(BodyOf(flat, ranges, Stride(t), n), 8))))
  }

  // ----- there and back

  lemma Cut(a: Bytes, b: Bytes)
    ensures (a + b)[|a|..] == b && (a + b)[..|a|] == a
  {
  }

  lemma TypeFits()
    ensures 31 < Limit(4)
  {
  }

  lemma BodyReads(t: nat, box: seq<nat>, ranges: seq<nat>, n: nat, parts: seq<nat>, flat: seq<nat>)
    requires IsLayout(Stride(t)) && |ranges| == 2 * (Stride(t) - 2) && |flat| == Start(Stride(t), n)
    requires Fit(BodyOf(flat, ranges, Stride(t), n), 8)
    ensures MultiOf(t, box, n, parts, BytesOf(BodyOf(flat, ranges, Stride(t), n), 8))
         == MultiShape(t, box, ranges, n, parts, flat)
  {
    var stride := Stride(t);
    var words := BodyOf(flat, ranges, stride, n);
    FieldsBack(words, 8, []);
    assert BytesOf(words, 8) + [] == BytesOf(words, 8);
    FlatBack(flat, ranges, stride, n);
    RangesBack(flat, ranges, stride, n);
  }

  lemma PointsRead(s: Shape, opt: Options, value: nat -> real)
    requires Valid(s, opt, value) && s.MultiShape? && !HasParts(s.shapeType)
    ensures var body := BytesOf(BodyOf(s.flat, s.ranges, Stride(s.shapeType), s.numPoints), 8);
      ParsePoints(s.shapeType, s.box, BytesOf(NumbersOf(s), 4) + (BytesOf(StartsOf(s), 4) + body), opt) == Some(s)
  {
    var body := BytesOf(BodyOf(s.flat, s.ranges, Stride(s.shapeType), s.numPoints), 8);
    assert BytesOf(StartsOf(s), 4) + body == body;
    FieldsBack(NumbersOf(s), 4, body);
    Cut(BytesOf(NumbersOf(s), 4), body);
    BodyReads(s.shapeType, s.box, s.ranges, s.numPoints, s.parts, s.flat);
  }

  lemma StartsRead(s: Shape, opt: Options, value: nat -> real)
    requires Valid(s, opt, value) && s.MultiShape? && HasParts(s.shapeType)
    ensures Fit(StartsOf(s), 4) && StartsFit(StartsOf(s), s.numPoints)
    ensures |StartsOf(s)| == |s.parts| && StartsOf(s)[1..] + [s.numPoints] == s.parts
  {
    var k := |s.parts|;
    assert s.parts == s.parts[..k - 1] + [s.parts[k - 1]];
    forall i | 0 <= i < k ensures StartsOf(s)[i] <= s.numPoints {
      assert i > 0 ==> StartsOf(s)[i] == s.parts[i - 1];
    }
  }

  lemma PartsRead(s: Shape, opt: Options, value: nat -> real)
    requires Valid(s, opt, value) && s.MultiShape? && HasParts(s.shapeType)
    ensures var body := BytesOf(BodyOf(s.flat, s.ranges, Stride(s.shapeType), s.numPoints), 8);
      ParseParts(s.shapeType, s.box, BytesOf(NumbersOf(s), 4) + (BytesOf(StartsOf(s), 4) + body), opt, value) == Some(s)
  {
    var body := BytesOf(BodyOf(s.flat, s.ranges, Stride(s.shapeType), s.numPoints), 8);
    var more := BytesOf(StartsOf(s), 4) + body;
    StartsRead(s, opt, value);
    FieldsBack(NumbersOf(s), 4, more);
    Cut(BytesOf(NumbersOf(s), 4), more);
    FieldsBack(StartsOf(s), 4, body);
    Cut(BytesOf(StartsOf(s), 4), body);
    BodyReads(s.shapeType, s.box, s.ranges, s.numPoints, s.parts, s.flat);
  }

  /** Every shape that has a description is read back from it. */
  lemma ReadsBack(s: Shape, opt: Options, value: nat -> real)
    requires Valid(s, opt, value)
    ensures ParseContent(ContentOf(s, opt, value), opt, value) == Some(s)
  {
    TypeFits();
    match s
    case NullShape =>
      FieldsBack([0], 4, []);
      assert BytesOf([0], 4) + [] == BytesOf([0], 4);
    case PointShape(t, coords) => PointReadsBack(t, coords, opt, value);
    case MultiShape(t, box, ranges, n, parts, flat) => MultiReadsBack(s, opt, value);
  }

  lemma PointReadsBack(t: nat, coords: seq<nat>, opt: Options, value: nat -> real)
    requires IsPoint(t) && |coords| == Stride(t) && Fit(coords, 8)
    ensures ParseContent(BytesOf([t], 4) + BytesOf(coords, 8), opt, value) == Some(PointShape(t, coords))
  {
    TypeFits();
    TypeReads(t, BytesOf(coords, 8));
    FieldsBack(coords, 8, []);
    assert BytesOf(coords, 8) + [] == BytesOf(coords, 8);
    PointParses(BytesOf([t], 4) + BytesOf(coords, 8), t, coords, opt, value);
  }

  lemma PointParses(c: Bytes, t: nat, coords: seq<nat>, opt: Options, value: nat -> real)
    requires |c| == 4 + Start(8, Stride(t)) && Fields(c, 4, 1)[0] == t && IsPoint(t)
    requires Fields(c[4..], 8, Stride(t)) == coords
    ensures ParseContent(c, opt, value) == Some(PointShape(t, coords))
  {
  }

  lemma TypeReads(t: nat, rest: Bytes)
    requires t < Limit(4)
    ensures var c := BytesOf([t], 4) + rest; |c| == 4 + |rest| && Fields(c, 4, 1)[0] == t && c[4..] == rest
  {
    FieldsBack([t], 4, rest);
    Cut(BytesOf([t], 4), rest);
  }

  lemma HeadReads(t: nat, box: seq<nat>, rest: Bytes, opt: Options, value: nat -> real)
    requires 0 < t < Limit(4) && !IsPoint(t) && |box| == 4 && Fit(box, 8)
    ensures ParseContent(BytesOf([t], 4) + (BytesOf(box, 8) + rest), opt, value)
         == if HasParts(t) then ParseParts(t, box, rest, opt, value) else ParsePoints(t, box, rest, opt)
  {
    TypeReads(t, BytesOf(box, 8) + rest);
    FieldsBack(box, 8, rest);
    Cut(BytesOf(box, 8), rest);
  }

  lemma MultiReadsBack(s: Shape, opt: Options, value: nat -> real)
    requires Valid(s, opt, value) && s.MultiShape?
    ensures ParseContent(ContentOf(s, opt, value), opt, value) == Some(s)
  {
    var rest := BytesOf(NumbersOf(s), 4) +
      (BytesOf(StartsOf(s), 4) + BytesOf(BodyOf(s.flat, s.ranges, Stride(s.shapeType), s.numPoints), 8));
    TypeFits();
    HeadReads(s.shapeType, s.box, rest, opt, value);
    if HasParts(s.shapeType) { PartsRead(s, opt, value); } else { PointsRead(s, opt, value); }
  }

  lemma BodyRestored(t: nat, box: seq<nat>, n: nat, parts: seq<nat>, body: Bytes)
    requires IsLayout(Stride(t)) && |body| == Start(8, BodySize(Stride(t), n))
    ensures var s := MultiOf(t, box, n, parts, body);
      var words := BodyOf(s.flat, s.ranges, Stride(t), n); Fit(words, 8) && BytesOf(words, 8) == body
  {
    var size := BodySize(Stride(t), n);
    BodyBack(Fields(body, 8, size), Stride(t), n);
    FieldsFit(body, 8, size);
    BytesBack(body, 8, size);
    assert body[..|body|] == body;
  }

  lemma Rest(r: Bytes, w: nat, n: nat)
    requires Start(w, n) <= |r|
    ensures r == BytesOf(Fields(r, w, n), w) + r[Start(w, n)..] && Fit(Fields(r, w, n), w)
  {
    BytesBack(r, w, n);
    FieldsFit(r, w, n);
    Split(r, Start(w, n));
  }

  lemma Split(r: Bytes, i: nat)
    requires i <= |r|
    ensures r == r[..i] + r[i..]
  {
  }

  lemma PointsRestored(t: nat, box: seq<nat>, r: Bytes, opt: Options, value: nat -> real)
    requires ParsePoints(t, box, r, opt).Some? && IsLayout(Stride(t)) && !IsPoint(t) && !HasParts(t)
    requires |box| == 4 && Fit(box, 8)
    ensures var s := ParsePoints(t, box, r, opt).value;
      Valid(s, opt, value) && r == BytesOf(NumbersOf(s), 4) +
        (BytesOf(StartsOf(s), 4) + BytesOf(BodyOf(s.flat, s.ranges, Stride(t), s.numPoints), 8))
  {
    var n, body := Fields(r, 4, 1)[0], r[4..];
    Rest(r, 4, 1);
    BodyRestored(t, box, n, [], body);
    assert Fields(r, 4, 1) == [n];
    assert BytesOf([], 4) + body == body;
  }

  lemma PartsRestored(t: nat, box: seq<nat>, r: Bytes, opt: Options, value: nat -> real)
    requires HasParts(t) && ParseParts(t, box, r, opt, value).Some? && |box| == 4 && Fit(box, 8)
    ensures var s := ParseParts(t, box, r, opt, value).value;
      Valid(s, opt, value) && r == BytesOf(NumbersOf(s), 4) +
        (BytesOf(StartsOf(s), 4) + BytesOf(BodyOf(s.flat, s.ranges, Stride(t), s.numPoints), 8))
  {
    var k, n, more := Fields(r, 4, 2)[0], Fields(r, 4, 2)[1], r[8..];
    var starts, body := Fields(more, 4, k), more[Start(4, k)..];
    CountsRestored(r);
    Rest(more, 4, k);
    PartsShaped(t, box, n, starts, body, opt, value);
  }

  lemma PartsShaped(t: nat, box: seq<nat>, n: nat, starts: seq<nat>, body: Bytes, opt: Options, value: nat -> real)
    requires HasParts(t) && |box| == 4 && Fit(box, 8) && |body| == Start(8, BodySize(Stride(t), n))
    requires StartsFit(starts, n) && |starts| < Limit(4) && !Over(opt.maxParts, |starts|)
    requires n < Limit(4) && !Over(opt.maxPoints, n)
    requires IsPolygon(t) ==> PolygonGood(MultiOf(t, box, n, starts[1..] + [n], body), value)
    ensures var s := MultiOf(t, box, n, starts[1..] + [n], body);
      && Valid(s, opt, value) && NumbersOf(s) == [|starts|, n] && StartsOf(s) == starts
      && BytesOf(BodyOf(s.flat, s.ranges, Stride(t), n), 8) == body
  {
    var s := MultiOf(t, box, n, starts[1..] + [n], body);
    BodyRestored(t, box, n, starts[1..] + [n], body);
    PartsAreValid(s, starts, opt, value);
    StartsRestored(s, starts);
  }

  lemma CountsRestored(r: Bytes)
    requires |r| >= 8
    ensures var us := Fields(r, 4, 2); r == BytesOf([us[0], us[1]], 4) + r[8..] && us[0] < Limit(4) && us[1] < Limit(4)
  {
    Rest(r, 4, 2);
    assert Fields(r, 4, 2) == [Fields(r, 4, 2)[0], Fields(r, 4, 2)[1]];
  }

  lemma StartsRestored(s: Shape, starts: seq<nat>)
    requires s.MultiShape? && HasParts(s.shapeType) && starts != [] && starts[0] == 0
    requires s.parts == starts[1..] + [s.numPoints]
    ensures StartsOf(s) == starts && NumbersOf(s) == [|starts|, s.numPoints]
  {
    assert s.parts[..|s.parts| - 1] == starts[1..];
  }

  lemma PartsAreValid(s: Shape, starts: seq<nat>, opt: Options, value: nat -> real)
    requires s.MultiShape? && HasParts(s.shapeType) && StartsFit(starts, s.numPoints) && |starts| < Limit(4)
    requires s.parts == starts[1..] + [s.numPoints] && !Over(opt.maxParts, |starts|)
    requires IsPolygon(s.shapeType) ==> PolygonGood(s, value)
    ensures PartsValid(s, opt, value)
  {
    forall i | 0 <= i < |s.parts| ensures s.parts[i] <= s.numPoints {
      assert i < |starts| - 1 ==> s.parts[i] == starts[i + 1];
    }
  }

  lemma TypeRestored(c: Bytes)
    requires |c| >= 4
    ensures c == BytesOf([Fields(c, 4, 1)[0]], 4) + c[4..]
  {
    Rest(c, 4, 1);
    assert Fields(c, 4, 1) == [Fields(c, 4, 1)[0]];
  }

  lemma MultiRestored(c: Bytes, opt: Options, value: nat -> real)
    requires ParseContent(c, opt, value).Some? && ParseContent(c, opt, value).value.MultiShape?
    ensures var s := ParseContent(c, opt, value).value; Valid(s, opt, value) && ContentOf(s, opt, value) == c
  {
    var t, r := Fields(c, 4, 1)[0], c[4..];
    TypeRestored(c);
    Rest(r, 8, 4);
    if HasParts(t) {
      PartsRestored(t, Fields(r, 8, 4), r[32..], opt, value);
    } else {
      PointsRestored(t, Fields(r, 8, 4), r[32..], opt, value);
    }
  }

  lemma PointRestored(c: Bytes, opt: Options, value: nat -> real)
    requires ParseContent(c, opt, value).Some? && ParseContent(c, opt, value).value.PointShape?
    ensures var s := ParseContent(c, opt, value).value; Valid(s, opt, value) && ContentOf(s, opt, value) == c
  {
    var t, r := Fields(c, 4, 1)[0], c[4..];
    assert IsPoint(t) && |r| == Start(8, Stride(t));
    WholeRestored(r, 8, Stride(t));
    TypeRestored(c);
  }

  lemma WholeRestored(r: Bytes, w: nat, n: nat)
    requires |r| == Start(w, n)
    ensures BytesOf(Fields(r, w, n), w) == r && Fit(Fields(r, w, n), w)
  {
    BytesBack(r, w, n);
    FieldsFit(r, w, n);
    assert r[..|r|] == r;
  }

  /** Whatever is read as a shape with a layout is the description of the shape, byte for byte. */
  lemma ReadsWhole(c: Bytes, opt: Options, value: nat -> real)
    requires ParseContent(c, opt, value).Some? && !ParseContent(c, opt, value).value.NoGeometry?
    ensures var s := ParseContent(c, opt, value).value; Valid(s, opt, value) && ContentOf(s, opt, value) == c
  {
    match ParseContent(c, opt, value).value
    case NullShape => TypeRestored(c);
    case PointShape(t, coords) => PointRestored(c, opt, value);
    case MultiShape(_, _, _, _, _, _) => MultiRestored(c, opt, value);
  }

  /** Two shapes with one description are one shape. */
  lemma DescriptionsDiffer(s: Shape, s': Shape, opt: Options, value: nat -> real)
    requires Valid(s, opt, value) && Valid(s', opt, value) && ContentOf(s, opt, value) == ContentOf(s', opt, value)
    ensures s == s'
  {
    ReadsBack(s, opt, value);
    ReadsBack(s', opt, value);
  }
}
