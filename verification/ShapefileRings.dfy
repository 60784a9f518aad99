/**
 * Rings and polygons of a shapefile record (internal/formats/shapefile/shp.go):
 * the doubled area of a ring, and the grouping of rings into polygons by their
 * orientation. Coordinates are reals in one flat sequence, `stride` to a point.
 */
module ShapefileRings {
  import opened Basics
  import opened Powers

  datatype XY = XY(x: real, y: real)

  // ----- areas

  /** One edge's share of the sum. */
  function Share(p: XY, q: XY): real {
    (q.y - p.y) * (q.x + p.x)
  }

  function SumOfShares(ps: seq<XY>): real {
    if |ps| < 2 then 0.0 else SumOfShares(ps[..|ps| - 1]) + Share(ps[|ps| - 2], ps[|ps| - 1])
  }

  /** The shoelace sum, twice the signed area: positive for an anticlockwise ring. */
  function Shoelace(ps: seq<XY>): real {
    if |ps| < 2 then 0.0
    else
      var p, q := ps[|ps| - 2], ps[|ps| - 1];
      Shoelace(ps[..|ps| - 1]) + (p.x * q.y - q.x * p.y)
  }

  /** For a closed ring the sum is the shoelace sum. */
  lemma ClosedRingArea(ps: seq<XY>)
    requires |ps| > 0 && ps[0] == ps[|ps| - 1]
    ensures SumOfShares(ps) == Shoelace(ps)
  {
    OpenRingArea(ps);
  }

  lemma {:induction false} OpenRingArea(ps: seq<XY>)
    requires |ps| > 0
    ensures var p, q := ps[0], ps[|ps| - 1]; SumOfShares(ps) == Shoelace(ps) + q.x * q.y - p.x * p.y
  {
    if |ps| > 1 {
      OpenRingArea(ps[..|ps| - 1]);
      var p, q := ps[|ps| - 2], ps[|ps| - 1];
      assert Share(p, q) == q.x * q.y - p.x * p.y + (p.x * q.y - q.x * p.y) by { ShareExpands(p, q); }
    }
  }

  lemma ShareExpands(p: XY, q: XY)
    ensures Share(p, q) == q.x * q.y - p.x * p.y + (p.x * q.y - q.x * p.y)
  {
    assert Share(p, q) == q.y * (q.x + p.x) - p.y * (q.x + p.x);
  }

  /** Where point number k starts in a flat sequence. */
  function Start(stride: nat, k: nat): nat {
    if k == 0 then 0 else Start(stride, k - 1) + stride
  }

  lemma {:induction false} StartOrder(stride: nat, j: nat, k: nat)
    requires stride > 0 && j < k
    ensures Start(stride, j) + stride <= Start(stride, k)
    decreases k
  {
    if j < k - 1 { StartOrder(stride, j, k - 1); }
  }

  lemma {:induction false} StartIsProduct(stride: nat, k: nat)
    ensures Start(stride, k) == stride * k
  {
    if k > 0 { StartIsProduct(stride, k - 1); }
  }

  /** The point at an index of a flat sequence. */
  function PointAt(flat: seq<real>, i: nat): XY
    requires i + 1 < |flat|
  {
    XY(flat[i], flat[i + 1])
  }

  /** Points number a up to b. */
  function Points(flat: seq<real>, stride: nat, a: nat, b: nat): (ps: seq<XY>)
    requires stride >= 2 && Start(stride, b) <= |flat|
    ensures a <= b ==> |ps| == b - a
  {
    if b <= a then [] else Points(flat, stride, a, b - 1) + [PointAt(flat, Start(stride, b - 1))]
  }

  /** Twice the area of the ring of points a up to b. */
  function RingArea(flat: seq<real>, stride: nat, a: nat, b: nat): real
    requires stride >= 2 && Start(stride, b) <= |flat|
  {
    if b <= a + 1 then 0.0
    else
      RingArea(flat, stride, a, b - 1)
        + Share(PointAt(flat, Start(stride, b - 2)), PointAt(flat, Start(stride, b - 1)))
  }

  lemma {:induction false} RingAreaIsSum(flat: seq<real>, stride: nat, a: nat, b: nat)
    requires stride >= 2 && Start(stride, b) <= |flat|
    ensures RingArea(flat, stride, a, b) == SumOfShares(Points(flat, stride, a, b))
    decreases b
  {
    if b > a + 1 {
      RingAreaIsSum(flat, stride, a, b - 1);
      var ps := Points(flat, stride, a, b);
      assert ps[..|ps| - 1] == Points(flat, stride, a, b - 1);
    }
  }

  /** `doubleArea`; `a` and `b` say that the offsets are whole points. */
  method DoubleArea(flat: seq<real>, offset: nat, end: nat, stride: nat, ghost a: nat, ghost b: nat) returns (area: real)
    requires stride >= 2 && Start(stride, b) <= |flat|
    requires offset == Start(stride, a) && end == Start(stride, b) && a < b
    ensures area == RingArea(flat, stride, a, b)
  {
    area := 0.0;
    var i := offset + stride;
    ghost var k := a;
    RoomFor(stride, a, b);
    while i < end
      invariant a <= k < b && i == Start(stride, k + 1) <= end
      invariant area == RingArea(flat, stride, a, k + 1)
      decreases b - k
    {
      RoomFor(stride, k + 1, b);
      area := area + (flat[i + 1] - flat[i + 1 - stride]) * (flat[i] + flat[i - stride]);
      i := i + stride;
      k := k + 1;
    }
    RoomFor(stride, k + 1, b);
  }

  lemma RoomFor(stride: nat, k: nat, b: nat)
    requires stride > 0 && k <= b
    ensures Start(stride, k) <= Start(stride, b)
    ensures k < b <==> Start(stride, k) < Start(stride, b)
    ensures k < b ==> Start(stride, k + 1) <= Start(stride, b)
  {
    if k < b { StartOrder(stride, k, b); }
  }

  // ----- polygons

  /** Where ring number i starts, in points. */
  function RingStart(parts: seq<nat>, i: nat): nat
    requires i <= |parts|
  {
    if i == 0 then 0 else parts[i - 1]
  }

  /** The rings end at whole points of the sequence. */
  predicate EndsFit(flat: seq<real>, stride: nat, parts: seq<nat>) {
    forall i :: 0 <= i < |parts| ==> Start(stride, parts[i]) <= |flat|
  }

  /** The area of ring number i. */
  function AreaOf(flat: seq<real>, stride: nat, parts: seq<nat>, i: nat): real
    requires stride >= 2 && EndsFit(flat, stride, parts) && i < |parts|
  {
    RingArea(flat, stride, RingStart(parts, i), parts[i])
  }

  /** A ring of four points or more that has an area. */
  predicate GoodRing(flat: seq<real>, stride: nat, parts: seq<nat>, i: nat)
    requires stride >= 2 && EndsFit(flat, stride, parts) && i < |parts|
  {
    parts[i] - RingStart(parts, i) >= 4 && AreaOf(flat, stride, parts, i) != 0.0
  }

  /** Which rings turn clockwise. */
  ghost function Clockwise(flat: seq<real>, stride: nat, parts: seq<nat>): (cw: seq<bool>)
    requires stride >= 2 && EndsFit(flat, stride, parts)
    ensures |cw| == |parts|
  {
    seq(|parts|, i requires 0 <= i < |parts| => AreaOf(flat, stride, parts, i) < 0.0)
  }

  function Flatten(endss: seq<seq<nat>>): seq<nat> {
    if endss == [] then [] else Flatten(endss[..|endss| - 1]) + endss[|endss| - 1]
  }

  /** The groups are the rings in order; each but the first starts at a clockwise ring, which no other ring in it is. */
  ghost predicate Grouped(cw: seq<bool>, ends: seq<nat>, endss: seq<seq<nat>>) {
    && Flatten(endss) == ends && |ends| <= |cw|
    && forall g {:trigger endss[g]} :: 0 <= g < |endss| ==>
         var first := |Flatten(endss[..g])|;
         && endss[g] != [] && first + |endss[g]| <= |cw|
         && (g > 0 ==> cw[first])
         && forall j :: first < j < first + |endss[g]| ==> !cw[j]
  }

  lemma GroupedMore(cw: seq<bool>, ends: seq<nat>, endss: seq<seq<nat>>, group: seq<nat>)
    requires Grouped(cw, ends, endss) && group != [] && |ends| + |group| <= |cw|
    requires endss != [] ==> cw[|ends|]
    requires forall j :: |ends| < j < |ends| + |group| ==> !cw[j]
    ensures Grouped(cw, ends + group, endss + [group])
  {
    var more := endss + [group];
    assert more[..|endss|] == endss;
    forall g | 0 <= g < |endss| ensures more[..g] == endss[..g] {}
  }

  lemma Quotient(d: int, q: int, m: nat)
    requires m > 0 && d == q * m
    ensures d / m == q
  {
    DivModUnique(q, 0, m);
  }

  lemma Difference(m: int, a: int, b: int)
    ensures m * b - m * a == (b - a) * m
  {
  }

  lemma PointsBetween(stride: nat, a: nat, b: nat)
    requires stride > 0
    ensures (Start(stride, b) - Start(stride, a)) / stride == b - a
  {
    StartIsProduct(stride, a);
    StartIsProduct(stride, b);
    Difference(stride, a, b);
    Quotient(Start(stride, b) - Start(stride, a), b - a, stride);
  }

  predicate EndsAt(stride: nat, parts: seq<nat>, ends: seq<nat>) {
    |ends| == |parts| && forall i :: 0 <= i < |ends| ==> ends[i] == Start(stride, parts[i])
  }

  /** What the loop keeps: the finished groups, and a group that begins at ring `first`. */
  ghost predicate Grouping(cw: seq<bool>, ends: seq<nat>, endss: seq<seq<nat>>, first: nat, i: nat) {
    && first <= i <= |ends| == |cw| && (i > 0 ==> first < i)
    && Grouped(cw, ends[..first], endss)
    && (first > 0 ==> cw[first])
    && (endss != [] ==> first > 0)
    && (forall j :: first < j < i ==> !cw[j])
  }

  lemma GroupingCut(cw: seq<bool>, ends: seq<nat>, endss: seq<seq<nat>>, first: nat, i: nat)
    requires i > 0 && Grouping(cw, ends, endss, first, i)
    ensures Grouped(cw, ends[..i], endss + [ends[first..i]])
  {
    GroupedMore(cw, ends[..first], endss, ends[first..i]);
    assert ends[..first] + ends[first..i] == ends[..i];
  }

  lemma GroupingOn(cw: seq<bool>, ends: seq<nat>, endss: seq<seq<nat>>, first: nat, i: nat)
    requires Grouping(cw, ends, endss, first, i) && i < |cw|
    ensures i > 0 && cw[i] ==> Grouping(cw, ends, endss + [ends[first..i]], i, i + 1)
    ensures !(i > 0 && cw[i]) ==> Grouping(cw, ends, endss, first, i + 1)
  {
    if i > 0 { GroupingCut(cw, ends, endss, first, i); }
  }

  lemma GroupingEnds(cw: seq<bool>, ends: seq<nat>, endss: seq<seq<nat>>, first: nat)
    requires Grouping(cw, ends, endss, first, |ends|)
    ensures Grouped(cw, ends, if ends == [] then endss else endss + [ends[first..]])
  {
    assert ends[..|ends|] == ends;
    if ends != [] {
      GroupingCut(cw, ends, endss, first, |ends|);
      assert ends[first..|ends|] == ends[first..];
    }
  }

  /** Rings judged one by one: whether each is good, and whether it turns clockwise. */
  ghost predicate Judged(flat: seq<real>, stride: nat, parts: seq<nat>, good: seq<bool>, cw: seq<bool>)
    requires stride >= 2 && EndsFit(flat, stride, parts)
  {
    && |good| == |cw| == |parts|
    && forall i {:trigger AreaOf(flat, stride, parts, i)} :: 0 <= i < |parts| ==>
         good[i] == GoodRing(flat, stride, parts, i) && cw[i] == (AreaOf(flat, stride, parts, i) < 0.0)
  }

  /** The two checks on a ring, and its area. */
  method CheckRing(
    flat: seq<real>, offset: nat, end: nat, stride: nat,
    ghost parts: seq<nat>, ghost i: nat, ghost good: seq<bool>, ghost cw: seq<bool>)
    returns (area: Option<real>)
    requires stride >= 2 && EndsFit(flat, stride, parts) && i < |parts| && Judged(flat, stride, parts, good, cw)
    requires offset == Start(stride, RingStart(parts, i)) && end == Start(stride, parts[i])
    ensures area.Some? == good[i] && (area.Some? ==> cw[i] == (area.value < 0.0))
  {
    assert good[i] == GoodRing(flat, stride, parts, i) && cw[i] == (AreaOf(flat, stride, parts, i) < 0.0);
    PointsBetween(stride, RingStart(parts, i), parts[i]);
    if (end - offset) / stride < 4 { return None; }
    var doubleArea := DoubleArea(flat, offset, end, stride, RingStart(parts, i), parts[i]);
    if doubleArea == 0.0 { return None; }
    area := Some(doubleArea);
  }

  /** The loop of `makeMultiPolygonEndss`. */
  method GroupRings(
    flat: seq<real>, ends: seq<nat>, stride: nat, ghost parts: seq<nat>, ghost good: seq<bool>, ghost cw: seq<bool>)
    returns (r: Option<seq<seq<nat>>>)
    requires stride >= 2 && EndsFit(flat, stride, parts) && EndsAt(stride, parts, ends)
    requires Judged(flat, stride, parts, good, cw)
    ensures r.Some? <==> forall i :: 0 <= i < |good| ==> good[i]
    ensures r.Some? ==> Grouped(cw, ends, r.value)
  {
    var endss: seq<seq<nat>> := [];
    var polygonOffset: nat, offset: nat := 0, 0;
    for i := 0 to |ends|
      invariant Grouping(cw, ends, endss, polygonOffset, i)
      invariant offset == Start(stride, RingStart(parts, i))
      invariant forall j :: 0 <= j < i ==> good[j]
    {
      var end := ends[i];
      var doubleArea := CheckRing(flat, offset, end, stride, parts, i, good, cw);
      if doubleArea.None? { return None; }
      GroupingOn(cw, ends, endss, polygonOffset, i);
      if i != 0 && doubleArea.value < 0.0 {
        endss := endss + [ends[polygonOffset..i]];
        polygonOffset := i;
      }
      offset := end;
    }
    GroupingEnds(cw, ends, endss, polygonOffset);
    if |ends| > 0 {
      endss := endss + [ends[polygonOffset..]];
    }
    r := Some(endss);
  }

  /** `makeMultiPolygonEndss`: it fails exactly when a ring is short or flat. */
  method MakeMultiPolygonEndss(flat: seq<real>, ends: seq<nat>, stride: nat, ghost parts: seq<nat>)
    returns (r: Option<seq<seq<nat>>>)
    requires stride >= 2 && EndsFit(flat, stride, parts) && EndsAt(stride, parts, ends)
    ensures r.Some? <==> forall i :: 0 <= i < |parts| ==> GoodRing(flat, stride, parts, i)
    ensures r.Some? ==> Grouped(Clockwise(flat, stride, parts), ends, r.value)
  {
    ghost var good := seq(|parts|, i requires 0 <= i < |parts| => GoodRing(flat, stride, parts, i));
    ghost var cw := Clockwise(flat, stride, parts);
    r := GroupRings(flat, ends, stride, parts, good, cw);
    assert forall i :: 0 <= i < |parts| ==> good[i] == GoodRing(flat, stride, parts, i);
  }
}
