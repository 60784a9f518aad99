/**
 * What clipping makes of the boundary of a polygon (`clipPolygonByBBox` of
 * cpp/spatial/polygon_ops.cpp): the part of it in the box stays, and nothing is
 * added but stretches along the sides of the box.
 */
module ClipBoundary {
  import opened Geometry
  import opened Clip

  // ----- the boundary

  /** The point is on the way from a to b. */
  ghost predicate OnSegment(p: Point, a: Point, b: Point) {
    exists t: real :: 0.0 <= t <= 1.0 && p == Lerp(a, b, t)
  }

  /** The point is on the side of the polygon that leads to vertex number i. */
  ghost predicate OnSide(p: Point, ps: seq<Point>, i: nat) {
    i < |ps| && OnSegment(p, Before(ps, i), ps[i])
  }

  ghost predicate OnBoundary(p: Point, ps: seq<Point>) {
    exists i: nat :: OnSide(p, ps, i)
  }

  /** On the line through the edge. */
  predicate OnEdge(clip: BBox, edge: Edge, p: Point) {
    Coord(edge, p) == Bound(clip, edge)
  }

  lemma LerpEnds(a: Point, b: Point)
    ensures Lerp(a, b, 0.0) == a && Lerp(a, b, 1.0) == b
  {
  }

  /** The part t of the way, behind the part s of it, is the part u of what is left. */
  lemma LerpBehind(a: Point, b: Point, s: real, r: real, t: real, u: real)
    requires r == 1.0 - s && u * r == t - s
    ensures Lerp(Lerp(a, b, s), b, u) == Lerp(a, b, t)
  {
    var m := Lerp(a, b, s);
    Behind(a.lat, b.lat, b.lat - a.lat, m.lat, s, r, t, u);
    Behind(a.lon, b.lon, b.lon - a.lon, m.lon, s, r, t, u);
  }

  lemma Behind(x: real, y: real, d: real, m: real, s: real, r: real, t: real, u: real)
    requires r == 1.0 - s && u * r == t - s && d == y - x && m == x + s * d
    ensures m + u * (y - m) == x + t * d
  {
    assert y - m == d - s * d == r * d;
    Regroup(u, r, d);
    assert (t - s) * d == t * d - s * d;
  }

  lemma LerpBefore(a: Point, b: Point, s: real, t: real, u: real)
    requires u * s == t
    ensures Lerp(a, Lerp(a, b, s), u) == Lerp(a, b, t)
  {
    var m := Lerp(a, b, s);
    Ahead(a.lat, b.lat - a.lat, m.lat, s, t, u);
    Ahead(a.lon, b.lon - a.lon, m.lon, s, t, u);
  }

  lemma Ahead(x: real, d: real, m: real, s: real, t: real, u: real)
    requires u * s == t && m == x + s * d
    ensures u * (m - x) == t * d
  {
    assert m - x == s * d;
    Regroup(u, s, d);
  }

  lemma Regroup(u: real, s: real, d: real)
    ensures u * (s * d) == (u * s) * d
  {
  }

  /** A fraction of a positive amount. */
  lemma Fraction(x: real, d: real) returns (u: real)
    requires 0.0 <= x <= d
    ensures 0.0 <= u <= 1.0 && u * d == x
  {
    if d == 0.0 {
      u := 0.0;
    } else {
      u := x / d;
      Ratio(x, d);
      SignOf(u, d);
      SignOf(1.0 - u, d);
      assert (1.0 - u) * d == d - u * d;
    }
  }

  /** Beyond the crossing, seen from outside, a point on the way is inside, and before it outside. */
  lemma InsideBeyond(clip: BBox, edge: Edge, a: Point, b: Point, t: real)
    requires Inside(clip, edge, a) != Inside(clip, edge, b) && Inside(clip, edge, Lerp(a, b, t))
    ensures Inside(clip, edge, b) ==> t >= Crossing(clip, edge, a, b)
    ensures Inside(clip, edge, a) ==> t <= Crossing(clip, edge, a, b)
  {
    var s, x, y, c := Crossing(clip, edge, a, b), Coord(edge, a), Coord(edge, b), Bound(clip, edge);
    CoordOfLerp(edge, a, b, t);
    Passes(x, c, y);
    if FromBelow(edge) {
      Beyond(x, y, c, s, t);
    } else {
      Mirror(x, y, s);
      Mirror(x, y, t);
      Beyond(-x, -y, -c, s, t);
    }
  }

  lemma Beyond(x: real, y: real, c: real, s: real, t: real)
    requires x + s * (y - x) == c && x + t * (y - x) >= c
    ensures x < y ==> t >= s
    ensures y < x ==> t <= s
  {
    MulOrder(t, s, y - x);
  }

  lemma MulOrder(t: real, s: real, d: real)
    ensures d > 0.0 ==> (t * d >= s * d <==> t >= s)
    ensures d < 0.0 ==> (t * d >= s * d <==> t <= s)
  {
    assert t * d - s * d == (t - s) * d && s * d - t * d == (s - t) * d;
    SignOf(t - s, d);
    SignOf(s - t, d);
  }

  /** Between two points outside an edge there is none inside. */
  lemma OutsideBetween(clip: BBox, edge: Edge, a: Point, b: Point, t: real)
    requires !Inside(clip, edge, a) && !Inside(clip, edge, b) && 0.0 <= t <= 1.0
    ensures !Inside(clip, edge, Lerp(a, b, t))
  {
    CoordOfLerp(edge, a, b, t);
    var c := Bound(clip, edge);
    if FromBelow(edge) {
      StrictBlend(-Coord(edge, a), -Coord(edge, b), t, -c);
      Mirror(Coord(edge, a), Coord(edge, b), t);
    } else {
      StrictBlend(Coord(edge, a), Coord(edge, b), t, c);
    }
  }

  lemma StrictBlend(u: real, v: real, t: real, c: real)
    requires 0.0 <= t <= 1.0 && u > c && v > c
    ensures u + t * (v - u) > c
  {
    var m := if u < v then u else v;
    Blend(u, v, t, m);
  }

  /** The part of a side that is inside is on the side that replaces it. */
  lemma CutSide(clip: BBox, edge: Edge, a: Point, b: Point, p: Point)
    requires Inside(clip, edge, a) != Inside(clip, edge, b) && OnSegment(p, a, b) && Inside(clip, edge, p)
    ensures var x := Intersect(clip, edge, a, b); if Inside(clip, edge, b) then OnSegment(p, x, b) else OnSegment(p, a, x)
  {
    var t: real :| 0.0 <= t <= 1.0 && p == Lerp(a, b, t);
    var s := Crossing(clip, edge, a, b);
    IntersectOnEdge(clip, edge, a, b);
    InsideBeyond(clip, edge, a, b, t);
    if Inside(clip, edge, b) {
      var r := 1.0 - s;
      var u := Fraction(t - s, r);
      LerpBehind(a, b, s, r, t, u);
      OnAt(p, Lerp(a, b, s), b, u);
    } else {
      var u := Fraction(t, s);
      LerpBefore(a, b, s, t, u);
      OnAt(p, a, Lerp(a, b, s), u);
    }
  }

  /** And the side that replaces it is a part of it. */
  lemma SideOfCut(clip: BBox, edge: Edge, a: Point, b: Point, p: Point)
    requires Inside(clip, edge, a) != Inside(clip, edge, b)
    requires var x := Intersect(clip, edge, a, b); if Inside(clip, edge, b) then OnSegment(p, x, b) else OnSegment(p, a, x)
    ensures OnSegment(p, a, b)
  {
    var s := Crossing(clip, edge, a, b);
    IntersectOnEdge(clip, edge, a, b);
    if Inside(clip, edge, b) {
      BehindIsOn(a, b, s, p);
    } else {
      BeforeIsOn(a, b, s, p);
    }
  }

  lemma PartOf(u: real, s: real) returns (w: real)
    requires 0.0 <= u <= 1.0 && 0.0 <= s <= 1.0
    ensures w == u * s && 0.0 <= w <= s
  {
    w := u * s;
    Product(u, s);
    Product(1.0 - u, s);
    assert (1.0 - u) * s == s - u * s;
  }

  lemma BehindIsOn(a: Point, b: Point, s: real, p: Point)
    requires 0.0 <= s <= 1.0 && OnSegment(p, Lerp(a, b, s), b)
    ensures OnSegment(p, a, b)
  {
    var u: real :| 0.0 <= u <= 1.0 && p == Lerp(Lerp(a, b, s), b, u);
    var r := 1.0 - s;
    var w := PartOf(u, r);
    LerpBehind(a, b, s, r, s + w, u);
    OnAt(p, a, b, s + w);
  }

  lemma OnAt(p: Point, a: Point, b: Point, t: real)
    requires 0.0 <= t <= 1.0 && p == Lerp(a, b, t)
    ensures OnSegment(p, a, b)
  {
  }

  lemma BeforeIsOn(a: Point, b: Point, s: real, p: Point)
    requires 0.0 <= s <= 1.0 && OnSegment(p, a, Lerp(a, b, s))
    ensures OnSegment(p, a, b)
  {
    var u: real :| 0.0 <= u <= 1.0 && p == Lerp(a, Lerp(a, b, s), u);
    var t := PartOf(u, s);
    LerpBefore(a, b, s, t, u);
    OnAt(p, a, b, t);
  }

  // ----- one pass

  /** What every vertex adds, one after the other. */
  function Laid(add: (Point, Point) -> seq<Point>, input: seq<Point>, k: nat): seq<Point>
    requires k <= |input|
  {
    if k == 0 then [] else Laid(add, input, k - 1) + add(Before(input, k - 1), input[k - 1])
  }

  function Adder(clip: BBox, edge: Edge): (Point, Point) -> seq<Point> {
    (a: Point, b: Point) => Kept(clip, edge, a, b)
  }

  lemma {:induction false} PassIsLaid(clip: BBox, edge: Edge, input: seq<Point>, k: nat)
    requires k <= |input|
    ensures Pass(clip, edge, input, k) == Laid(Adder(clip, edge), input, k)
  {
    if k > 0 { PassIsLaid(clip, edge, input, k - 1); }
  }

  lemma LaidNext(add: (Point, Point) -> seq<Point>, input: seq<Point>, i: nat, k: nat)
    requires i < |input| && k == i + 1
    ensures Laid(add, input, k) == Laid(add, input, i) + add(Before(input, i), input[i])
  {
  }

  lemma PrefixMore(a: seq<Point>, b: seq<Point>, more: seq<Point>)
    requires a <= b
    ensures a <= b + more
  {
  }

  lemma {:induction false} LaidGrows(add: (Point, Point) -> seq<Point>, input: seq<Point>, k: nat, n: nat)
    requires k <= n <= |input|
    ensures Laid(add, input, k) <= Laid(add, input, n)
    decreases n
  {
    if k < n {
      LaidGrows(add, input, k, n - 1);
      PrefixMore(Laid(add, input, k), Laid(add, input, n - 1), add(Before(input, n - 1), input[n - 1]));
    }
  }

  lemma InPrefix(front: seq<Point>, kept: seq<Point>, out: seq<Point>, j: nat, c: nat)
    requires front + kept <= out && j < |kept| && c == |front| + j
    ensures c < |out| && out[c] == kept[j]
  {
    assert (front + kept)[c] == kept[j];
  }

  /** Where what vertex number i adds stands in the output. */
  lemma LaidAt(add: (Point, Point) -> seq<Point>, input: seq<Point>, i: nat, out: seq<Point>, j: nat, c: nat)
    requires i < |input| && out == Laid(add, input, |input|)
    requires j < |add(Before(input, i), input[i])| && c == |Laid(add, input, i)| + j
    ensures c < |out| && out[c] == add(Before(input, i), input[i])[j]
  {
    LaidNext(add, input, i, i + 1);
    LaidGrows(add, input, i + 1, |input|);
    InPrefix(Laid(add, input, i), add(Before(input, i), input[i]), out, j, c);
  }

  /** A vertex that is the last it adds stands right before what the next one adds, around the polygon. */
  lemma LaidAfter(add: (Point, Point) -> seq<Point>, input: seq<Point>, i: nat, z: nat, out: seq<Point>, at: nat)
    requires i < |input| && out == Laid(add, input, |input|) && at == |Laid(add, input, i)|
    requires z == (if i == 0 then |input| - 1 else i - 1) && add(Before(input, i), input[i]) != []
    requires var last := add(Before(input, z), input[z]); last != [] && last[|last| - 1] == input[z]
    ensures at < |out| && out[at] == add(Before(input, i), input[i])[0] && Before(out, at) == Before(input, i)
  {
    LaidAt(add, input, i, out, 0, at);
    LaidNext(add, input, z, z + 1);
    var j := |add(Before(input, z), input[z])| - 1;
    LaidAt(add, input, z, out, j, |Laid(add, input, z)| + j);
  }

  lemma KeptShape(clip: BBox, edge: Edge, a: Point, b: Point)
    ensures var kept := Kept(clip, edge, a, b);
      && (Inside(clip, edge, b) ==> kept != [] && kept[|kept| - 1] == b)
      && (Inside(clip, edge, a) ==> |kept| == 1)
      && (Inside(clip, edge, a) && !Inside(clip, edge, b) ==> kept[0] == Intersect(clip, edge, a, b))
      && (!Inside(clip, edge, a) && Inside(clip, edge, b) ==> |kept| == 2 && kept[0] == Intersect(clip, edge, a, b))
      && (!Inside(clip, edge, a) && !Inside(clip, edge, b) ==> kept == [])
  {
  }

  /** What comes after a vertex inside comes right after it. */
  lemma ComesAfter(clip: BBox, edge: Edge, input: seq<Point>, i: nat, out: seq<Point>, kept: seq<Point>, at: nat)
    requires i < |input| && out == Pass(clip, edge, input, |input|) && kept == Kept(clip, edge, Before(input, i), input[i])
    requires at == |Pass(clip, edge, input, i)| && Inside(clip, edge, Before(input, i))
    ensures |kept| == 1 && at < |out| && out[at] == kept[0] && Before(out, at) == Before(input, i)
  {
    var z := if i == 0 then |input| - 1 else i - 1;
    KeptShape(clip, edge, Before(input, i), input[i]);
    KeptShape(clip, edge, Before(input, z), input[z]);
    PassIsLaid(clip, edge, input, i);
    PassIsLaid(clip, edge, input, |input|);
    LaidAfter(Adder(clip, edge), input, i, z, out, at);
  }

  lemma PassAt(clip: BBox, edge: Edge, input: seq<Point>, i: nat, out: seq<Point>, kept: seq<Point>, j: nat, c: nat)
    requires i < |input| && out == Pass(clip, edge, input, |input|) && kept == Kept(clip, edge, Before(input, i), input[i])
    requires j < |kept| && c == |Pass(clip, edge, input, i)| + j
    ensures c < |out| && out[c] == kept[j]
  {
    PassIsLaid(clip, edge, input, i);
    PassIsLaid(clip, edge, input, |input|);
    LaidAt(Adder(clip, edge), input, i, out, j, c);
  }

  lemma PassGrows(clip: BBox, edge: Edge, input: seq<Point>, k: nat, n: nat)
    requires k <= n <= |input|
    ensures Pass(clip, edge, input, k) <= Pass(clip, edge, input, n)
  {
    PassIsLaid(clip, edge, input, k);
    PassIsLaid(clip, edge, input, n);
    LaidGrows(Adder(clip, edge), input, k, n);
  }

  /** Where the polygon comes inside it adds the crossing and the vertex. */
  lemma ComesIn(clip: BBox, edge: Edge, input: seq<Point>, i: nat, out: seq<Point>, kept: seq<Point>, at: nat)
    requires i < |input| && out == Pass(clip, edge, input, |input|) && kept == Kept(clip, edge, Before(input, i), input[i])
    requires at == |Pass(clip, edge, input, i)| && !Inside(clip, edge, Before(input, i)) && Inside(clip, edge, input[i])
    ensures |kept| == 2 && at + 1 < |out| && out[at] == Intersect(clip, edge, Before(input, i), input[i]) && out[at + 1] == input[i]
  {
    KeptShape(clip, edge, Before(input, i), input[i]);
    PassAt(clip, edge, input, i, out, kept, 0, at);
    PassAt(clip, edge, input, i, out, kept, 1, at + 1);
  }

  lemma CoversFromInside(clip: BBox, edge: Edge, input: seq<Point>, i: nat, out: seq<Point>, p: Point)
    requires out == Pass(clip, edge, input, |input|) && OnSide(p, input, i) && Inside(clip, edge, p)
    requires Inside(clip, edge, Before(input, i))
    ensures OnBoundary(p, out)
  {
    var a, b, at := Before(input, i), input[i], |Pass(clip, edge, input, i)|;
    ComesAfter(clip, edge, input, i, out, Kept(clip, edge, a, b), at);
    if !Inside(clip, edge, b) { CutSide(clip, edge, a, b, p); }
    assert OnSide(p, out, at);
  }

  lemma CoversComingIn(clip: BBox, edge: Edge, input: seq<Point>, i: nat, out: seq<Point>, p: Point)
    requires out == Pass(clip, edge, input, |input|) && OnSide(p, input, i) && Inside(clip, edge, p)
    requires !Inside(clip, edge, Before(input, i)) && Inside(clip, edge, input[i])
    ensures OnBoundary(p, out)
  {
    var a, b, at := Before(input, i), input[i], |Pass(clip, edge, input, i)|;
    ComesIn(clip, edge, input, i, out, Kept(clip, edge, a, b), at);
    CutSide(clip, edge, a, b, p);
    assert OnSide(p, out, at + 1);
  }

  /** The part of a side that is inside the edge is on a side of the output. */
  lemma PassCoversSide(clip: BBox, edge: Edge, input: seq<Point>, i: nat, out: seq<Point>, p: Point)
    requires out == Pass(clip, edge, input, |input|) && OnSide(p, input, i) && Inside(clip, edge, p)
    ensures OnBoundary(p, out)
  {
    if Inside(clip, edge, Before(input, i)) {
      CoversFromInside(clip, edge, input, i, out, p);
    } else if Inside(clip, edge, input[i]) {
      CoversComingIn(clip, edge, input, i, out, p);
    } else {
      var t: real :| 0.0 <= t <= 1.0 && p == Lerp(Before(input, i), input[i], t);
      OutsideBetween(clip, edge, Before(input, i), input[i], t);
    }
  }

  lemma PassCovers(clip: BBox, edge: Edge, input: seq<Point>, p: Point)
    requires OnBoundary(p, input) && Inside(clip, edge, p)
    ensures OnBoundary(p, Pass(clip, edge, input, |input|))
  {
    var i: nat :| OnSide(p, input, i);
    PassCoversSide(clip, edge, input, i, Pass(clip, edge, input, |input|), p);
  }

  // ----- nothing else is added

  /** After a vertex outside, the output so far ends on the edge, if it has begun. */
  lemma {:induction false} EndsOnEdge(clip: BBox, edge: Edge, input: seq<Point>, k: nat, out: seq<Point>)
    requires 0 < k <= |input| && !Inside(clip, edge, input[k - 1]) && out == Pass(clip, edge, input, k) && out != []
    ensures OnEdge(clip, edge, out[|out| - 1])
    decreases k
  {
    var a := Before(input, k - 1);
    if Inside(clip, edge, a) {
      IntersectOnEdge(clip, edge, a, input[k - 1]);
    } else {
      assert out == Pass(clip, edge, input, k - 1);
      EndsOnEdge(clip, edge, input, k - 1, out);
    }
  }

  /** The whole output ends on the edge when it begins with a crossing from outside. */
  lemma WrapsOnEdge(clip: BBox, edge: Edge, input: seq<Point>, i: nat, out: seq<Point>)
    requires i < |input| && out == Pass(clip, edge, input, |input|) && out != []
    requires Pass(clip, edge, input, i) == [] && !Inside(clip, edge, Before(input, i))
    ensures OnEdge(clip, edge, out[|out| - 1])
  {
    if i > 0 && Inside(clip, edge, input[|input| - 1]) {
      assert Pass(clip, edge, input, 0) == [];
      assert Pass(clip, edge, input, 1) != [];
      PassGrows(clip, edge, input, 1, i);
    }
    EndsOnEdge(clip, edge, input, |input|, out);
  }

  /** Where a crossing from outside comes in, the output was on the edge before. */
  lemma CameOnEdge(clip: BBox, edge: Edge, input: seq<Point>, i: nat, out: seq<Point>, at: nat)
    requires i < |input| && out == Pass(clip, edge, input, |input|) && at == |Pass(clip, edge, input, i)| < |out|
    requires !Inside(clip, edge, Before(input, i))
    ensures OnEdge(clip, edge, Before(out, at))
  {
    if at == 0 {
      WrapsOnEdge(clip, edge, input, i, out);
    } else {
      var front := Pass(clip, edge, input, i);
      PassGrows(clip, edge, input, i, |input|);
      EndsOnEdge(clip, edge, input, i, front);
      assert out[at - 1] == front[at - 1];
    }
  }

  lemma BetweenOnEdge(clip: BBox, edge: Edge, a: Point, b: Point, p: Point)
    requires OnEdge(clip, edge, a) && OnEdge(clip, edge, b) && OnSegment(p, a, b)
    ensures OnEdge(clip, edge, p)
  {
    var t: real :| 0.0 <= t <= 1.0 && p == Lerp(a, b, t);
    CoordOfLerp(edge, a, b, t);
  }

  /** Which vertex of the input adds the one at a place of the output. */
  lemma {:induction false} AddedBy(clip: BBox, edge: Edge, input: seq<Point>, k: nat, c: nat) returns (i: nat)
    requires k <= |input| && c < |Pass(clip, edge, input, k)|
    ensures i < k && |Pass(clip, edge, input, i)| <= c < |Pass(clip, edge, input, i + 1)|
    decreases k
  {
    if c < |Pass(clip, edge, input, k - 1)| { i := AddedBy(clip, edge, input, k - 1, c); } else { i := k - 1; }
  }

  lemma AddsFromInside(clip: BBox, edge: Edge, input: seq<Point>, out: seq<Point>, i: nat, at: nat, p: Point)
    requires i < |input| && out == Pass(clip, edge, input, |input|) && OnSide(p, out, at)
    requires at == |Pass(clip, edge, input, i)| && Inside(clip, edge, Before(input, i))
    ensures OnSide(p, input, i)
  {
    var a, b := Before(input, i), input[i];
    ComesAfter(clip, edge, input, i, out, Kept(clip, edge, a, b), at);
    if !Inside(clip, edge, b) { SideOfCut(clip, edge, a, b, p); }
  }

  lemma AddsComingIn(clip: BBox, edge: Edge, input: seq<Point>, out: seq<Point>, i: nat, at: nat, c: nat, p: Point)
    requires i < |input| && out == Pass(clip, edge, input, |input|) && OnSide(p, out, c) && at <= c <= at + 1
    requires at == |Pass(clip, edge, input, i)| && !Inside(clip, edge, Before(input, i)) && Inside(clip, edge, input[i])
    ensures OnSide(p, input, i) || OnEdge(clip, edge, p)
  {
    var a, b := Before(input, i), input[i];
    ComesIn(clip, edge, input, i, out, Kept(clip, edge, a, b), at);
    if c == at {
      CameOnEdge(clip, edge, input, i, out, at);
      IntersectOnEdge(clip, edge, a, b);
      BetweenOnEdge(clip, edge, Before(out, at), out[at], p);
    } else {
      SideOfCut(clip, edge, a, b, p);
    }
  }

  /** A side of the output is a part of a side of the input, or along the edge. */
  lemma PassAddsSide(clip: BBox, edge: Edge, input: seq<Point>, out: seq<Point>, i: nat, size: nat, at: nat, c: nat, p: Point)
    requires i < |input| && out == Pass(clip, edge, input, |input|) && OnSide(p, out, c)
    requires at == |Pass(clip, edge, input, i)| <= c < at + size && size == |Kept(clip, edge, Before(input, i), input[i])|
    ensures OnSide(p, input, i) || OnEdge(clip, edge, p)
  {
    KeptShape(clip, edge, Before(input, i), input[i]);
    if Inside(clip, edge, Before(input, i)) {
      AddsFromInside(clip, edge, input, out, i, at, p);
    } else {
      AddsComingIn(clip, edge, input, out, i, at, c, p);
    }
  }

  lemma PassAdds(clip: BBox, edge: Edge, input: seq<Point>, p: Point)
    requires OnBoundary(p, Pass(clip, edge, input, |input|))
    ensures OnBoundary(p, input) || OnEdge(clip, edge, p)
  {
    var out := Pass(clip, edge, input, |input|);
    var c: nat :| OnSide(p, out, c);
    var i := AddedBy(clip, edge, input, |input|, c);
    PassAddsSide(clip, edge, input, out, i, |Kept(clip, edge, Before(input, i), input[i])|, |Pass(clip, edge, input, i)|, c, p);
  }

  // ----- the four passes

  lemma {:induction false} PassesCover(clip: BBox, vertices: seq<Point>, edges: nat, p: Point)
    requires edges <= 4 && OnBoundary(p, vertices) && clip.Contains(p)
    ensures OnBoundary(p, Passes4(clip, vertices, edges))
  {
    if edges > 0 {
      PassesCover(clip, vertices, edges - 1, p);
      PassCovers(clip, edges - 1, Passes4(clip, vertices, edges - 1), p);
    }
  }

  lemma {:induction false} PassesAdd(clip: BBox, vertices: seq<Point>, edges: nat, p: Point)
    requires edges <= 4 && OnBoundary(p, Passes4(clip, vertices, edges))
    ensures OnBoundary(p, vertices) || exists e: Edge :: e < edges && OnEdge(clip, e, p)
  {
    if edges > 0 {
      PassAdds(clip, edges - 1, Passes4(clip, vertices, edges - 1), p);
      if OnBoundary(p, Passes4(clip, vertices, edges - 1)) {
        PassesAdd(clip, vertices, edges - 1, p);
      } else {
        var e: Edge := edges - 1;
        assert OnEdge(clip, e, p);
      }
    }
  }

  lemma Within(u: real, v: real, t: real, lo: real, hi: real)
    requires 0.0 <= t <= 1.0 && lo <= u <= hi && lo <= v <= hi
    ensures lo <= u + t * (v - u) <= hi
  {
    Blend(u, v, t, lo);
    Blend(-u, -v, t, -hi);
    Mirror(u, v, t);
  }

  lemma SideInBox(clip: BBox, ps: seq<Point>, p: Point)
    requires InBox(clip, ps) && OnBoundary(p, ps)
    ensures clip.Contains(p)
  {
    var i: nat :| OnSide(p, ps, i);
    var a, b := Before(ps, i), ps[i];
    var t: real :| 0.0 <= t <= 1.0 && p == Lerp(a, b, t);
    LerpInBox(clip, a, b, t);
  }

  lemma LerpInBox(clip: BBox, a: Point, b: Point, t: real)
    requires clip.Contains(a) && clip.Contains(b) && 0.0 <= t <= 1.0
    ensures clip.Contains(Lerp(a, b, t))
  {
    Within(a.lat, b.lat, t, clip.minLat, clip.maxLat);
    Within(a.lon, b.lon, t, clip.minLon, clip.maxLon);
  }

  /**
   * The boundary of the clipped polygon is the part of the polygon's boundary in the box,
   * and otherwise along the sides of the box, in the box.
   */
  lemma ClippedBoundary(clip: BBox, vertices: seq<Point>, p: Point)
    ensures OnBoundary(p, vertices) && clip.Contains(p) ==> OnBoundary(p, Clipped(clip, vertices))
    ensures OnBoundary(p, Clipped(clip, vertices)) ==>
      clip.Contains(p) && (OnBoundary(p, vertices) || p.lat in {clip.minLat, clip.maxLat} || p.lon in {clip.minLon, clip.maxLon})
  {
    if OnBoundary(p, vertices) && clip.Contains(p) { PassesCover(clip, vertices, 4, p); }
    if OnBoundary(p, Clipped(clip, vertices)) {
      ClippedInBox(clip, vertices);
      SideInBox(clip, Clipped(clip, vertices), p);
      PassesAdd(clip, vertices, 4, p);
    }
  }
}
