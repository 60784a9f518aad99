/**
 * Clipping a polygon to a box, one side of the box after the other
 * (`clipPolygonByBBox` of cpp/spatial/polygon_ops.cpp), over the reals.
 */
module Clip {
  import opened Geometry

  type Edge = e: nat | e < 4

  /** The coordinate that an edge bounds, and its bound: from below by edges 0 and 2, from above by 1 and 3. */
  function Coord(edge: Edge, p: Point): real {
    if edge < 2 then p.lat else p.lon
  }

  function Bound(clip: BBox, edge: Edge): real {
    if edge == 0 then clip.minLat
    else if edge == 1 then clip.maxLat
    else if edge == 2 then clip.minLon
    else clip.maxLon
  }

  predicate FromBelow(edge: Edge) { edge == 0 || edge == 2 }

  predicate Inside(clip: BBox, edge: Edge, p: Point) {
    if FromBelow(edge) then Coord(edge, p) >= Bound(clip, edge) else Coord(edge, p) <= Bound(clip, edge)
  }

  function Lerp(a: Point, b: Point, t: real): Point {
    Point(a.lat + t * (b.lat - a.lat), a.lon + t * (b.lon - a.lon))
  }

  /** How far along the way from a to b the edge is crossed. */
  function Crossing(clip: BBox, edge: Edge, a: Point, b: Point): real
    requires Inside(clip, edge, a) != Inside(clip, edge, b)
  {
    (Bound(clip, edge) - Coord(edge, a)) / (Coord(edge, b) - Coord(edge, a))
  }

  function Intersect(clip: BBox, edge: Edge, a: Point, b: Point): Point
    requires Inside(clip, edge, a) != Inside(clip, edge, b)
  {
    Lerp(a, b, Crossing(clip, edge, a, b))
  }

  // ----- where the intersection lies

  lemma Ratio(x: real, d: real)
    requires d != 0.0
    ensures (x / d) * d == x
  {
  }

  /** The way from u to v passes m once, between its ends. */
  lemma Passes(u: real, m: real, v: real)
    requires u != v && (u <= m <= v || v <= m <= u)
    ensures var t := (m - u) / (v - u); 0.0 <= t <= 1.0 && u + t * (v - u) == m
  {
    var d := v - u;
    var t := (m - u) / d;
    Ratio(m - u, d);
    SignOf(t, d);
    SignOf(1.0 - t, d);
    assert (1.0 - t) * d == d - t * d;
  }

  lemma SignOf(t: real, d: real)
    ensures d != 0.0 && t < 0.0 ==> (t * d < 0.0 <==> d > 0.0) && t * d != 0.0
  {
    if t < 0.0 && d > 0.0 { assert (-t) * d > 0.0; }
    if t < 0.0 && d < 0.0 { assert (-t) * (-d) > 0.0; }
  }

  lemma Product(a: real, b: real)
    requires a >= 0.0 && b >= 0.0
    ensures a * b >= 0.0
  {
  }

  lemma Blend(u: real, v: real, t: real, c: real)
    requires 0.0 <= t <= 1.0 && u >= c && v >= c
    ensures u + t * (v - u) >= c
  {
    Product(1.0 - t, u - c);
    Product(t, v - c);
    assert u + t * (v - u) - c == (1.0 - t) * (u - c) + t * (v - c);
  }

  lemma Mirror(u: real, v: real, t: real)
    ensures -(u + t * (v - u)) == -u + t * (-v - -u)
  {
    assert t * (-v - -u) == -(t * (v - u));
  }

  lemma CoordOfLerp(edge: Edge, a: Point, b: Point, t: real)
    ensures Coord(edge, Lerp(a, b, t)) == Coord(edge, a) + t * (Coord(edge, b) - Coord(edge, a))
  {
  }

  /** The new vertex is on the edge, and on the segment that it replaces a part of. */
  lemma IntersectOnEdge(clip: BBox, edge: Edge, a: Point, b: Point)
    requires Inside(clip, edge, a) != Inside(clip, edge, b)
    ensures 0.0 <= Crossing(clip, edge, a, b) <= 1.0
    ensures Coord(edge, Intersect(clip, edge, a, b)) == Bound(clip, edge)
  {
    Passes(Coord(edge, a), Bound(clip, edge), Coord(edge, b));
    CoordOfLerp(edge, a, b, Crossing(clip, edge, a, b));
  }

  /** A point between two on the right side of an edge is on the right side too. */
  lemma IntersectKeeps(clip: BBox, edge: Edge, a: Point, b: Point, e: Edge)
    requires Inside(clip, edge, a) != Inside(clip, edge, b) && Inside(clip, e, a) && Inside(clip, e, b)
    ensures Inside(clip, e, Intersect(clip, edge, a, b))
  {
    var t := Crossing(clip, edge, a, b);
    IntersectOnEdge(clip, edge, a, b);
    CoordOfLerp(e, a, b, t);
    if FromBelow(e) {
      Blend(Coord(e, a), Coord(e, b), t, Bound(clip, e));
    } else {
      Blend(-Coord(e, a), -Coord(e, b), t, -Bound(clip, e));
      Mirror(Coord(e, a), Coord(e, b), t);
    }
  }

  // ----- one pass

  /** The vertex before number i, around the polygon. */
  function Before(input: seq<Point>, i: nat): Point
    requires i < |input|
  {
    input[if i == 0 then |input| - 1 else i - 1]
  }

  /** What one vertex adds to the output. */
  function Kept(clip: BBox, edge: Edge, prev: Point, cur: Point): seq<Point> {
    if Inside(clip, edge, cur) then
      (if Inside(clip, edge, prev) then [] else [Intersect(clip, edge, prev, cur)]) + [cur]
    else if Inside(clip, edge, prev) then [Intersect(clip, edge, prev, cur)]
    else []
  }

  /** The output after k vertices of a pass. */
  function Pass(clip: BBox, edge: Edge, input: seq<Point>, k: nat): seq<Point>
    requires k <= |input|
  {
    if k == 0 then [] else Pass(clip, edge, input, k - 1) + Kept(clip, edge, Before(input, k - 1), input[k - 1])
  }

  predicate AllInside(clip: BBox, edge: Edge, ps: seq<Point>) {
    forall i :: 0 <= i < |ps| ==> Inside(clip, edge, ps[i])
  }

  lemma KeptInside(clip: BBox, edge: Edge, prev: Point, cur: Point, e: Edge)
    requires e == edge || (Inside(clip, e, prev) && Inside(clip, e, cur))
    ensures AllInside(clip, e, Kept(clip, edge, prev, cur))
  {
    if Inside(clip, edge, prev) != Inside(clip, edge, cur) {
      IntersectOnEdge(clip, edge, prev, cur);
      if e != edge { IntersectKeeps(clip, edge, prev, cur, e); }
    }
  }

  /** A pass puts everything inside its edge, and leaves nothing that was inside another edge outside it. */
  lemma {:induction false} PassInside(clip: BBox, edge: Edge, input: seq<Point>, k: nat, e: Edge)
    requires k <= |input| && (e == edge || AllInside(clip, e, input))
    ensures AllInside(clip, e, Pass(clip, edge, input, k))
    decreases k
  {
    if k > 0 {
      PassInside(clip, edge, input, k - 1, e);
      KeptInside(clip, edge, Before(input, k - 1), input[k - 1], e);
    }
  }

  /** A polygon inside an edge passes it unchanged. */
  lemma {:induction false} PassUnchanged(clip: BBox, edge: Edge, input: seq<Point>, k: nat)
    requires k <= |input| && AllInside(clip, edge, input)
    ensures Pass(clip, edge, input, k) == input[..k]
    decreases k
  {
    if k > 0 { PassUnchanged(clip, edge, input, k - 1); }
  }

  /** A vertex inside the edge is kept. */
  lemma {:induction false} PassKeeps(clip: BBox, edge: Edge, input: seq<Point>, k: nat, i: nat)
    requires i < k <= |input| && Inside(clip, edge, input[i])
    ensures input[i] in Pass(clip, edge, input, k)
    decreases k
  {
    var front, last := Pass(clip, edge, input, k - 1), Kept(clip, edge, Before(input, k - 1), input[k - 1]);
    if i < k - 1 {
      PassKeeps(clip, edge, input, k - 1, i);
    } else {
      KeptKeeps(clip, edge, Before(input, i), input[i]);
    }
    InEither(input[i], front, last);
  }

  lemma KeptKeeps(clip: BBox, edge: Edge, prev: Point, cur: Point)
    requires Inside(clip, edge, cur)
    ensures cur in Kept(clip, edge, prev, cur)
  {
    var kept := Kept(clip, edge, prev, cur);
    assert kept[|kept| - 1] == cur;
  }

  lemma InEither(p: Point, a: seq<Point>, b: seq<Point>)
    requires p in a || p in b
    ensures p in a + b
  {
  }

  // ----- the four passes

  function Passes4(clip: BBox, vertices: seq<Point>, edges: nat): seq<Point>
    requires edges <= 4
  {
    if edges == 0 then vertices
    else
      var input := Passes4(clip, vertices, edges - 1);
      Pass(clip, edges - 1, input, |input|)
  }

  function Clipped(clip: BBox, vertices: seq<Point>): seq<Point> {
    Passes4(clip, vertices, 4)
  }

  lemma {:induction false} PassesInside(clip: BBox, vertices: seq<Point>, edges: nat, e: Edge)
    requires e < edges <= 4
    ensures AllInside(clip, e, Passes4(clip, vertices, edges))
    decreases edges
  {
    var input := Passes4(clip, vertices, edges - 1);
    if e < edges - 1 { PassesInside(clip, vertices, edges - 1, e); }
    PassInside(clip, edges - 1, input, |input|, e);
  }

  predicate InBox(clip: BBox, ps: seq<Point>) {
    forall i :: 0 <= i < |ps| ==> clip.Contains(ps[i])
  }

  /** Every vertex of a clipped polygon lies in the box, whatever the polygon and the box. */
  lemma ClippedInBox(clip: BBox, vertices: seq<Point>)
    ensures InBox(clip, Clipped(clip, vertices))
  {
    PassesInside(clip, vertices, 4, 0);
    PassesInside(clip, vertices, 4, 1);
    PassesInside(clip, vertices, 4, 2);
    PassesInside(clip, vertices, 4, 3);
  }

  lemma {:induction false} PassesUnchanged(clip: BBox, vertices: seq<Point>, edges: nat)
    requires edges <= 4 && InBox(clip, vertices)
    ensures Passes4(clip, vertices, edges) == vertices
  {
    if edges > 0 {
      PassesUnchanged(clip, vertices, edges - 1);
      PassUnchanged(clip, edges - 1, vertices, |vertices|);
      assert vertices[..|vertices|] == vertices;
    }
  }

  /** A polygon changes exactly when some vertex of it is outside the box. */
  lemma UnchangedIff(clip: BBox, vertices: seq<Point>)
    ensures Clipped(clip, vertices) == vertices <==> InBox(clip, vertices)
  {
    ClippedInBox(clip, vertices);
    if InBox(clip, vertices) { PassesUnchanged(clip, vertices, 4); }
  }

  lemma ClipIdempotent(clip: BBox, vertices: seq<Point>)
    ensures Clipped(clip, Clipped(clip, vertices)) == Clipped(clip, vertices)
  {
    ClippedInBox(clip, vertices);
    UnchangedIff(clip, Clipped(clip, vertices));
  }

  lemma {:induction false} PassesKeep(clip: BBox, vertices: seq<Point>, edges: nat, p: Point)
    requires edges <= 4 && p in vertices && clip.Contains(p)
    ensures p in Passes4(clip, vertices, edges)
    decreases edges
  {
    if edges > 0 {
      PassesKeep(clip, vertices, edges - 1, p);
      var input := Passes4(clip, vertices, edges - 1);
      var i :| 0 <= i < |input| && input[i] == p;
      PassKeeps(clip, edges - 1, input, |input|, i);
    }
  }

  /** No vertex in the box is lost. */
  lemma ClipKeeps(clip: BBox, vertices: seq<Point>, p: Point)
    requires p in vertices && clip.Contains(p)
    ensures p in Clipped(clip, vertices)
  {
    PassesKeep(clip, vertices, 4, p);
  }

  lemma PrevIsBefore(i: nat, n: nat)
    requires i < n
    ensures (i + n - 1) % n == if i == 0 then n - 1 else i - 1
  {
    if i > 0 { assert i + n - 1 == 1 * n + (i - 1); }
  }

  /** One turn of the inner loop; no division is by zero. */
  method ClipVertex(prev: Point, cur: Point, clip: BBox, edge: Edge, before: seq<Point>) returns (output: seq<Point>)
    ensures output == before + Kept(clip, edge, prev, cur)
  {
    output := before;
    if Inside(clip, edge, cur) {
      if !Inside(clip, edge, prev) {
        output := output + [Intersect(clip, edge, prev, cur)];
      }
      output := output + [cur];
    } else if Inside(clip, edge, prev) {
      output := output + [Intersect(clip, edge, prev, cur)];
    }
  }

  /** The inner loop. */
  method ClipByEdge(input: seq<Point>, clip: BBox, edge: Edge) returns (output: seq<Point>)
    ensures output == Pass(clip, edge, input, |input|)
  {
    output := [];
    for i := 0 to |input|
      invariant output == Pass(clip, edge, input, i)
    {
      PrevIsBefore(i, |input|);
      var cur := input[i];
      var prev := input[(i + |input| - 1) % |input|];
      output := ClipVertex(prev, cur, clip, edge, output);
    }
  }

  /** `clipPolygonByBBox`. */
  method ClipPolygonByBBox(vertices: seq<Point>, clip: BBox) returns (output: seq<Point>)
    ensures output == Clipped(clip, vertices)
    ensures InBox(clip, output)
  {
    output := vertices;
    for edge := 0 to 4
      invariant output == Passes4(clip, vertices, edge)
    {
      output := ClipByEdge(output, clip, edge);
    }
    ClippedInBox(clip, vertices);
  }
}
