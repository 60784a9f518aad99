/**
 * Repeated halving of an interval: the two coordinates of a geohash
 * (cpp/spatial/geohash.cpp) are each found this way.
 */
module Bisection {
  import opened Powers

  /** An interval of the number line, by its low end and its length. */
  datatype Axis = Axis(lo: real, span: real)

  /** The length of a part after k halvings. */
  function Width(ax: Axis, k: nat): real {
    if k == 0 then ax.span else Width(ax, k - 1) / 2.0
  }

  /** The low end of the i-th part after k halvings. */
  function Edge(ax: Axis, k: nat, i: int): real {
    ax.lo + i as real * Width(ax, k)
  }

  lemma {:induction false} WidthPositive(ax: Axis, k: nat)
    requires ax.span > 0.0
    ensures Width(ax, k) > 0.0
  {
    if k > 0 { WidthPositive(ax, k - 1); }
  }

  lemma EdgeHalves(ax: Axis, k: nat, i: int)
    ensures Edge(ax, k + 1, 2 * i) == Edge(ax, k, i)
    ensures Edge(ax, k + 1, 2 * i + 1) == (Edge(ax, k, i) + Edge(ax, k, i + 1)) / 2.0
    ensures Edge(ax, k + 1, 2 * i + 2) == Edge(ax, k, i + 1)
  {
    var w, r := Width(ax, k), i as real;
    assert (2 * i) as real == 2.0 * r && (2 * i + 1) as real == 2.0 * r + 1.0 && (2 * i + 2) as real == 2.0 * r + 2.0;
    assert (i + 1) as real == r + 1.0;
    assert (2.0 * r) * (w / 2.0) == r * w;
    assert (2.0 * r + 1.0) * (w / 2.0) == r * w + w / 2.0;
    assert (2.0 * r + 2.0) * (w / 2.0) == r * w + w;
    assert (r + 1.0) * w == r * w + w;
  }

  /** The ends of the upper or the lower half of a part. */
  lemma HalfEdges(ax: Axis, k: nat, i: int, j: int)
    requires j == 2 * i || j == 2 * i + 1
    ensures Edge(ax, k + 1, j) == if j == 2 * i then Edge(ax, k, i) else (Edge(ax, k, i) + Edge(ax, k, i + 1)) / 2.0
    ensures Edge(ax, k + 1, j + 1) == if j == 2 * i then (Edge(ax, k, i) + Edge(ax, k, i + 1)) / 2.0 else Edge(ax, k, i + 1)
  {
    EdgeHalves(ax, k, i);
  }

  lemma EdgeOrder(ax: Axis, k: nat, i: int, j: int)
    requires ax.span > 0.0
    ensures i <= j <==> Edge(ax, k, i) <= Edge(ax, k, j)
    ensures i < j <==> Edge(ax, k, i) < Edge(ax, k, j)
  {
    WidthPositive(ax, k);
    var w, d := Width(ax, k), (j - i) as real;
    assert j as real == i as real + d;
    assert j as real * w == i as real * w + d * w;
    assert d > 0.0 ==> d * w > 0.0;
    assert d < 0.0 ==> d * w < 0.0;
  }

  /** The part that k rounds of "upper half if at or above the middle" lead to. */
  function IndexOf(ax: Axis, k: nat, v: real): (i: nat)
    ensures i < Pow2(k)
  {
    if k == 0 then 0
    else
      var i := IndexOf(ax, k - 1, v);
      if v >= Edge(ax, k, 2 * i + 1) then 2 * i + 1 else 2 * i
  }

  lemma IndexHalves(ax: Axis, k: nat, v: real)
    ensures var i := IndexOf(ax, k, v);
      IndexOf(ax, k + 1, v) == if v >= (Edge(ax, k, i) + Edge(ax, k, i + 1)) / 2.0 then 2 * i + 1 else 2 * i
  {
    EdgeHalves(ax, k, IndexOf(ax, k, v));
  }

  /** The value lies in the part, or beyond the end of the interval that the part is at. */
  predicate Located(ax: Axis, k: nat, v: real, i: int) {
    && 0 <= i < Pow2(k)
    && (i == 0 || Edge(ax, k, i) <= v)
    && (i == Pow2(k) - 1 || v < Edge(ax, k, i + 1))
  }

  lemma {:induction false} IndexLocated(ax: Axis, k: nat, v: real)
    requires ax.span > 0.0
    ensures Located(ax, k, v, IndexOf(ax, k, v))
  {
    if k > 0 {
      IndexLocated(ax, k - 1, v);
      EdgeHalves(ax, k - 1, IndexOf(ax, k - 1, v));
    }
  }

  lemma LocatedOnce(ax: Axis, k: nat, v: real, i: int, j: int)
    requires ax.span > 0.0 && Located(ax, k, v, i) && Located(ax, k, v, j)
    ensures i == j
  {
    EdgeOrder(ax, k, i + 1, j);
    EdgeOrder(ax, k, j + 1, i);
  }

  /** A value in a part, its upper end left out, leads to that part. */
  lemma IndexOfInside(ax: Axis, k: nat, i: nat, v: real)
    requires ax.span > 0.0 && i < Pow2(k) && Edge(ax, k, i) <= v < Edge(ax, k, i + 1)
    ensures IndexOf(ax, k, v) == i
  {
    IndexLocated(ax, k, v);
    LocatedOnce(ax, k, v, i, IndexOf(ax, k, v));
  }

  function Clamp(k: nat, i: int): (r: nat)
    ensures r < Pow2(k)
  {
    if i < 0 then 0 else if i >= Pow2(k) then Pow2(k) - 1 else i
  }

  function Middle(ax: Axis, k: nat, i: int): real {
    (Edge(ax, k, i) + Edge(ax, k, i + 1)) / 2.0
  }

  lemma MiddleInside(ax: Axis, k: nat, i: int)
    requires ax.span > 0.0
    ensures Edge(ax, k, i) < Middle(ax, k, i) < Edge(ax, k, i + 1)
  {
    EdgeOrder(ax, k, i, i + 1);
  }

  lemma EdgeStep(ax: Axis, k: nat, i: int)
    ensures Edge(ax, k, i + 1) == Edge(ax, k, i) + Width(ax, k)
  {
    var w := Width(ax, k);
    assert (i + 1) as real * w == i as real * w + w;
  }

  lemma MiddleStep(ax: Axis, k: nat, i: int, d: int)
    requires -1 <= d <= 1
    ensures Middle(ax, k, i) + d as real * (Edge(ax, k, i + 1) - Edge(ax, k, i)) == Middle(ax, k, i + d)
  {
    EdgeStep(ax, k, i);
    EdgeStep(ax, k, i + 1);
    EdgeStep(ax, k, i - 1);
  }

  lemma MiddleLeadsTo(ax: Axis, k: nat, j: int)
    requires ax.span > 0.0 && -1 <= j <= Pow2(k)
    ensures IndexOf(ax, k, Middle(ax, k, j)) == Clamp(k, j)
  {
    var v, i := Middle(ax, k, j), Clamp(k, j);
    MiddleInside(ax, k, j);
    EdgeOrder(ax, k, i, j);
    EdgeOrder(ax, k, j + 1, i + 1);
    IndexLocated(ax, k, v);
    LocatedOnce(ax, k, v, IndexOf(ax, k, v), i);
  }

  /** A step of one part length from the middle of a part leads to the next part, or stays at the end. */
  lemma IndexOfStep(ax: Axis, k: nat, i: nat, d: int)
    requires ax.span > 0.0 && i < Pow2(k) && -1 <= d <= 1
    ensures IndexOf(ax, k, Middle(ax, k, i) + d as real * (Edge(ax, k, i + 1) - Edge(ax, k, i))) == Clamp(k, i + d)
  {
    MiddleStep(ax, k, i, d);
    MiddleLeadsTo(ax, k, i + d);
  }

  /** The whole interval is cut without remainder. */
  lemma {:induction false} LastEdge(ax: Axis, k: nat)
    ensures Edge(ax, k, 0) == ax.lo && Edge(ax, k, Pow2(k)) == ax.lo + ax.span
  {
    if k > 0 {
      LastEdge(ax, k - 1);
      EdgeHalves(ax, k - 1, Pow2(k - 1));
    }
  }

  /** A value of the interval lies in the part it leads to. */
  lemma IndexContains(ax: Axis, k: nat, v: real)
    requires ax.span > 0.0 && ax.lo <= v <= ax.lo + ax.span
    ensures var i := IndexOf(ax, k, v); Edge(ax, k, i) <= v <= Edge(ax, k, i + 1)
  {
    IndexLocated(ax, k, v);
    LastEdge(ax, k);
  }

  // ----- parts that meet a range

  predicate Meets(ax: Axis, k: nat, i: int, lo: real, hi: real) {
    !(lo > Edge(ax, k, i + 1) || hi < Edge(ax, k, i))
  }

  /** The parts that meet a range have no gap. */
  lemma MeetsBetween(ax: Axis, k: nat, i: int, m: int, j: int, lo: real, hi: real)
    requires ax.span > 0.0 && (i <= m <= j || j <= m <= i) && Meets(ax, k, i, lo, hi) && Meets(ax, k, j, lo, hi)
    ensures Meets(ax, k, m, lo, hi)
  {
    EdgeOrder(ax, k, m, j);
    EdgeOrder(ax, k, m, i);
    EdgeOrder(ax, k, i + 1, m + 1);
    EdgeOrder(ax, k, j + 1, m + 1);
  }

  /** If any part meets a range, the part of its middle does, even when the range is turned around. */
  lemma MiddleMeets(ax: Axis, k: nat, i: nat, lo: real, hi: real)
    requires ax.span > 0.0 && i < Pow2(k) && Meets(ax, k, i, lo, hi)
    ensures Meets(ax, k, IndexOf(ax, k, (lo + hi) / 2.0), lo, hi)
  {
    var v := (lo + hi) / 2.0;
    var c := IndexOf(ax, k, v);
    if lo > hi {
      IndexOfInside(ax, k, i, v);
    } else {
      IndexLocated(ax, k, v);
      EdgeOrder(ax, k, 0, i);
      EdgeOrder(ax, k, i + 1, Pow2(k));
    }
  }
}
