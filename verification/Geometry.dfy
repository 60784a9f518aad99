/**
 * Points, bounding boxes and index entries (cpp/include/geometry.h,
 * cpp/include/index.h), with coordinates over the reals.
 */
module Geometry {

  datatype Point = Point(lat: real, lon: real)

  datatype BBox = BBox(minLat: real, minLon: real, maxLat: real, maxLon: real) {
    predicate Contains(p: Point) {
      && minLat <= p.lat <= maxLat
      && minLon <= p.lon <= maxLon
    }

    predicate Intersects(other: BBox) {
      !(other.minLat > maxLat || other.maxLat < minLat || other.minLon > maxLon || other.maxLon < minLon)
    }

    /** Every point of the other box lies in this one. */
    predicate Covers(other: BBox) {
      && minLat <= other.minLat && other.maxLat <= maxLat
      && minLon <= other.minLon && other.maxLon <= maxLon
    }
  }

  predicate Nonempty(b: BBox) {
    b.minLat <= b.maxLat && b.minLon <= b.maxLon
  }

  /** Two boxes meet exactly when they share a point. */
  lemma MeetIff(a: BBox, b: BBox)
    requires Nonempty(a) && Nonempty(b)
    ensures a.Intersects(b) <==> exists p: Point :: a.Contains(p) && b.Contains(p)
  {
    var low := Point(Max(a.minLat, b.minLat), Max(a.minLon, b.minLon));
    if a.Intersects(b) { assert a.Contains(low) && b.Contains(low); }
  }

  /** A box covers another exactly when it holds all its points. */
  lemma CoverIff(a: BBox, b: BBox)
    requires Nonempty(b)
    ensures a.Covers(b) <==> forall p: Point :: b.Contains(p) ==> a.Contains(p)
  {
    assert b.Contains(Point(b.minLat, b.minLon)) && b.Contains(Point(b.maxLat, b.maxLon));
  }

  datatype IndexEntry = IndexEntry(id: string, point: Point, collection: string, timestamp: nat)

  function Min(a: real, b: real): real {
    if a <= b then a else b
  }

  function Max(a: real, b: real): real {
    if a >= b then a else b
  }

  /** The smallest box over two boxes. */
  function Join(a: BBox, b: BBox): BBox {
    BBox(Min(a.minLat, b.minLat), Min(a.minLon, b.minLon), Max(a.maxLat, b.maxLat), Max(a.maxLon, b.maxLon))
  }

  function PointBox(p: Point): BBox {
    BBox(p.lat, p.lon, p.lat, p.lon)
  }

  /** The bounding box of a list of entries, one entry at a time. */
  function BoxOf(es: seq<IndexEntry>): BBox
    requires |es| > 0
  {
    if |es| == 1 then PointBox(es[0].point)
    else Join(BoxOf(es[..|es| - 1]), PointBox(es[|es| - 1].point))
  }

  predicate Holds(b: BBox, es: seq<IndexEntry>) {
    forall i :: 0 <= i < |es| ==> b.Contains(es[i].point)
  }

  /** The bounding box holds every entry, and every other box that does covers it. */
  lemma {:induction false} BoxOfIsLeast(es: seq<IndexEntry>, b: BBox)
    requires |es| > 0
    ensures Holds(BoxOf(es), es)
    ensures Holds(b, es) ==> b.Covers(BoxOf(es))
  {
    if |es| > 1 {
      var front := es[..|es| - 1];
      BoxOfIsLeast(front, b);
      assert forall i :: 0 <= i < |front| ==> es[i] == front[i];
    }
  }

  lemma {:induction false} BoxOfConcat(a: seq<IndexEntry>, b: seq<IndexEntry>)
    requires |a| > 0 && |b| > 0
    ensures BoxOf(a + b) == Join(BoxOf(a), BoxOf(b))
  {
    var front := b[..|b| - 1];
    assert (a + b)[..|a + b| - 1] == a + front;
    if |b| > 1 {
      BoxOfConcat(a, front);
    } else {
      assert a + front == a;
    }
  }

  /** The entries a box contains, in the order they are listed: a linear scan. */
  function Matching(es: seq<IndexEntry>, b: BBox): (r: seq<IndexEntry>) {
    if es == [] then []
    else Matching(es[..|es| - 1], b) + if b.Contains(es[|es| - 1].point) then [es[|es| - 1]] else []
  }

  lemma {:induction false} MatchingConcat(x: seq<IndexEntry>, y: seq<IndexEntry>, b: BBox)
    ensures Matching(x + y, b) == Matching(x, b) + Matching(y, b)
  {
    if y == [] {
      assert x + y == x;
    } else {
      var front := y[..|y| - 1];
      MatchingConcat(x, front, b);
      assert (x + y)[..|x + y| - 1] == x + front;
    }
  }

  /** Nothing matches under a box that the query does not meet. */
  lemma {:induction false} NoMatchOutside(es: seq<IndexEntry>, b: BBox, over: BBox)
    requires Holds(over, es) && !over.Intersects(b)
    ensures Matching(es, b) == []
  {
    if es != [] { NoMatchOutside(es[..|es| - 1], b, over); }
  }

  /** A linear scan keeps each entry as often as it is listed, if it matches at all. */
  lemma {:induction false} MatchingCount(es: seq<IndexEntry>, b: BBox, e: IndexEntry)
    ensures multiset(Matching(es, b))[e] == if b.Contains(e.point) then multiset(es)[e] else 0
  {
    if es != [] {
      var front, last := es[..|es| - 1], es[|es| - 1];
      MatchingCount(front, b, e);
      assert es == front + [last];
      assert multiset(es) == multiset(front) + multiset{last};
    }
  }

  // ----- one entry per id

  predicate HasId(es: seq<IndexEntry>, id: string) {
    exists i :: 0 <= i < |es| && es[i].id == id
  }

  /** The first entry of each id, in order. */
  function KeepFirst(es: seq<IndexEntry>): seq<IndexEntry> {
    if es == [] then []
    else
      var front, last := es[..|es| - 1], es[|es| - 1];
      KeepFirst(front) + if HasId(front, last.id) then [] else [last]
  }

  /** No id belongs to two entries. */
  ghost predicate DistinctIds(es: seq<IndexEntry>) {
    && (forall x, y :: x in es && y in es && x.id == y.id ==> x == y)
    && (forall x :: multiset(es)[x] <= 1)
  }

  /** The entry is listed at a place before which its id is not. */
  predicate IsFirst(es: seq<IndexEntry>, e: IndexEntry) {
    exists k :: 0 <= k < |es| && es[k] == e && !HasId(es[..k], e.id)
  }

  lemma StillFirst(es: seq<IndexEntry>, more: seq<IndexEntry>, e: IndexEntry)
    requires IsFirst(es, e)
    ensures IsFirst(es + more, e)
  {
    var k :| 0 <= k < |es| && es[k] == e && !HasId(es[..k], e.id);
    assert (es + more)[k] == e && (es + more)[..k] == es[..k];
  }

  lemma LastIsFirst(front: seq<IndexEntry>, last: IndexEntry)
    requires !HasId(front, last.id)
    ensures IsFirst(front + [last], last)
  {
    assert (front + [last])[|front|] == last && (front + [last])[..|front|] == front;
  }

  /** Exactly one entry is kept for each id that is listed, and it is the first with that id. */
  lemma {:induction false} KeepFirstCorrect(es: seq<IndexEntry>)
    ensures var r := KeepFirst(es);
            && (forall i, j :: 0 <= i < j < |r| ==> r[i].id != r[j].id)
            && (forall i :: 0 <= i < |r| ==> IsFirst(es, r[i]) && r[i] in es)
            && (forall id :: HasId(es, id) <==> HasId(r, id))
  {
    if es != [] {
      var front, last := es[..|es| - 1], es[|es| - 1];
      KeepFirstCorrect(front);
      var r, q := KeepFirst(es), KeepFirst(front);
      assert es == front + [last];
      assert r == if HasId(front, last.id) then q else q + [last];
      forall id ensures HasId(es, id) <==> HasId(r, id) {
        HasIdPush(front, last, id);
        HasIdPush(q, last, id);
      }
      forall i | 0 <= i < |r| ensures IsFirst(es, r[i]) {
        if i < |q| { StillFirst(front, [last], r[i]); } else { LastIsFirst(front, last); }
      }
    }
  }

  lemma HasIdPush(es: seq<IndexEntry>, e: IndexEntry, id: string)
    ensures HasId(es + [e], id) <==> HasId(es, id) || e.id == id
  {
    if HasId(es, id) {
      var i :| 0 <= i < |es| && es[i].id == id;
      assert (es + [e])[i].id == id;
    }
    if e.id == id { assert (es + [e])[|es|].id == id; }
  }

  lemma DistinctFront(front: seq<IndexEntry>, last: IndexEntry)
    requires DistinctIds(front + [last])
    ensures DistinctIds(front) && !HasId(front, last.id)
  {
    var es := front + [last];
    forall x ensures multiset(es)[x] == multiset(front)[x] + multiset{last}[x] {}
    assert forall x :: multiset(front)[x] <= multiset(es)[x];
    assert forall x :: x in front ==> x in es;
    assert last in es && last !in multiset(front);
  }

  lemma {:induction false} KeepFirstOfDistinct(es: seq<IndexEntry>)
    requires DistinctIds(es)
    ensures KeepFirst(es) == es
  {
    if es != [] {
      var front, last := es[..|es| - 1], es[|es| - 1];
      assert es == front + [last];
      DistinctFront(front, last);
      KeepFirstOfDistinct(front);
    }
  }
}
