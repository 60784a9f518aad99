/**
 * What the quadtree of cpp/spatial/quadtree.cpp and quadtree.h computes, as a
 * function on tree values: insertion with one-level subdivision, and the
 * pruned box search.
 */
module QuadTreeModel {
  import opened Geometry

  const MAX_LEAF_ENTRIES: nat := 16

  datatype Tree =
    | Absent
    | Leaf(bounds: BBox, depth: nat, entries: seq<IndexEntry>)
    | Branch(bounds: BBox, depth: nat, children: seq<Tree>)

  /** Quadrants: upper right, upper left, lower right, lower left. */
  function Quadrant(b: BBox, p: Point): (q: nat)
    ensures q < 4
  {
    var midLat, midLon := (b.minLat + b.maxLat) / 2.0, (b.minLon + b.maxLon) / 2.0;
    if p.lat >= midLat then (if p.lon >= midLon then 0 else 1) else (if p.lon >= midLon then 2 else 3)
  }

  function ChildBounds(b: BBox, q: nat): BBox
    requires q < 4
  {
    var midLat, midLon := (b.minLat + b.maxLat) / 2.0, (b.minLon + b.maxLon) / 2.0;
    if q == 0 then BBox(midLat, midLon, b.maxLat, b.maxLon)
    else if q == 1 then BBox(midLat, b.minLon, b.maxLat, midLon)
    else if q == 2 then BBox(b.minLat, midLon, midLat, b.maxLon)
    else BBox(b.minLat, b.minLon, midLat, midLon)
  }

  /** A point of a box lies in the quadrant it is sent to. */
  lemma QuadrantHolds(b: BBox, p: Point)
    requires b.Contains(p)
    ensures ChildBounds(b, Quadrant(b, p)).Contains(p)
  {
  }

  /** Everything stored below a node, quadrant by quadrant. */
  function Stored(t: Tree): seq<IndexEntry>
    decreases t, 1
  {
    match t
    case Absent => []
    case Leaf(_, _, es) => es
    case Branch(_, _, cs) => StoredAll(cs)
  }

  function StoredAll(ts: seq<Tree>): seq<IndexEntry>
    decreases ts, 0
  {
    if ts == [] then [] else StoredAll(ts[..|ts| - 1]) + Stored(ts[|ts| - 1])
  }

  /** How often an entry is stored below a node. */
  function Count(t: Tree, x: IndexEntry): nat
    decreases t, 1
  {
    match t
    case Absent => 0
    case Leaf(_, _, es) => multiset(es)[x]
    case Branch(_, _, cs) => CountAll(cs, x)
  }

  function CountAll(ts: seq<Tree>, x: IndexEntry): nat
    decreases ts, 0
  {
    if ts == [] then 0 else CountAll(ts[..|ts| - 1], x) + Count(ts[|ts| - 1], x)
  }

  /** The bounds of a child slot of a node, one level deeper. */
  predicate Fits(c: Tree, b: BBox, d: nat, q: nat)
    requires q < 4
  {
    c.Absent? || (c.bounds == ChildBounds(b, q) && c.depth == d + 1)
  }

  /** Every entry stored below the node lies in its box. */
  ghost predicate Enclosed(t: Tree)
    requires !t.Absent?
  {
    forall x :: Count(t, x) > 0 ==> t.bounds.Contains(x.point)
  }

  /**
   * A node of a tree limited to a maximum depth: every entry lies in the node's
   * box, children sit in their quadrants, and a leaf that may still be divided
   * holds at most 16 entries more than its depth.
   */
  ghost predicate WellFormed(t: Tree, maxDepth: int)
    decreases t
  {
    match t
    case Absent => true
    case Leaf(b, d, es) => Enclosed(t) && (d < maxDepth ==> |es| <= 16 + d)
    case Branch(b, d, cs) =>
      && |cs| == 4 && Enclosed(t)
      && (forall q :: 0 <= q < 4 ==> WellFormed(cs[q], maxDepth) && Fits(cs[q], b, d, q))
  }

  // ----- insertNode and subdivide

  function InQuadrant(b: BBox, q: nat, es: seq<IndexEntry>): seq<IndexEntry> {
    if es == [] then []
    else
      var last := es[|es| - 1];
      InQuadrant(b, q, es[..|es| - 1]) + if Quadrant(b, last.point) == q then [last] else []
  }

  /** A child slot of a divided leaf: it stays empty when no entry falls there. */
  function Part(b: BBox, d: nat, es: seq<IndexEntry>, q: nat): Tree
    requires q < 4
  {
    if InQuadrant(b, q, es) == [] then Absent else Leaf(ChildBounds(b, q), d + 1, InQuadrant(b, q, es))
  }

  /** The first n child slots of a divided leaf. */
  function Parts(b: BBox, d: nat, es: seq<IndexEntry>, n: nat): (r: seq<Tree>)
    requires n <= 4
    ensures |r| == n && forall q :: 0 <= q < n ==> r[q] == Part(b, d, es, q)
  {
    if n == 0 then [] else Parts(b, d, es, n - 1) + [Part(b, d, es, n - 1)]
  }

  function Subdivide(b: BBox, d: nat, es: seq<IndexEntry>): Tree {
    Branch(b, d, Parts(b, d, es, 4))
  }

  function GrowLeaf(b: BBox, d: nat, es: seq<IndexEntry>, maxDepth: int): Tree {
    if |es| > MAX_LEAF_ENTRIES && d < maxDepth then Subdivide(b, d, es) else Leaf(b, d, es)
  }

  /** A child to descend into, made on demand. */
  function Slot(c: Tree, b: BBox, d: nat, q: nat): (t: Tree)
    requires q < 4
    ensures !t.Absent?
  {
    if c.Absent? then Leaf(ChildBounds(b, q), d + 1, []) else c
  }

  function Height(t: Tree): nat
    decreases t, 1
  {
    if t.Branch? then 1 + HeightAll(t.children) else 0
  }

  function HeightAll(ts: seq<Tree>): (h: nat)
    ensures forall i :: 0 <= i < |ts| ==> Height(ts[i]) <= h
    decreases ts, 0
  {
    if ts == [] then 0
    else
      var h, k := HeightAll(ts[..|ts| - 1]), Height(ts[|ts| - 1]);
      assert forall i :: 0 <= i < |ts| - 1 ==> ts[i] == ts[..|ts| - 1][i];
      if h < k then k else h
  }

  /** Every branch below a node has its four slots. */
  predicate FourWay(t: Tree) {
    t.Branch? ==> |t.children| == 4 && forall q :: 0 <= q < 4 ==> FourWay(t.children[q])
  }

  /** The node after an attempted insertion, and whether the entry was accepted. */
  function Insert(t: Tree, e: IndexEntry, maxDepth: int): (Tree, bool)
    requires !t.Absent? && FourWay(t)
    decreases Height(t)
  {
    if !t.bounds.Contains(e.point) then (t, false)
    else if t.Leaf? then (GrowLeaf(t.bounds, t.depth, t.entries + [e], maxDepth), true)
    else
      var q := Quadrant(t.bounds, e.point);
      var r := Insert(Slot(t.children[q], t.bounds, t.depth, q), e, maxDepth);
      (t.(children := t.children[q := r.0]), r.1)
  }

  lemma {:induction false} WellFormedIsFourWay(t: Tree, m: int)
    requires WellFormed(t, m)
    ensures FourWay(t)
    decreases t
  {
    if t.Branch? {
      forall q | 0 <= q < 4 ensures FourWay(t.children[q]) { WellFormedIsFourWay(t.children[q], m); }
    }
  }

  // ----- what a subdivision keeps

  lemma {:induction false} InQuadrantCount(b: BBox, q: nat, es: seq<IndexEntry>, x: IndexEntry)
    ensures multiset(InQuadrant(b, q, es))[x] == if Quadrant(b, x.point) == q then multiset(es)[x] else 0
    ensures |InQuadrant(b, q, es)| <= |es|
  {
    if es != [] {
      var front, last := es[..|es| - 1], es[|es| - 1];
      InQuadrantCount(b, q, front, x);
      assert es == front + [last];
    }
  }

  lemma PartCount(b: BBox, d: nat, es: seq<IndexEntry>, q: nat, x: IndexEntry)
    requires q < 4
    ensures Count(Part(b, d, es, q), x) == if Quadrant(b, x.point) == q then multiset(es)[x] else 0
  {
    InQuadrantCount(b, q, es, x);
  }

  lemma CountPush(ts: seq<Tree>, t: Tree, x: IndexEntry)
    ensures CountAll(ts + [t], x) == CountAll(ts, x) + Count(t, x)
  {
    assert (ts + [t])[..|ts|] == ts;
  }

  lemma {:induction false} PartsCount(b: BBox, d: nat, es: seq<IndexEntry>, n: nat, x: IndexEntry)
    requires n <= 4
    ensures CountAll(Parts(b, d, es, n), x) == if Quadrant(b, x.point) < n then multiset(es)[x] else 0
  {
    if n > 0 {
      PartsCount(b, d, es, n - 1, x);
      PartCount(b, d, es, n - 1, x);
      CountPush(Parts(b, d, es, n - 1), Part(b, d, es, n - 1), x);
    }
  }

  lemma PartWellFormed(b: BBox, d: nat, es: seq<IndexEntry>, q: nat, m: int)
    requires q < 4 && |es| <= MAX_LEAF_ENTRIES + d + 1
    requires forall x :: multiset(es)[x] > 0 ==> b.Contains(x.point)
    ensures WellFormed(Part(b, d, es, q), m) && Fits(Part(b, d, es, q), b, d, q)
  {
    var t := Part(b, d, es, q);
    if t.Leaf? {
      InQuadrantCount(b, q, es, t.entries[0]);
      forall x | Count(t, x) > 0 ensures t.bounds.Contains(x.point) {
        PartCount(b, d, es, q, x);
        QuadrantHolds(b, x.point);
      }
    }
  }

  lemma SubdivideWellFormed(b: BBox, d: nat, es: seq<IndexEntry>, m: int)
    requires |es| <= MAX_LEAF_ENTRIES + d + 1
    requires forall x :: multiset(es)[x] > 0 ==> b.Contains(x.point)
    ensures WellFormed(Subdivide(b, d, es), m)
  {
    var t := Subdivide(b, d, es);
    forall q | 0 <= q < 4 ensures WellFormed(t.children[q], m) && Fits(t.children[q], b, d, q) {
      PartWellFormed(b, d, es, q, m);
      assert t.children[q] == Part(b, d, es, q);
    }
    forall x | Count(t, x) > 0 ensures b.Contains(x.point) { PartsCount(b, d, es, 4, x); }
  }

  lemma GrowLeafCorrect(b: BBox, d: nat, es: seq<IndexEntry>, m: int)
    requires d < m ==> |es| <= MAX_LEAF_ENTRIES + d + 1
    requires forall x :: multiset(es)[x] > 0 ==> b.Contains(x.point)
    ensures var t := GrowLeaf(b, d, es, m);
            WellFormed(t, m) && !t.Absent? && t.bounds == b && t.depth == d && forall x :: Count(t, x) == multiset(es)[x]
  {
    if |es| > MAX_LEAF_ENTRIES && d < m {
      SubdivideWellFormed(b, d, es, m);
      forall x ensures Count(Subdivide(b, d, es), x) == multiset(es)[x] { PartsCount(b, d, es, 4, x); }
    }
  }

  // ----- insertion

  lemma {:induction false} CountUpdate(ts: seq<Tree>, i: nat, t: Tree, x: IndexEntry)
    requires i < |ts|
    ensures CountAll(ts[i := t], x) + Count(ts[i], x) == CountAll(ts, x) + Count(t, x)
  {
    var front, n := ts[..|ts| - 1], |ts| - 1;
    if i == n {
      assert ts[i := t][..n] == front;
    } else {
      CountUpdate(front, i, t, x);
      assert ts[i := t][..n] == front[i := t];
    }
  }

  /** The node holds what it held, and the entry if it was accepted. */
  ghost predicate Gained(before: Tree, after: Tree, e: IndexEntry, ok: bool) {
    forall x :: Count(after, x) == Count(before, x) + if ok && x == e then 1 else 0
  }

  /**
   * An insertion is refused exactly for a point outside the node's box, changes
   * the contents by the accepted entry alone and keeps the shape.
   */
  lemma {:induction false} InsertCorrect(t: Tree, e: IndexEntry, m: int)
    requires WellFormed(t, m) && !t.Absent? && FourWay(t)
    ensures var (t', ok) := Insert(t, e, m);
            && ok == t.bounds.Contains(e.point)
            && WellFormed(t', m) && !t'.Absent? && t'.bounds == t.bounds && t'.depth == t.depth
            && Gained(t, t', e, ok)
    decreases Height(t)
  {
    if t.bounds.Contains(e.point) {
      if t.Leaf? {
        forall x ensures multiset(t.entries + [e])[x] == multiset(t.entries)[x] + if x == e then 1 else 0 {}
        GrowLeafCorrect(t.bounds, t.depth, t.entries + [e], m);
      } else {
        var q := Quadrant(t.bounds, e.point);
        var c := Slot(t.children[q], t.bounds, t.depth, q);
        QuadrantHolds(t.bounds, e.point);
        InsertCorrect(c, e, m);
        InsertBranch(t, q, Insert(c, e, m).0, e, m);
      }
    }
  }

  lemma InsertBranch(t: Tree, q: nat, c: Tree, e: IndexEntry, m: int)
    requires t.Branch? && WellFormed(t, m) && q < 4 && t.bounds.Contains(e.point)
    requires WellFormed(c, m) && Fits(c, t.bounds, t.depth, q) && Gained(t.children[q], c, e, true)
    ensures var t' := t.(children := t.children[q := c]); WellFormed(t', m) && Gained(t, t', e, true)
  {
    var t' := t.(children := t.children[q := c]);
    forall x ensures Count(t', x) == Count(t, x) + if x == e then 1 else 0 {
      CountUpdate(t.children, q, c, x);
    }
  }

  // ----- searchNode

  function Search(t: Tree, b: BBox): seq<IndexEntry>
    decreases t, 1
  {
    if t.Absent? || !t.bounds.Intersects(b) then []
    else if t.Leaf? then Matching(t.entries, b)
    else SearchAll(t.children, b)
  }

  function SearchAll(ts: seq<Tree>, b: BBox): seq<IndexEntry>
    decreases ts, 0
  {
    if ts == [] then [] else SearchAll(ts[..|ts| - 1], b) + Search(ts[|ts| - 1], b)
  }

  lemma {:induction false} CountIsStored(t: Tree, x: IndexEntry)
    ensures Count(t, x) == multiset(Stored(t))[x]
    decreases t, 1
  {
    if t.Branch? { CountAllIsStored(t.children, x); }
  }

  lemma {:induction false} CountAllIsStored(ts: seq<Tree>, x: IndexEntry)
    ensures CountAll(ts, x) == multiset(StoredAll(ts))[x]
    decreases ts, 0
  {
    if ts != [] {
      CountAllIsStored(ts[..|ts| - 1], x);
      CountIsStored(ts[|ts| - 1], x);
    }
  }

  lemma EnclosedHolds(t: Tree)
    requires !t.Absent? && Enclosed(t)
    ensures Holds(t.bounds, Stored(t))
  {
    forall i | 0 <= i < |Stored(t)| ensures t.bounds.Contains(Stored(t)[i].point) {
      CountIsStored(t, Stored(t)[i]);
    }
  }

  /** Pruning loses nothing: the search is a linear scan over everything stored. */
  lemma {:induction false} SearchIsScan(t: Tree, m: int, b: BBox)
    requires WellFormed(t, m)
    ensures Search(t, b) == Matching(Stored(t), b)
    decreases t, 1
  {
    if t.Absent? {
    } else if !t.bounds.Intersects(b) {
      EnclosedHolds(t);
      NoMatchOutside(Stored(t), b, t.bounds);
    } else if t.Branch? {
      SearchAllIsScan(t.children, m, b);
    }
  }

  lemma {:induction false} SearchAllIsScan(ts: seq<Tree>, m: int, b: BBox)
    requires forall i :: 0 <= i < |ts| ==> WellFormed(ts[i], m)
    ensures SearchAll(ts, b) == Matching(StoredAll(ts), b)
    decreases ts, 0
  {
    if ts != [] {
      var front := ts[..|ts| - 1];
      SearchAllIsScan(front, m, b);
      SearchIsScan(ts[|ts| - 1], m, b);
      MatchingConcat(StoredAll(front), Stored(ts[|ts| - 1]), b);
    }
  }
}
