/**
 * How far a leaf of the quadtree (cpp/spatial/quadtree.cpp) exceeds its limit:
 * `subdivide` divides once, so entries at one place sink a level at a time, and
 * the bound of 16 entries more than the depth is met at every depth.
 */
module QuadTreeBound {
  import opened Geometry
  import opened QuadTreeModel

  // ----- runs of insertions

  function Copies(e: IndexEntry, n: nat): (es: seq<IndexEntry>)
    ensures |es| == n
  {
    if n == 0 then [] else Copies(e, n - 1) + [e]
  }

  /** The node after an attempted insertion. */
  function Put(t: Tree, e: IndexEntry, m: int): Tree {
    if !t.Absent? && FourWay(t) then Insert(t, e, m).0 else t
  }

  /** The tree of a world after some insertions, accepted or not. */
  function Grown(world: BBox, m: int, es: seq<IndexEntry>): Tree {
    if es == [] then Leaf(world, 0, []) else Put(Grown(world, m, es[..|es| - 1]), es[|es| - 1], m)
  }

  lemma {:induction false} GrownWellFormed(world: BBox, m: int, es: seq<IndexEntry>)
    ensures !Grown(world, m, es).Absent? && WellFormed(Grown(world, m, es), m)
  {
    if es != [] {
      var t := Grown(world, m, es[..|es| - 1]);
      GrownWellFormed(world, m, es[..|es| - 1]);
      WellFormedIsFourWay(t, m);
      InsertCorrect(t, es[|es| - 1], m);
    }
  }

  // ----- copies of one entry

  /** Branches one below the other, with a leaf of n copies of an entry under the last. */
  function Shaft(b: BBox, d: nat, k: nat, e: IndexEntry, n: nat): (t: Tree)
    ensures !t.Absent? && t.bounds == b && t.depth == d
    decreases k
  {
    if k == 0 then Leaf(b, d, Copies(e, n))
    else
      var q := Quadrant(b, e.point);
      Branch(b, d, OnlyIn(q, Shaft(ChildBounds(b, q), d + 1, k - 1, e, n)))
  }

  function OnlyIn(q: nat, t: Tree): (ts: seq<Tree>)
    requires q < 4
    ensures |ts| == 4 && forall i :: 0 <= i < 4 ==> ts[i] == if i == q then t else Absent
  {
    [Absent, Absent, Absent, Absent][q := t]
  }

  lemma {:induction false} ShaftIsFourWay(b: BBox, d: nat, k: nat, e: IndexEntry, n: nat)
    ensures FourWay(Shaft(b, d, k, e, n))
    decreases k
  {
    if k > 0 {
      var q := Quadrant(b, e.point);
      ShaftIsFourWay(ChildBounds(b, q), d + 1, k - 1, e, n);
    }
  }

  lemma {:induction false} CopiesInQuadrant(b: BBox, q: nat, e: IndexEntry, n: nat)
    ensures InQuadrant(b, q, Copies(e, n)) == if Quadrant(b, e.point) == q then Copies(e, n) else []
  {
    if n > 0 {
      CopiesInQuadrant(b, q, e, n - 1);
      CopiesFront(e, n);
    }
  }

  lemma CopiesFront(e: IndexEntry, n: nat)
    requires n > 0
    ensures Copies(e, n)[..n - 1] == Copies(e, n - 1) && Copies(e, n)[n - 1] == e
  {
  }

  lemma DivideCopies(b: BBox, d: nat, e: IndexEntry, n: nat)
    requires n > 0
    ensures Subdivide(b, d, Copies(e, n)) == Shaft(b, d, 1, e, n)
  {
    forall q | 0 <= q < 4 ensures Part(b, d, Copies(e, n), q) == Shaft(b, d, 1, e, n).children[q] {
      CopiesInQuadrant(b, q, e, n);
    }
  }

  /** One more copy sinks the leaf by one level. */
  lemma {:induction false} ShaftSinks(b: BBox, d: nat, k: nat, e: IndexEntry, n: nat, m: int)
    requires b.Contains(e.point) && n >= MAX_LEAF_ENTRIES && d + k < m
    ensures FourWay(Shaft(b, d, k, e, n)) && Insert(Shaft(b, d, k, e, n), e, m) == (Shaft(b, d, k + 1, e, n + 1), true)
    decreases k
  {
    ShaftIsFourWay(b, d, k, e, n);
    if k == 0 {
      DivideCopies(b, d, e, n + 1);
    } else {
      var q := Quadrant(b, e.point);
      var c := ChildBounds(b, q);
      QuadrantHolds(b, e.point);
      ShaftSinks(c, d + 1, k - 1, e, n, m);
      assert OnlyIn(q, Shaft(c, d + 1, k - 1, e, n))[q := Shaft(c, d + 1, k, e, n + 1)] == OnlyIn(q, Shaft(c, d + 1, k, e, n + 1));
    }
  }

  lemma GrownMore(world: BBox, m: int, e: IndexEntry, n: nat, o: nat)
    requires o == n + 1
    ensures Grown(world, m, Copies(e, o)) == Put(Grown(world, m, Copies(e, n)), e, m)
  {
    CopiesFront(e, o);
  }

  lemma {:induction false} FirstCopies(world: BBox, m: int, e: IndexEntry, n: nat)
    requires world.Contains(e.point) && n <= MAX_LEAF_ENTRIES
    ensures Grown(world, m, Copies(e, n)) == Leaf(world, 0, Copies(e, n))
  {
    if n > 0 {
      FirstCopies(world, m, e, n - 1);
      GrownMore(world, m, e, n - 1, n);
    }
  }

  lemma NextCopy(world: BBox, m: int, e: IndexEntry, k: nat, n: nat, l: nat, o: nat)
    requires world.Contains(e.point) && n >= MAX_LEAF_ENTRIES && k < m && l == k + 1 && o == n + 1
    requires Grown(world, m, Copies(e, n)) == Shaft(world, 0, k, e, n)
    ensures Grown(world, m, Copies(e, o)) == Shaft(world, 0, l, e, o)
  {
    GrownMore(world, m, e, n, o);
    PutSinks(world, m, e, k, n, l, o);
  }

  lemma PutSinks(world: BBox, m: int, e: IndexEntry, k: nat, n: nat, l: nat, o: nat)
    requires world.Contains(e.point) && n >= MAX_LEAF_ENTRIES && k < m && l == k + 1 && o == n + 1
    ensures Put(Shaft(world, 0, k, e, n), e, m) == Shaft(world, 0, l, e, o)
  {
    ShaftSinks(world, 0, k, e, n, m);
  }

  function GrownBy(world: BBox, m: int, e: IndexEntry): nat -> Tree {
    (n: nat) => Grown(world, m, Copies(e, n))
  }

  function Shafts(world: BBox, e: IndexEntry): (nat, nat) -> Tree {
    (k: nat, n: nat) => Shaft(world, 0, k, e, n)
  }

  /** While n entries all lie in a leaf at depth k, one more sinks them. */
  ghost predicate Sinks(grown: nat -> Tree, shaft: (nat, nat) -> Tree, first: nat, m: int) {
    forall k: nat, n: nat, l: nat, o: nat ::
      n >= first && k < m && l == k + 1 && o == n + 1 && grown(n) == shaft(k, n) ==> grown(o) == shaft(l, o)
  }

  lemma CopySinks(world: BBox, m: int, e: IndexEntry, grown: nat -> Tree, shaft: (nat, nat) -> Tree, k: nat, n: nat, l: nat, o: nat)
    requires world.Contains(e.point) && grown == GrownBy(world, m, e) && shaft == Shafts(world, e)
    requires n >= MAX_LEAF_ENTRIES && k < m && l == k + 1 && o == n + 1 && grown(n) == shaft(k, n)
    ensures grown(o) == shaft(l, o)
  {
    NextCopy(world, m, e, k, n, l, o);
  }

  lemma CopiesSink(world: BBox, m: int, e: IndexEntry, grown: nat -> Tree, shaft: (nat, nat) -> Tree)
    requires world.Contains(e.point) && grown == GrownBy(world, m, e) && shaft == Shafts(world, e)
    ensures Sinks(grown, shaft, MAX_LEAF_ENTRIES, m)
  {
    forall k: nat, n: nat, l: nat, o: nat | n >= MAX_LEAF_ENTRIES && k < m && l == k + 1 && o == n + 1 && grown(n) == shaft(k, n)
      ensures grown(o) == shaft(l, o)
    {
      CopySinks(world, m, e, grown, shaft, k, n, l, o);
    }
  }

  lemma CopiesFit(world: BBox, m: int, e: IndexEntry, grown: nat -> Tree, shaft: (nat, nat) -> Tree)
    requires world.Contains(e.point) && grown == GrownBy(world, m, e) && shaft == Shafts(world, e)
    ensures grown(MAX_LEAF_ENTRIES) == shaft(0, MAX_LEAF_ENTRIES)
  {
    FirstCopies(world, m, e, MAX_LEAF_ENTRIES);
  }

  lemma {:induction false} SinkTo(grown: nat -> Tree, shaft: (nat, nat) -> Tree, first: nat, m: int, d: nat)
    requires Sinks(grown, shaft, first, m) && grown(first) == shaft(0, first) && (d == 0 || d <= m)
    ensures grown(first + d) == shaft(d, first + d)
    decreases d
  {
    if d > 0 { SinkTo(grown, shaft, first, m, d - 1); }
  }

  /** Of 16 + d entries at one place a leaf at depth d holds all, for every depth that the tree may have. */
  lemma BoundMet(world: BBox, m: int, e: IndexEntry, d: nat)
    requires world.Contains(e.point) && (d == 0 || d <= m)
    ensures Grown(world, m, Copies(e, 16 + d)) == Shaft(world, 0, d, e, 16 + d)
  {
    CopiesFit(world, m, e, GrownBy(world, m, e), Shafts(world, e));
    CopiesSink(world, m, e, GrownBy(world, m, e), Shafts(world, e));
    SinkTo(GrownBy(world, m, e), Shafts(world, e), MAX_LEAF_ENTRIES, m, d);
  }

  /** No leaf that may still be divided holds more than n entries. */
  ghost predicate LeavesWithin(t: Tree, m: int, n: nat) {
    match t
    case Absent => true
    case Leaf(_, d, es) => d < m ==> |es| <= n
    case Branch(_, _, cs) => forall i :: 0 <= i < |cs| ==> LeavesWithin(cs[i], m, n)
  }

  lemma {:induction false} ShallowWithin(t: Tree, m: int)
    requires WellFormed(t, m) && m <= 1
    ensures LeavesWithin(t, m, MAX_LEAF_ENTRIES)
  {
    if t.Branch? {
      forall i | 0 <= i < |t.children| ensures LeavesWithin(t.children[i], m, MAX_LEAF_ENTRIES) {
        ShallowWithin(t.children[i], m);
      }
    }
  }

  /** The limit of 16 entries holds in every run if and only if the tree may be at most one level deep. */
  lemma LimitHeldIff(world: BBox, m: int, e: IndexEntry)
    requires world.Contains(e.point)
    ensures (forall es :: LeavesWithin(Grown(world, m, es), m, 16)) <==> m <= 1
  {
    if m <= 1 {
      forall es ensures LeavesWithin(Grown(world, m, es), m, MAX_LEAF_ENTRIES) {
        GrownWellFormed(world, m, es);
        ShallowWithin(Grown(world, m, es), m);
      }
    } else {
      var q := Quadrant(world, e.point);
      var n := MAX_LEAF_ENTRIES + 1;
      var t := Grown(world, m, Copies(e, n));
      BoundMet(world, m, e, 1);
      assert t.children[q] == Leaf(ChildBounds(world, q), 1, Copies(e, n));
      assert !LeavesWithin(t.children[q], m, MAX_LEAF_ENTRIES);
      assert !LeavesWithin(t, m, MAX_LEAF_ENTRIES);
    }
  }
}
