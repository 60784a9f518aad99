/**
 * What the R-tree of cpp/spatial/rtree.cpp computes, as a function on tree
 * values: insertion with least-enlargement descent and halving splits, and
 * the pruned box search. RTreeNodes.dfy proves that the in-place code does this.
 */
module RTreeModel {
  import opened Basics
  import opened Geometry

  const MAX_ENTRIES: nat := 8

  datatype Tree =
    | Leaf(mbr: BBox, entries: seq<IndexEntry>)
    | Branch(mbr: BBox, children: seq<Tree>)

  /** Everything stored below a node, left to right. */
  function Stored(t: Tree): seq<IndexEntry>
    decreases t, 1
  {
    match t
    case Leaf(_, es) => es
    case Branch(_, cs) => StoredAll(cs)
  }

  function StoredAll(ts: seq<Tree>): seq<IndexEntry>
    decreases ts, 0
  {
    if ts == [] then [] else StoredAll(ts[..|ts| - 1]) + Stored(ts[|ts| - 1])
  }

  /** The number of items a node holds: entries of a leaf, children of a branch. */
  function Items(t: Tree): nat {
    if t.Leaf? then |t.entries| else |t.children|
  }

  /**
   * A well-formed node of a given height: every leaf below it is at the same
   * depth, every node below it holds 4 to 8 items, and every node's box is the
   * bounding box of what is stored below it.
   */
  predicate WellFormed(t: Tree, height: nat)
    decreases height
  {
    && Items(t) > 0
    && Stored(t) != []
    && t.mbr == BoxOf(Stored(t))
    && match t
       case Leaf(_, _) => height == 0
       case Branch(_, cs) => height > 0 && forall i :: 0 <= i < |cs| ==> WellFormed(cs[i], height - 1) && Filled(cs[i])
  }

  predicate Filled(t: Tree) {
    4 <= Items(t) <= 8
  }

  /** A whole tree: the root may be underfull, but a branching root has at least two children. */
  predicate IsTree(t: Tree, height: nat) {
    WellFormed(t, height) && Items(t) <= 8 && (t.Branch? ==> Items(t) >= 2)
  }

  // ----- updateMBR

  /** The box over the boxes of some nodes. */
  function MbrOf(ts: seq<Tree>): BBox
    requires |ts| > 0
  {
    if |ts| == 1 then ts[0].mbr else Join(MbrOf(ts[..|ts| - 1]), ts[|ts| - 1].mbr)
  }

  function MakeLeaf(es: seq<IndexEntry>): Tree
    requires |es| > 0
  {
    Leaf(BoxOf(es), es)
  }

  function MakeBranch(ts: seq<Tree>): Tree
    requires |ts| > 0
  {
    Branch(MbrOf(ts), ts)
  }

  // ----- choosing a child

  function Enlargement(b: BBox, p: Point): real {
    var n := Join(b, PointBox(p));
    (n.maxLat - n.minLat) * (n.maxLon - n.minLon) - (b.maxLat - b.minLat) * (b.maxLon - b.minLon)
  }

  /** How far a value lies outside a range. */
  function Beyond(lo: real, hi: real, v: real): real {
    if v < lo then lo - v else if v > hi then v - hi else 0.0
  }

  lemma GrownArea(h: real, w: real, a: real, b: real)
    ensures (h + a) * (w + b) - h * w == a * w + b * h + a * b
  {
    assert (h + a) * (w + b) == h * (w + b) + a * (w + b);
    assert h * (w + b) == h * w + h * b && a * (w + b) == a * w + a * b;
  }

  /** A box grows by the strips that reach to the point and the corner between them. */
  lemma EnlargementIs(b: BBox, p: Point)
    requires Nonempty(b)
    ensures var north, east := Beyond(b.minLat, b.maxLat, p.lat), Beyond(b.minLon, b.maxLon, p.lon);
      Enlargement(b, p) == north * (b.maxLon - b.minLon) + east * (b.maxLat - b.minLat) + north * east
  {
    var n := Join(b, PointBox(p));
    var north, east := Beyond(b.minLat, b.maxLat, p.lat), Beyond(b.minLon, b.maxLon, p.lon);
    assert n.maxLat - n.minLat == (b.maxLat - b.minLat) + north && n.maxLon - n.minLon == (b.maxLon - b.minLon) + east;
    GrownArea(b.maxLat - b.minLat, b.maxLon - b.minLon, north, east);
  }

  /** The first of the first n children whose box grows least. */
  function Best(ts: seq<Tree>, p: Point, n: nat): (best: nat)
    requires 0 < n <= |ts|
    ensures best < n
  {
    if n == 1 then 0
    else
      var b := Best(ts, p, n - 1);
      if Enlargement(ts[n - 1].mbr, p) < Enlargement(ts[b].mbr, p) then n - 1 else b
  }

  lemma {:induction false} BestGrowsLeast(ts: seq<Tree>, p: Point, n: nat)
    requires 0 < n <= |ts|
    ensures var best := ts[Best(ts, p, n)].mbr;
            forall j :: 0 <= j < n ==>
              Enlargement(best, p) <= Enlargement(ts[j].mbr, p) &&
              (j < Best(ts, p, n) ==> Enlargement(best, p) < Enlargement(ts[j].mbr, p))
  {
    if n > 1 { BestGrowsLeast(ts, p, n - 1); }
  }

  // ----- insertEntry and splitNode

  /** A node after an insertion, and the sibling it was split into, if any. */
  datatype Grown = Grown(node: Tree, split: Option<Tree>)

  function GrowLeaf(es: seq<IndexEntry>): Grown
    requires |es| > 0
  {
    if |es| > MAX_ENTRIES then
      var mid := |es| / 2;
      Grown(MakeLeaf(es[..mid]), Some(MakeLeaf(es[mid..])))
    else Grown(MakeLeaf(es), None)
  }

  function GrowBranch(ts: seq<Tree>): Grown
    requires |ts| > 0
  {
    if |ts| > MAX_ENTRIES then
      var mid := |ts| / 2;
      Grown(MakeBranch(ts[..mid]), Some(MakeBranch(ts[mid..])))
    else Grown(MakeBranch(ts), None)
  }

  function WithChild(ts: seq<Tree>, i: nat, g: Grown): seq<Tree>
    requires i < |ts|
  {
    ts[i := g.node] + if g.split.Some? then [g.split.value] else []
  }

  function Insert(t: Tree, e: IndexEntry): Grown
    requires Rooted(t)
    decreases t
  {
    match t
    case Leaf(_, es) => GrowLeaf(es + [e])
    case Branch(_, cs) =>
      var i := Best(cs, e.point, |cs|);
      GrowBranch(WithChild(cs, i, Insert(cs[i], e)))
  }

  /** No branch below this node is without children, so the descent always has somewhere to go. */
  predicate Rooted(t: Tree) {
    t.Branch? ==> |t.children| > 0 && forall i :: 0 <= i < |t.children| ==> Rooted(t.children[i])
  }

  lemma {:induction false} WellFormedIsRooted(t: Tree, h: nat)
    requires WellFormed(t, h)
    ensures Rooted(t)
    decreases h
  {
    if t.Branch? {
      forall i | 0 <= i < |t.children| ensures Rooted(t.children[i]) {
        WellFormedIsRooted(t.children[i], h - 1);
      }
    }
  }

  // ----- insertion loses nothing and duplicates nothing

  /** How often an entry is stored below a node. */
  function Count(t: Tree, x: IndexEntry): nat
    decreases t, 1
  {
    match t
    case Leaf(_, es) => multiset(es)[x]
    case Branch(_, cs) => CountAll(cs, x)
  }

  function CountAll(ts: seq<Tree>, x: IndexEntry): nat
    decreases ts, 0
  {
    if ts == [] then 0 else CountAll(ts[..|ts| - 1], x) + Count(ts[|ts| - 1], x)
  }

  lemma {:induction false} CountIsStored(t: Tree, x: IndexEntry)
    ensures Count(t, x) == multiset(Stored(t))[x]
    decreases t, 1
  {
    if t.Branch? { CountAllIsStored(t.children, x); }
  }

  lemma {:induction false} CountAllIsStored(ts: seq<Tree>, x: IndexEntry)
    ensures CountAll(ts, x) == multiset(StoredAll(ts))[x]
    decreases ts, 0
  {
    if ts != [] {
      CountAllIsStored(ts[..|ts| - 1], x);
      CountIsStored(ts[|ts| - 1], x);
    }
  }

  lemma {:induction false} CountConcat(a: seq<Tree>, b: seq<Tree>, x: IndexEntry)
    ensures CountAll(a + b, x) == CountAll(a, x) + CountAll(b, x)
  {
    if b == [] {
      assert a + b == a;
    } else {
      CountConcat(a, b[..|b| - 1], x);
      assert (a + b)[..|a + b| - 1] == a + b[..|b| - 1];
    }
  }

  lemma CountPush(ts: seq<Tree>, t: Tree, x: IndexEntry)
    ensures CountAll(ts + [t], x) == CountAll(ts, x) + Count(t, x)
  {
    assert (ts + [t])[..|ts|] == ts;
  }

  lemma {:induction false} CountUpdate(ts: seq<Tree>, i: nat, t: Tree, x: IndexEntry)
    requires i < |ts|
    ensures CountAll(ts[i := t], x) + Count(ts[i], x) == CountAll(ts, x) + Count(t, x)
  {
    var front, n := ts[..|ts| - 1], |ts| - 1;
    if i == n {
      assert ts[i := t][..n] == front;
    } else {
      CountUpdate(front, i, t, x);
      assert ts[i := t][..n] == front[i := t];
    }
  }

  function CountOf(g: Grown, x: IndexEntry): nat {
    Count(g.node, x) + if g.split.Some? then Count(g.split.value, x) else 0
  }

  lemma CountWithChild(ts: seq<Tree>, i: nat, g: Grown, x: IndexEntry)
    requires i < |ts|
    ensures CountAll(WithChild(ts, i, g), x) + Count(ts[i], x) == CountAll(ts, x) + CountOf(g, x)
  {
    CountUpdate(ts, i, g.node, x);
    if g.split.Some? {
      CountPush(ts[i := g.node], g.split.value, x);
    } else {
      assert ts[i := g.node] + [] == ts[i := g.node];
    }
  }

  lemma CountOfGrowBranch(ts: seq<Tree>, x: IndexEntry)
    requires |ts| > 0
    ensures CountOf(GrowBranch(ts), x) == CountAll(ts, x)
  {
    var mid := |ts| / 2;
    CountConcat(ts[..mid], ts[mid..], x);
    assert ts[..mid] + ts[mid..] == ts;
  }

  lemma CountOfGrowLeaf(es: seq<IndexEntry>, x: IndexEntry)
    requires |es| > 0
    ensures CountOf(GrowLeaf(es), x) == multiset(es)[x]
  {
    var mid := |es| / 2;
    assert es[..mid] + es[mid..] == es;
  }

  /** The entries below a node after an insertion are those before it and the new one. */
  lemma {:induction false} InsertAddsEntry(t: Tree, e: IndexEntry, x: IndexEntry)
    requires Rooted(t)
    ensures CountOf(Insert(t, e), x) == Count(t, x) + if x == e then 1 else 0
    decreases t
  {
    match t
    case Leaf(_, es) =>
      CountOfGrowLeaf(es + [e], x);
    case Branch(_, cs) =>
      var i := Best(cs, e.point, |cs|);
      var g := Insert(cs[i], e);
      InsertAddsEntry(cs[i], e, x);
      CountWithChild(cs, i, g, x);
      CountOfGrowBranch(WithChild(cs, i, g), x);
  }

  // ----- insertion keeps the shape

  /** Boxes over children's boxes are boxes over everything below the children. */
  lemma {:induction false} MbrOfIsBoxOf(ts: seq<Tree>, h: nat)
    requires |ts| > 0 && forall i :: 0 <= i < |ts| ==> WellFormed(ts[i], h)
    ensures StoredAll(ts) != [] && MbrOf(ts) == BoxOf(StoredAll(ts))
  {
    var front := ts[..|ts| - 1];
    if |ts| > 1 {
      MbrOfIsBoxOf(front, h);
      BoxOfConcat(StoredAll(front), Stored(ts[|ts| - 1]));
    } else {
      assert StoredAll(ts[..0]) + Stored(ts[0]) == Stored(ts[0]);
    }
  }

  lemma MakeBranchWellFormed(ts: seq<Tree>, h: nat)
    requires |ts| > 0 && AllFilled(ts, h)
    ensures WellFormed(MakeBranch(ts), h + 1)
  {
    MbrOfIsBoxOf(ts, h);
  }

  /** The outcome of growing a node that held n items: one node no fuller than allowed, or two filled ones. */
  predicate GrownOk(g: Grown, h: nat, n: nat) {
    && WellFormed(g.node, h)
    && (g.split.None? ==> n <= Items(g.node) <= n + 1 && Items(g.node) <= MAX_ENTRIES)
    && (g.split.Some? ==> Filled(g.node) && WellFormed(g.split.value, h) && Filled(g.split.value))
    && (g.node.Leaf? <==> h == 0)
  }

  lemma GrowLeafOk(es: seq<IndexEntry>, n: nat)
    requires |es| == n + 1 && n <= MAX_ENTRIES
    ensures GrownOk(GrowLeaf(es), 0, n)
  {
  }

  lemma GrowBranchOk(ts: seq<Tree>, h: nat, n: nat)
    requires 0 < n <= |ts| <= n + 1 && n <= MAX_ENTRIES
    requires AllFilled(ts, h)
    ensures GrownOk(GrowBranch(ts), h + 1, n)
  {
    if |ts| > MAX_ENTRIES {
      var mid := |ts| / 2;
      MakeBranchWellFormed(ts[..mid], h);
      MakeBranchWellFormed(ts[mid..], h);
    } else {
      MakeBranchWellFormed(ts, h);
    }
  }

  predicate AllFilled(ts: seq<Tree>, h: nat) {
    forall i :: 0 <= i < |ts| ==> WellFormed(ts[i], h) && Filled(ts[i])
  }

  lemma WithChildFilled(ts: seq<Tree>, h: nat, i: nat, g: Grown)
    requires i < |ts| && AllFilled(ts, h) && GrownOk(g, h, Items(ts[i]))
    ensures AllFilled(WithChild(ts, i, g), h)
  {
  }

  lemma GrowParentOk(cs: seq<Tree>, h: nat, i: nat, g: Grown)
    requires i < |cs| <= MAX_ENTRIES && AllFilled(cs, h) && GrownOk(g, h, Items(cs[i]))
    ensures GrownOk(GrowBranch(WithChild(cs, i, g)), h + 1, |cs|)
  {
    WithChildFilled(cs, h, i, g);
    GrowBranchOk(WithChild(cs, i, g), h, |cs|);
  }

  /** Insertion keeps every leaf at one depth, every box tight and every node filled. */
  lemma {:induction false} InsertKeepsShape(t: Tree, h: nat, e: IndexEntry)
    requires WellFormed(t, h) && Items(t) <= MAX_ENTRIES
    requires Rooted(t)
    ensures GrownOk(Insert(t, e), h, Items(t))
    decreases h
  {
    if t.Leaf? {
      GrowLeafOk(t.entries + [e], |t.entries|);
    } else {
      var i := Best(t.children, e.point, |t.children|);
      InsertKeepsShape(t.children[i], h - 1, e);
      GrowParentOk(t.children, h - 1, i, Insert(t.children[i], e));
      assert Insert(t, e) == GrowBranch(WithChild(t.children, i, Insert(t.children[i], e)));
    }
  }

  // ----- the whole tree

  /** The root after `insert`: a split root gets a new root above the two halves. */
  function NewRoot(g: Grown): Tree {
    if g.split.Some? then MakeBranch([g.node, g.split.value]) else g.node
  }

  function InsertRoot(t: Option<Tree>, e: IndexEntry): Tree
    requires t.Some? ==> Rooted(t.value)
  {
    NewRoot(if t.Some? then Insert(t.value, e) else GrowLeaf([e]))
  }

  function StoredIn(t: Option<Tree>): seq<IndexEntry> {
    if t.Some? then Stored(t.value) else []
  }

  predicate IsRoot(t: Option<Tree>, h: nat) {
    t.Some? ==> IsTree(t.value, h)
  }

  lemma CountOfNewRoot(g: Grown, x: IndexEntry)
    ensures Count(NewRoot(g), x) == CountOf(g, x)
  {
    if g.split.Some? {
      CountPush([g.node], g.split.value, x);
      CountPush([], g.node, x);
      assert [g.node] + [g.split.value] == [g.node, g.split.value] && [] + [g.node] == [g.node];
    }
  }

  lemma NewRootShape(g: Grown, h: nat, n: nat) returns (h': nat)
    requires GrownOk(g, h, n) && n > 0 && (h > 0 ==> n >= 2)
    ensures IsTree(NewRoot(g), h')
  {
    h' := h;
    if g.split.Some? {
      h' := h + 1;
      MakeBranchWellFormed([g.node, g.split.value], h);
    }
  }

  /** Inserting into a whole tree gives a whole tree. */
  lemma InsertRootShape(t: Option<Tree>, h: nat, e: IndexEntry) returns (h': nat)
    requires IsRoot(t, h)
    ensures t.Some? ==> Rooted(t.value)
    ensures IsTree(InsertRoot(t, e), h')
  {
    if t.None? {
      h' := 0;
    } else {
      WellFormedIsRooted(t.value, h);
      InsertKeepsShape(t.value, h, e);
      h' := NewRootShape(Insert(t.value, e), h, Items(t.value));
    }
  }

  /** The tree holds exactly one entry more, the one inserted. */
  lemma InsertRootAddsEntry(t: Option<Tree>, e: IndexEntry)
    requires t.Some? ==> Rooted(t.value)
    ensures multiset(Stored(InsertRoot(t, e))) == multiset(StoredIn(t)) + multiset{e}
  {
    forall x ensures multiset(Stored(InsertRoot(t, e)))[x] == (multiset(StoredIn(t)) + multiset{e})[x] {
      CountIsStored(InsertRoot(t, e), x);
      if t.Some? {
        InsertAddsEntry(t.value, e, x);
        CountOfNewRoot(Insert(t.value, e), x);
        CountIsStored(t.value, x);
      }
    }
  }

  /** A whole tree that stores exactly the given entries. */
  ghost predicate TreeHolds(t: Tree, es: seq<IndexEntry>) {
    (exists h: nat :: IsTree(t, h)) && multiset(Stored(t)) == multiset(es)
  }

  lemma InsertHolds(t: Option<Tree>, es: seq<IndexEntry>, e: IndexEntry)
    requires if t.Some? then TreeHolds(t.value, es) else es == []
    ensures t.Some? ==> Rooted(t.value)
    ensures TreeHolds(InsertRoot(t, e), es + [e])
  {
    var h: nat := 0;
    if t.Some? { h :| IsTree(t.value, h); }
    var h' := InsertRootShape(t, h, e);
    InsertRootAddsEntry(t, e);
  }

  // ----- searchNode

  /** The pruned search: subtrees whose box misses the query are skipped. */
  function Search(t: Tree, b: BBox): seq<IndexEntry>
    decreases t, 1
  {
    if !t.mbr.Intersects(b) then []
    else match t
      case Leaf(_, es) => Matching(es, b)
      case Branch(_, cs) => SearchAll(cs, b)
  }

  function SearchAll(ts: seq<Tree>, b: BBox): seq<IndexEntry>
    decreases ts, 0
  {
    if ts == [] then [] else SearchAll(ts[..|ts| - 1], b) + Search(ts[|ts| - 1], b)
  }

  /** Pruning loses nothing: the search is a linear scan over everything stored. */
  lemma {:induction false} SearchIsScan(t: Tree, h: nat, b: BBox)
    requires WellFormed(t, h)
    ensures Search(t, b) == Matching(Stored(t), b)
    decreases h, 1, 0
  {
    if !t.mbr.Intersects(b) {
      BoxOfIsLeast(Stored(t), t.mbr);
      NoMatchOutside(Stored(t), b, t.mbr);
    } else if t.Branch? {
      SearchAllIsScan(t.children, h - 1, b);
    }
  }

  lemma {:induction false} SearchAllIsScan(ts: seq<Tree>, h: nat, b: BBox)
    requires forall i :: 0 <= i < |ts| ==> WellFormed(ts[i], h)
    ensures SearchAll(ts, b) == Matching(StoredAll(ts), b)
    decreases h, 2, |ts|
  {
    if ts != [] {
      var front := ts[..|ts| - 1];
      SearchAllIsScan(front, h, b);
      SearchIsScan(ts[|ts| - 1], h, b);
      MatchingConcat(StoredAll(front), Stored(ts[|ts| - 1]), b);
    }
  }

  // ----- searchBBox

  /**
   * What a box query over entries es must return: entries that were listed and
   * match, one for each id that matches at all; and when no id is shared, exactly
   * the matching entries, each as often as it is listed.
   */
  ghost predicate Answers(es: seq<IndexEntry>, b: BBox, r: seq<IndexEntry>) {
    && (forall i :: 0 <= i < |r| ==> r[i] in es && b.Contains(r[i].point))
    && (forall i, j :: 0 <= i < j < |r| ==> r[i].id != r[j].id)
    && (forall e :: e in es && b.Contains(e.point) ==> HasId(r, e.id))
    && (DistinctIds(es) ==> multiset(r) == multiset(Matching(es, b)))
  }

  lemma SamePermuted(x: seq<IndexEntry>, y: seq<IndexEntry>, b: BBox)
    requires multiset(x) == multiset(y)
    ensures multiset(Matching(x, b)) == multiset(Matching(y, b))
  {
    forall e ensures multiset(Matching(x, b))[e] == multiset(Matching(y, b))[e] {
      MatchingCount(x, b, e);
      MatchingCount(y, b, e);
    }
  }

  lemma MatchingOfDistinct(x: seq<IndexEntry>, b: BBox)
    requires DistinctIds(x)
    ensures DistinctIds(Matching(x, b))
  {
    forall e ensures multiset(Matching(x, b))[e] <= multiset(x)[e] { MatchingCount(x, b, e); }
    assert forall e :: e in Matching(x, b) ==> e in multiset(Matching(x, b));
    assert forall e :: e in Matching(x, b) ==> e in multiset(x);
  }

  lemma MatchingMembers(x: seq<IndexEntry>, b: BBox, e: IndexEntry)
    ensures e in Matching(x, b) <==> e in x && b.Contains(e.point)
  {
    MatchingCount(x, b, e);
    assert e in x <==> e in multiset(x);
    assert e in Matching(x, b) <==> e in multiset(Matching(x, b));
  }

  lemma SameMembers(x: seq<IndexEntry>, y: seq<IndexEntry>, e: IndexEntry)
    requires multiset(x) == multiset(y)
    ensures e in x <==> e in y
  {
    assert e in x <==> e in multiset(x);
    assert e in y <==> e in multiset(y);
  }

  lemma SameDistinct(x: seq<IndexEntry>, y: seq<IndexEntry>)
    requires multiset(x) == multiset(y) && DistinctIds(y)
    ensures DistinctIds(x)
  {
    forall e ensures e in x <==> e in y { SameMembers(x, y, e); }
    assert forall e :: multiset(x)[e] == multiset(y)[e];
  }

  lemma FoundIds(m: seq<IndexEntry>, e: IndexEntry)
    requires e in m
    ensures HasId(KeepFirst(m), e.id)
  {
    KeepFirstCorrect(m);
    assert HasId(m, e.id);
  }

  lemma ScanMember(stored: seq<IndexEntry>, es: seq<IndexEntry>, b: BBox, e: IndexEntry)
    requires multiset(stored) == multiset(es)
    ensures e in Matching(stored, b) <==> e in es && b.Contains(e.point)
  {
    MatchingMembers(stored, b, e);
    SameMembers(stored, es, e);
  }

  lemma ScanFindsOnly(stored: seq<IndexEntry>, es: seq<IndexEntry>, b: BBox, r: seq<IndexEntry>)
    requires multiset(stored) == multiset(es) && r == KeepFirst(Matching(stored, b))
    ensures forall i :: 0 <= i < |r| ==> r[i] in es && b.Contains(r[i].point)
    ensures forall i, j :: 0 <= i < j < |r| ==> r[i].id != r[j].id
  {
    KeepFirstCorrect(Matching(stored, b));
    forall i | 0 <= i < |r| ensures r[i] in es && b.Contains(r[i].point) {
      ScanMember(stored, es, b, r[i]);
    }
  }

  lemma ScanFindsAll(stored: seq<IndexEntry>, es: seq<IndexEntry>, b: BBox, r: seq<IndexEntry>)
    requires multiset(stored) == multiset(es) && r == KeepFirst(Matching(stored, b))
    ensures forall e :: e in es && b.Contains(e.point) ==> HasId(r, e.id)
  {
    forall e | e in es && b.Contains(e.point) ensures HasId(r, e.id) {
      ScanMember(stored, es, b, e);
      FoundIds(Matching(stored, b), e);
    }
  }

  lemma ScanIsExact(stored: seq<IndexEntry>, es: seq<IndexEntry>, b: BBox)
    requires multiset(stored) == multiset(es) && DistinctIds(es)
    ensures multiset(KeepFirst(Matching(stored, b))) == multiset(Matching(es, b))
  {
    SameDistinct(stored, es);
    MatchingOfDistinct(stored, b);
    KeepFirstOfDistinct(Matching(stored, b));
    SamePermuted(stored, es, b);
  }

  lemma ScanAnswers(stored: seq<IndexEntry>, es: seq<IndexEntry>, b: BBox, r: seq<IndexEntry>)
    requires multiset(stored) == multiset(es) && r == KeepFirst(Matching(stored, b))
    ensures Answers(es, b, r)
  {
    ScanFindsOnly(stored, es, b, r);
    ScanFindsAll(stored, es, b, r);
    if DistinctIds(es) { ScanIsExact(stored, es, b); }
  }

  lemma SearchAnswers(t: Tree, es: seq<IndexEntry>, b: BBox)
    requires TreeHolds(t, es)
    ensures Answers(es, b, KeepFirst(Search(t, b)))
  {
    var h: nat :| IsTree(t, h);
    SearchIsScan(t, h, b);
    ScanAnswers(Stored(t), es, b, KeepFirst(Search(t, b)));
  }
}
