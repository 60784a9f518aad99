/**
 * The quadtree nodes of cpp/spatial/quadtree.h on the heap, updated in place
 * as cpp/spatial/quadtree.cpp does. Every method is proved against the
 * function on tree values that QuadTreeModel gives.
 */
module QuadTreeNodes {
  import opened Geometry
  import opened QuadTreeModel

  class QuadNode {
    var bounds: BBox
    var entries: seq<IndexEntry>
    var children: seq<QuadNode?>
    var isLeaf: bool
    var depth: nat
    /** The values of the four child slots, and every node strictly below this one. */
    ghost var kids: seq<Tree>
    ghost var below: set<QuadNode>

    ghost function Value(): Tree
      reads this
    {
      if isLeaf then Leaf(bounds, depth, entries) else Branch(bounds, depth, kids)
    }

    ghost predicate Valid()
      reads this, below
      decreases below, 1
    {
      && this !in below
      && |children| == 4
      && (if isLeaf then children == NO_CHILDREN else entries == [])
      && Slots(children, kids, below)
    }

    constructor (b: BBox, d: nat)
      ensures Valid() && below == {}
      ensures isLeaf && entries == [] && bounds == b && depth == d && children == NO_CHILDREN
    {
      bounds, entries, children, isLeaf, depth := b, [], NO_CHILDREN, true, d;
      kids, below := [Absent, Absent, Absent, Absent], {};
    }

    /** Replaces the four slots by others that this node is not in. */
    method Adopt(cs: seq<QuadNode?>, ghost ks: seq<Tree>, ghost region: set<QuadNode>)
      requires !isLeaf && entries == [] && |cs| == 4
      requires Slots(cs, ks, region) && this !in region
      modifies this
      ensures Valid() && !isLeaf && kids == ks && below == region && children == cs
      ensures bounds == old(bounds) && depth == old(depth) && entries == []
    {
      children, kids, below := cs, ks, region;
      SlotsKept(cs, ks, region);
    }

    /** `insertNode`: false, and nothing changed, for a point outside the bounds. */
    method Insert(e: IndexEntry, maxDepth: int) returns (ok: bool)
      requires Valid() && FourWay(Value())
      modifies this, below
      ensures Valid() && fresh(below - old(below))
      ensures (Value(), ok) == QuadTreeModel.Insert(old(Value()), e, maxDepth)
      decreases Height(Value()), 1
    {
      if !bounds.Contains(e.point) { return false; }
      if isLeaf {
        entries := entries + [e];
        if |entries| > MAX_LEAF_ENTRIES && depth < maxDepth { SubdivideNode(); }
        return true;
      }
      ok := InsertBelow(Quadrant(bounds, e.point), e, maxDepth);
    }

    /** The child in a slot, made when there is none. */
    method Child(q: nat) returns (c: QuadNode)
      requires Valid() && FourWay(Value()) && !isLeaf && q < 4 == |kids|
      ensures c.Valid() && c.Value() == Slot(kids[q], bounds, depth, q) && FourWay(c.Value())
      ensures Height(c.Value()) < Height(Value())
      ensures c != this && this !in c.below && (c == children[q] || (children[q] == null && fresh(c) && c.below == {}))
      ensures c == children[q] ==> c in below && c.below <= below
    {
      if children[q] == null { c := new QuadNode(ChildBounds(bounds, q), depth + 1); } else { c := children[q]; }
      assert Height(Slot(kids[q], bounds, depth, q)) < Height(Value());
    }

    method InsertBelow(q: nat, e: IndexEntry, maxDepth: int) returns (ok: bool)
      requires Valid() && FourWay(Value()) && !isLeaf && q < 4 == |kids|
      modifies this, below
      ensures Valid() && fresh(below - old(below))
      ensures !isLeaf && bounds == old(bounds) && depth == old(depth)
      ensures var r := QuadTreeModel.Insert(Slot(old(kids)[q], bounds, depth, q), e, maxDepth);
              kids == old(kids)[q := r.0] && ok == r.1
      decreases Height(Value()), 0
    {
      ghost var cs, ks, region := children, kids, below;
      var c := Child(q);
      ok := c.Insert(e, maxDepth);
      SlotGrown(cs, ks, region, q, c);
      Adopt(children[q := c], kids[q := c.Value()], region + NodesOf(c));
    }

    /** `searchNode`: appends the entries of this subtree that the box contains. */
    method Search(bbox: BBox, found: seq<IndexEntry>) returns (results: seq<IndexEntry>)
      requires Valid()
      ensures results == found + QuadTreeModel.Search(Value(), bbox)
      decreases Value()
    {
      results := found;
      if !bounds.Intersects(bbox) { return; }
      if isLeaf {
        for i := 0 to |entries|
          invariant results == found + Matching(entries[..i], bbox)
        {
          assert entries[..i + 1][..i] == entries[..i];
          if bbox.Contains(entries[i].point) { results := results + [entries[i]]; }
        }
        assert entries[..|entries|] == entries;
        return;
      }
      for i := 0 to 4
        invariant results == found + SearchAll(kids[..i], bbox)
      {
        assert kids[..i + 1][..i] == kids[..i];
        if children[i] != null { results := children[i].Search(bbox, results); }
      }
      assert kids[..4] == kids;
    }

    method SubdivideNode()
      requires Valid() && isLeaf
      modifies this
      ensures Valid() && fresh(below)
      ensures Value() == Subdivide(bounds, depth, old(entries))
      ensures bounds == old(bounds) && depth == old(depth)
    {
      isLeaf := false;
      var moved := entries;
      entries := [];
      var cs := Scatter(bounds, depth, moved);
      ghost var ks := Parts(bounds, depth, moved, 4);
      PartsAreSlots(cs, ks);
      Adopt(cs, ks, Present(cs));
    }
  }

  /** A leaf made by a subdivision: new, and holding the entries of one quadrant. */
  ghost predicate IsPart(n: QuadNode?, t: Tree)
    reads n
  {
    if n == null then t == Absent
    else n.isLeaf && n.Value() == t && n.children == NO_CHILDREN && n.kids == [Absent, Absent, Absent, Absent] && n.below == {}
  }

  ghost function Present(cs: seq<QuadNode?>): set<QuadNode> {
    set i | 0 <= i < |cs| && cs[i] != null :: cs[i] as QuadNode
  }

  lemma PartsAreSlots(cs: seq<QuadNode?>, ks: seq<Tree>)
    requires |cs| == |ks| && forall q :: 0 <= q < |cs| ==> IsPart(cs[q], ks[q])
    requires forall i, j :: 0 <= i < j < |cs| && cs[i] != null ==> cs[i] != cs[j]
    ensures Slots(cs, ks, Present(cs))
  {
    forall i | 0 <= i < |cs| && cs[i] != null ensures cs[i] in Present(cs) && cs[i].Valid() && cs[i].Value() == ks[i] {
      assert IsPart(cs[i], ks[i]);
      assert Slots(cs[i].children, cs[i].kids, {});
    }
  }

  /** The loop of `subdivide`: each entry goes to the child of its quadrant, made on demand. */
  method Scatter(b: BBox, d: nat, es: seq<IndexEntry>) returns (cs: seq<QuadNode?>)
    ensures |cs| == 4
    ensures forall q :: 0 <= q < 4 ==> IsPart(cs[q], Part(b, d, es, q)) && (cs[q] != null ==> fresh(cs[q]))
    ensures forall i, j :: 0 <= i < j < 4 && cs[i] != null ==> cs[i] != cs[j]
  {
    cs := NO_CHILDREN;
    for i := 0 to |es|
      invariant |cs| == 4
      invariant forall q :: 0 <= q < 4 ==> IsPart(cs[q], Part(b, d, es[..i], q)) && (cs[q] != null ==> fresh(cs[q]))
      invariant forall i, j :: 0 <= i < j < 4 && cs[i] != null ==> cs[i] != cs[j]
    {
      var q := Quadrant(b, es[i].point);
      if cs[q] == null {
        var c := new QuadNode(ChildBounds(b, q), d + 1);
        cs := cs[q := c];
      }
      assert es[..i + 1][..i] == es[..i];
      cs[q].entries := cs[q].entries + [es[i]];
    }
    assert es[..|es|] == es;
  }

  const NO_CHILDREN: seq<QuadNode?> := [null, null, null, null]

  ghost function NodesOf(n: QuadNode?): set<QuadNode>
    reads n
  {
    if n == null then {} else {n} + n.below
  }

  ghost predicate Apart(a: QuadNode?, b: QuadNode?)
    reads a, b
  {
    NodesOf(a) !! NodesOf(b)
  }

  /** Disjoint subtrees with the given values, all of whose nodes lie in a region. */
  ghost predicate Slots(cs: seq<QuadNode?>, ks: seq<Tree>, region: set<QuadNode>)
    reads region
    decreases region, 0
  {
    && |cs| == |ks|
    && (forall i :: 0 <= i < |cs| && cs[i] == null ==> ks[i] == Absent)
    && (forall i :: 0 <= i < |cs| && cs[i] != null ==>
          && cs[i] in region && cs[i] !in cs[i].below && cs[i].below <= region
          && cs[i].Valid() && cs[i].Value() == ks[i])
    && (forall i, j :: 0 <= i < j < |cs| ==> Apart(cs[i], cs[j]))
  }

  /** No field of the node has changed. */
  twostate predicate Kept(n: QuadNode)
    reads n
  {
    && n.bounds == old(n.bounds) && n.entries == old(n.entries) && n.children == old(n.children)
    && n.isLeaf == old(n.isLeaf) && n.depth == old(n.depth)
    && n.kids == old(n.kids) && n.below == old(n.below)
  }

  /** Subtrees no node of which has changed are still what they were. */
  twostate lemma {:induction false} SlotsKept(new cs: seq<QuadNode?>, new ks: seq<Tree>, region: set<QuadNode>)
    requires old(allocated(cs)) && old(Slots(cs, ks, region))
    requires forall n :: n in region ==> Kept(n)
    ensures Slots(cs, ks, region)
    decreases region
  {
    forall i | 0 <= i < |cs| && cs[i] != null ensures Kept(cs[i]) && cs[i].Valid() {
      assert Kept(cs[i]);
      SlotsKept(cs[i].children, cs[i].kids, cs[i].below);
    }
  }

  /** One subtree replaced by another that shares no node with the rest. */
  lemma SlotReplaced(cs: seq<QuadNode?>, ks: seq<Tree>, region: set<QuadNode>, q: nat, n: QuadNode)
    requires q < |cs| == |ks| && Slots(cs[q := null], ks[q := Absent], region) && n.Valid()
    requires forall i :: 0 <= i < |cs| && i != q ==> Apart(cs[i], n)
    ensures Slots(cs[q := n], ks[q := n.Value()], region + NodesOf(n))
  {
    var ds, es := cs[q := n], cs[q := null];
    forall i, j | 0 <= i < j < |cs| ensures Apart(ds[i], ds[j]) {
      assert Apart(es[i], es[j]);
    }
    forall i | 0 <= i < |cs| && i != q ensures ds[i] == es[i] && ks[q := n.Value()][i] == ks[q := Absent][i] {}
  }

  /** With one subtree left out, the others stand as they did. */
  twostate lemma OthersStand(new cs: seq<QuadNode?>, new ks: seq<Tree>, region: set<QuadNode>, new q: nat)
    requires old(allocated(cs)) && old(Slots(cs, ks, region)) && q < |cs|
    requires forall m :: m in region && m !in old(NodesOf(cs[q])) ==> Kept(m)
    ensures Slots(cs[q := null], ks[q := Absent], region)
    ensures forall i :: 0 <= i < |cs| && i != q ==> NodesOf(cs[i]) == old(NodesOf(cs[i]))
  {
    forall i | 0 <= i < |cs| && i != q && cs[i] != null ensures Kept(cs[i]) && cs[i].Valid() {
      assert old(Apart(cs[if i < q then i else q], cs[if i < q then q else i]));
      assert Kept(cs[i]);
      SlotsKept(cs[i].children, cs[i].kids, cs[i].below);
    }
  }

  /** Only one subtree has changed, and it has grown only by new nodes. */
  twostate lemma SlotGrown(new cs: seq<QuadNode?>, new ks: seq<Tree>, region: set<QuadNode>, new q: nat, new n: QuadNode)
    requires old(allocated(cs)) && old(Slots(cs, ks, region)) && q < |cs|
    requires n.Valid() && fresh(NodesOf(n) - old(NodesOf(cs[q])))
    requires forall m :: m in region && m !in old(NodesOf(cs[q])) ==> Kept(m)
    ensures Slots(cs[q := n], ks[q := n.Value()], region + NodesOf(n))
  {
    OthersStand(cs, ks, region, q);
    forall i | 0 <= i < |cs| && i != q ensures Apart(cs[i], n) {
      assert old(Apart(cs[if i < q then i else q], cs[if i < q then q else i]));
    }
    SlotReplaced(cs, ks, region, q, n);
  }
}
