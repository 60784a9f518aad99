/**
 * The R-tree of cpp/spatial/rtree.h and cpp/spatial/rtree.cpp in its own form:
 * nodes on the heap that insertion updates in place. Every method is proved
 * against the function on tree values that RTreeModel gives.
 */
module RTreeNodes {
  import opened Basics
  import opened Geometry
  import opened RTreeModel

  class RTreeNode {
    var isLeaf: bool
    var mbr: BBox
    var children: seq<RTreeNode>
    var entries: seq<IndexEntry>
    /** The values of the children, and every node strictly below this one. */
    ghost var kids: seq<Tree>
    ghost var below: set<RTreeNode>

    ghost function Value(): Tree
      reads this
    {
      if isLeaf then Leaf(mbr, entries) else Branch(mbr, kids)
    }

    /** This node and those below it form a tree: none is shared and none is its own descendant. */
    ghost predicate Valid()
      reads this, below
      decreases below, 1
    {
      && this !in below
      && (if isLeaf then children == [] else entries == [])
      && Forest(children, kids, below)
    }

    constructor ()
      ensures Valid() && below == {}
      ensures isLeaf && entries == [] && children == [] && kids == []
    {
      isLeaf, mbr, children, entries := true, BBox(0.0, 0.0, 0.0, 0.0), [], [];
      kids, below := [], {};
    }

    method UpdateMBR()
      requires Valid()
      modifies this`mbr
      ensures Valid()
      ensures mbr == if isLeaf then (if entries == [] then old(mbr) else BoxOf(entries))
                     else (if kids == [] then old(mbr) else MbrOf(kids))
    {
      if isLeaf {
        if entries == [] { return; }
        mbr := PointBox(entries[0].point);
        for i := 0 to |entries|
          invariant mbr == BoxOf(entries[..if i == 0 then 1 else i])
        {
          assert entries[..i + 1][..i] == entries[..i];
          mbr := Join(mbr, PointBox(entries[i].point));
        }
        assert entries[..|entries|] == entries;
      } else {
        if children == [] { return; }
        assert forall i :: 0 <= i < |children| ==> children[i] != this && children[i].mbr == kids[i].mbr;
        mbr := children[0].mbr;
        for i := 0 to |children|
          invariant mbr == MbrOf(kids[..if i == 0 then 1 else i])
        {
          assert kids[..i + 1][..i] == kids[..i];
          mbr := Join(mbr, children[i].mbr);
        }
        assert kids[..|kids|] == kids;
      }
    }

    /** `splitNode`: the second half of the items moves to a new sibling. */
    method Split() returns (sibling: RTreeNode)
      requires Valid() && (if isLeaf then |entries| > 1 else |children| > 1)
      modifies this
      ensures Valid() && sibling.Valid() && Apart(this, sibling) && fresh(sibling)
      ensures below + sibling.below <= old(below)
      ensures old(isLeaf) ==>
                && Value() == MakeLeaf(old(entries)[..old(|entries|) / 2])
                && sibling.Value() == MakeLeaf(old(entries)[old(|entries|) / 2..])
      ensures !old(isLeaf) ==>
                && |old(kids)| > 1
                && Value() == MakeBranch(old(kids)[..old(|kids|) / 2])
                && sibling.Value() == MakeBranch(old(kids)[old(|kids|) / 2..])
    {
      sibling := new RTreeNode();
      sibling.isLeaf := isLeaf;
      if isLeaf {
        var mid := |entries| / 2;
        sibling.entries := entries[mid..];
        entries := entries[..mid];
        UpdateMBR();
        sibling.UpdateMBR();
      } else {
        SplitChildren(sibling);
        UpdateMBR();
        sibling.UpdateMBR();
      }
    }

    /** Replaces the children by those of a forest that this node is not in. */
    method Adopt(cs: seq<RTreeNode>, ghost ks: seq<Tree>, ghost region: set<RTreeNode>)
      requires !isLeaf && entries == []
      requires Forest(cs, ks, region) && this !in region
      modifies this
      ensures Valid() && !isLeaf && kids == ks && below == region && mbr == old(mbr)
    {
      children, kids, below := cs, ks, region;
      ForestKept(cs, ks, region);
    }

    method SplitChildren(sibling: RTreeNode)
      requires Valid() && !isLeaf && |children| > 1
      requires !sibling.isLeaf && sibling.entries == [] && sibling !in below && sibling != this
      modifies this, sibling
      ensures Valid() && sibling.Valid() && Apart(this, sibling)
      ensures below + sibling.below <= old(below)
      ensures |old(kids)| > 1 && !isLeaf && !sibling.isLeaf
      ensures kids == old(kids)[..old(|kids|) / 2]
      ensures sibling.kids == old(kids)[old(|kids|) / 2..]
    {
      var mid := |children| / 2;
      var front, back := children[..mid], children[mid..];
      ghost var ks, ls, r := kids[..mid], kids[mid..], Region(children[..mid]);
      ForestCut(children, kids, below, mid);
      sibling.Adopt(back, ls, below - r);
      ForestKept(front, ks, r);
      Adopt(front, ks, r);
    }

    method ChooseChild(p: Point) returns (best: nat)
      requires Valid() && !isLeaf && |children| > 0
      ensures best < |children| == |kids| && best == Best(kids, p, |kids|)
    {
      best := 0;
      for i := 1 to |children|
        invariant best < i && best == Best(kids, p, i)
      {
        if Enlargement(children[i].mbr, p) < Enlargement(children[best].mbr, p) { best := i; }
      }
    }

    method InsertEntry(e: IndexEntry) returns (split: RTreeNode?)
      requires Valid() && Rooted(Value())
      modifies this, below
      ensures Valid() && fresh(below - old(below))
      ensures split != null ==> split.Valid() && Apart(this, split) && fresh(split) && fresh(split.below - old(below))
      ensures Outcome(this, split) == Insert(old(Value()), e)
      decreases Value()
    {
      split := null;
      if isLeaf {
        entries := entries + [e];
        UpdateMBR();
        if |entries| > MAX_ENTRIES { split := Split(); }
      } else {
        InsertBelow(e);
        if |children| > MAX_ENTRIES { split := Split(); }
        UpdateMBR();
      }
    }

    /** The descent into the best child, and the adoption of what it was split into. */
    method InsertBelow(e: IndexEntry)
      requires Valid() && !isLeaf && Rooted(Value())
      modifies this, below
      ensures Valid() && !isLeaf && fresh(below - old(below))
      ensures var best := Best(old(kids), e.point, |old(kids)|);
              kids == WithChild(old(kids), best, Insert(old(kids)[best], e))
      decreases Value(), 1
    {
      var best := ChooseChild(e.point);
      ghost var grown := Insert(kids[best], e);
      var split, region := GrowChild(best, e);
      Adopt(Extended(children, split), WithChild(kids, best, grown), region);
    }

    method GrowChild(best: nat, e: IndexEntry) returns (split: RTreeNode?, ghost region: set<RTreeNode>)
      requires Valid() && !isLeaf && Rooted(Value()) && best < |children|
      modifies below
      ensures fresh(region - old(below)) && this !in region
      ensures |kids| == |children|
      ensures Forest(Extended(children, split), WithChild(kids, best, Insert(kids[best], e)), region)
      decreases Value(), 0
    {
      var c := children[best];
      ghost var was := below;
      split := c.InsertEntry(e);
      ForestGrown(children, kids, was, best, split);
      region := was + c.below + NodesOf(split);
    }

    /** `searchNode`: appends the entries of this subtree that the box contains. */
    method Search(bbox: BBox, found: seq<IndexEntry>) returns (results: seq<IndexEntry>)
      requires Valid()
      ensures results == found + RTreeModel.Search(Value(), bbox)
      decreases Value()
    {
      results := found;
      if !mbr.Intersects(bbox) { return; }
      if isLeaf {
        for i := 0 to |entries|
          invariant results == found + Matching(entries[..i], bbox)
        {
          assert entries[..i + 1][..i] == entries[..i];
          if bbox.Contains(entries[i].point) { results := results + [entries[i]]; }
        }
        assert entries[..|entries|] == entries;
      } else {
        for i := 0 to |children|
          invariant results == found + SearchAll(kids[..i], bbox)
        {
          assert kids[..i + 1][..i] == kids[..i];
          results := children[i].Search(bbox, results);
        }
        assert kids[..|kids|] == kids;
      }
    }
  }

  ghost function NodesOf(n: RTreeNode?): set<RTreeNode>
    reads if n == null then {} else {n}
  {
    if n == null then {} else {n} + n.below
  }

  function Extended(cs: seq<RTreeNode>, split: RTreeNode?): seq<RTreeNode> {
    if split == null then cs else cs + [split]
  }

  ghost function Outcome(node: RTreeNode, split: RTreeNode?): Grown
    reads node, if split == null then {} else {split}
  {
    Grown(node.Value(), if split == null then None else Some(split.Value()))
  }

  /** Only the chosen tree of the forest has changed, and it has grown only by new nodes. */
  twostate predicate OnlyGrew(new cs: seq<RTreeNode>, region: set<RTreeNode>, new best: nat)
    requires old(allocated(cs)) && best < |cs|
    reads region, cs, cs[best].below
  {
    && cs[best].Valid() && fresh(cs[best].below - old(cs[best].below))
    && forall n :: n in region && n != cs[best] && n !in old(cs[best].below) ==> Kept(n)
  }

  twostate lemma ForestUpdated(new cs: seq<RTreeNode>, new ks: seq<Tree>, region: set<RTreeNode>, new best: nat)
    requires old(allocated(cs)) && old(Forest(cs, ks, region)) && best < |cs|
    requires OnlyGrew(cs, region, best)
    ensures Forest(cs, ks[best := cs[best].Value()], region + cs[best].below)
  {
    forall j | 0 <= j < |cs| && j != best ensures Kept(cs[j]) && cs[j].Valid() {
      assert old(Apart(cs[if j < best then j else best], cs[if j < best then best else j]));
      assert Kept(cs[j]);
      ForestKept(cs[j].children, cs[j].kids, cs[j].below);
    }
  }

  lemma ForestPush(cs: seq<RTreeNode>, ks: seq<Tree>, region: set<RTreeNode>, n: RTreeNode)
    requires Forest(cs, ks, region) && n.Valid()
    requires forall i :: 0 <= i < |cs| ==> Apart(cs[i], n)
    ensures Forest(cs + [n], ks + [n.Value()], region + {n} + n.below)
  {
  }

  twostate lemma ForestGrown(new cs: seq<RTreeNode>, new ks: seq<Tree>, region: set<RTreeNode>, new best: nat, new split: RTreeNode?)
    requires old(allocated(cs)) && old(Forest(cs, ks, region)) && best < |cs|
    requires OnlyGrew(cs, region, best)
    requires split != null ==> split.Valid() && Apart(cs[best], split) && fresh(split) && fresh(split.below - old(cs[best].below))
    ensures var ks' := WithChild(ks, best, Outcome(cs[best], split));
            Forest(Extended(cs, split), ks', region + cs[best].below + NodesOf(split))
  {
    ForestUpdated(cs, ks, region, best);
    var us := ks[best := cs[best].Value()];
    if split == null {
      assert us + [] == us;
    } else {
      forall j | 0 <= j < |cs| ensures Apart(cs[j], split) {
        if j != best {
          assert old(Apart(cs[if j < best then j else best], cs[if j < best then best else j]));
        }
      }
      ForestPush(cs, us, region + cs[best].below, split);
    }
  }

  /** Disjoint trees with the given values, all of whose nodes lie in a region. */
  ghost predicate Forest(cs: seq<RTreeNode>, ks: seq<Tree>, region: set<RTreeNode>)
    reads region
    decreases region, 0
  {
    && |cs| == |ks|
    && (forall i :: 0 <= i < |cs| ==>
          && cs[i] in region && cs[i] !in cs[i].below && cs[i].below <= region
          && cs[i].Valid() && cs[i].Value() == ks[i])
    && (forall i, j :: 0 <= i < j < |cs| ==> Apart(cs[i], cs[j]))
  }

  /** No field of the node has changed. */
  twostate predicate Kept(n: RTreeNode)
    reads n
  {
    && n.isLeaf == old(n.isLeaf) && n.mbr == old(n.mbr)
    && n.children == old(n.children) && n.entries == old(n.entries)
    && n.kids == old(n.kids) && n.below == old(n.below)
  }

  /** A forest no node of which has changed is still that forest. */
  twostate lemma {:induction false} ForestKept(new cs: seq<RTreeNode>, new ks: seq<Tree>, region: set<RTreeNode>)
    requires old(allocated(cs)) && old(Forest(cs, ks, region))
    requires forall n :: n in region ==> Kept(n)
    ensures Forest(cs, ks, region)
    decreases region
  {
    forall i | 0 <= i < |cs| ensures cs[i].Valid() {
      assert Kept(cs[i]);
      ForestKept(cs[i].children, cs[i].kids, cs[i].below);
    }
  }

  ghost predicate Apart(a: RTreeNode, b: RTreeNode)
    reads a, b
  {
    ({a} + a.below) !! ({b} + b.below)
  }

  ghost function Region(cs: seq<RTreeNode>): set<RTreeNode>
    reads cs
  {
    if cs == [] then {} else Region(cs[..|cs| - 1]) + {cs[|cs| - 1]} + cs[|cs| - 1].below
  }

  /** A forest cut in two: the regions of the parts are disjoint. */
  lemma ForestCut(cs: seq<RTreeNode>, ks: seq<Tree>, region: set<RTreeNode>, mid: nat)
    requires Forest(cs, ks, region) && mid <= |cs|
    ensures Region(cs[..mid]) <= region
    ensures Forest(cs[..mid], ks[..mid], Region(cs[..mid]))
    ensures Forest(cs[mid..], ks[mid..], region - Region(cs[..mid]))
  {
    RegionCovers(cs[..mid]);
    forall j | mid <= j < |cs| ensures ({cs[j]} + cs[j].below) !! Region(cs[..mid]) {
      RegionAvoids(cs[..mid], cs[j]);
    }
    RegionWithin(cs[..mid], region);
  }

  lemma {:induction false} RegionCovers(cs: seq<RTreeNode>)
    ensures forall i :: 0 <= i < |cs| ==> cs[i] in Region(cs) && cs[i].below <= Region(cs)
  {
    if cs != [] { RegionCovers(cs[..|cs| - 1]); }
  }

  lemma {:induction false} RegionAvoids(cs: seq<RTreeNode>, n: RTreeNode)
    requires forall i :: 0 <= i < |cs| ==> Apart(cs[i], n)
    ensures ({n} + n.below) !! Region(cs)
  {
    if cs != [] { RegionAvoids(cs[..|cs| - 1], n); }
  }

  lemma {:induction false} RegionWithin(cs: seq<RTreeNode>, region: set<RTreeNode>)
    requires forall i :: 0 <= i < |cs| ==> cs[i] in region && cs[i].below <= region
    ensures Region(cs) <= region
  {
    if cs != [] { RegionWithin(cs[..|cs| - 1], region); }
  }
}
