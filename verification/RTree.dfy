/**
 * The R-tree index of cpp/spatial/rtree.cpp: one tree per collection. The
 * promise is stated against the log of what was inserted since a collection
 * was last cleared.
 */
module RTreeIndex {
  import opened Basics
  import opened Geometry
  import opened RTreeModel
  import opened RTreeNodes

  lemma ForestPair(a: RTreeNode, b: RTreeNode)
    requires a.Valid() && b.Valid() && Apart(a, b)
    ensures Forest([a, b], [a.Value(), b.Value()], NodesOf(a) + NodesOf(b))
  {
  }

  /** A new root above the two halves of a split one. */
  method Above(a: RTreeNode, b: RTreeNode) returns (top: RTreeNode)
    requires a.Valid() && b.Valid() && Apart(a, b)
    ensures top.Valid() && top.Value() == MakeBranch([a.Value(), b.Value()])
    ensures fresh(top) && top.below == NodesOf(a) + NodesOf(b)
  {
    top := new RTreeNode();
    top.isLeaf := false;
    ForestPair(a, b);
    top.Adopt([a, b], [a.Value(), b.Value()], NodesOf(a) + NodesOf(b));
    top.UpdateMBR();
  }

  /** The value of a root, if there is a tree at all. */
  ghost function RootValue(root: RTreeNode?): Option<Tree>
    reads root
  {
    if root == null then None else Some(root.Value())
  }

  /** `insert` on the tree of one collection, which it starts if there is none. */
  method InsertInto(start: RTreeNode?, e: IndexEntry) returns (top: RTreeNode)
    requires start != null ==> start.Valid() && Rooted(start.Value())
    modifies NodesOf(start)
    ensures top.Valid() && top.Value() == InsertRoot(old(RootValue(start)), e)
    ensures fresh(NodesOf(top) - old(NodesOf(start)))
  {
    var root := start;
    if root == null {
      root := new RTreeNode();
      assert [] + [e] == [e];
    }
    var split := root.InsertEntry(e);
    top := root;
    if split != null { top := Above(root, split); }
  }

  /** A tree with the given value, all of whose nodes are in use. */
  ghost predicate Stands(root: RTreeNode, tree: Tree, nodes: set<RTreeNode>)
    reads nodes
  {
    root in nodes && root.below <= nodes && root.Valid() && root.Value() == tree
  }

  /** Disjoint trees with the given values, one for each collection. */
  ghost predicate Grove(roots: map<string, RTreeNode>, trees: map<string, Tree>, nodes: set<RTreeNode>)
    reads nodes
  {
    && roots.Keys == trees.Keys
    && (forall c :: c in roots ==> Stands(roots[c], trees[c], nodes))
    && (forall a, b :: a in roots && b in roots && a != b ==> Apart(roots[a], roots[b]))
  }

  /** A tree no node of which has changed stands as it did. */
  twostate lemma StandsKept(new root: RTreeNode, new tree: Tree, nodes: set<RTreeNode>)
    requires old(allocated(root)) && old(Stands(root, tree, nodes))
    requires forall n :: n in old(NodesOf(root)) ==> Kept(n)
    ensures Stands(root, tree, nodes) && Kept(root)
  {
    assert Kept(root);
    ForestKept(root.children, root.kids, root.below);
  }

  /** The trees of the other collections stand as they did. */
  twostate lemma OthersStand(new roots: map<string, RTreeNode>, new trees: map<string, Tree>, nodes: set<RTreeNode>, new c: string)
    requires old(allocated(roots)) && old(Grove(roots, trees, nodes))
    requires forall n :: n in nodes && (c in roots ==> n !in old(NodesOf(roots[c]))) ==> Kept(n)
    ensures Grove(roots - {c}, trees - {c}, nodes)
    ensures forall a :: a in roots && a != c ==> Kept(roots[a])
  {
    forall a | a in roots && a != c ensures Stands(roots[a], trees[a], nodes) && Kept(roots[a]) {
      assert c in roots ==> old(Apart(roots[a], roots[c]));
      StandsKept(roots[a], trees[a], nodes);
    }
    forall a, b | a in roots && b in roots && a != c && b != c && a != b ensures Apart(roots[a], roots[b]) {
      assert old(Apart(roots[a], roots[b]));
    }
  }

  twostate lemma GroveKept(new roots: map<string, RTreeNode>, new trees: map<string, Tree>, nodes: set<RTreeNode>)
    requires old(allocated(roots)) && old(Grove(roots, trees, nodes))
    requires forall n :: n in nodes ==> Kept(n)
    ensures Grove(roots, trees, nodes)
  {
    forall a | a in roots ensures Stands(roots[a], trees[a], nodes) && Kept(roots[a]) {
      StandsKept(roots[a], trees[a], nodes);
    }
    forall a, b | a in roots && b in roots && a != b ensures Apart(roots[a], roots[b]) {
      assert old(Apart(roots[a], roots[b]));
    }
  }

  lemma GroveAdd(roots: map<string, RTreeNode>, trees: map<string, Tree>, nodes: set<RTreeNode>, c: string, top: RTreeNode)
    requires Grove(roots - {c}, trees - {c}, nodes) && top.Valid()
    requires forall a :: a in roots && a != c ==> Apart(roots[a], top)
    ensures Grove(roots[c := top], trees[c := top.Value()], nodes + NodesOf(top))
  {
    var more := roots[c := top];
    assert more.Keys == (roots - {c}).Keys + {c} == (trees - {c}).Keys + {c} == trees[c := top.Value()].Keys;
    forall a | a in more && a != c ensures Stands(more[a], trees[c := top.Value()][a], nodes + NodesOf(top)) {
      assert a in roots - {c} && Stands((roots - {c})[a], (trees - {c})[a], nodes);
    }
    forall a, b | a in more && b in more && a != b ensures Apart(more[a], more[b]) {
      if a != c && b != c { assert a in roots - {c} && b in roots - {c}; }
    }
  }

  lemma GroveDrop(roots: map<string, RTreeNode>, trees: map<string, Tree>, nodes: set<RTreeNode>, c: string)
    requires Grove(roots, trees, nodes)
    ensures Grove(roots - {c}, trees - {c}, nodes)
  {
    forall a | a in roots - {c} ensures Stands((roots - {c})[a], (trees - {c})[a], nodes) {
      assert Stands(roots[a], trees[a], nodes);
    }
  }

  twostate lemma GroveGrown(new roots: map<string, RTreeNode>, new trees: map<string, Tree>, nodes: set<RTreeNode>,
                            new c: string, new top: RTreeNode)
    requires old(allocated(roots)) && old(Grove(roots, trees, nodes))
    requires forall n :: n in nodes && (c in roots ==> n !in old(NodesOf(roots[c]))) ==> Kept(n)
    requires top.Valid() && fresh(NodesOf(top) - if c in roots then old(NodesOf(roots[c])) else {})
    ensures Grove(roots[c := top], trees[c := top.Value()], nodes + NodesOf(top))
  {
    OthersStand(roots, trees, nodes, c);
    forall a | a in roots && a != c ensures Apart(roots[a], top) {
      assert c in roots ==> old(Apart(roots[a], roots[c]));
      assert Kept(roots[a]);
    }
    GroveAdd(roots, trees, nodes, c, top);
  }

  /** Each tree holds exactly what was logged for its collection, and the counts agree. */
  ghost predicate Logged(trees: map<string, Tree>, counts: map<string, nat>, log: map<string, seq<IndexEntry>>) {
    && trees.Keys == log.Keys == counts.Keys
    && (forall c :: c in trees ==> TreeHolds(trees[c], log[c]) && counts[c] == |log[c]|)
  }

  function Bumped(counts: map<string, nat>, c: string): map<string, nat> {
    counts[c := if c in counts then counts[c] + 1 else 1]
  }

  ghost function LogOf(log: map<string, seq<IndexEntry>>, c: string): seq<IndexEntry> {
    if c in log then log[c] else []
  }

  /** Logging an insertion, once the tree of its collection holds the new entry. */
  lemma LoggedMore(trees: map<string, Tree>, counts: map<string, nat>, log: map<string, seq<IndexEntry>>,
                   e: IndexEntry, t: Tree)
    requires Logged(trees, counts, log) && TreeHolds(t, LogOf(log, e.collection) + [e])
    ensures Logged(trees[e.collection := t], Bumped(counts, e.collection),
                   log[e.collection := LogOf(log, e.collection) + [e]])
  {
  }

  /** The loop that keeps the first result of each id. */
  method Dedup(results: seq<IndexEntry>) returns (deduped: seq<IndexEntry>)
    ensures deduped == KeepFirst(results)
  {
    deduped := [];
    var seen: set<string> := {};
    for i := 0 to |results|
      invariant deduped == KeepFirst(results[..i])
      invariant forall id :: id in seen <==> HasId(results[..i], id)
    {
      assert results[..i + 1] == results[..i] + [results[i]];
      assert results[..i + 1][..i] == results[..i];
      if results[i].id !in seen { deduped := deduped + [results[i]]; }
      forall id ensures HasId(results[..i + 1], id) <==> HasId(results[..i], id) || results[i].id == id {
        HasIdPush(results[..i], results[i], id);
      }
      seen := seen + {results[i].id};
    }
    assert results[..|results|] == results;
  }

  class RTree {
    var roots: map<string, RTreeNode>
    var counts: map<string, nat>
    /** What was inserted into each collection since it was last cleared, the trees' values, and every node in use. */
    ghost var log: map<string, seq<IndexEntry>>
    ghost var trees: map<string, Tree>
    ghost var nodes: set<RTreeNode>

    ghost predicate Valid()
      reads this, nodes
    {
      Grove(roots, trees, nodes) && Logged(trees, counts, log)
    }

    constructor ()
      ensures Valid() && log == map[]
    {
      roots, counts, log, trees, nodes := map[], map[], map[], map[], {};
    }

    method Insert(e: IndexEntry) returns (ok: bool)
      requires Valid()
      modifies this, nodes
      ensures Valid() && ok
      ensures log == old(log)[e.collection := LogOf(old(log), e.collection) + [e]]
    {
      var c := e.collection;
      var start := if c in roots then roots[c] else null;
      InsertHolds(RootValue(start), LogOf(log, c), e);
      var top := InsertInto(start, e);
      GroveGrown(roots, trees, nodes, c, top);
      LoggedMore(trees, counts, log, e, top.Value());
      Install(roots[c := top], Bumped(counts, c), log[c := LogOf(log, c) + [e]], trees[c := top.Value()], nodes + NodesOf(top));
      ok := true;
    }

    method Clear(collection: string)
      requires Valid()
      modifies this
      ensures Valid() && log == old(log) - {collection}
    {
      GroveDrop(roots, trees, nodes, collection);
      Install(roots - {collection}, counts - {collection}, log - {collection}, trees - {collection}, nodes);
    }

    method Size(collection: string) returns (n: nat)
      requires Valid()
      ensures n == |LogOf(log, collection)|
    {
      n := if collection in counts then counts[collection] else 0;
    }

    /** Exactly what a linear filter over the log finds, one entry per id. */
    method SearchBBox(collection: string, bbox: BBox) returns (deduped: seq<IndexEntry>)
      requires Valid()
      ensures Answers(LogOf(log, collection), bbox, deduped)
    {
      if collection !in roots { return []; }
      var results := roots[collection].Search(bbox, []);
      assert results == Search(trees[collection], bbox);
      SearchAnswers(trees[collection], log[collection], bbox);
      deduped := Dedup(results);
    }

    /** Takes on a new state whose trees are in place. */
    method Install(roots': map<string, RTreeNode>, counts': map<string, nat>, ghost log': map<string, seq<IndexEntry>>,
                   ghost trees': map<string, Tree>, ghost nodes': set<RTreeNode>)
      requires Grove(roots', trees', nodes') && Logged(trees', counts', log')
      modifies this
      ensures Valid() && log == log' && nodes == nodes'
    {
      roots, counts, log, trees, nodes := roots', counts', log', trees', nodes';
      GroveKept(roots', trees', nodes');
    }
  }
}
