/**
 * The quadtree index of cpp/spatial/quadtree.cpp: one tree per collection over
 * a fixed world box. The promise is stated against the log of what was
 * accepted since a collection was last cleared.
 */
module QuadTreeIndex {
  import opened Geometry
  import opened QuadTreeModel
  import opened QuadTreeNodes

  /** A tree with the given value, all of whose nodes are in use. */
  ghost predicate Stands(root: QuadNode, tree: Tree, nodes: set<QuadNode>)
    reads nodes
  {
    root in nodes && root.below <= nodes && root.Valid() && root.Value() == tree
  }

  /** Disjoint trees with the given values, one for each collection. */
  ghost predicate Grove(roots: map<string, QuadNode>, trees: map<string, Tree>, nodes: set<QuadNode>)
    reads nodes
  {
    && roots.Keys == trees.Keys
    && (forall c :: c in roots ==> Stands(roots[c], trees[c], nodes))
    && (forall a, b :: a in roots && b in roots && a != b ==> Apart(roots[a], roots[b]))
  }

  /** A tree no node of which has changed stands as it did. */
  twostate lemma StandsKept(new root: QuadNode, new tree: Tree, nodes: set<QuadNode>)
    requires old(allocated(root)) && old(Stands(root, tree, nodes))
    requires forall n :: n in old(NodesOf(root)) ==> Kept(n)
    ensures Stands(root, tree, nodes) && Kept(root)
  {
    assert Kept(root);
    SlotsKept(root.children, root.kids, root.below);
  }

  /** The trees of the other collections stand as they did. */
  twostate lemma OthersStand(new roots: map<string, QuadNode>, new trees: map<string, Tree>, nodes: set<QuadNode>, new c: string)
    requires old(allocated(roots)) && old(Grove(roots, trees, nodes))
    requires forall n :: n in nodes && (c in roots ==> n !in old(NodesOf(roots[c]))) ==> Kept(n)
    ensures Grove(roots - {c}, trees - {c}, nodes)
    ensures forall a :: a in roots && a != c ==> Kept(roots[a])
  {
    forall a | a in roots && a != c ensures Stands(roots[a], trees[a], nodes) && Kept(roots[a]) {
      assert c in roots ==> old(Apart(roots[a], roots[c]));
      StandsKept(roots[a], trees[a], nodes);
    }
    forall a, b | a in roots && b in roots && a != c && b != c && a != b ensures Apart(roots[a], roots[b]) {
      assert old(Apart(roots[a], roots[b]));
    }
  }

  twostate lemma GroveKept(new roots: map<string, QuadNode>, new trees: map<string, Tree>, nodes: set<QuadNode>)
    requires old(allocated(roots)) && old(Grove(roots, trees, nodes))
    requires forall n :: n in nodes ==> Kept(n)
    ensures Grove(roots, trees, nodes)
  {
    forall a | a in roots ensures Stands(roots[a], trees[a], nodes) && Kept(roots[a]) {
      StandsKept(roots[a], trees[a], nodes);
    }
    forall a, b | a in roots && b in roots && a != b ensures Apart(roots[a], roots[b]) {
      assert old(Apart(roots[a], roots[b]));
    }
  }

  lemma GroveAdd(roots: map<string, QuadNode>, trees: map<string, Tree>, nodes: set<QuadNode>, c: string, top: QuadNode)
    requires Grove(roots - {c}, trees - {c}, nodes) && top.Valid()
    requires forall a :: a in roots && a != c ==> Apart(roots[a], top)
    ensures Grove(roots[c := top], trees[c := top.Value()], nodes + NodesOf(top))
  {
    var more := roots[c := top];
    assert more.Keys == (roots - {c}).Keys + {c} == (trees - {c}).Keys + {c} == trees[c := top.Value()].Keys;
    forall a | a in more && a != c ensures Stands(more[a], trees[c := top.Value()][a], nodes + NodesOf(top)) {
      assert a in roots - {c} && Stands((roots - {c})[a], (trees - {c})[a], nodes);
    }
    forall a, b | a in more && b in more && a != b ensures Apart(more[a], more[b]) {
      if a != c && b != c { assert a in roots - {c} && b in roots - {c}; }
    }
  }

  lemma GroveDrop(roots: map<string, QuadNode>, trees: map<string, Tree>, nodes: set<QuadNode>, c: string)
    requires Grove(roots, trees, nodes)
    ensures Grove(roots - {c}, trees - {c}, nodes)
  {
    forall a | a in roots - {c} ensures Stands((roots - {c})[a], (trees - {c})[a], nodes) {
      assert Stands(roots[a], trees[a], nodes);
    }
  }

  twostate lemma GroveGrown(new roots: map<string, QuadNode>, new trees: map<string, Tree>, nodes: set<QuadNode>,
                            new c: string, new top: QuadNode)
    requires old(allocated(roots)) && old(Grove(roots, trees, nodes))
    requires forall n :: n in nodes && (c in roots ==> n !in old(NodesOf(roots[c]))) ==> Kept(n)
    requires top.Valid() && fresh(NodesOf(top) - if c in roots then old(NodesOf(roots[c])) else {})
    ensures Grove(roots[c := top], trees[c := top.Value()], nodes + NodesOf(top))
  {
    OthersStand(roots, trees, nodes, c);
    forall a | a in roots && a != c ensures Apart(roots[a], top) {
      assert c in roots ==> old(Apart(roots[a], roots[c]));
      assert Kept(roots[a]);
    }
    GroveAdd(roots, trees, nodes, c, top);
  }

  /** A tree over the whole world that stores exactly the given entries. */
  ghost predicate TreeHolds(t: Tree, world: BBox, maxDepth: int, es: seq<IndexEntry>) {
    && !t.Absent? && t.bounds == world && t.depth == 0
    && WellFormed(t, maxDepth)
    && forall x :: Count(t, x) == multiset(es)[x]
  }

  ghost function LogOf(log: map<string, seq<IndexEntry>>, c: string): seq<IndexEntry> {
    if c in log then log[c] else []
  }

  lemma InsertHolds(t: Tree, world: BBox, maxDepth: int, es: seq<IndexEntry>, e: IndexEntry)
    requires TreeHolds(t, world, maxDepth, es)
    ensures FourWay(t)
    ensures var r := Insert(t, e, maxDepth);
            && r.1 == world.Contains(e.point)
            && TreeHolds(r.0, world, maxDepth, if r.1 then es + [e] else es)
  {
    WellFormedIsFourWay(t, maxDepth);
    InsertCorrect(t, e, maxDepth);
    var r := Insert(t, e, maxDepth);
    forall x ensures Count(r.0, x) == multiset(if r.1 then es + [e] else es)[x] {
      assert Count(r.0, x) == Count(t, x) + if r.1 && x == e then 1 else 0;
    }
  }

  /** The search finds what a linear scan over the logged entries finds, each as often. */
  lemma SearchFinds(t: Tree, world: BBox, maxDepth: int, es: seq<IndexEntry>, b: BBox)
    requires TreeHolds(t, world, maxDepth, es)
    ensures multiset(Search(t, b)) == multiset(Matching(es, b))
  {
    SearchIsScan(t, maxDepth, b);
    forall x ensures multiset(Search(t, b))[x] == multiset(Matching(es, b))[x] {
      CountIsStored(t, x);
      MatchingCount(Stored(t), b, x);
      MatchingCount(es, b, x);
    }
  }

  function CountOf(counts: map<string, nat>, c: string): nat {
    if c in counts then counts[c] else 0
  }

  ghost function Holding(world: BBox, maxDepth: int): (Tree, seq<IndexEntry>) -> bool {
    (t: Tree, es: seq<IndexEntry>) => TreeHolds(t, world, maxDepth, es)
  }

  /** Each tree holds exactly what was logged for its collection, in the given sense, and the counts agree. */
  ghost predicate LoggedBy(holds: (Tree, seq<IndexEntry>) -> bool, trees: map<string, Tree>, counts: map<string, nat>,
                           log: map<string, seq<IndexEntry>>)
  {
    && trees.Keys == log.Keys && counts.Keys <= log.Keys
    && (forall c :: c in trees ==> holds(trees[c], log[c]) && CountOf(counts, c) == |log[c]|)
  }

  ghost predicate Logged(trees: map<string, Tree>, counts: map<string, nat>, log: map<string, seq<IndexEntry>>,
                         world: BBox, maxDepth: int)
  {
    LoggedBy(Holding(world, maxDepth), trees, counts, log)
  }

  /** Logging an attempted insertion, once the tree of its collection holds what it should. */
  lemma LoggedMore(holds: (Tree, seq<IndexEntry>) -> bool, trees: map<string, Tree>, counts: map<string, nat>,
                   log: map<string, seq<IndexEntry>>, e: IndexEntry, t: Tree, ok: bool)
    requires LoggedBy(holds, trees, counts, log)
    requires holds(t, LogOf(log, e.collection) + if ok then [e] else [])
    ensures var c := e.collection;
            LoggedBy(holds, trees[c := t], if ok then counts[c := CountOf(counts, c) + 1] else counts,
                     log[c := LogOf(log, c) + if ok then [e] else []])
  {
  }

  class QuadTree {
    var roots: map<string, QuadNode>
    var counts: map<string, nat>
    const world: BBox
    const maxDepth: int
    /** What was accepted into each collection since it was last cleared, the trees' values, and every node in use. */
    ghost var log: map<string, seq<IndexEntry>>
    ghost var trees: map<string, Tree>
    ghost var nodes: set<QuadNode>

    ghost predicate Valid()
      reads this, nodes
    {
      Grove(roots, trees, nodes) && Logged(trees, counts, log, world, maxDepth)
    }

    constructor (worldBounds: BBox, depthLimit: int)
      ensures Valid() && log == map[] && world == worldBounds && maxDepth == depthLimit
    {
      world, maxDepth := worldBounds, depthLimit;
      roots, counts, log, trees, nodes := map[], map[], map[], map[], {};
    }

    /** Accepted exactly when the world contains the point; a refused entry leaves no trace in the contents. */
    method Insert(e: IndexEntry) returns (ok: bool)
      requires Valid()
      modifies this, nodes
      ensures Valid()
      ensures ok == world.Contains(e.point)
      ensures log == old(log)[e.collection := LogOf(old(log), e.collection) + if ok then [e] else []]
    {
      var c := e.collection;
      var root;
      if c in roots { root := roots[c]; } else { root := new QuadNode(world, 0); }
      ghost var es := LogOf(log, c);
      assert TreeHolds(root.Value(), world, maxDepth, es);
      InsertHolds(root.Value(), world, maxDepth, es, e);
      ok := root.Insert(e, maxDepth);
      assert TreeHolds(root.Value(), world, maxDepth, es + if ok then [e] else []) by { assert es + [] == es; }
      GroveGrown(roots, trees, nodes, c, root);
      LoggedMore(Holding(world, maxDepth), trees, counts, log, e, root.Value(), ok);
      Install(roots[c := root], if ok then counts[c := CountOf(counts, c) + 1] else counts,
              log[c := es + if ok then [e] else []], trees[c := root.Value()], nodes + NodesOf(root));
    }

    /** Exactly what a linear filter over the log finds, each entry as often as it was accepted. */
    method SearchBBox(collection: string, bbox: BBox) returns (results: seq<IndexEntry>)
      requires Valid()
      ensures multiset(results) == multiset(Matching(LogOf(log, collection), bbox))
    {
      if collection !in roots { return []; }
      results := roots[collection].Search(bbox, []);
      assert results == Search(trees[collection], bbox);
      SearchFinds(trees[collection], world, maxDepth, log[collection], bbox);
    }

    method Size(collection: string) returns (n: nat)
      requires Valid()
      ensures n == |LogOf(log, collection)|
    {
      n := CountOf(counts, collection);
    }

    method Clear(collection: string)
      requires Valid()
      modifies this
      ensures Valid() && log == old(log) - {collection}
    {
      GroveDrop(roots, trees, nodes, collection);
      Install(roots - {collection}, counts - {collection}, log - {collection}, trees - {collection}, nodes);
    }

    /** Takes on a new state whose trees are in place. */
    method Install(roots': map<string, QuadNode>, counts': map<string, nat>, ghost log': map<string, seq<IndexEntry>>,
                   ghost trees': map<string, Tree>, ghost nodes': set<QuadNode>)
      requires Grove(roots', trees', nodes') && Logged(trees', counts', log', world, maxDepth)
      modifies this
      ensures Valid() && log == log' && nodes == nodes'
    {
      roots, counts, log, trees, nodes := roots', counts', log', trees', nodes';
      GroveKept(roots', trees', nodes');
    }
  }
}
