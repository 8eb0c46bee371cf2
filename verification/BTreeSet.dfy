/** The tree object: insert_unique. */
module BTreeSet {
  import opened Basics
  import opened BTreeShape
  import opened BTreeContext
  import opened BTreeInsert
  import opened BTreeSearch
  import opened BTreeIterator

  /** `cap` is how many values a root that is a leaf may hold before it is reallocated; `size` is
      the counter kept in a root that is an inner node. */
  datatype BTree<K> = Empty | Rooted(root: Tree<K>, cap: nat, size: nat)

  function Height<K>(t: Tree<K>): nat
  {
    if t.Leaf() then 0 else 1 + Height(t.kids[0])
  }

  lemma {:induction false} HeightIs<K>(t: Tree<K>, h: nat, lo: nat, max: nat)
    requires Shape(t, h, lo, max)
    ensures Height(t) == h
    decreases h
  {
    LevelKids(t, h, max);
    if h > 0 {
      KidShape(t, h, max, 0);
      HeightIs(t.kids[0], h - 1, 1, max);
    }
  }

  ghost function Elements<K>(b: BTree<K>): seq<K>
  {
    if b.Empty? then [] else Contents(b.root)
  }

  function Size<K>(b: BTree<K>): nat
  {
    if b.Empty? then 0 else if b.root.Leaf() then |b.root.vals| else b.size
  }

  /** Sorted, all leaves equally deep, 1..max values per node, one more kid than values, size exact. */
  ghost predicate ValidTree<K>(b: BTree<K>, less: Less<K>, max: nat)
  {
    b.Empty? ||
    (Shape(b.root, Height(b.root), 1, max) && Sorted(Contents(b.root), less) &&
     if b.root.Leaf() then |b.root.vals| <= b.cap <= max else b.size == |Contents(b.root)|)
  }

  // ------------------------------------------------------------------- paths

  function PathOf<K>(c: Ctx<K>): Path
  {
    match c
    case Root => []
    case In(f, up) => PathOf(up) + [|f.left|]
  }

  lemma {:induction false} PathRank<K>(c: Ctx<K>, t: Tree<K>, path: Path, h: nat, max: nat)
    requires CtxOk(c, h, max) && ValidPath(t, path)
    ensures ValidPath(Plug(c, t), PathOf(c) + path)
    ensures Rank(Plug(c, t), PathOf(c) + path) == |Pre(c)| + Rank(t, path)
    ensures Points(t, path) ==>
      Points(Plug(c, t), PathOf(c) + path) && Value(Plug(c, t), PathOf(c) + path) == Value(t, path)
    decreases c
  {
    hide Contents, LeftOf, RightOf, Offset, AllShape;
    match c
    case Root => assert PathOf(c) + path == path;
    case In(f, up) =>
      var u, p := Fill(f, t), [|f.left|] + path;
      assert p[1..] == path && u.kids[|f.left|] == t;
      FillHole(f, t);
      PathRank(up, u, p, h + 1, max);
      assert PathOf(c) + path == PathOf(up) + p;
  }

  // --------------------------------------------------------------- insertion

  function InsertAt<K>(s: seq<K>, p: nat, x: K): seq<K>
    requires p <= |s|
  {
    s[..p] + [x] + s[p..]
  }

  function WithValue<K>(t: Tree<K>, p: nat, x: K): Tree<K>
    requires p <= |t.vals|
  {
    Node(InsertAt(t.vals, p, x), t.kids)
  }

  lemma InsertMiddle<K>(pre: seq<K>, s: seq<K>, suf: seq<K>, p: nat, x: K)
    requires p <= |s|
    ensures pre + InsertAt(s, p, x) + suf == InsertAt(pre + s + suf, |pre| + p, x)
  {
    var all := pre + s + suf;
    assert all[..|pre| + p] == pre + s[..p] && all[|pre| + p..] == s[p..] + suf;
  }

  lemma LeafInserted<K>(c: Ctx<K>, t: Tree<K>, p: nat, x: K, max: nat)
    requires CtxOk(c, 0, max) && Level(t, 0, max) && p <= |t.vals| < max
    ensures var root := Plug(c, WithValue(t, p, x));
      var s := Pre(c) + t.vals + Suf(c);
      Shape(root, Depth(c), 1, max) && Contents(root) == InsertAt(s, |Pre(c)| + p, x) &&
      Points(root, PathOf(c) + [p]) && Rank(root, PathOf(c) + [p]) == |Pre(c)| + p &&
      Value(root, PathOf(c) + [p]) == x
  {
    hide AllShape, Contents, Pre, Suf, CtxOk, Plug, PathOf;
    var u := WithValue(t, p, x);
    PlugShape(c, u, 0, max);
    PlugContents(c, u, 0, max);
    LeafContents(u);
    PathRank(c, u, [p], 0, max);
    InsertMiddle(Pre(c), t.vals, Suf(c), p, x);
  }

  /** A new tree and the path to the inserted value. */
  datatype Inserted<K> = Inserted(tree: BTree<K>, path: Path)

  /** Inserts at a leaf position; only the root can have a capacity below `max`. */
  function InternalInsert<K>(b: BTree<K>, at: Room<K>, x: K, max: nat): Inserted<K>
    requires b.Rooted? && max >= 3 && CtxOk(at.ctx, 0, max) && Level(at.node, 0, max)
    requires at.pos <= |at.node.vals| <= (if at.ctx.Root? then b.cap else max) <= max
  {
    var cap := if at.ctx.Root? then b.cap else max;
    if |at.node.vals| == cap then
      if cap < max then
        Inserted(Rooted(WithValue(at.node, at.pos, x), Min(max, 2 * cap), b.size), [at.pos])
      else
        var r := MakeRoom(at.ctx, at.node, at.pos, 0, max);
        var size := if b.root.Leaf() then |b.root.vals| else b.size;
        Inserted(Rooted(Plug(r.ctx, WithValue(r.node, r.pos, x)), max, size + 1), PathOf(r.ctx) + [r.pos])
    else
      Inserted(Rooted(Plug(at.ctx, WithValue(at.node, at.pos, x)), b.cap, if b.root.Leaf() then b.size else b.size + 1),
               PathOf(at.ctx) + [at.pos])
  }

  /** The tree `insert_unique` works on: an empty tree first gets a leaf root with room for one value. */
  function Started<K>(b: BTree<K>): BTree<K>
  {
    if b.Empty? then Rooted(Node([], []), 1, 0) else b
  }

  /** The tree, an iterator to the key, and whether it was inserted. */
  datatype Outcome<K> = Outcome(tree: BTree<K>, path: Path, inserted: bool)

  function InsertUnique<K>(b: BTree<K>, key: K, less: Less<K>, max: nat): Outcome<K>
    requires ValidTree(b, less, max) && max >= 3
  {
    var base := Started(b);
    StartedShape(b, less, max);
    var at := Descend(Root, base.root, key, less, Height(base.root), max);
    var found := ValueAt(at.ctx, at.node.vals, at.pos);
    if found.Some? && !less(key, found.value) then Outcome(b, ClimbedPath(at.ctx, at.node.vals, at.pos), false)
    else
      LocatedFits(b, at, less, max);
      var r := InternalInsert(base, at, key, max);
      Outcome(r.tree, r.path, true)
  }

  /** Where internal_last ends: past the ends of nodes, up. */
  function ClimbedPath<K>(c: Ctx<K>, vals: seq<K>, pos: nat): Path
    decreases c
  {
    if pos < |vals| then PathOf(c) + [pos]
    else match c
      case Root => PathOf(c) + [pos]
      case In(f, up) => ClimbedPath(up, f.lv + f.rv, |f.lv|)
  }

  lemma StartedShape<K>(b: BTree<K>, less: Less<K>, max: nat)
    requires ValidTree(b, less, max) && max >= 3
    ensures var base := Started(b);
      Shape(base.root, Height(base.root), 0, max) && (base.root.Leaf() || |base.root.vals| > 0) &&
      Contents(base.root) == Elements(b) && Sorted(Contents(base.root), less) &&
      (base.root.Leaf() ==> 1 <= base.cap <= max && |base.root.vals| <= base.cap)
  {
  }

  lemma LocatedFits<K>(b: BTree<K>, at: Room<K>, less: Less<K>, max: nat)
    requires ValidTree(b, less, max) && max >= 3
    requires CtxOk(at.ctx, 0, max) && Shape(at.node, 0, 0, max) && Plug(at.ctx, at.node) == Started(b).root
    ensures at.ctx.Root? ==> |at.node.vals| <= Started(b).cap <= max
  {
  }

  lemma {:induction false} PlugLeaf<K>(c: Ctx<K>, t: Tree<K>)
    requires t.Leaf()
    ensures Plug(c, t).Leaf() <==> c.Root?
  {
    if c.In? {
      PlugInner(c.up, Fill(c.f, t));
    }
  }

  lemma {:induction false} PlugInner<K>(c: Ctx<K>, t: Tree<K>)
    requires !t.Leaf()
    ensures !Plug(c, t).Leaf()
    decreases c
  {
    if c.In? {
      PlugInner(c.up, Fill(c.f, t));
    }
  }

  /** A well-shaped root whose capacity or size field fits. */
  ghost predicate Fields<K>(b: BTree<K>, lo: nat, max: nat)
  {
    b.Rooted? && Shape(b.root, Height(b.root), lo, max) &&
    if b.root.Leaf() then 1 <= b.cap <= max && |b.root.vals| <= b.cap else b.size == |Contents(b.root)|
  }

  /** `r` is a well-formed tree holding `x` at rank `k` of the old contents, and a path to it. */
  ghost predicate Landed<K>(before: seq<K>, k: nat, x: K, r: Inserted<K>, max: nat)
  {
    k <= |before| && Fields(r.tree, 1, max) && Contents(r.tree.root) == InsertAt(before, k, x) &&
    Points(r.tree.root, r.path) && Rank(r.tree.root, r.path) == k && Value(r.tree.root, r.path) == x
  }

  lemma LandedAt<K>(c: Ctx<K>, t: Tree<K>, p: nat, x: K, cap: nat, size: nat, max: nat)
    requires CtxOk(c, 0, max) && Level(t, 0, max) && p <= |t.vals| < max
    requires if c.Root? then |t.vals| < cap <= max else size == |Pre(c)| + |t.vals| + |Suf(c)| + 1
    ensures Landed(Pre(c) + t.vals + Suf(c), |Pre(c)| + p, x,
                   Inserted(Rooted(Plug(c, WithValue(t, p, x)), cap, size), PathOf(c) + [p]), max)
  {
    hide AllShape, Contents, CtxOk, PathOf, Level, Value, Rank, Points, Pre, Suf;
    LeafInserted(c, t, p, x, max);
    InsertedFields(c, t, p, x, max);
    RootLeaf(c, t, p, x);
  }

  lemma RootLeaf<K>(c: Ctx<K>, t: Tree<K>, p: nat, x: K)
    requires p <= |t.vals|
    ensures c.Root? ==> Plug(c, WithValue(t, p, x)) == WithValue(t, p, x) && |WithValue(t, p, x).vals| == |t.vals| + 1
    ensures PathOf<K>(Root) + [p] == [p]
  {
  }

  lemma InternalInsertKeeps<K>(b: BTree<K>, at: Room<K>, x: K, max: nat)
    requires Fields(b, 0, max) && max >= 3 && CtxOk(at.ctx, 0, max) && Level(at.node, 0, max)
    requires at.pos <= |at.node.vals| <= (if at.ctx.Root? then b.cap else max) <= max
    requires b.root == Plug(at.ctx, at.node)
    ensures Landed(Contents(b.root), |Pre(at.ctx)| + at.pos, x, InternalInsert(b, at, x, max), max)
  {
    hide AllShape, Contents, Pre, Suf, CtxOk, PathOf, MakeRoom, Level, Landed;
    PlugContents(at.ctx, at.node, 0, max);
    LevelKids(at.node, 0, max);
    LeafContents(at.node);
    PlugLeaf(at.ctx, at.node);
    var cap := if at.ctx.Root? then b.cap else max;
    if |at.node.vals| < cap {
      LandedAt(at.ctx, at.node, at.pos, x, b.cap, if b.root.Leaf() then b.size else b.size + 1, max);
    } else if cap < max {
      LandedAt(at.ctx, at.node, at.pos, x, Min(max, 2 * cap), b.size, max);
      RootLeaf(at.ctx, at.node, at.pos, x);
    } else {
      var r := MakeRoom(at.ctx, at.node, at.pos, 0, max);
      LevelKids(r.node, 0, max);
      LeafContents(r.node);
      RoomOffsets(at, r, max);
      LandedAt(r.ctx, r.node, r.pos, x, max, |Contents(b.root)| + 1, max);
    }
  }

  lemma RoomOffsets<K>(at: Room<K>, r: Room<K>, max: nat)
    requires Level(at.node, 0, max) && at.pos <= |at.node.vals|
    requires Roomy(at.ctx, at.node, at.pos, 0, max, r)
    ensures |Pre(r.ctx)| + r.pos == |Pre(at.ctx)| + at.pos
    ensures CtxOk(r.ctx, 0, max) && Level(r.node, 0, max) && r.pos <= |r.node.vals| < max && r.ctx.In?
  {
  }

  lemma InsertedFields<K>(c: Ctx<K>, t: Tree<K>, p: nat, x: K, max: nat)
    requires CtxOk(c, 0, max) && Level(t, 0, max) && p <= |t.vals| < max
    ensures var root := Plug(c, WithValue(t, p, x));
      Shape(root, Height(root), 1, max) && (root.Leaf() <==> c.Root?)
  {
    var root := Plug(c, WithValue(t, p, x));
    LeafInserted(c, t, p, x, max);
    HeightIs(root, Depth(c), 1, max);
    PlugLeaf(c, WithValue(t, p, x));
  }

  /** How many values of `t` come before value position `p`. */
  ghost function ValueOffset<K>(t: Tree<K>, p: nat): nat
    requires p <= |t.vals| && (t.Leaf() || |t.kids| == |t.vals| + 1)
  {
    if t.Leaf() then p else Offset(t, p) + |Contents(t.kids[p])|
  }

  lemma ValueOffsetEnd<K>(t: Tree<K>)
    requires t.Leaf() || |t.kids| == |t.vals| + 1
    ensures ValueOffset(t, |t.vals|) == |Contents(t)|
  {
    if t.Leaf() {
      LeafContents(t);
    } else {
      OffsetStep(t, |t.vals|);
    }
  }

  lemma {:induction false} ClimbedRank<K>(c: Ctx<K>, t: Tree<K>, pos: nat, h: nat, max: nat)
    requires CtxOk(c, h, max) && Shape(t, h, 0, max) && pos <= |t.vals| && ValueAt(c, t.vals, pos).Some?
    requires c.In? ==> |t.vals| >= 1
    ensures t.Leaf() || |t.kids| == |t.vals| + 1
    ensures var path := ClimbedPath(c, t.vals, pos);
      Points(Plug(c, t), path) && Rank(Plug(c, t), path) == |Pre(c)| + ValueOffset(t, pos)
    decreases c
  {
    hide Contents, LeftOf, RightOf, Offset, AllShape;
    LevelKids(t, h, max);
    if pos < |t.vals| {
      PathRank(c, t, [pos], h, max);
    } else {
      ValueOffsetEnd(t);
      var f, up := c.f, c.up;
      FillShape(f, t, h, 1, max);
      FillHole(f, t);
      ClimbedRank(up, Fill(f, t), |f.lv|, h + 1, max);
    }
  }

  lemma SortedInsert<K(!new)>(s: seq<K>, k: nat, x: K, less: Less<K>)
    requires StrictOrder(less) && Sorted(s, less) && SplitsAt(s, k, x, less) && (k < |s| ==> less(x, s[k]))
    ensures Sorted(InsertAt(s, k, x), less)
  {
    forall i | k <= i < |s|
      ensures less(x, s[i])
    {
      if i > k {
        assert less(s[k], s[i]);
      }
    }
  }

  /** insert_unique: the new key enters the order at its place unless it is there already; either
      way the tree stays well formed and the iterator leads to the key. */
  lemma InsertUniqueCorrect<K(!new)>(b: BTree<K>, key: K, less: Less<K>, max: nat)
    requires ValidTree(b, less, max) && max >= 3 && StrictOrder(less)
    ensures var r, s := InsertUnique(b, key, less, max), Elements(b);
      var k := LowerBound(s, key, less);
      (r.inserted <==> k == |s| || less(key, s[k])) &&
      (!r.inserted ==> r.tree == b) &&
      (r.inserted ==> Elements(r.tree) == InsertAt(s, k, key)) &&
      ValidTree(r.tree, less, max) && Size(r.tree) == |Elements(r.tree)| && r.tree.Rooted? &&
      Points(r.tree.root, r.path) && Rank(r.tree.root, r.path) == k
  {
    hide AllShape, Contents, Descend, Pre, Suf, InternalInsert, LowerBound, Value, Points, Rank;
    var base, s := Started(b), Elements(b);
    StartedShape(b, less, max);
    var h := Height(base.root);
    var at := Descend(Root, base.root, key, less, h, max);
    LocateRank(base.root, key, less, h, max);
    var k := |Pre(at.ctx)| + at.pos;
    SearchResult(s, k, key, less);
    var found := ValueAt(at.ctx, at.node.vals, at.pos);
    SizeExact(b, less, max);
    if found.Some? && !less(key, found.value) {
      ClimbedRank(at.ctx, at.node, at.pos, 0, max);
    } else {
      LocatedFits(b, at, less, max);
      InternalInsertKeeps(base, at, key, max);
      SortedInsert(s, k, key, less);
      var r := InternalInsert(base, at, key, max);
      SizeExact(r.tree, less, max);
    }
  }

  lemma SizeExact<K>(b: BTree<K>, less: Less<K>, max: nat)
    requires ValidTree(b, less, max)
    ensures Size(b) == |Elements(b)|
  {
    if b.Rooted? && b.root.Leaf() {
      LeafContents(b.root);
    }
  }
}
