/** Erasing: taking a value out of a leaf and repairing the tree upwards. */
module BTreeErase {
  import opened Basics
  import opened BTreeShape
  import opened BTreeContext
  import opened BTreeInsert
  import opened BTreeSearch
  import opened BTreeIterator
  import opened BTreeSet

  /** The repaired root, none if the tree became empty, and the tracked position. */
  datatype Repaired<K> = Repaired(root: Option<Tree<K>>, path: Path)

  /** A position in a leaf below `t`, possibly one past the last value. */
  ghost predicate LeafPath<K>(t: Tree<K>, path: Path, h: nat)
  {
    |path| == h + 1 && ValidPath(t, path)
  }

  function Moved(path: Path, delta: nat): Path
    requires |path| > 0
  {
    path[0 := path[0] + delta]
  }

  predicate CanMergeLeft<K>(f: Frame<K>, node: Tree<K>, max: nat)
  {
    |f.left| > 0 && |f.lv| > 0 && 1 + |f.left[|f.left| - 1].vals| + |node.vals| <= max
  }

  predicate CanMergeRight<K>(f: Frame<K>, node: Tree<K>, max: nat)
  {
    |f.right| > 0 && |f.rv| > 0 && 1 + |node.vals| + |f.right[0].vals| <= max
  }

  /** Values come over from the right sibling unless the first value was deleted and some are left. */
  predicate CanTakeRight<K>(f: Frame<K>, node: Tree<K>, hint: int, max: nat)
  {
    |f.right| > 0 && |f.rv| > 0 && |f.right[0].vals| > max / 2 && (|node.vals| == 0 || hint > 0)
  }

  predicate CanTakeLeft<K>(f: Frame<K>, node: Tree<K>, hint: int, max: nat)
  {
    |f.left| > 0 && |f.lv| > 0 && |f.left[|f.left| - 1].vals| > max / 2 && (|node.vals| == 0 || hint < |node.vals|)
  }

  function Share(from: nat, to: nat): nat
    requires from > 0 && to <= from
  {
    Min((from - to) / 2, from - 1)
  }

  ghost predicate Damaged<K>(c: Ctx<K>, node: Tree<K>, path: Path, h: nat, max: nat)
  {
    max >= 3 && CtxOk(c, h, max) && Shape(node, h, 0, max) && LeafPath(node, path, h)
  }

  /** All values of the tree around a node, and the rank in it of a position below the node. */
  ghost function Whole<K>(c: Ctx<K>, t: Tree<K>): seq<K>
  {
    Pre(c) + Contents(t) + Suf(c)
  }

  ghost function Spot<K>(c: Ctx<K>, t: Tree<K>, path: Path): nat
    requires ValidPath(t, path)
  {
    |Pre(c)| + Rank(t, path)
  }

  /** What a repair promises: a well-formed tree with contents `s`, and a position of rank `k`. */
  ghost predicate Mended<K>(s: seq<K>, k: nat, max: nat, r: Repaired<K>)
  {
    match r.root
    case None => s == []
    case Some(t) =>
      Shape(t, Height(t), 1, max) && Contents(t) == s && LeafPath(t, r.path, Height(t)) && Rank(t, r.path) == k
  }

  /** The parent of a node merged with its left sibling, and a path below the node as one below the parent. */
  function MergedLeft<K>(f: Frame<K>, node: Tree<K>): Tree<K>
    requires |f.left| > 0 && |f.lv| > 0
  {
    Fill(WithoutLast(f), Join(f.left[|f.left| - 1], f.lv[|f.lv| - 1], node))
  }

  function LeftPath<K>(f: Frame<K>, path: Path): Path
    requires |f.left| > 0 && |path| > 0
  {
    [|f.left| - 1] + Moved(path, 1 + |f.left[|f.left| - 1].vals|)
  }

  /** The parent of a node merged with its right sibling. */
  function MergedRight<K>(f: Frame<K>, node: Tree<K>): Tree<K>
    requires |f.right| > 0 && |f.rv| > 0
  {
    Fill(WithoutFirst(f), Join(node, f.rv[0], f.right[0]))
  }

  /** Walks up from a node that lost a value. `hint` is the source's iterator position, which is
      the position in the leaf only on the first level and no more than a hint above it. */
  function Repair<K>(c: Ctx<K>, node: Tree<K>, hint: int, path: Path, h: nat, max: nat): (r: Repaired<K>)
    requires Damaged(c, node, path, h, max)
    decreases c
  {
    LevelKids(node, h, max);
    match c
    case Root =>
      if |node.vals| > 0 then Repaired(Some(node), path)
      else if node.Leaf() then Repaired(None, path)
      else Repaired(Some(node.kids[0]), path[1..])
    case In(f, up) =>
      if |node.vals| >= max / 2 then Repaired(Some(Plug(c, node)), PathOf(c) + path)
      else if CanMergeLeft(f, node, max) then
        MergeLeftDamage(f, up, node, path, h, max);
        Repair(up, MergedLeft(f, node), hint + 1 + |f.left[|f.left| - 1].vals|, LeftPath(f, path), h + 1, max)
      else if CanMergeRight(f, node, max) then
        MergeRightDamage(f, up, node, path, h, max);
        Repair(up, MergedRight(f, node), hint, [|f.left|] + path, h + 1, max)
      else if CanTakeRight(f, node, hint, max) then
        TakeRightMended(f, up, node, path, h, max);
        TakeRight(f, up, node, path)
      else if CanTakeLeft(f, node, hint, max) then
        TakeLeftMended(f, up, node, path, h, max);
        TakeLeft(f, up, node, path)
      else Repaired(Some(Plug(c, node)), PathOf(c) + path)
  }

  lemma DamagedParts<K>(c: Ctx<K>, node: Tree<K>, path: Path, h: nat, max: nat)
    requires Damaged(c, node, path, h, max)
    ensures Level(node, h, max) && |path| > 0 && ValidPath(node, path)
  {
  }

  /** A repair that ends at the root, or at a node that does not merge. */
  lemma RepairEnds<K>(c: Ctx<K>, node: Tree<K>, hint: int, path: Path, h: nat, max: nat)
    requires Damaged(c, node, path, h, max)
    requires c.In? ==> |node.vals| >= max / 2 || (!CanMergeLeft(c.f, node, max) && !CanMergeRight(c.f, node, max))
    ensures Mended(Whole(c, node), Spot(c, node, path), max, Repair(c, node, hint, path, h, max))
  {
    DamagedParts(c, node, path, h, max);
    hide Mended, Whole, Spot, Damaged, MergedLeft, LeftPath, MergedRight, Plug, PathOf, Level;
    LevelKids(node, h, max);
    match c
    case Root =>
      ShrinkMended(node, path, h, max);
    case In(f, up) =>
      if |node.vals| >= max / 2 {
        StopMended(c, node, path, h, max);
      } else if CanTakeRight(f, node, hint, max) {
        TakeRightMended(f, up, node, path, h, max);
      } else if CanTakeLeft(f, node, hint, max) {
        TakeLeftMended(f, up, node, path, h, max);
      } else {
        NotEmpty(f, up, node, hint, path, h, max);
        StopMended(c, node, path, h, max);
      }
  }

  /** The repair keeps the contents and the rank of the position it carries. */
  lemma {:induction false} RepairMended<K>(c: Ctx<K>, node: Tree<K>, hint: int, path: Path, h: nat, max: nat)
    requires Damaged(c, node, path, h, max)
    ensures Mended(Whole(c, node), Spot(c, node, path), max, Repair(c, node, hint, path, h, max))
    decreases c
  {
    DamagedParts(c, node, path, h, max);
    hide Mended, Whole, Spot, Damaged, MergedLeft, LeftPath, MergedRight, Plug, PathOf, Level, TakeLeft, TakeRight;
    if c.In? && |node.vals| < max / 2 && CanMergeLeft(c.f, node, max) {
      var f, up := c.f, c.up;
      MergeLeftDamage(f, up, node, path, h, max);
      RepairMended(up, MergedLeft(f, node), hint + 1 + |f.left[|f.left| - 1].vals|, LeftPath(f, path), h + 1, max);
    } else if c.In? && |node.vals| < max / 2 && CanMergeRight(c.f, node, max) {
      var f, up := c.f, c.up;
      MergeRightDamage(f, up, node, path, h, max);
      RepairMended(up, MergedRight(f, node), hint, [|f.left|] + path, h + 1, max);
    } else {
      RepairEnds(c, node, hint, path, h, max);
    }
  }

  function TakeRight<K>(f: Frame<K>, up: Ctx<K>, node: Tree<K>, path: Path): Repaired<K>
    requires |f.right| > 0 && |f.rv| > 0 && |path| > 0 && |f.right[0].vals| > |node.vals|
    requires (f.right[0].Leaf() && node.Leaf()) ||
      (|f.right[0].kids| == |f.right[0].vals| + 1 && |node.kids| == |node.vals| + 1)
  {
    var r := f.right[0];
    var p := Choose(WithoutFirst(f), Join(node, f.rv[0], r), |node.vals| + Share(|r.vals|, |node.vals|), path[0]);
    Repaired(Some(Plug(In(p.f, up), p.node)), PathOf(In(p.f, up)) + path[0 := p.pos])
  }

  function TakeLeft<K>(f: Frame<K>, up: Ctx<K>, node: Tree<K>, path: Path): Repaired<K>
    requires |f.left| > 0 && |f.lv| > 0 && |path| > 0 && |f.left[|f.left| - 1].vals| > |node.vals|
    requires (f.left[|f.left| - 1].Leaf() && node.Leaf()) ||
      (|f.left[|f.left| - 1].kids| == |f.left[|f.left| - 1].vals| + 1 && |node.kids| == |node.vals| + 1)
  {
    var l := f.left[|f.left| - 1];
    var toMove := Share(|l.vals|, |node.vals|);
    var p := Choose(WithoutLast(f), Join(l, f.lv[|f.lv| - 1], node), |l.vals| - toMove, |l.vals| + 1 + path[0]);
    Repaired(Some(Plug(In(p.f, up), p.node)), PathOf(In(p.f, up)) + path[0 := p.pos])
  }

  // ------------------------------------------------------------------ lemmas

  /** Ranks of leaf paths through the same kid differ by the offsets of that kid. */
  lemma SamePlace<K>(t: Tree<K>, path: Path, u: Tree<K>, p: nat, h: nat, max: nat)
    requires Level(t, h, max) && Level(u, h, max) && LeafPath(t, path, h) && p <= |u.vals|
    requires h > 0 ==> u.kids[p] == t.kids[path[0]]
    ensures LeafPath(u, path[0 := p], h) && path[0] <= |t.vals|
    ensures Rank(u, path[0 := p]) - Offset(u, p) == Rank(t, path) - Offset(t, path[0])
  {
    hide Offset, Contents, AllShape;
    LevelKids(t, h, max);
    LevelKids(u, h, max);
    assert path[0 := p][1..] == path[1..];
    LeafOffset(t, path[0]);
    LeafOffset(u, p);
  }

  lemma LeafOffset<K>(t: Tree<K>, p: nat)
    ensures t.Leaf() && p <= |t.vals| ==> Offset(t, p) == p
  {
  }

  lemma StopMended<K>(c: Ctx<K>, node: Tree<K>, path: Path, h: nat, max: nat)
    requires Damaged(c, node, path, h, max) && |node.vals| >= 1
    ensures Mended(Whole(c, node), Spot(c, node, path), max, Repaired(Some(Plug(c, node)), PathOf(c) + path))
  {
    hide AllShape, Contents, Pre, Suf, Rank, ValidPath;
    PlugShape(c, node, h, max);
    HeightIs(Plug(c, node), h + Depth(c), 1, max);
    PlugContents(c, node, h, max);
    PathRank(c, node, path, h, max);
    PathLength(c);
  }

  lemma {:induction false} PathLength<K>(c: Ctx<K>)
    ensures |PathOf(c)| == Depth(c)
  {
    match c
    case Root =>
    case In(_, up) => PathLength(up);
  }

  /** try_shrink: an empty inner root is replaced by its only kid. */
  lemma ShrinkMended<K>(node: Tree<K>, path: Path, h: nat, max: nat)
    requires Damaged(Root, node, path, h, max)
    ensures |node.vals| > 0 ==> Mended(Whole(Root, node), Spot(Root, node, path), max, Repaired(Some(node), path))
    ensures |node.vals| == 0 && node.Leaf() ==> Mended(Whole(Root, node), Spot(Root, node, path), max, Repaired(None, path))
    ensures |node.vals| == 0 && !node.Leaf() ==>
      |node.kids| == 1 && Mended(Whole(Root, node), Spot(Root, node, path), max, Repaired(Some(node.kids[0]), path[1..]))
  {
    hide AllShape, Contents, Offset;
    LevelKids(node, h, max);
    HeightIs(node, h, 0, max);
    if |node.vals| == 0 {
      if node.Leaf() {
        LeafContents(node);
      } else {
        KidShape(node, h, max, 0);
        HeightIs(node.kids[0], h - 1, 1, max);
        OnlyKid(node);
        OffsetStep(node, 0);
      }
    }
  }

  lemma OnlyKid<K>(t: Tree<K>)
    requires t.vals == [] && |t.kids| == 1
    ensures Contents(t) == Contents(t.kids[0])
  {
    ContentsAround([], [], t.kids[0], [], []);
    assert [] + [t.kids[0]] + [] == t.kids;
    assert t == Node([] + [], [] + [t.kids[0]] + []);
  }

  /** A node merged into `t` and its parent refilled: same contents, same rank of the path. */
  lemma MergedUp<K>(f: Frame<K>, g: Frame<K>, up: Ctx<K>, node: Tree<K>, path: Path, t: Tree<K>, q: nat, h: nat, max: nat)
    requires Damaged(In(f, up), node, path, h, max)
    requires FrameOk(g, h, 0, max) && |g.lv| + |g.rv| < max && Level(t, h, max) && 1 <= |t.vals| <= max && q <= |t.vals|
    requires path[0] <= |node.vals|
    requires LeftOf(g) + Contents(t) + RightOf(g) == LeftOf(f) + Contents(node) + RightOf(f)
    requires |LeftOf(g)| + Offset(t, q) == |LeftOf(f)| + Offset(node, path[0])
    requires h > 0 ==> t.kids[q] == node.kids[path[0]]
    ensures var u, p := Fill(g, t), [|g.left|] + path[0 := q];
      Damaged(up, u, p, h + 1, max) &&
      Whole(up, u) == Whole(In(f, up), node) && Spot(up, u, p) == Spot(In(f, up), node, path)
  {
    hide AllShape, Contents, LeftOf, RightOf, Offset;
    var u, p := Fill(g, t), [|g.left|] + path[0 := q];
    FillShape(g, t, h, 0, max);
    FillContents(g, t);
    SamePlace(node, path, t, q, h, max);
    FillHole(g, t);
    assert p[1..] == path[0 := q] && u.kids[|g.left|] == t;
  }

  lemma FirstInRange<K>(t: Tree<K>, path: Path, h: nat, max: nat)
    requires Level(t, h, max) && LeafPath(t, path, h)
    ensures path[0] <= |t.vals|
  {
  }

  lemma MergeLeftDamage<K>(f: Frame<K>, up: Ctx<K>, node: Tree<K>, path: Path, h: nat, max: nat)
    requires Damaged(In(f, up), node, path, h, max) && CanMergeLeft(f, node, max)
    ensures |path| > 0
    ensures var u, p := MergedLeft(f, node), LeftPath(f, path);
      Damaged(up, u, p, h + 1, max) &&
      Whole(up, u) == Whole(In(f, up), node) && Spot(up, u, p) == Spot(In(f, up), node, path)
  {
    hide AllShape, Contents, LeftOf, RightOf, Offset, Rank, ValidPath;
    var l := f.left[|f.left| - 1];
    var g, t := WithoutLast(f), Join(l, f.lv[|f.lv| - 1], node);
    FirstInRange(node, path, h, max);
    JoinedWithLeft(f, node, path[0], h, max);
    MergedUp(f, g, up, node, path, t, |l.vals| + 1 + path[0], h, max);
  }

  lemma MergeRightDamage<K>(f: Frame<K>, up: Ctx<K>, node: Tree<K>, path: Path, h: nat, max: nat)
    requires Damaged(In(f, up), node, path, h, max) && CanMergeRight(f, node, max)
    ensures var u, p := MergedRight(f, node), [|f.left|] + path;
      Damaged(up, u, p, h + 1, max) &&
      Whole(up, u) == Whole(In(f, up), node) && Spot(up, u, p) == Spot(In(f, up), node, path)
  {
    hide AllShape, Contents, LeftOf, RightOf, Offset, Rank, ValidPath;
    var g, t := WithoutFirst(f), Join(node, f.rv[0], f.right[0]);
    FirstInRange(node, path, h, max);
    JoinedWithRight(f, node, path[0], h, max);
    MergedUp(f, g, up, node, path, t, path[0], h, max);
    assert path[0 := path[0]] == path;
  }

  /** A node too small to stay whose siblings can neither merge nor give is not empty. */
  lemma NotEmpty<K>(f: Frame<K>, up: Ctx<K>, node: Tree<K>, hint: int, path: Path, h: nat, max: nat)
    requires Damaged(In(f, up), node, path, h, max)
    requires !CanMergeLeft(f, node, max) && !CanMergeRight(f, node, max)
    requires !CanTakeRight(f, node, hint, max) && !CanTakeLeft(f, node, hint, max)
    ensures |node.vals| >= 1
  {
    Siblings(f, h, 1, max);
  }

  /** Re-cutting with a sibling: the chosen half is where the path goes on. */
  lemma RecutMended<K>(f: Frame<K>, g: Frame<K>, up: Ctx<K>, node: Tree<K>, path: Path,
                       t: Tree<K>, n: nat, q: nat, h: nat, max: nat)
    requires Damaged(In(f, up), node, path, h, max) && path[0] <= |node.vals|
    requires FrameOk(g, h, 0, max) && |g.lv| + |g.rv| < max && Level(t, h, max) && n < |t.vals| && q <= |t.vals|
    requires 1 <= n <= max && 1 <= |t.vals| - n - 1 <= max
    requires LeftOf(g) + Contents(t) + RightOf(g) == LeftOf(f) + Contents(node) + RightOf(f)
    requires |LeftOf(g)| + Offset(t, q) == |LeftOf(f)| + Offset(node, path[0])
    requires h > 0 ==> t.kids[q] == node.kids[path[0]]
    ensures var p := Choose(g, t, n, q);
      Mended(Whole(In(f, up), node), Spot(In(f, up), node, path), max,
             Repaired(Some(Plug(In(p.f, up), p.node)), PathOf(In(p.f, up)) + path[0 := p.pos]))
  {
    hide AllShape, Contents, LeftOf, RightOf, Offset, Choose;
    var p := Choose(g, t, n, q);
    ChooseKeeps(g, t, n, q, h, max);
    ChooseFrame(g, t, n, q, h, max);
    ChooseCounts(g, t, n, q);
    SamePlace(node, path, p.node, p.pos, h, max);
    StopMended(In(p.f, up), p.node, path[0 := p.pos], h, max);
    WholeIs(up, p.f, p.node);
    WholeIs(up, f, node);
  }

  lemma WholeIs<K>(up: Ctx<K>, f: Frame<K>, t: Tree<K>)
    requires Sided(f)
    ensures Whole(In(f, up), t) == Pre(up) + (LeftOf(f) + Contents(t) + RightOf(f)) + Suf(up)
  {
  }

  lemma ChooseCounts<K>(f: Frame<K>, t: Tree<K>, n: nat, q: nat)
    requires n < |t.vals| && (t.Leaf() || |t.kids| == |t.vals| + 1)
    ensures |Choose(f, t, n, q).node.vals| == if q <= n then n else |t.vals| - n - 1
  {
  }

  lemma TakeRightMended<K>(f: Frame<K>, up: Ctx<K>, node: Tree<K>, path: Path, h: nat, max: nat)
    requires Damaged(In(f, up), node, path, h, max) && |f.right| > 0 && |f.rv| > 0
    requires |f.right[0].vals| > max / 2 > |node.vals|
    ensures Level(f.right[0], h, max) && Level(node, h, max)
    ensures (f.right[0].Leaf() && node.Leaf()) ||
      (|f.right[0].kids| == |f.right[0].vals| + 1 && |node.kids| == |node.vals| + 1)
    ensures Mended(Whole(In(f, up), node), Spot(In(f, up), node, path), max, TakeRight(f, up, node, path))
  {
    hide AllShape, Contents, LeftOf, RightOf, Offset, Rank, ValidPath, Choose, Mended;
    var r, g := f.right[0], WithoutFirst(f);
    Siblings(f, h, 1, max);
    LevelKids(r, h, max);
    LevelKids(node, h, max);
    FirstInRange(node, path, h, max);
    JoinedWithRight(f, node, path[0], h, max);
    var t := Join(node, f.rv[0], r);
    RecutMended(f, g, up, node, path, t, |node.vals| + Share(|r.vals|, |node.vals|), path[0], h, max);
  }

  lemma TakeLeftMended<K>(f: Frame<K>, up: Ctx<K>, node: Tree<K>, path: Path, h: nat, max: nat)
    requires Damaged(In(f, up), node, path, h, max) && |f.left| > 0 && |f.lv| > 0
    requires |f.left[|f.left| - 1].vals| > max / 2 > |node.vals|
    ensures Level(f.left[|f.left| - 1], h, max) && Level(node, h, max)
    ensures (f.left[|f.left| - 1].Leaf() && node.Leaf()) ||
      (|f.left[|f.left| - 1].kids| == |f.left[|f.left| - 1].vals| + 1 && |node.kids| == |node.vals| + 1)
    ensures Mended(Whole(In(f, up), node), Spot(In(f, up), node, path), max, TakeLeft(f, up, node, path))
  {
    hide AllShape, Contents, LeftOf, RightOf, Offset, Rank, ValidPath, Choose, Mended;
    var l, g := f.left[|f.left| - 1], WithoutLast(f);
    Siblings(f, h, 1, max);
    LevelKids(l, h, max);
    LevelKids(node, h, max);
    FirstInRange(node, path, h, max);
    JoinedWithLeft(f, node, path[0], h, max);
    var t := Join(l, f.lv[|f.lv| - 1], node);
    var toMove := Share(|l.vals|, |node.vals|);
    RecutMended(f, g, up, node, path, t, |l.vals| - toMove, |l.vals| + 1 + path[0], h, max);
  }

  // -------------------------------------------------- iterators after a repair

  /** The path with its last position moved by one. */
  function Bumped(path: Path): Path
    requires |path| > 0
  {
    path[|path| - 1 := path[|path| - 1] + 1]
  }

  function Lowered(path: Path): Path
    requires |path| > 0 && path[|path| - 1] > 0
  {
    path[|path| - 1 := path[|path| - 1] - 1]
  }

  /** Operator ++: past the last value it stays in the last leaf, one past its last value. */
  function Increment<K>(t: Tree<K>, path: Path, h: nat, max: nat): Path
    requires Shape(t, h, 1, max) && Points(t, path)
  {
    var next := Next(t, path, h, max);
    if next.Some? then next.value else Bumped(path)
  }

  lemma {:induction false} NextNone<K>(t: Tree<K>, path: Path, h: nat, max: nat)
    requires Shape(t, h, 1, max) && Points(t, path) && Next(t, path, h, max).None?
    ensures LeafPath(t, Bumped(path), h) && Rank(t, Bumped(path)) == Rank(t, path) + 1
    decreases |path|
  {
    hide Offset, Contents, AllShape;
    LevelKids(t, h, max);
    if |path| > 1 {
      KidShape(t, h, max, path[0]);
      NextNone(t.kids[path[0]], path[1..], h - 1, max);
      assert Bumped(path)[1..] == Bumped(path[1..]);
    }
  }

  lemma IncrementRank<K>(t: Tree<K>, path: Path, h: nat, max: nat)
    requires Shape(t, h, 1, max) && Points(t, path)
    ensures var q := Increment(t, path, h, max);
      ValidPath(t, q) && Rank(t, q) == Rank(t, path) + 1 && (Rank(t, q) < |Contents(t)| ==> Points(t, q))
  {
    hide Offset, Contents, AllShape, Rank;
    NextRank(t, path, h, max);
    if Next(t, path, h, max).None? {
      NextNone(t, path, h, max);
    }
  }

  lemma {:induction false} LeafEnd<K>(t: Tree<K>, path: Path, h: nat, max: nat)
    requires Shape(t, h, 1, max) && LeafPath(t, path, h) && !Points(t, path)
    ensures path[|path| - 1] > 0 && Points(t, Lowered(path)) && Rank(t, Lowered(path)) + 1 == Rank(t, path)
    decreases |path|
  {
    hide Offset, Contents, AllShape;
    LevelKids(t, h, max);
    if |path| > 1 {
      KidShape(t, h, max, path[0]);
      LeafEnd(t.kids[path[0]], path[1..], h - 1, max);
      assert Lowered(path)[1..] == Lowered(path[1..]);
    }
  }

  lemma {:induction false} PointsDecided<K>(t: Tree<K>, path: Path, h: nat, max: nat)
    requires Shape(t, h, 1, max) && LeafPath(t, path, h)
    ensures Points(t, path) <==> AtValue(t, path)
    decreases |path|
  {
    LevelKids(t, h, max);
    if |path| > 1 {
      KidShape(t, h, max, path[0]);
      PointsDecided(t.kids[path[0]], path[1..], h - 1, max);
    }
  }

  /** Is the position before the end of its node? */
  predicate AtValue<K>(t: Tree<K>, path: Path)
    decreases |path|
  {
    |path| > 0 &&
    if |path| == 1 then path[0] < |t.vals| else path[0] < |t.kids| && AtValue(t.kids[path[0]], path[1..])
  }

  /** A position at the end of a leaf is moved on to the next value, if there is one. */
  function Normalized<K>(t: Tree<K>, path: Path, h: nat, max: nat): Path
    requires Shape(t, h, 1, max) && LeafPath(t, path, h)
  {
    PointsDecided(t, path, h, max);
    if AtValue(t, path) then path
    else
      LeafEnd(t, path, h, max);
      Increment(t, Lowered(path), h, max)
  }

  lemma NormalizedRank<K>(t: Tree<K>, path: Path, h: nat, max: nat)
    requires Shape(t, h, 1, max) && LeafPath(t, path, h)
    ensures var q := Normalized(t, path, h, max);
      ValidPath(t, q) && Rank(t, q) == Rank(t, path) && (Rank(t, q) < |Contents(t)| ==> Points(t, q))
  {
    hide Offset, Contents, AllShape, Rank, Points, ValidPath, Increment, AtValue;
    PointsDecided(t, path, h, max);
    if !AtValue(t, path) {
      LeafEnd(t, path, h, max);
      IncrementRank(t, Lowered(path), h, max);
    }
  }

  // ------------------------------------------------------------------- erase

  /** The node a path ends in, in its context. */
  function Focus<K>(c: Ctx<K>, t: Tree<K>, path: Path, h: nat, max: nat): (r: Room<K>)
    requires CtxOk(c, h, max) && Shape(t, h, 1, max) && Points(t, path)
    ensures |path| <= h + 1
    ensures CtxOk(r.ctx, h + 1 - |path|, max) && Shape(r.node, h + 1 - |path|, 1, max) && r.pos < |r.node.vals|
    ensures Plug(r.ctx, r.node) == Plug(c, t) && PathOf(r.ctx) + [r.pos] == PathOf(c) + path
    decreases |path|
  {
    LevelKids(t, h, max);
    if |path| == 1 then
      assert [path[0]] == path;
      Room(c, t, path[0])
    else
      HoleFill(t, path[0], h - 1, max);
      var d := In(HoleAt(t, path[0]), c);
      assert PathOf(d) + path[1..] == PathOf(c) + path;
      Focus(d, t.kids[path[0]], path[1..], h - 1, max)
  }

  /** The rightmost leaf below `t`, at its last value. */
  function Rightmost<K>(c: Ctx<K>, t: Tree<K>, h: nat, max: nat): (r: Room<K>)
    requires CtxOk(c, h, max) && Shape(t, h, 1, max)
    ensures CtxOk(r.ctx, 0, max) && Shape(r.node, 0, 1, max) && r.pos + 1 == |r.node.vals|
    ensures Plug(r.ctx, r.node) == Plug(c, t)
    decreases h
  {
    LevelKids(t, h, max);
    if t.Leaf() then Room(c, t, |t.vals| - 1)
    else
      HoleFill(t, |t.vals|, h - 1, max);
      Rightmost(In(HoleAt(t, |t.vals|), c), t.kids[|t.vals|], h - 1, max)
  }

  lemma {:induction false} RightmostEnd<K>(c: Ctx<K>, t: Tree<K>, h: nat, max: nat)
    requires CtxOk(c, h, max) && Shape(t, h, 1, max)
    ensures var r := Rightmost(c, t, h, max);
      |Pre(r.ctx)| + |r.node.vals| == |Pre(c)| + |Contents(t)| && Suf(r.ctx) == Suf(c)
    decreases h
  {
    hide Contents, LeftOf, RightOf, Offset, AllShape;
    LevelKids(t, h, max);
    if t.Leaf() {
      LeafContents(t);
    } else {
      HoleFill(t, |t.vals|, h - 1, max);
      HoleEnds(t, |t.vals|);
      OffsetStep(t, |t.vals|);
      RightmostEnd(In(HoleAt(t, |t.vals|), c), t.kids[|t.vals|], h - 1, max);
    }
  }

  function RemoveAt<K>(s: seq<K>, k: nat): seq<K>
    requires k < |s|
  {
    s[..k] + s[k + 1..]
  }

  /** An inner node with value `p` replaced by the last value below kid `p`. */
  function Swapped<K>(t: Tree<K>, p: nat, h: nat, max: nat): (u: Tree<K>)
    requires h > 0 && Shape(t, h, 1, max) && p < |t.vals|
    ensures Shape(u, h, 1, max) && u.kids == t.kids && |u.vals| == |t.vals|
  {
    KidShape(t, h, max, p);
    var x := Value(t.kids[p], Last(t.kids[p], h - 1, max));
    Node(t.vals[p := x], t.kids)
  }

  /** The leaf position a value is removed from: its own, or, for a value of an inner node, that of
      its predecessor, which takes its place in the inner node. */
  function LeafToCut<K>(at: Room<K>, h: nat, max: nat): (r: Room<K>)
    requires CtxOk(at.ctx, h, max) && Shape(at.node, h, 1, max) && at.pos < |at.node.vals|
    ensures CtxOk(r.ctx, 0, max) && Shape(r.node, 0, 1, max) && r.pos < |r.node.vals|
  {
    LevelKids(at.node, h, max);
    if at.node.Leaf() then at
    else
      var u := Swapped(at.node, at.pos, h, max);
      HoleFill(u, at.pos, h - 1, max);
      Rightmost(In(HoleAt(u, at.pos), at.ctx), at.node.kids[at.pos], h - 1, max)
  }

  function CutLeaf<K>(at: Room<K>): Tree<K>
    requires at.pos < |at.node.vals|
  {
    Node(RemoveAt(at.node.vals, at.pos), [])
  }

  lemma CutLeafWhole<K>(at: Room<K>, max: nat)
    requires CtxOk(at.ctx, 0, max) && Shape(at.node, 0, 1, max) && at.pos < |at.node.vals|
    ensures var k := |Pre(at.ctx)| + at.pos;
      k < |Whole(at.ctx, at.node)| &&
      Whole(at.ctx, CutLeaf(at)) == RemoveAt(Whole(at.ctx, at.node), k) &&
      ValidPath(CutLeaf(at), [at.pos]) && Spot(at.ctx, CutLeaf(at), [at.pos]) == k
  {
    hide Pre, Suf, Contents, CtxOk;
    LeafContents(at.node);
    LeafContents(CutLeaf(at));
    RemoveMiddle(Pre(at.ctx), at.node.vals, Suf(at.ctx), at.pos);
  }

  lemma RemoveMiddle<K>(pre: seq<K>, s: seq<K>, suf: seq<K>, p: nat)
    requires p < |s|
    ensures pre + RemoveAt(s, p) + suf == RemoveAt(pre + s + suf, |pre| + p)
  {
    var all := pre + s + suf;
    assert all[..|pre| + p] == pre + s[..p] && all[|pre| + p + 1..] == s[p + 1..] + suf;
  }

  /** Putting the predecessor in the place of value `p` and dropping it below is dropping value `p`. */
  lemma DropPredecessor<K>(s: seq<K>, k: nat)
    requires 0 < k < |s|
    ensures RemoveAt(s[k := s[k - 1]], k - 1) == RemoveAt(s, k)
  {
  }

  lemma SwappedContents<K>(t: Tree<K>, p: nat, h: nat, max: nat)
    requires h > 0 && Shape(t, h, 1, max) && p < |t.vals|
    ensures |t.kids| == |t.vals| + 1
    ensures var k, s := ValueOffset(t, p), Contents(t);
      0 < k < |s| && Contents(Swapped(t, p, h, max)) == s[k := s[k - 1]] &&
      k == Offset(t, p) + |Contents(t.kids[p])|
  {
    LevelKids(t, h, max);
    KidShape(t, h, max, p);
    hide AllShape, Contents, LeftOf, RightOf, Offset, Last;
    var kid, u := t.kids[p], Swapped(t, p, h, max);
    var f, g := HoleAt(t, p), HoleAt(u, p);
    LastRank(kid, h - 1, max);
    PointsAt(kid, Last(kid, h - 1, max));
    HoleFill(t, p, h - 1, max);
    HoleFill(u, p, h - 1, max);
    FillContents(f, kid);
    FillContents(g, kid);
    SwapInHole(t, p, u.vals[p]);
    assert u.vals == t.vals[p := u.vals[p]];
  }

  lemma SwapInHole<K>(t: Tree<K>, p: nat, x: K)
    requires |t.kids| == |t.vals| + 1 && p < |t.vals|
    ensures var f, g := HoleAt(t, p), HoleAt(Node(t.vals[p := x], t.kids), p);
      LeftOf(g) == LeftOf(f) && |RightOf(f)| > 0 && RightOf(g) == RightOf(f)[0 := x]
  {
    hide Contents;
    var f, g := HoleAt(t, p), HoleAt(Node(t.vals[p := x], t.kids), p);
    assert t.vals[p := x][..p] == t.vals[..p] && g.rv[1..] == f.rv[1..];
  }

  lemma CutOut<K>(at: Room<K>, h: nat, max: nat)
    requires CtxOk(at.ctx, h, max) && Shape(at.node, h, 1, max) && at.pos < |at.node.vals|
    ensures at.node.Leaf() || |at.node.kids| == |at.node.vals| + 1
    ensures var r, s, k := LeafToCut(at, h, max), Whole(at.ctx, at.node), |Pre(at.ctx)| + ValueOffset(at.node, at.pos);
      k < |s| && (at.node.Leaf() || k > 0) &&
      Whole(r.ctx, CutLeaf(r)) == RemoveAt(s, k) &&
      ValidPath(CutLeaf(r), [r.pos]) && Spot(r.ctx, CutLeaf(r), [r.pos]) == if at.node.Leaf() then k else k - 1
  {
    hide AllShape, Contents, LeftOf, RightOf, Offset, Last, Pre, Suf, CtxOk, Rank, ValidPath, Rightmost, Swapped;
    LevelKids(at.node, h, max);
    if at.node.Leaf() {
      CutLeafWhole(at, max);
    } else {
      CutOutInner(at, h, max);
    }
  }

  lemma CutOutInner<K>(at: Room<K>, h: nat, max: nat)
    requires CtxOk(at.ctx, h, max) && Shape(at.node, h, 1, max) && at.pos < |at.node.vals| && h > 0
    ensures !at.node.Leaf() && |at.node.kids| == |at.node.vals| + 1
    ensures var r, s, k := LeafToCut(at, h, max), Whole(at.ctx, at.node), |Pre(at.ctx)| + ValueOffset(at.node, at.pos);
      0 < k < |s| && Whole(r.ctx, CutLeaf(r)) == RemoveAt(s, k) &&
      ValidPath(CutLeaf(r), [r.pos]) && Spot(r.ctx, CutLeaf(r), [r.pos]) == k - 1
  {
    hide AllShape, Contents, LeftOf, RightOf, Offset, Last, Pre, Suf, CtxOk, Rank, ValidPath, Rightmost, Swapped;
    LevelKids(at.node, h, max);
    var r := LeafToCut(at, h, max);
    SwappedContents(at.node, at.pos, h, max);
    LeafToCutWhole(at, h, max);
    CutLeafWhole(r, max);
    var s, k := Whole(at.ctx, at.node), |Pre(at.ctx)| + ValueOffset(at.node, at.pos);
    UpdateMiddle(Pre(at.ctx), Contents(at.node), Suf(at.ctx), ValueOffset(at.node, at.pos));
    DropPredecessor(s, k);
  }

  lemma UpdateMiddle<K>(pre: seq<K>, s: seq<K>, suf: seq<K>, k: nat)
    requires 0 < k < |s|
    ensures var all := pre + s + suf;
      pre + s[k := s[k - 1]] + suf == all[|pre| + k := all[|pre| + k - 1]]
  {
  }

  /** The leaf position to cut, in the tree with the swapped value. */
  lemma LeafToCutWhole<K>(at: Room<K>, h: nat, max: nat)
    requires CtxOk(at.ctx, h, max) && Shape(at.node, h, 1, max) && at.pos < |at.node.vals| && h > 0
    ensures !at.node.Leaf() && |at.node.kids| == |at.node.vals| + 1
    ensures var r := LeafToCut(at, h, max);
      Whole(r.ctx, r.node) == Pre(at.ctx) + Contents(Swapped(at.node, at.pos, h, max)) + Suf(at.ctx) &&
      |Pre(r.ctx)| + r.pos + 1 == |Pre(at.ctx)| + ValueOffset(at.node, at.pos)
  {
    hide AllShape, Contents, LeftOf, RightOf, Offset, Last, Suf, Rightmost, Swapped;
    LevelKids(at.node, h, max);
    var u := Swapped(at.node, at.pos, h, max);
    var g := HoleAt(u, at.pos);
    HoleFill(u, at.pos, h - 1, max);
    var c, kid := In(g, at.ctx), at.node.kids[at.pos];
    var r := Rightmost(c, kid, h - 1, max);
    RightmostEnd(c, kid, h - 1, max);
    PlugContents(r.ctx, r.node, 0, max);
    PlugContents(at.ctx, u, h, max);
    SwappedVals(at.node, at.pos, h, max);
    SwapInHole(at.node, at.pos, u.vals[at.pos]);
    HoleFill(at.node, at.pos, h - 1, max);
  }

  lemma SwappedVals<K>(t: Tree<K>, p: nat, h: nat, max: nat)
    requires h > 0 && Shape(t, h, 1, max) && p < |t.vals|
    ensures var u := Swapped(t, p, h, max); u == Node(t.vals[p := u.vals[p]], t.kids)
  {
  }

  lemma FocusRank<K>(root: Tree<K>, path: Path, h: nat, max: nat)
    requires Shape(root, h, 1, max) && Points(root, path)
    ensures var at := Focus(Root, root, path, h, max);
      (at.node.Leaf() || |at.node.kids| == |at.node.vals| + 1) &&
      Rank(root, path) == |Pre(at.ctx)| + ValueOffset(at.node, at.pos) &&
      Whole(at.ctx, at.node) == Contents(root)
  {
    hide AllShape, Contents, Offset, Pre, Suf, Focus;
    var at := Focus(Root, root, path, h, max);
    var g := h + 1 - |path|;
    LevelKids(at.node, g, max);
    PathRank(at.ctx, at.node, [at.pos], g, max);
    PlugContents(at.ctx, at.node, g, max);
    var top: Ctx<K> := Root;
    EmptyPath(top, path);
  }

  lemma EmptyPath<K>(c: Ctx<K>, path: Path)
    requires c.Root?
    ensures PathOf(c) + path == path
  {
  }

  /** The repaired tree after taking a value out, and whether it was a value of an inner node. */
  datatype Taken<K> = Taken(repaired: Repaired<K>, inner: bool)

  function TakeOut<K>(root: Tree<K>, path: Path, h: nat, max: nat): (r: Taken<K>)
    requires max >= 3 && Shape(root, h, 1, max) && Points(root, path)
    ensures var s, k := Contents(root), Rank(root, path);
      k < |s| && (r.inner ==> k > 0) && Mended(RemoveAt(s, k), if r.inner then k - 1 else k, max, r.repaired)
  {
    var at := Focus(Root, root, path, h, max);
    var leaf := LeafToCut(at, h + 1 - |path|, max);
    TakeOutMended(root, path, h, max);
    Taken(Repair(leaf.ctx, CutLeaf(leaf), leaf.pos, [leaf.pos], 0, max), !at.node.Leaf())
  }

  lemma TakeOutMended<K>(root: Tree<K>, path: Path, h: nat, max: nat)
    requires max >= 3 && Shape(root, h, 1, max) && Points(root, path)
    ensures var at := Focus(Root, root, path, h, max);
      var leaf := LeafToCut(at, h + 1 - |path|, max);
      var s, k, inner := Contents(root), Rank(root, path), !at.node.Leaf();
      && Damaged(leaf.ctx, CutLeaf(leaf), [leaf.pos], 0, max) && k < |s| && (inner ==> k > 0)
      && Mended(RemoveAt(s, k), if inner then k - 1 else k, max,
                Repair(leaf.ctx, CutLeaf(leaf), leaf.pos, [leaf.pos], 0, max))
  {
    hide Contents, Rank, AllShape, Pre, Suf, Focus, LeafToCut, RemoveAt, Mended, Repair, Whole;
    var at := Focus(Root, root, path, h, max);
    var g := h + 1 - |path|;
    FocusRank(root, path, h, max);
    CutOut(at, g, max);
    var leaf := LeafToCut(at, g, max);
    CutDamage(leaf, max);
    RepairMended(leaf.ctx, CutLeaf(leaf), leaf.pos, [leaf.pos], 0, max);
  }

  lemma CutDamage<K>(leaf: Room<K>, max: nat)
    requires max >= 3 && CtxOk(leaf.ctx, 0, max) && Shape(leaf.node, 0, 1, max) && leaf.pos < |leaf.node.vals|
    ensures Damaged(leaf.ctx, CutLeaf(leaf), [leaf.pos], 0, max)
  {
  }

  /** The tree without the value, and an iterator to what followed it. */
  datatype Erased<K> = Erased(tree: BTree<K>, path: Path)

  /** The size counter counts while the root is an inner node; a leaf that becomes the root has the
      capacity of a full node. */
  function Erase<K>(b: BTree<K>, path: Path, ghost less: Less<K>, max: nat): Erased<K>
    requires ValidTree(b, less, max) && max >= 3 && b.Rooted? && Points(b.root, path)
  {
    var taken := TakeOut(b.root, path, Height(b.root), max);
    match taken.repaired.root
    case None => Erased(Empty, [])
    case Some(t) =>
      NormalizedRank(t, taken.repaired.path, Height(t), max);
      var p := Normalized(t, taken.repaired.path, Height(t), max);
      var q := if taken.inner then Increment(t, p, Height(t), max) else p;
      var leafRoot := b.root.Leaf();
      Erased(Rooted(t, if leafRoot then b.cap else max, if leafRoot || b.size == 0 then b.size else b.size - 1), q)
  }

  lemma LeafRootTakeOut<K>(root: Tree<K>, path: Path, h: nat, max: nat)
    requires max >= 3 && Shape(root, h, 1, max) && Points(root, path) && root.Leaf()
    ensures var r := TakeOut(root, path, h, max).repaired.root;
      r.Some? ==> r.value.Leaf() && |r.value.vals| < |root.vals|
  {
    hide AllShape, Contents, Offset;
    LevelKids(root, h, max);
    assert |path| == 1;
  }

  lemma SortedRemove<K>(s: seq<K>, k: nat, less: Less<K>)
    requires Sorted(s, less) && k < |s|
    ensures Sorted(RemoveAt(s, k), less)
  {
  }

  /** erase: exactly the value goes, the tree stays well formed, and the iterator leads to the value
      that followed it, or to the end, also when the value sat in an inner node and whatever merging,
      rebalancing and shrinking happened. */
  lemma EraseCorrect<K>(b: BTree<K>, path: Path, less: Less<K>, max: nat)
    requires ValidTree(b, less, max) && max >= 3 && b.Rooted? && Points(b.root, path)
    ensures var r, s, k := Erase(b, path, less, max), Elements(b), Rank(b.root, path);
      k < |s| && Elements(r.tree) == RemoveAt(s, k) && ValidTree(r.tree, less, max) &&
      Size(r.tree) == |s| - 1 && (r.tree.Empty? <==> |s| == 1) &&
      (r.tree.Rooted? ==> ValidPath(r.tree.root, r.path) && Rank(r.tree.root, r.path) == k) &&
      (k + 1 < |s| ==> r.tree.Rooted? && Points(r.tree.root, r.path) && Value(r.tree.root, r.path) == s[k + 1])
  {
    hide AllShape, Contents, Offset, Rank, Value, TakeOut, Normalized, Increment;
    var s, k := Contents(b.root), Rank(b.root, path);
    var taken := TakeOut(b.root, path, Height(b.root), max);
    SizeExact(b, less, max);
    SortedRemove(s, k, less);
    match taken.repaired.root
    case None =>
    case Some(t) =>
      var h := Height(t);
      NormalizedRank(t, taken.repaired.path, h, max);
      var p := Normalized(t, taken.repaired.path, h, max);
      if taken.inner {
        IncrementRank(t, p, h, max);
      }
      var r := Erase(b, path, less, max);
      NonEmpty(t, h, max);
      if b.root.Leaf() {
        LeafRootTakeOut(b.root, path, Height(b.root), max);
      }
      SizeExact(r.tree, less, max);
      if k + 1 < |s| {
        PointsAt(t, r.path);
      }
  }

  lemma NonEmpty<K>(t: Tree<K>, h: nat, max: nat)
    requires Shape(t, h, 1, max)
    ensures |Contents(t)| > 0
  {
    FirstRank(t, h, max);
    PointsAt(t, First(t, h, max));
  }
}
