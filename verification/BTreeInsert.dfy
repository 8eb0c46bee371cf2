/** Making room and inserting. */
module BTreeInsert {
  import opened BTreeShape
  import opened BTreeContext

  function AtLeast1(n: nat): nat
  {
    if n < 1 then 1 else n
  }

  /** How many values to shift to a sibling holding `count`: all its room, or half of it when `half`. */
  function ToMove(count: nat, max: nat, half: bool): nat
    requires count < max
  {
    AtLeast1(if half then (max - count) / 2 else max - count)
  }

  /** How many values the new right sibling of a split gets, biased by the insert position. */
  function SplitCount(count: nat, pos: nat, max: nat): nat
    requires count > 0
  {
    if pos == 0 then count - 1 else if pos == max then 0 else count / 2
  }

  /** Can values go to the left sibling so that the chosen node has room? */
  predicate LeftHasRoom<K>(f: Frame<K>, pos: nat, max: nat)
  {
    |f.left| > 0 && |f.lv| > 0 &&
    var count := |f.left[|f.left| - 1].vals|;
    count < max &&
    var toMove := ToMove(count, max, pos < max);
    pos >= toMove || count + toMove < max
  }

  predicate RightHasRoom<K>(f: Frame<K>, pos: nat, max: nat)
  {
    |f.right| > 0 && |f.rv| > 0 &&
    var count := |f.right[0].vals|;
    count < max &&
    var toMove := ToMove(count, max, pos > 0);
    pos + toMove <= max || count + toMove < max
  }

  function WithoutLast<K>(f: Frame<K>): Frame<K>
    requires |f.left| > 0 && |f.lv| > 0
  {
    f.(lv := f.lv[..|f.lv| - 1], left := f.left[..|f.left| - 1])
  }

  function WithoutFirst<K>(f: Frame<K>): Frame<K>
    requires |f.right| > 0 && |f.rv| > 0
  {
    f.(rv := f.rv[1..], right := f.right[1..])
  }

  /** A node in its context with a position to insert at. */
  datatype Room<K> = Room(ctx: Ctx<K>, node: Tree<K>, pos: nat)

  /** A full node that must make room at `pos`. */
  ghost predicate Full<K>(c: Ctx<K>, node: Tree<K>, pos: nat, h: nat, max: nat)
  {
    max >= 3 && CtxOk(c, h, max) && Level(node, h, max) && |node.vals| == max && pos <= max
  }

  /** What making room promises: a well-formed tree with the same contents, a node that is not full,
      the pending insertion at the same place in order and, above the leaves, at the same kid. */
  ghost predicate Roomy<K>(c: Ctx<K>, node: Tree<K>, pos: nat, h: nat, max: nat, r: Room<K>)
    requires Level(node, h, max) && pos <= |node.vals|
  {
    CtxOk(r.ctx, h, max) && Level(r.node, h, max) && |r.node.vals| < max && r.pos <= |r.node.vals| &&
    Pre(r.ctx) + Contents(r.node) + Suf(r.ctx) == Pre(c) + Contents(node) + Suf(c) &&
    |Pre(r.ctx)| + Offset(r.node, r.pos) == |Pre(c)| + Offset(node, pos) &&
    (h > 0 ==> r.node.kids[r.pos] == node.kids[pos]) &&
    Depth(c) <= Depth(r.ctx) <= Depth(c) + 1 && r.ctx.In?
  }

  /** Re-cutting `t` in the frame `f` below `up`. */
  lemma ChosenRoom<K>(up: Ctx<K>, f: Frame<K>, t: Tree<K>, n: nat, q: nat, h: nat, max: nat)
    requires CtxOk(up, h + 1, max) && FrameOk(f, h, 0, max) && |f.lv| + |f.rv| < max
    requires Level(t, h, max) && n < |t.vals| && q <= |t.vals|
    requires if q <= n then n < max && 1 <= |t.vals| - n - 1 <= max else 1 <= n <= max && |t.vals| - n - 1 < max
    ensures var p := Choose(f, t, n, q);
      CtxOk(In(p.f, up), h, max) && Level(p.node, h, max) && |p.node.vals| < max && p.pos <= |p.node.vals| &&
      Pre(In(p.f, up)) + Contents(p.node) + Suf(In(p.f, up))
        == Pre(up) + (LeftOf(f) + Contents(t) + RightOf(f)) + Suf(up) &&
      |Pre(In(p.f, up))| + Offset(p.node, p.pos) == |Pre(up)| + |LeftOf(f)| + Offset(t, q) &&
      (h > 0 ==> p.node.kids[p.pos] == t.kids[q])
  {
    hide Contents, LeftOf, RightOf, Offset, AllShape;
    ChooseKeeps(f, t, n, q, h, max);
    ChooseFrame(f, t, n, q, h, max);
  }

  lemma Siblings<K>(f: Frame<K>, h: nat, lo: nat, max: nat)
    requires FrameOk(f, h, lo, max)
    ensures f.left != [] ==>
      var l := f.left[|f.left| - 1];
      1 <= |l.vals| <= max && Level(l, h, max) && FrameOk(WithoutLast(f), h, 0, max)
    ensures f.right != [] ==>
      var r := f.right[0];
      1 <= |r.vals| <= max && Level(r, h, max) && FrameOk(WithoutFirst(f), h, 0, max)
  {
    if f.left != [] {
      assert Shape(f.left[|f.left| - 1], h, 1, max);
    }
    if f.right != [] {
      assert Shape(f.right[0], h, 1, max);
    }
  }

  lemma Regroup<K>(a: seq<K>, b: seq<K>, x: K, c: seq<K>, d: seq<K>)
    ensures a + (b + [x] + c) + d == (a + b + [x]) + c + d
    ensures a + (b + [x] + c) + d == a + b + ([x] + c + d)
  {
  }

  lemma JoinedWithLeft<K>(f: Frame<K>, node: Tree<K>, pos: nat, h: nat, max: nat)
    requires FrameOk(f, h, 1, max) && f.left != [] && Level(node, h, max) && pos <= |node.vals|
    ensures var l, x, g := f.left[|f.left| - 1], f.lv[|f.lv| - 1], WithoutLast(f);
      var t := Join(l, x, node);
      FrameOk(g, h, 0, max) && Level(t, h, max) &&
      LeftOf(g) + Contents(t) + RightOf(g) == LeftOf(f) + Contents(node) + RightOf(f) &&
      |LeftOf(g)| + Offset(t, |l.vals| + 1 + pos) == |LeftOf(f)| + Offset(node, pos) &&
      (h > 0 ==> t.kids[|l.vals| + 1 + pos] == node.kids[pos])
  {
    var l, x, g := f.left[|f.left| - 1], f.lv[|f.lv| - 1], WithoutLast(f);
    var t := Join(l, x, node);
    hide Contents, LeftOf, RightOf, Offset, AllShape;
    Siblings(f, h, 1, max);
    JoinLevel(l, x, node, h, max);
    JoinContents(l, x, node, h, max);
    assert f == Frame(g.lv + [x], g.left + [l], g.rv, g.right);
    FrameContents(g, x, l);
    Regroup(LeftOf(g), Contents(l), x, Contents(node), RightOf(g));
    JoinCut(l, x, node, h, max);
    CutOffset(t, |l.vals|, |l.vals| + 1 + pos, h, max);
  }

  lemma JoinCut<K>(l: Tree<K>, x: K, r: Tree<K>, h: nat, max: nat)
    requires Level(l, h, max) && Level(r, h, max)
    ensures CutLeft(Join(l, x, r), |l.vals|) == l && CutRight(Join(l, x, r), |l.vals|) == r
  {
  }

  lemma JoinedWithRight<K>(f: Frame<K>, node: Tree<K>, pos: nat, h: nat, max: nat)
    requires FrameOk(f, h, 1, max) && f.right != [] && Level(node, h, max) && pos <= |node.vals|
    ensures var r, x, g := f.right[0], f.rv[0], WithoutFirst(f);
      var t := Join(node, x, r);
      FrameOk(g, h, 0, max) && Level(t, h, max) &&
      LeftOf(g) + Contents(t) + RightOf(g) == LeftOf(f) + Contents(node) + RightOf(f) &&
      |LeftOf(g)| + Offset(t, pos) == |LeftOf(f)| + Offset(node, pos) &&
      (h > 0 ==> t.kids[pos] == node.kids[pos])
  {
    var r, x, g := f.right[0], f.rv[0], WithoutFirst(f);
    var t := Join(node, x, r);
    hide Contents, LeftOf, RightOf, Offset, AllShape;
    Siblings(f, h, 1, max);
    JoinLevel(node, x, r, h, max);
    JoinContents(node, x, r, h, max);
    assert f == Frame(g.lv, g.left, [x] + g.rv, [r] + g.right);
    FrameContents(g, x, r);
    Regroup(LeftOf(g), Contents(node), x, Contents(r), RightOf(g));
    JoinCut(node, x, r, h, max);
    CutOffset(t, |node.vals|, pos, h, max);
  }

  /** Splitting a full node below `up`; `f` is the frame of the node, with room for one more value. */
  function Split<K>(up: Ctx<K>, f: Frame<K>, node: Tree<K>, pos: nat, max: nat): Room<K>
    requires |node.vals| == max >= 3 && (node.Leaf() || |node.kids| == |node.vals| + 1)
  {
    var p := Choose(f, node, max - SplitCount(max, pos, max) - 1, pos);
    Room(In(p.f, up), p.node, p.pos)
  }

  lemma SplitRoomy<K>(up: Ctx<K>, f: Frame<K>, node: Tree<K>, pos: nat, h: nat, max: nat)
    requires max >= 3 && CtxOk(up, h + 1, max) && FrameOk(f, h, 0, max) && |f.lv| + |f.rv| < max
    requires Level(node, h, max) && |node.vals| == max && pos <= max
    ensures var r := Split(up, f, node, pos, max);
      CtxOk(r.ctx, h, max) && Level(r.node, h, max) && |r.node.vals| < max && r.pos <= |r.node.vals| &&
      Pre(r.ctx) + Contents(r.node) + Suf(r.ctx)
        == Pre(up) + (LeftOf(f) + Contents(node) + RightOf(f)) + Suf(up) &&
      |Pre(r.ctx)| + Offset(r.node, r.pos) == |Pre(up)| + |LeftOf(f)| + Offset(node, pos) &&
      (h > 0 ==> r.node.kids[r.pos] == node.kids[pos])
  {
    hide Contents, LeftOf, RightOf, Offset, AllShape, Choose, CtxOk, Pre, Suf;
    ChosenRoom(up, f, node, max - SplitCount(max, pos, max) - 1, pos, h, max);
  }

  function MoveLeft<K>(f: Frame<K>, up: Ctx<K>, node: Tree<K>, pos: nat, max: nat): Room<K>
    requires LeftHasRoom(f, pos, max) && |node.vals| == max >= 3
    requires (f.left[|f.left| - 1].Leaf() && node.Leaf()) ||
      (|f.left[|f.left| - 1].kids| == |f.left[|f.left| - 1].vals| + 1 && |node.kids| == |node.vals| + 1)
  {
    var l, x := f.left[|f.left| - 1], f.lv[|f.lv| - 1];
    var p := Choose(WithoutLast(f), Join(l, x, node), |l.vals| + ToMove(|l.vals|, max, pos < max), |l.vals| + 1 + pos);
    Room(In(p.f, up), p.node, p.pos)
  }

  function MoveRight<K>(f: Frame<K>, up: Ctx<K>, node: Tree<K>, pos: nat, max: nat): Room<K>
    requires RightHasRoom(f, pos, max) && |node.vals| == max >= 3
    requires (f.right[0].Leaf() && node.Leaf()) ||
      (|f.right[0].kids| == |f.right[0].vals| + 1 && |node.kids| == |node.vals| + 1)
  {
    var r, x := f.right[0], f.rv[0];
    var p := Choose(WithoutFirst(f), Join(node, x, r), max - ToMove(|r.vals|, max, pos > 0), pos);
    Room(In(p.f, up), p.node, p.pos)
  }

  lemma InContext<K>(up: Ctx<K>, f: Frame<K>, c: seq<K>, h: nat, max: nat)
    requires FrameOk(f, h, 1, max)
    ensures Pre(In(f, up)) + c + Suf(In(f, up)) == Pre(up) + (LeftOf(f) + c + RightOf(f)) + Suf(up)
    ensures |Pre(In(f, up))| == |Pre(up)| + |LeftOf(f)|
    ensures |f.left| == |f.lv| && |f.right| == |f.rv| && |f.lv| + |f.rv| <= max
  {
    hide LeftOf, RightOf, AllShape;
    assert (Pre(up) + LeftOf(f)) + c + (RightOf(f) + Suf(up)) == Pre(up) + (LeftOf(f) + c + RightOf(f)) + Suf(up);
  }

  lemma MoveLeftRoomy<K>(f: Frame<K>, up: Ctx<K>, node: Tree<K>, pos: nat, h: nat, max: nat)
    requires Full(In(f, up), node, pos, h, max) && LeftHasRoom(f, pos, max)
    ensures Level(f.left[|f.left| - 1], h, max)
    ensures Roomy(In(f, up), node, pos, h, max, MoveLeft(f, up, node, pos, max))
  {
    hide Contents, LeftOf, RightOf, Offset, AllShape, Choose, Level, Pre, Suf, FrameOk;
    InContext(up, f, Contents(node), h, max);
    Siblings(f, h, 1, max);
    LevelKids(f.left[|f.left| - 1], h, max);
    LevelKids(node, h, max);
    JoinedWithLeft(f, node, pos, h, max);
    var l, x := f.left[|f.left| - 1], f.lv[|f.lv| - 1];
    var toMove := ToMove(|l.vals|, max, pos < max);
    ChosenRoom(up, WithoutLast(f), Join(l, x, node), |l.vals| + toMove, |l.vals| + 1 + pos, h, max);
  }

  lemma LevelKids<K>(t: Tree<K>, h: nat, max: nat)
    requires Level(t, h, max)
    ensures t.Leaf() <==> h == 0
    ensures h > 0 ==> |t.kids| == |t.vals| + 1
  {
  }

  lemma MoveRightRoomy<K>(f: Frame<K>, up: Ctx<K>, node: Tree<K>, pos: nat, h: nat, max: nat)
    requires Full(In(f, up), node, pos, h, max) && RightHasRoom(f, pos, max)
    ensures Level(f.right[0], h, max)
    ensures Roomy(In(f, up), node, pos, h, max, MoveRight(f, up, node, pos, max))
  {
    hide Contents, LeftOf, RightOf, Offset, AllShape, Choose, Level, Pre, Suf, FrameOk;
    InContext(up, f, Contents(node), h, max);
    Siblings(f, h, 1, max);
    LevelKids(f.right[0], h, max);
    LevelKids(node, h, max);
    JoinedWithRight(f, node, pos, h, max);
    var r, x := f.right[0], f.rv[0];
    ChosenRoom(up, WithoutFirst(f), Join(node, x, r), max - ToMove(|r.vals|, max, pos > 0), pos, h, max);
  }

  /** The frame around kid `p` of an inner node. */
  function HoleAt<K>(t: Tree<K>, p: nat): Frame<K>
    requires p <= |t.vals| && |t.kids| == |t.vals| + 1
  {
    Frame(t.vals[..p], t.kids[..p], t.vals[p..], t.kids[p + 1..])
  }

  lemma HoleFill<K>(t: Tree<K>, p: nat, h: nat, max: nat)
    requires Level(t, h + 1, max) && p <= |t.vals|
    ensures Sided(HoleAt(t, p)) && Fill(HoleAt(t, p), t.kids[p]) == t
    ensures |t.vals| <= max ==> FrameOk(HoleAt(t, p), h, 0, max)
    ensures |LeftOf(HoleAt(t, p))| == Offset(t, p)
    ensures Shape(t.kids[p], h, 1, max)
  {
  }

  lemma FillHole<K>(f: Frame<K>, t: Tree<K>)
    requires Sided(f)
    ensures HoleAt(Fill(f, t), |f.left|) == f
    ensures Offset(Fill(f, t), |f.left|) == |LeftOf(f)|
  {
    var u := Fill(f, t);
    assert u.vals[..|f.lv|] == f.lv && u.vals[|f.lv|..] == f.rv;
    assert u.kids[..|f.left|] == f.left && u.kids[|f.left| + 1..] == f.right;
  }

  /** Rebalances or splits a full node so that position `pos` of it has room. */
  function MakeRoom<K>(c: Ctx<K>, node: Tree<K>, pos: nat, h: nat, max: nat): (r: Room<K>)
    requires Full(c, node, pos, h, max)
    ensures Roomy(c, node, pos, h, max, r)
    decreases c
  {
    LevelKids(node, h, max);
    match c
    case Root =>
      RootSplitRoomy(node, pos, h, max);
      Split(Root, Frame([], [], [], []), node, pos, max)
    case In(f, up) =>
      if LeftHasRoom(f, pos, max) then
        MoveLeftRoomy(f, up, node, pos, h, max);
        LevelKids(f.left[|f.left| - 1], h, max);
        MoveLeft(f, up, node, pos, max)
      else if RightHasRoom(f, pos, max) then
        MoveRightRoomy(f, up, node, pos, h, max);
        LevelKids(f.right[0], h, max);
        MoveRight(f, up, node, pos, max)
      else if |f.lv| + |f.rv| == max then
        ParentFull(f, up, node, pos, h, max);
        var parent := MakeRoom(up, Fill(f, node), |f.left|, h + 1, max);
        LevelKids(parent.node, h + 1, max);
        ParentRoomy(f, up, node, pos, h, max, parent);
        Split(parent.ctx, HoleAt(parent.node, parent.pos), node, pos, max)
      else
        SiblingSplitRoomy(f, up, node, pos, h, max);
        Split(up, f, node, pos, max)
  }

  lemma RootSplitRoomy<K>(node: Tree<K>, pos: nat, h: nat, max: nat)
    requires Full(Root, node, pos, h, max) && (node.Leaf() || |node.kids| == |node.vals| + 1)
    ensures Roomy(Root, node, pos, h, max, Split(Root, Frame([], [], [], []), node, pos, max))
  {
    hide Contents, Offset, Choose, Level;
    var f: Frame<K> := Frame([], [], [], []);
    assert LeftOf(f) == [] && RightOf(f) == [];
    SplitRoomy(Root, f, node, pos, h, max);
  }

  lemma SiblingSplitRoomy<K>(f: Frame<K>, up: Ctx<K>, node: Tree<K>, pos: nat, h: nat, max: nat)
    requires Full(In(f, up), node, pos, h, max) && |f.lv| + |f.rv| < max
    requires node.Leaf() || |node.kids| == |node.vals| + 1
    ensures Roomy(In(f, up), node, pos, h, max, Split(up, f, node, pos, max))
  {
    hide Contents, Offset, AllShape, Choose, Level, LeftOf, RightOf;
    SplitRoomy(up, f, node, pos, h, max);
    Nested(Pre(up), LeftOf(f), Contents(node), RightOf(f), Suf(up));
  }

  lemma ParentFull<K>(f: Frame<K>, up: Ctx<K>, node: Tree<K>, pos: nat, h: nat, max: nat)
    requires Full(In(f, up), node, pos, h, max) && |f.lv| + |f.rv| == max
    ensures Full(up, Fill(f, node), |f.left|, h + 1, max)
  {
    FillShape(f, node, h, 1, max);
  }

  lemma ParentRoomy<K>(f: Frame<K>, up: Ctx<K>, node: Tree<K>, pos: nat, h: nat, max: nat, parent: Room<K>)
    requires Full(In(f, up), node, pos, h, max) && |f.lv| + |f.rv| == max
    requires Full(up, Fill(f, node), |f.left|, h + 1, max)
    requires Roomy(up, Fill(f, node), |f.left|, h + 1, max, parent)
    requires |parent.node.kids| == |parent.node.vals| + 1 && (node.Leaf() || |node.kids| == |node.vals| + 1)
    ensures Roomy(In(f, up), node, pos, h, max, Split(parent.ctx, HoleAt(parent.node, parent.pos), node, pos, max))
  {
    hide Contents, Offset, AllShape, Choose, Level, LeftOf, RightOf;
    var g := HoleAt(parent.node, parent.pos);
    FillHole(f, node);
    HoleFill(parent.node, parent.pos, h, max);
    assert parent.node.kids[parent.pos] == node;
    FillContents(f, node);
    FillContents(g, node);
    SplitRoomy(parent.ctx, g, node, pos, h, max);
    Nested(Pre(up), LeftOf(f), Contents(node), RightOf(f), Suf(up));
  }

  lemma Nested<K>(a: seq<K>, b: seq<K>, c: seq<K>, d: seq<K>, e: seq<K>)
    ensures a + (b + c + d) + e == a + b + c + (d + e)
  {
  }
}
