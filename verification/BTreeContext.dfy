/** A node in its context, offsets in order, and re-cutting siblings. */
module BTreeContext {
  import opened BTreeShape

  /** An inner node with one kid missing: the values and kids on either side of the hole. */
  datatype Frame<K> = Frame(lv: seq<K>, left: seq<Tree<K>>, rv: seq<K>, right: seq<Tree<K>>)

  /** From a hole up to the root. */
  datatype Ctx<K> = Root | In(f: Frame<K>, up: Ctx<K>)

  function Fill<K>(f: Frame<K>, t: Tree<K>): Tree<K>
  {
    Node(f.lv + f.rv, f.left + [t] + f.right)
  }

  function Plug<K>(c: Ctx<K>, t: Tree<K>): Tree<K>
  {
    match c
    case Root => t
    case In(f, up) => Plug(up, Fill(f, t))
  }

  ghost predicate Sided<K>(f: Frame<K>)
  {
    |f.lv| == |f.left| && |f.rv| == |f.right|
  }

  /** The hole is at height `h`. */
  ghost predicate FrameOk<K>(f: Frame<K>, h: nat, lo: nat, max: nat)
  {
    Sided(f) && AllShape(f.left, h, max) && AllShape(f.right, h, max) && lo <= |f.lv| + |f.rv| <= max
  }

  ghost predicate CtxOk<K>(c: Ctx<K>, h: nat, max: nat)
    decreases c
  {
    match c
    case Root => true
    case In(f, up) => FrameOk(f, h, 1, max) && CtxOk(up, h + 1, max)
  }

  function Depth<K>(c: Ctx<K>): nat
  {
    match c
    case Root => 0
    case In(_, up) => 1 + Depth(up)
  }

  ghost function LeftOf<K>(f: Frame<K>): seq<K>
    requires Sided(f)
  {
    Lefts(f.lv, Parts(f.left))
  }

  ghost function RightOf<K>(f: Frame<K>): seq<K>
    requires Sided(f)
  {
    Rights(f.rv, Parts(f.right))
  }

  /** What comes before and after the hole, in order. */
  ghost function Pre<K>(c: Ctx<K>): seq<K>
  {
    match c
    case Root => []
    case In(f, up) => if Sided(f) then Pre(up) + LeftOf(f) else []
  }

  ghost function Suf<K>(c: Ctx<K>): seq<K>
  {
    match c
    case Root => []
    case In(f, up) => if Sided(f) then RightOf(f) + Suf(up) else []
  }

  lemma FillContents<K>(f: Frame<K>, t: Tree<K>)
    requires Sided(f)
    ensures Contents(Fill(f, t)) == LeftOf(f) + Contents(t) + RightOf(f)
  {
    ContentsAround(f.lv, f.left, t, f.rv, f.right);
  }

  lemma {:induction false} PlugContents<K>(c: Ctx<K>, t: Tree<K>, h: nat, max: nat)
    requires CtxOk(c, h, max)
    ensures Contents(Plug(c, t)) == Pre(c) + Contents(t) + Suf(c)
    decreases c
  {
    hide LeftOf, RightOf, Contents;
    match c
    case Root =>
    case In(f, up) =>
      PlugContents(up, Fill(f, t), h + 1, max);
      FillContents(f, t);
  }

  lemma FillShape<K>(f: Frame<K>, t: Tree<K>, h: nat, lo: nat, max: nat)
    requires FrameOk(f, h, lo, max) && Shape(t, h, 1, max)
    ensures Shape(Fill(f, t), h + 1, lo, max)
  {
  }

  lemma {:induction false} PlugShape<K>(c: Ctx<K>, t: Tree<K>, h: nat, max: nat)
    requires CtxOk(c, h, max) && Shape(t, h, 1, max)
    ensures Shape(Plug(c, t), h + Depth(c), 1, max)
    decreases c
  {
    match c
    case Root =>
    case In(f, up) =>
      FillShape(f, t, h, 1, max);
      PlugShape(up, Fill(f, t), h + 1, max);
  }

  // ----------------------------------------------------------------- offsets

  /** How many values of `t` come before position `p`: before value `p` in a leaf, before kid `p`
      in an inner node. */
  ghost function Offset<K>(t: Tree<K>, p: nat): nat
    requires p <= |t.vals| && (t.Leaf() || |t.kids| == |t.vals| + 1)
  {
    if t.Leaf() then p else |Lefts(t.vals[..p], Parts(t.kids[..p]))|
  }

  /** A node followed by a value, seen from the left. */
  lemma LeftsOfNode<K>(t: Tree<K>, x: K)
    requires |t.kids| == |t.vals| + 1
    ensures Lefts(t.vals + [x], Parts(t.kids)) == Contents(t) + [x]
  {
    var p, n := Parts(t.kids), |t.vals|;
    LeftsConcat(t.vals, p[..n], [x], [p[n]]);
    assert p[..n] + [p[n]] == p;
    Around(t.vals, p[..n], p[n], [], []);
    assert p[..n] + [p[n]] + [] == p && t.vals + [] == t.vals;
    InnerContents(t);
    LeftsOne(x, p[n]);
  }

  lemma LeftsOne<K>(x: K, c: seq<K>)
    ensures Lefts([x], [c]) == c + [x]
    ensures Rights<K>([], []) == []
  {
  }

  /** Where a position of a node lands when the node is cut after `n` values. */
  lemma CutOffset<K>(t: Tree<K>, n: nat, p: nat, h: nat, max: nat)
    requires Level(t, h, max) && n < |t.vals| && p <= |t.vals|
    ensures p <= n ==> Offset(CutLeft(t, n), p) == Offset(t, p)
    ensures p > n ==> Offset(t, p) == |Contents(CutLeft(t, n))| + 1 + Offset(CutRight(t, n), p - n - 1)
  {
    hide Lefts, Parts, Contents, AllShape;
    if h > 0 {
      var l, r := CutLeft(t, n), CutRight(t, n);
      if p <= n {
        assert l.vals[..p] == t.vals[..p] && l.kids[..p] == t.kids[..p];
      } else {
        assert t.vals[..p] == (l.vals + [t.vals[n]]) + r.vals[..p - n - 1];
        assert t.kids[..p] == l.kids + r.kids[..p - n - 1];
        PartsConcat(l.kids, r.kids[..p - n - 1]);
        LeftsConcat(l.vals + [t.vals[n]], Parts(l.kids), r.vals[..p - n - 1], Parts(r.kids[..p - n - 1]));
        LeftsOfNode(l, t.vals[n]);
      }
    } else {
      LeafContents(CutLeft(t, n));
    }
  }

  // --------------------------------------------------------------- re-cutting

  /** A place to insert at: a node, its frame, a position in the node. */
  datatype Place<K> = Place(f: Frame<K>, node: Tree<K>, pos: nat)

  /** Cuts `t`, which fills the hole of `f`, after `n` values; position `q` of `t` decides which of
      the two halves the place is in. */
  function Choose<K>(f: Frame<K>, t: Tree<K>, n: nat, q: nat): Place<K>
    requires n < |t.vals| && (t.Leaf() || |t.kids| == |t.vals| + 1)
  {
    var l, x, r := CutLeft(t, n), t.vals[n], CutRight(t, n);
    if q <= n then Place(Frame(f.lv, f.left, [x] + f.rv, [r] + f.right), l, q)
    else Place(Frame(f.lv + [x], f.left + [l], f.rv, f.right), r, q - n - 1)
  }

  lemma FrameContents<K>(f: Frame<K>, x: K, t: Tree<K>)
    requires Sided(f)
    ensures LeftOf(Frame(f.lv + [x], f.left + [t], f.rv, f.right)) == LeftOf(f) + Contents(t) + [x]
    ensures RightOf(Frame(f.lv + [x], f.left + [t], f.rv, f.right)) == RightOf(f)
    ensures LeftOf(Frame(f.lv, f.left, [x] + f.rv, [t] + f.right)) == LeftOf(f)
    ensures RightOf(Frame(f.lv, f.left, [x] + f.rv, [t] + f.right)) == [x] + Contents(t) + RightOf(f)
  {
    hide Contents, Parts;
    PartsOne(t);
    PartsConcat(f.left, [t]);
    PartsConcat([t], f.right);
    LeftsConcat(f.lv, Parts(f.left), [x], [Contents(t)]);
    RightsConcat([x], [Contents(t)], f.rv, Parts(f.right));
    assert Rights([x], [Contents(t)]) == [x] + Contents(t);
  }

  /** Cutting changes no contents, and the place keeps its offset in order and the kid it is at. */
  lemma ChooseKeeps<K>(f: Frame<K>, t: Tree<K>, n: nat, q: nat, h: nat, max: nat)
    requires Sided(f) && Level(t, h, max) && n < |t.vals| && q <= |t.vals|
    ensures var p := Choose(f, t, n, q);
      Sided(p.f) && Level(p.node, h, max) && p.pos <= |p.node.vals| &&
      LeftOf(p.f) + Contents(p.node) + RightOf(p.f) == LeftOf(f) + Contents(t) + RightOf(f) &&
      |LeftOf(p.f)| + Offset(p.node, p.pos) == |LeftOf(f)| + Offset(t, q) &&
      (h > 0 ==> p.node.kids[p.pos] == t.kids[q])
  {
    hide Contents, LeftOf, RightOf, Offset, AllShape;
    var l, x, r := CutLeft(t, n), t.vals[n], CutRight(t, n);
    CutLevel(t, n, h, max);
    CutContents(t, n, h, max);
    CutOffset(t, n, q, h, max);
    FrameContents(f, x, l);
    FrameContents(f, x, r);
  }

  /** Both halves keep at least one value, except that the chosen one may be empty. */
  lemma ChooseFrame<K>(f: Frame<K>, t: Tree<K>, n: nat, q: nat, h: nat, max: nat)
    requires FrameOk(f, h, 0, max) && Level(t, h, max) && n < |t.vals| && q <= |t.vals|
    requires |f.lv| + |f.rv| < max
    requires if q <= n then 1 <= |t.vals| - n - 1 <= max else 1 <= n <= max
    ensures FrameOk(Choose(f, t, n, q).f, h, 1, max)
  {
    CutLevel(t, n, h, max);
  }
}
