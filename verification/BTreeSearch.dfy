/** Searching: positions in a node, the leaf position of a key. */
module BTreeSearch {
  import opened Basics
  import opened BTreeShape
  import opened BTreeContext
  import opened BTreeInsert

  type Less<!K> = (K, K) -> bool

  /** The comparison is a strict order in which incomparable keys count as equal. */
  ghost predicate StrictOrder<K(!new)>(less: Less<K>)
  {
    (forall x :: !less(x, x)) &&
    (forall x, y, z :: less(x, y) && less(y, z) ==> less(x, z)) &&
    (forall x, y, z :: less(x, z) ==> less(x, y) || less(y, z))
  }

  ghost predicate Sorted<K>(s: seq<K>, less: Less<K>)
  {
    forall i, j :: 0 <= i < j < |s| ==> less(s[i], s[j])
  }

  /** `r` is the first index of `s` whose key is not less than `key`. */
  ghost predicate SplitsAt<K>(s: seq<K>, r: nat, key: K, less: Less<K>)
  {
    r <= |s| &&
    (forall i :: 0 <= i < r ==> less(s[i], key)) &&
    (forall i :: r <= i < |s| ==> !less(s[i], key))
  }

  method LinearSearch<K(!new)>(vals: seq<K>, key: K, less: Less<K>) returns (s: nat)
    requires StrictOrder(less) && Sorted(vals, less)
    ensures SplitsAt(vals, s, key, less)
  {
    s := 0;
    while s < |vals|
      invariant s <= |vals| && forall i :: 0 <= i < s ==> less(vals[i], key)
    {
      if !less(vals[s], key) {
        break;
      }
      s := s + 1;
    }
  }

  method BinarySearch<K(!new)>(vals: seq<K>, key: K, less: Less<K>) returns (s: nat)
    requires StrictOrder(less) && Sorted(vals, less)
    ensures SplitsAt(vals, s, key, less)
  {
    s := 0;
    var e := |vals|;
    while s != e
      invariant s <= e <= |vals|
      invariant forall i :: 0 <= i < s ==> less(vals[i], key)
      invariant forall i :: e <= i < |vals| ==> !less(vals[i], key)
      decreases e - s
    {
      var mid := (s + e) / 2;
      if less(vals[mid], key) {
        s := mid + 1;
      } else {
        e := mid;
      }
    }
  }

  /** What both searches compute. */
  function LowerBound<K>(vals: seq<K>, key: K, less: Less<K>): (p: nat)
    ensures p <= |vals|
    ensures forall i :: 0 <= i < p ==> less(vals[i], key)
    ensures p < |vals| ==> !less(vals[p], key)
  {
    if vals == [] || !less(vals[0], key) then 0 else 1 + LowerBound(vals[1..], key, less)
  }

  /** The searches agree with it on sorted values. */
  lemma SearchResult<K(!new)>(vals: seq<K>, s: nat, key: K, less: Less<K>)
    requires SplitsAt(vals, s, key, less)
    ensures s == LowerBound(vals, key, less)
  {
    var p := LowerBound(vals, key, less);
    assert p < |vals| ==> !less(vals[p], key);
    assert s < |vals| ==> !less(vals[s], key);
  }

  /** A sorted sequence splits at `r` as soon as its elements next to `r` are on the right sides. */
  lemma SplitsBetween<K(!new)>(s: seq<K>, r: nat, key: K, less: Less<K>)
    requires StrictOrder(less) && Sorted(s, less) && r <= |s|
    requires r > 0 ==> less(s[r - 1], key)
    requires r < |s| ==> !less(s[r], key)
    ensures SplitsAt(s, r, key, less)
  {
  }

  /** The leaf and the position in it where `key` would go, from `t` in context `c` down. */
  function Descend<K>(c: Ctx<K>, t: Tree<K>, key: K, less: Less<K>, h: nat, max: nat): (r: Room<K>)
    requires CtxOk(c, h, max) && Shape(t, h, if c.Root? then 0 else 1, max) && (t.Leaf() || |t.vals| > 0)
    ensures CtxOk(r.ctx, 0, max) && Shape(r.node, 0, if r.ctx.Root? then 0 else 1, max) && r.pos <= |r.node.vals|
    ensures Plug(r.ctx, r.node) == Plug(c, t)
    ensures Depth(r.ctx) == Depth(c) + h
    decreases h
  {
    var p := LowerBound(t.vals, key, less);
    LevelKids(t, h, max);
    if t.Leaf() then Room(c, t, p)
    else
      HoleFill(t, p, h - 1, max);
      Descend(In(HoleAt(t, p), c), t.kids[p], key, less, h - 1, max)
  }

  /** `key` belongs between what comes before the hole and what comes after it. */
  ghost predicate Bracket<K>(c: Ctx<K>, key: K, less: Less<K>)
  {
    (Pre(c) != [] ==> less(Pre(c)[|Pre(c)| - 1], key)) &&
    (Suf(c) != [] ==> !less(Suf(c)[0], key))
  }

  lemma HoleEnds<K>(t: Tree<K>, p: nat)
    requires p <= |t.vals| && |t.kids| == |t.vals| + 1
    ensures var l, r := LeftOf(HoleAt(t, p)), RightOf(HoleAt(t, p));
      (if p == 0 then l == [] else |l| > 0 && l[|l| - 1] == t.vals[p - 1]) &&
      (if p == |t.vals| then r == [] else |r| > 0 && r[0] == t.vals[p])
  {
    var f := HoleAt(t, p);
    if p > 0 {
      hide Contents;
      assert f == Frame(WithoutLast(f).lv + [t.vals[p - 1]], WithoutLast(f).left + [t.kids[p - 1]], f.rv, f.right);
      FrameContents(WithoutLast(f), t.vals[p - 1], t.kids[p - 1]);
    }
  }

  /** It belongs into the kid that the search leads to. */
  lemma BracketIn<K>(c: Ctx<K>, t: Tree<K>, key: K, less: Less<K>)
    requires Bracket(c, key, less) && |t.kids| == |t.vals| + 1
    ensures Bracket(In(HoleAt(t, LowerBound(t.vals, key, less)), c), key, less)
  {
    hide Contents, LeftOf, RightOf, HoleAt;
    HoleEnds(t, LowerBound(t.vals, key, less));
  }

  lemma {:induction false} DescendBracket<K>(c: Ctx<K>, t: Tree<K>, key: K, less: Less<K>, h: nat, max: nat)
    requires CtxOk(c, h, max) && Shape(t, h, if c.Root? then 0 else 1, max) && (t.Leaf() || |t.vals| > 0)
    requires Bracket(c, key, less)
    ensures var r := Descend(c, t, key, less, h, max);
      Bracket(r.ctx, key, less) && r.pos == LowerBound(r.node.vals, key, less)
    decreases h
  {
    hide Contents, LeftOf, RightOf, AllShape, Bracket;
    var p := LowerBound(t.vals, key, less);
    LevelKids(t, h, max);
    if !t.Leaf() {
      HoleFill(t, p, h - 1, max);
      BracketIn(c, t, key, less);
      DescendBracket(In(HoleAt(t, p), c), t.kids[p], key, less, h - 1, max);
    }
  }

  /** The first value at or after a position, climbing past the ends of nodes; none at the end. */
  function ValueAt<K>(c: Ctx<K>, vals: seq<K>, pos: nat): Option<K>
    decreases c
  {
    if pos < |vals| then Some(vals[pos])
    else match c
      case Root => None
      case In(f, up) => ValueAt(up, f.lv + f.rv, |f.lv|)
  }

  lemma {:induction false} ValueAtIs<K>(c: Ctx<K>, vals: seq<K>, pos: nat, h: nat, max: nat)
    requires CtxOk(c, h, max) && pos == |vals|
    ensures ValueAt(c, vals, pos) == if Suf(c) == [] then None else Some(Suf(c)[0])
    decreases c
  {
    match c
    case Root =>
    case In(f, up) =>
      if f.rv == [] {
        assert f.lv + f.rv == f.lv;
        ValueAtIs(up, f.lv + f.rv, |f.lv|, h + 1, max);
      } else {
        assert RightOf(f)[0] == f.rv[0];
      }
  }

  /** Descending from the root finds the rank of the key in the whole tree, and the value there. */
  lemma LocateRank<K(!new)>(root: Tree<K>, key: K, less: Less<K>, h: nat, max: nat)
    requires StrictOrder(less) && Shape(root, h, 0, max) && (root.Leaf() || |root.vals| > 0)
    requires Sorted(Contents(root), less)
    ensures var r, s := Descend(Root, root, key, less, h, max), Contents(root);
      var k := |Pre(r.ctx)| + r.pos;
      s == Pre(r.ctx) + r.node.vals + Suf(r.ctx) && SplitsAt(s, k, key, less) &&
      ValueAt(r.ctx, r.node.vals, r.pos) == if k < |s| then Some(s[k]) else None
  {
    hide Contents, LeftOf, RightOf, AllShape, Descend, LowerBound;
    var r, s := Descend(Root, root, key, less, h, max), Contents(root);
    DescendBracket(Root, root, key, less, h, max);
    PlugContents(r.ctx, r.node, 0, max);
    LeafContents(r.node);
    RankBetween(Pre(r.ctx), r.node.vals, Suf(r.ctx), r.pos, key, less);
    if r.pos == |r.node.vals| {
      ValueAtIs(r.ctx, r.node.vals, r.pos, 0, max);
    }
  }

  lemma RankBetween<K(!new)>(pre: seq<K>, vals: seq<K>, suf: seq<K>, p: nat, key: K, less: Less<K>)
    requires StrictOrder(less) && Sorted(pre + vals + suf, less) && p == LowerBound(vals, key, less)
    requires pre != [] ==> less(pre[|pre| - 1], key)
    requires suf != [] ==> !less(suf[0], key)
    ensures SplitsAt(pre + vals + suf, |pre| + p, key, less)
  {
    var s, r := pre + vals + suf, |pre| + p;
    assert r > 0 ==> s[r - 1] == if p > 0 then vals[p - 1] else pre[|pre| - 1];
    assert r < |s| ==> s[r] == if p < |vals| then vals[p] else suf[0];
    SplitsBetween(s, r, key, less);
  }
}
