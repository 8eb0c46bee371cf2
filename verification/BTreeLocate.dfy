/** Searching with a three-way comparison, as trees keyed by strings do: a match in an inner node ends
    the descent. */
module BTreeLocate {
  import opened Basics
  import opened BTreeShape
  import opened BTreeContext
  import opened BTreeInsert
  import opened BTreeSearch
  import opened BTreeIterator
  import opened BTreeSet
  import opened BTreeErase
  import opened BTreeRuns

  /** The value at a lower bound is the key. */
  predicate Matches<K>(vals: seq<K>, p: nat, key: K, less: Less<K>)
  {
    p < |vals| && !less(key, vals[p])
  }

  method LinearSearchTo<K(!new)>(vals: seq<K>, key: K, less: Less<K>) returns (s: nat, exact: bool)
    requires StrictOrder(less) && Sorted(vals, less)
    ensures SplitsAt(vals, s, key, less) && (exact <==> Matches(vals, s, key, less))
  {
    s := 0;
    while s < |vals|
      invariant s <= |vals| && forall i :: 0 <= i < s ==> less(vals[i], key)
    {
      if !less(vals[s], key) {
        return s, !less(key, vals[s]);
      }
      s := s + 1;
    }
    exact := false;
  }

  /** The positions from lo up to hi are left to search. A match at mid goes on searching below mid. */
  method BinarySearchTo<K(!new)>(vals: seq<K>, key: K, less: Less<K>, lo: nat, hi: nat) returns (s: nat, exact: bool)
    requires StrictOrder(less) && Sorted(vals, less) && lo <= hi <= |vals|
    requires forall i :: 0 <= i < lo ==> less(vals[i], key)
    requires forall i :: hi <= i < |vals| ==> !less(vals[i], key)
    ensures SplitsAt(vals, s, key, less) && s <= hi && (exact <==> s < hi && Matches(vals, s, key, less))
    decreases hi
  {
    s := lo;
    var e := hi;
    while s != e
      invariant lo <= s <= e <= hi
      invariant forall i :: 0 <= i < s ==> less(vals[i], key)
      invariant forall i :: e <= i < |vals| ==> !less(vals[i], key)
      invariant forall i :: e <= i < hi ==> less(key, vals[i])
      decreases e - s
    {
      var mid := (s + e) / 2;
      if less(vals[mid], key) {
        s := mid + 1;
      } else if less(key, vals[mid]) {
        e := mid;
      } else {
        var below;
        s, below := BinarySearchTo(vals, key, less, s, mid);
        return s, true;
      }
    }
    exact := false;
  }

  /** Where a descent ends, and whether it ends on the key. */
  datatype Located<K> = Located(at: Room<K>, exact: bool)

  function DescendTo<K>(c: Ctx<K>, t: Tree<K>, key: K, less: Less<K>, h: nat, max: nat): Located<K>
    requires CtxOk(c, h, max) && Shape(t, h, if c.Root? then 0 else 1, max) && (t.Leaf() || |t.vals| > 0)
    decreases h
  {
    var p := LowerBound(t.vals, key, less);
    LevelKids(t, h, max);
    if Matches(t.vals, p, key, less) then Located(Room(c, t, p), true)
    else if t.Leaf() then Located(Room(c, t, p), false)
    else
      HoleFill(t, p, h - 1, max);
      DescendTo(In(HoleAt(t, p), c), t.kids[p], key, less, h - 1, max)
  }

  /** The value that follows a subtree in the given context is above the key. */
  ghost predicate FollowedAbove<K>(c: Ctx<K>, key: K, less: Less<K>)
  {
    var next := ValueAt(c, [], 0);
    next.Some? ==> less(key, next.value)
  }

  lemma FollowingKid<K>(c: Ctx<K>, t: Tree<K>, p: nat)
    requires p <= |t.vals| && |t.kids| == |t.vals| + 1
    ensures ValueAt(In(HoleAt(t, p), c), [], 0) == if p < |t.vals| then Some(t.vals[p]) else ValueAt(c, [], 0)
  {
    var f := HoleAt(t, p);
    assert f.lv + f.rv == t.vals;
  }

  /** A descent without a match is the plain one, and what follows its end is above the key. */
  lemma {:induction false} Missed<K>(c: Ctx<K>, t: Tree<K>, key: K, less: Less<K>, h: nat, max: nat)
    requires CtxOk(c, h, max) && Shape(t, h, if c.Root? then 0 else 1, max) && (t.Leaf() || |t.vals| > 0)
    requires FollowedAbove(c, key, less)
    ensures var r := DescendTo(c, t, key, less, h, max);
      !r.exact ==>
        && r.at == Descend(c, t, key, less, h, max)
        && var found := ValueAt(r.at.ctx, r.at.node.vals, r.at.pos);
           found.Some? ==> less(key, found.value)
    decreases h
  {
    hide Contents, LeftOf, RightOf, AllShape, LowerBound;
    var p := LowerBound(t.vals, key, less);
    LevelKids(t, h, max);
    if !t.Leaf() && !Matches(t.vals, p, key, less) {
      HoleFill(t, p, h - 1, max);
      FollowingKid(c, t, p);
      Missed(In(HoleAt(t, p), c), t.kids[p], key, less, h - 1, max);
    }
  }

  ghost predicate AllBelow<K>(s: seq<K>, key: K, less: Less<K>)
  {
    forall i :: 0 <= i < |s| ==> less(s[i], key)
  }

  lemma LowerBoundEnd<K>(vals: seq<K>, key: K, less: Less<K>)
    requires AllBelow(vals, key, less)
    ensures LowerBound(vals, key, less) == |vals|
  {
  }

  /** Values and kids of a node whose contents are below the key are below it. */
  lemma PartsBelow<K>(t: Tree<K>, key: K, less: Less<K>)
    requires AllBelow(Contents(t), key, less) && (t.Leaf() || |t.kids| == |t.vals| + 1)
    ensures AllBelow(t.vals, key, less)
    ensures !t.Leaf() ==> AllBelow(Contents(t.kids[|t.vals|]), key, less)
  {
    hide Contents, Offset;
    if t.Leaf() {
      LeafContents(t);
    } else {
      forall i | 0 <= i < |t.vals|
        ensures less(t.vals[i], key)
      {
        ContentsFrom(t, i);
      }
      ContentsFrom(t, |t.vals|);
      var o, s := Offset(t, |t.vals|), Contents(t.kids[|t.vals|]);
      assert forall i :: 0 <= i < |s| ==> s[i] == Contents(t)[o..o + |s|][i] == Contents(t)[o + i];
    }
  }

  /** A plain descent for a key above all of a subtree ends behind it. */
  lemma {:induction false} RightEnd<K>(c: Ctx<K>, t: Tree<K>, key: K, less: Less<K>, h: nat, max: nat)
    requires CtxOk(c, h, max) && Shape(t, h, if c.Root? then 0 else 1, max) && (t.Leaf() || |t.vals| > 0)
    requires AllBelow(Contents(t), key, less)
    ensures var d := Descend(c, t, key, less, h, max);
      && ClimbedPath(d.ctx, d.node.vals, d.pos) == ClimbedPath(c, t.vals, |t.vals|)
      && ValueAt(d.ctx, d.node.vals, d.pos) == ValueAt(c, t.vals, |t.vals|)
    decreases h
  {
    hide Contents, LeftOf, RightOf, AllShape, LowerBound, AllBelow;
    LevelKids(t, h, max);
    PartsBelow(t, key, less);
    LowerBoundEnd(t.vals, key, less);
    if !t.Leaf() {
      var p := |t.vals|;
      HoleFill(t, p, h - 1, max);
      var f := HoleAt(t, p);
      assert f.lv + f.rv == t.vals;
      RightEnd(In(f, c), t.kids[p], key, less, h - 1, max);
    }
  }

  /** Contents of a kid of a sorted node are sorted, and below the value after it. */
  lemma KidSorted<K(!new)>(t: Tree<K>, p: nat, key: K, less: Less<K>)
    requires StrictOrder(less) && Sorted(Contents(t), less) && |t.kids| == |t.vals| + 1 && p <= |t.vals|
    ensures Sorted(Contents(t.kids[p]), less)
    ensures Matches(t.vals, p, key, less) ==> AllBelow(Contents(t.kids[p]), key, less)
  {
    hide Contents, Offset;
    ContentsFrom(t, p);
    var o, s := Offset(t, p), Contents(t.kids[p]);
    assert forall i :: 0 <= i < |s| ==> s[i] == Contents(t)[o..o + |s|][i] == Contents(t)[o + i];
    if Matches(t.vals, p, key, less) {
      forall i | 0 <= i < |s|
        ensures less(s[i], key)
      {
        assert less(Contents(t)[o + i], Contents(t)[o + |s|]);
      }
    }
  }

  /** A descent that ends on a match ends where the plain one climbs to. */
  lemma {:induction false} Met<K(!new)>(c: Ctx<K>, t: Tree<K>, key: K, less: Less<K>, h: nat, max: nat)
    requires CtxOk(c, h, max) && Shape(t, h, if c.Root? then 0 else 1, max) && (t.Leaf() || |t.vals| > 0)
    requires StrictOrder(less) && Sorted(Contents(t), less)
    ensures var r, d := DescendTo(c, t, key, less, h, max), Descend(c, t, key, less, h, max);
      r.exact ==>
        && Matches(r.at.node.vals, r.at.pos, key, less)
        && ClimbedPath(d.ctx, d.node.vals, d.pos) == PathOf(r.at.ctx) + [r.at.pos]
        && ValueAt(d.ctx, d.node.vals, d.pos) == Some(r.at.node.vals[r.at.pos])
    decreases h
  {
    hide Contents, LeftOf, RightOf, AllShape, LowerBound, Sorted, StrictOrder, AllBelow;
    var p := LowerBound(t.vals, key, less);
    LevelKids(t, h, max);
    if !t.Leaf() {
      HoleFill(t, p, h - 1, max);
      KidSorted(t, p, key, less);
      var f := HoleAt(t, p);
      assert f.lv + f.rv == t.vals;
      if Matches(t.vals, p, key, less) {
        RightEnd(In(f, c), t.kids[p], key, less, h - 1, max);
      } else {
        Met(In(f, c), t.kids[p], key, less, h - 1, max);
      }
    }
  }

  // ---------------------------------------------------------- whole operations

  /** A match found from the root is what the plain search climbs to; a miss finds nothing equal. */
  lemma LocatedSame<K(!new)>(root: Tree<K>, key: K, less: Less<K>, h: nat, max: nat)
    requires Shape(root, h, 0, max) && (root.Leaf() || |root.vals| > 0)
    requires StrictOrder(less) && Sorted(Contents(root), less)
    ensures var r, d := DescendTo(Root, root, key, less, h, max), Descend(Root, root, key, less, h, max);
      var found := ValueAt(d.ctx, d.node.vals, d.pos);
      && (r.exact <==> found.Some? && !less(key, found.value))
      && (!r.exact ==> r.at == d)
      && (r.exact ==> PathOf(r.at.ctx) + [r.at.pos] == ClimbedPath(d.ctx, d.node.vals, d.pos))
  {
    hide Descend, DescendTo, Contents, AllShape, Sorted, StrictOrder, PathOf, ClimbedPath;
    Missed(Root, root, key, less, h, max);
    Met(Root, root, key, less, h, max);
  }

  /** insert_unique with a three-way comparison. */
  function InsertUniqueTo<K(!new)>(b: BTree<K>, key: K, less: Less<K>, max: nat): Outcome<K>
    requires ValidTree(b, less, max) && max >= 3 && StrictOrder(less)
  {
    var base := Started(b);
    StartedShape(b, less, max);
    LocatedSame(base.root, key, less, Height(base.root), max);
    var r := DescendTo(Root, base.root, key, less, Height(base.root), max);
    if r.exact then Outcome(b, PathOf(r.at.ctx) + [r.at.pos], false)
    else
      LocatedFits(b, r.at, less, max);
      var i := InternalInsert(base, r.at, key, max);
      Outcome(i.tree, i.path, true)
  }

  /** erase_unique with a three-way comparison. */
  function EraseUniqueTo<K(!new)>(b: BTree<K>, key: K, less: Less<K>, max: nat): (BTree<K>, nat)
    requires ValidTree(b, less, max) && max >= 3 && StrictOrder(less)
  {
    if b.Empty? then (b, 0)
    else
      LocatedSame(b.root, key, less, Height(b.root), max);
      var r := DescendTo(Root, b.root, key, less, Height(b.root), max);
      if r.exact then
        MatchPoints(b, key, less, max);
        (Erase(b, PathOf(r.at.ctx) + [r.at.pos], less, max).tree, 1)
      else (b, 0)
  }

  lemma MatchPoints<K(!new)>(b: BTree<K>, key: K, less: Less<K>, max: nat)
    requires ValidTree(b, less, max) && max >= 3 && StrictOrder(less) && b.Rooted?
    ensures var r := DescendTo(Root, b.root, key, less, Height(b.root), max);
      r.exact ==> Points(b.root, PathOf(r.at.ctx) + [r.at.pos])
  {
    hide Descend, DescendTo, Contents, AllShape, Sorted, StrictOrder, ClimbedPath, Points, Rank;
    LocatedSame(b.root, key, less, Height(b.root), max);
    var d := Descend(Root, b.root, key, less, Height(b.root), max);
    if DescendTo(Root, b.root, key, less, Height(b.root), max).exact {
      ClimbedRank(d.ctx, d.node, d.pos, 0, max);
    }
  }

  /** Both comparisons insert and erase the same, iterators included. */
  lemma SameInsert<K(!new)>(b: BTree<K>, key: K, less: Less<K>, max: nat)
    requires ValidTree(b, less, max) && max >= 3 && StrictOrder(less)
    ensures InsertUniqueTo(b, key, less, max) == InsertUnique(b, key, less, max)
  {
    hide Descend, DescendTo, Contents, AllShape, Sorted, StrictOrder, PathOf, ClimbedPath, InternalInsert;
    var base := Started(b);
    StartedShape(b, less, max);
    LocatedSame(base.root, key, less, Height(base.root), max);
  }

  lemma SameErase<K(!new)>(b: BTree<K>, key: K, less: Less<K>, max: nat)
    requires ValidTree(b, less, max) && max >= 3 && StrictOrder(less)
    ensures EraseUniqueTo(b, key, less, max) == EraseUnique(b, key, less, max)
  {
    hide Descend, DescendTo, Contents, AllShape, Sorted, StrictOrder, PathOf, ClimbedPath, Erase;
    if b.Rooted? {
      LocatedSame(b.root, key, less, Height(b.root), max);
    }
  }
}
