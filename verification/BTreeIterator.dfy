/** Iterators: a path of kid indexes down to a node and a position in it. */
module BTreeIterator {
  import opened Basics
  import opened BTreeShape
  import opened BTreeContext
  import opened BTreeInsert
  import opened BTreeSearch

  type Path = seq<nat>

  /** `path` leads to a position of `t`; in a leaf the position may be one past the last value. */
  ghost predicate ValidPath<K>(t: Tree<K>, path: Path)
    decreases |path|
  {
    |path| > 0 &&
    if |path| == 1 then (if t.Leaf() then path[0] <= |t.vals| else path[0] < |t.vals| && |t.kids| == |t.vals| + 1)
    else |t.kids| == |t.vals| + 1 && path[0] <= |t.vals| && ValidPath(t.kids[path[0]], path[1..])
  }

  /** How many values come before the position, in order. */
  ghost function Rank<K>(t: Tree<K>, path: Path): nat
    requires ValidPath(t, path)
    decreases |path|
  {
    if |path| > 1 then Offset(t, path[0]) + Rank(t.kids[path[0]], path[1..])
    else if t.Leaf() then path[0]
    else Offset(t, path[0]) + |Contents(t.kids[path[0]])|
  }

  /** The path leads to a value. */
  ghost predicate Points<K>(t: Tree<K>, path: Path)
    decreases |path|
  {
    ValidPath(t, path) &&
    if |path| == 1 then path[0] < |t.vals| else Points(t.kids[path[0]], path[1..])
  }

  function Value<K>(t: Tree<K>, path: Path): K
    requires Points(t, path)
    decreases |path|
  {
    if |path| == 1 then t.vals[path[0]] else Value(t.kids[path[0]], path[1..])
  }

  function First<K>(t: Tree<K>, h: nat, max: nat): (path: Path)
    requires Shape(t, h, 1, max)
    ensures Points(t, path)
    decreases h
  {
    LevelKids(t, h, max);
    if t.Leaf() then [0] else
      KidShape(t, h, max, 0);
      var rest := First(t.kids[0], h - 1, max);
      assert ([0] + rest)[1..] == rest;
      [0] + rest
  }

  function Last<K>(t: Tree<K>, h: nat, max: nat): (path: Path)
    requires Shape(t, h, 1, max)
    ensures Points(t, path)
    decreases h
  {
    LevelKids(t, h, max);
    if t.Leaf() then [|t.vals| - 1] else
      KidShape(t, h, max, |t.vals|);
      var rest := Last(t.kids[|t.vals|], h - 1, max);
      assert ([|t.vals|] + rest)[1..] == rest;
      [|t.vals|] + rest
  }

  // ----------------------------------------------------------------- offsets

  lemma OffsetStep<K>(t: Tree<K>, p: nat)
    requires |t.kids| == |t.vals| + 1 && p <= |t.vals|
    ensures p < |t.vals| ==> Offset(t, p + 1) == Offset(t, p) + |Contents(t.kids[p])| + 1
    ensures p == |t.vals| ==> |Contents(t)| == Offset(t, p) + |Contents(t.kids[p])|
    ensures Offset(t, 0) == 0
  {
    hide Contents, Parts;
    if p < |t.vals| {
      assert t.vals[..p + 1] == t.vals[..p] + [t.vals[p]];
      assert t.kids[..p + 1] == t.kids[..p] + [t.kids[p]];
      PartsConcat(t.kids[..p], [t.kids[p]]);
      PartsOne(t.kids[p]);
      LeftsConcat(t.vals[..p], Parts(t.kids[..p]), [t.vals[p]], [Contents(t.kids[p])]);
      LeftsOne(t.vals[p], Contents(t.kids[p]));
    } else {
      ContentsAround(t.vals[..p], t.kids[..p], t.kids[p], [], []);
      assert t.vals[..p] + [] == t.vals && t.kids[..p] + [t.kids[p]] + [] == t.kids;
    }
  }

  /** The contents of an inner node at and after kid `p`. */
  lemma ContentsFrom<K>(t: Tree<K>, p: nat)
    requires |t.kids| == |t.vals| + 1 && p <= |t.vals|
    ensures var o, c := Offset(t, p), Contents(t.kids[p]);
      o + |c| <= |Contents(t)| && Contents(t)[o..o + |c|] == c &&
      (p < |t.vals| ==> o + |c| < |Contents(t)| && Contents(t)[o + |c|] == t.vals[p])
  {
    hide Contents, Parts;
    var f := HoleAt(t, p);
    assert t.vals == f.lv + f.rv && t.kids == f.left + [t.kids[p]] + f.right;
    FillContents(f, t.kids[p]);
    HoleEnds(t, p);
  }

  /** A path that leads to a value leads to the value of its rank. */
  lemma {:induction false} PointsAt<K>(t: Tree<K>, path: Path)
    requires Points(t, path)
    ensures Rank(t, path) < |Contents(t)| && Contents(t)[Rank(t, path)] == Value(t, path)
    decreases |path|
  {
    hide Offset;
    if |path| > 1 {
      PointsAt(t.kids[path[0]], path[1..]);
      ContentsFrom(t, path[0]);
    } else if !t.Leaf() {
      ContentsFrom(t, path[0]);
    }
  }

  lemma {:induction false} FirstRank<K>(t: Tree<K>, h: nat, max: nat)
    requires Shape(t, h, 1, max)
    ensures Rank(t, First(t, h, max)) == 0
    decreases h
  {
    LevelKids(t, h, max);
    if !t.Leaf() {
      KidShape(t, h, max, 0);
      FirstRank(t.kids[0], h - 1, max);
      OffsetStep(t, 0);
      assert First(t, h, max)[1..] == First(t.kids[0], h - 1, max);
    }
  }

  lemma {:induction false} LastRank<K>(t: Tree<K>, h: nat, max: nat)
    requires Shape(t, h, 1, max)
    ensures Rank(t, Last(t, h, max)) + 1 == |Contents(t)|
    decreases h
  {
    LevelKids(t, h, max);
    if !t.Leaf() {
      KidShape(t, h, max, |t.vals|);
      LastRank(t.kids[|t.vals|], h - 1, max);
      OffsetStep(t, |t.vals|);
      assert Last(t, h, max)[1..] == Last(t.kids[|t.vals|], h - 1, max);
    }
  }

  // --------------------------------------------------- increment and decrement

  /** The next value inside `t`, if there is one. */
  function Next<K>(t: Tree<K>, path: Path, h: nat, max: nat): (next: Option<Path>)
    requires Shape(t, h, 1, max) && Points(t, path)
    ensures next.Some? ==> Points(t, next.value)
    decreases |path|
  {
    LevelKids(t, h, max);
    var i := path[0];
    if |path| == 1 then
      if t.Leaf() then (if i + 1 < |t.vals| then Some([i + 1]) else None)
      else
        KidShape(t, h, max, i + 1);
        var rest := First(t.kids[i + 1], h - 1, max);
        assert ([i + 1] + rest)[1..] == rest;
        Some([i + 1] + rest)
    else
      KidShape(t, h, max, i);
      match Next(t.kids[i], path[1..], h - 1, max)
      case Some(rest) =>
        assert ([i] + rest)[1..] == rest;
        Some([i] + rest)
      case None => if i < |t.vals| then Some([i]) else None
  }

  function Prev<K>(t: Tree<K>, path: Path, h: nat, max: nat): (prev: Option<Path>)
    requires Shape(t, h, 1, max) && Points(t, path)
    ensures prev.Some? ==> Points(t, prev.value)
    decreases |path|
  {
    LevelKids(t, h, max);
    var i := path[0];
    if |path| == 1 then
      if t.Leaf() then (if i > 0 then Some([i - 1]) else None)
      else
        KidShape(t, h, max, i);
        var rest := Last(t.kids[i], h - 1, max);
        assert ([i] + rest)[1..] == rest;
        Some([i] + rest)
    else
      KidShape(t, h, max, i);
      match Prev(t.kids[i], path[1..], h - 1, max)
      case Some(rest) =>
        assert ([i] + rest)[1..] == rest;
        Some([i] + rest)
      case None => if i > 0 then Some([i - 1]) else None
  }

  /** Incrementing moves to the value of the next rank; there is none only at the last value. */
  lemma {:induction false} NextRank<K>(t: Tree<K>, path: Path, h: nat, max: nat)
    requires Shape(t, h, 1, max) && Points(t, path)
    ensures match Next(t, path, h, max)
      case Some(q) => Rank(t, q) == Rank(t, path) + 1
      case None => Rank(t, path) + 1 == |Contents(t)|
    decreases |path|
  {
    hide Offset, Contents, First, AllShape;
    LevelKids(t, h, max);
    var i := path[0];
    if |path| == 1 {
      if t.Leaf() {
        LeafContents(t);
      } else {
        KidShape(t, h, max, i + 1);
        FirstRank(t.kids[i + 1], h - 1, max);
        OffsetStep(t, i);
        assert Next(t, path, h, max).value[1..] == First(t.kids[i + 1], h - 1, max);
      }
    } else {
      KidShape(t, h, max, i);
      NextRank(t.kids[i], path[1..], h - 1, max);
      OffsetStep(t, i);
      match Next(t.kids[i], path[1..], h - 1, max)
      case Some(rest) => assert ([i] + rest)[1..] == rest;
      case None =>
    }
  }

  lemma {:induction false} PrevRank<K>(t: Tree<K>, path: Path, h: nat, max: nat)
    requires Shape(t, h, 1, max) && Points(t, path)
    ensures match Prev(t, path, h, max)
      case Some(q) => Rank(t, q) + 1 == Rank(t, path)
      case None => Rank(t, path) == 0
    decreases |path|
  {
    hide Offset, Contents, Last, AllShape;
    LevelKids(t, h, max);
    var i := path[0];
    if |path| == 1 {
      if !t.Leaf() {
        KidShape(t, h, max, i);
        LastRank(t.kids[i], h - 1, max);
        assert Prev(t, path, h, max).value[1..] == Last(t.kids[i], h - 1, max);
      }
    } else {
      KidShape(t, h, max, i);
      PrevRank(t.kids[i], path[1..], h - 1, max);
      if i > 0 {
        OffsetStep(t, i - 1);
      }
      OffsetStep(t, 0);
      match Prev(t.kids[i], path[1..], h - 1, max)
      case Some(rest) => assert ([i] + rest)[1..] == rest;
      case None =>
    }
  }
}
