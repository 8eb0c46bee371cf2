/** B-trees as values: nodes, in-order contents, shape, joining and cutting. */
module BTreeShape {

  /** A leaf has no kids; an inner node has one more kid than values. */
  datatype Tree<K> = Node(vals: seq<K>, kids: seq<Tree<K>>) {
    predicate Leaf() { kids == [] }
  }

  // ---------------------------------------------------------------- contents

  /** parts[0] vals[0] parts[1] vals[1] ... */
  ghost function Lefts<K>(vals: seq<K>, parts: seq<seq<K>>): seq<K>
    requires |parts| == |vals|
  {
    if vals == [] then [] else parts[0] + [vals[0]] + Lefts(vals[1..], parts[1..])
  }

  /** vals[0] parts[0] vals[1] parts[1] ... */
  ghost function Rights<K>(vals: seq<K>, parts: seq<seq<K>>): seq<K>
    requires |parts| == |vals|
  {
    if vals == [] then [] else [vals[0]] + parts[0] + Rights(vals[1..], parts[1..])
  }

  /** The values of a tree in order. */
  ghost function Contents<K>(t: Tree<K>): seq<K>
    decreases t, 1
  {
    if |t.kids| != |t.vals| + 1 then t.vals
    else Parts(t.kids)[0] + Rights(t.vals, Parts(t.kids)[1..])
  }

  ghost function Parts<K>(kids: seq<Tree<K>>): (p: seq<seq<K>>)
    ensures |p| == |kids|
    decreases kids, 0
  {
    seq(|kids|, i requires 0 <= i < |kids| => Contents(kids[i]))
  }

  lemma Associate<K>(a: seq<K>, b: seq<K>, c: seq<K>)
    ensures a + (b + c) == (a + b) + c
  {
  }

  lemma {:induction false} LeftsConcat<K>(v: seq<K>, p: seq<seq<K>>, w: seq<K>, q: seq<seq<K>>)
    requires |p| == |v| && |q| == |w|
    ensures Lefts(v + w, p + q) == Lefts(v, p) + Lefts(w, q)
  {
    if v == [] {
      assert v + w == w && p + q == q;
    } else {
      LeftsConcat(v[1..], p[1..], w, q);
      assert (v + w)[1..] == v[1..] + w && (p + q)[1..] == p[1..] + q;
      Associate(p[0] + [v[0]], Lefts(v[1..], p[1..]), Lefts(w, q));
    }
  }

  lemma {:induction false} RightsConcat<K>(v: seq<K>, p: seq<seq<K>>, w: seq<K>, q: seq<seq<K>>)
    requires |p| == |v| && |q| == |w|
    ensures Rights(v + w, p + q) == Rights(v, p) + Rights(w, q)
  {
    if v == [] {
      assert v + w == w && p + q == q;
    } else {
      RightsConcat(v[1..], p[1..], w, q);
      assert (v + w)[1..] == v[1..] + w && (p + q)[1..] == p[1..] + q;
      Associate([v[0]] + p[0], Rights(v[1..], p[1..]), Rights(w, q));
    }
  }

  /** The contents of an inner node around one of its parts. */
  lemma {:induction false} Around<K>(lv: seq<K>, lp: seq<seq<K>>, c: seq<K>, rv: seq<K>, rp: seq<seq<K>>)
    requires |lp| == |lv| && |rp| == |rv|
    ensures var parts := lp + [c] + rp;
      parts[0] + Rights(lv + rv, parts[1..]) == Lefts(lv, lp) + c + Rights(rv, rp)
  {
    var parts := lp + [c] + rp;
    if lv == [] {
      assert parts[1..] == rp && lv + rv == rv;
    } else {
      Around(lv[1..], lp[1..], c, rv, rp);
      var rest := lp[1..] + [c] + rp;
      assert parts[1..] == rest && (lv + rv)[1..] == lv[1..] + rv;
      calc {
        parts[0] + Rights(lv + rv, rest);
        lp[0] + ([lv[0]] + rest[0] + Rights(lv[1..] + rv, rest[1..]));
        lp[0] + [lv[0]] + (rest[0] + Rights(lv[1..] + rv, rest[1..]));
        lp[0] + [lv[0]] + (Lefts(lv[1..], lp[1..]) + c + Rights(rv, rp));
        Lefts(lv, lp) + c + Rights(rv, rp);
      }
    }
  }

  lemma RightsFirst<K>(x: K, v: seq<K>, p: seq<seq<K>>)
    requires |p| == |v| + 1
    ensures Rights([x] + v, p) == [x] + (p[0] + Rights(v, p[1..]))
  {
    assert ([x] + v)[1..] == v;
  }

  lemma PartsConcat<K>(a: seq<Tree<K>>, b: seq<Tree<K>>)
    ensures Parts(a + b) == Parts(a) + Parts(b)
  {
  }

  lemma PartsOne<K>(t: Tree<K>)
    ensures Parts([t]) == [Contents(t)]
  {
  }

  lemma LeafContents<K>(t: Tree<K>)
    requires t.Leaf()
    ensures Contents(t) == t.vals
  {
  }

  lemma InnerContents<K>(t: Tree<K>)
    requires |t.kids| == |t.vals| + 1
    ensures Contents(t) == Parts(t.kids)[0] + Rights(t.vals, Parts(t.kids)[1..])
  {
  }

  /** The contents of an inner node around kid `left.length`. */
  lemma ContentsAround<K>(lv: seq<K>, left: seq<Tree<K>>, t: Tree<K>, rv: seq<K>, right: seq<Tree<K>>)
    requires |left| == |lv| && |right| == |rv|
    ensures Contents(Node(lv + rv, left + [t] + right))
         == Lefts(lv, Parts(left)) + Contents(t) + Rights(rv, Parts(right))
  {
    hide Lefts, Rights, Parts, Contents;
    var kids := left + [t] + right;
    PartsConcat(left + [t], right);
    PartsConcat(left, [t]);
    PartsOne(t);
    InnerContents(Node(lv + rv, kids));
    Around(lv, Parts(left), Contents(t), rv, Parts(right));
  }

  // -------------------------------------------------------------------- shape

  /** A node at height `h` over well-shaped kids. */
  ghost predicate Level<K>(t: Tree<K>, h: nat, max: nat)
    decreases h, 0
  {
    if h == 0 then t.kids == [] else |t.kids| == |t.vals| + 1 && AllShape(t.kids, h - 1, max)
  }

  /** Between `lo` and `max` values in the node, between 1 and `max` in all nodes below it, all
      leaves at the same depth. */
  ghost predicate Shape<K>(t: Tree<K>, h: nat, lo: nat, max: nat)
    decreases h, 1
  {
    lo <= |t.vals| <= max && Level(t, h, max)
  }

  ghost predicate AllShape<K>(ts: seq<Tree<K>>, h: nat, max: nat)
    decreases h, 2
  {
    forall i :: 0 <= i < |ts| ==> Shape(ts[i], h, 1, max)
  }

  lemma KidShape<K>(t: Tree<K>, h: nat, max: nat, i: nat)
    requires h > 0 && Level(t, h, max) && i < |t.kids|
    ensures Shape(t.kids[i], h - 1, 1, max)
  {
    assert AllShape(t.kids, h - 1, max);
  }

  // ----------------------------------------------------------- cut and join

  /** One node out of two siblings and the value between them. */
  function Join<K>(l: Tree<K>, x: K, r: Tree<K>): Tree<K>
  {
    Node(l.vals + [x] + r.vals, l.kids + r.kids)
  }

  /** Two siblings out of one node: the first keeps `n` values, value `n` goes between them. */
  function CutLeft<K>(t: Tree<K>, n: nat): Tree<K>
    requires n < |t.vals| && (t.Leaf() || |t.kids| == |t.vals| + 1)
  {
    Node(t.vals[..n], if t.Leaf() then [] else t.kids[..n + 1])
  }

  function CutRight<K>(t: Tree<K>, n: nat): Tree<K>
    requires n < |t.vals| && (t.Leaf() || |t.kids| == |t.vals| + 1)
  {
    Node(t.vals[n + 1..], if t.Leaf() then [] else t.kids[n + 1..])
  }

  lemma JoinLevel<K>(l: Tree<K>, x: K, r: Tree<K>, h: nat, max: nat)
    requires Level(l, h, max) && Level(r, h, max)
    ensures Level(Join(l, x, r), h, max)
  {
  }

  lemma CutLevel<K>(t: Tree<K>, n: nat, h: nat, max: nat)
    requires Level(t, h, max) && n < |t.vals|
    ensures Level(CutLeft(t, n), h, max) && Level(CutRight(t, n), h, max)
  {
  }

  lemma JoinContents<K>(l: Tree<K>, x: K, r: Tree<K>, h: nat, max: nat)
    requires Level(l, h, max) && Level(r, h, max)
    ensures Contents(Join(l, x, r)) == Contents(l) + [x] + Contents(r)
  {
    hide Rights, Parts;
    if h > 0 {
      var lp, rp := Parts(l.kids), Parts(r.kids);
      PartsConcat(l.kids, r.kids);
      assert (lp + rp)[1..] == lp[1..] + rp;
      assert l.vals + [x] + r.vals == l.vals + ([x] + r.vals);
      RightsConcat(l.vals, lp[1..], [x] + r.vals, rp);
      RightsFirst(x, r.vals, rp);
    }
  }

  lemma CutJoin<K>(t: Tree<K>, n: nat, h: nat, max: nat)
    requires Level(t, h, max) && n < |t.vals|
    ensures Join(CutLeft(t, n), t.vals[n], CutRight(t, n)) == t
  {
  }

  lemma CutContents<K>(t: Tree<K>, n: nat, h: nat, max: nat)
    requires Level(t, h, max) && n < |t.vals|
    ensures Contents(t) == Contents(CutLeft(t, n)) + [t.vals[n]] + Contents(CutRight(t, n))
  {
    CutLevel(t, n, h, max);
    CutJoin(t, n, h, max);
    JoinContents(CutLeft(t, n), t.vals[n], CutRight(t, n), h, max);
  }
}
