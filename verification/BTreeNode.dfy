/** Nodes as the source keeps them: arrays of values and of kids, edited in place. */
module BTreeNode {
  import BTreeShape
  import BTreeInsert

  class Node<V(0)> {
    const leaf: bool
    const maxCount: nat
    const values: array<V>
    const children: array<Node?<V>>
    var count: nat
    var position: nat
    var parent: Node?<V>

    constructor (leaf: bool, maxCount: nat, parent: Node?<V>)
      ensures this.leaf == leaf && this.maxCount == maxCount && this.parent == parent
      ensures count == 0 && position == 0 && Sized() && fresh(values) && fresh(children)
    {
      this.leaf, this.maxCount := leaf, maxCount;
      values := new V[maxCount];
      children := new Node?<V>[maxCount + 1](_ => null);
      count, position, this.parent := 0, 0, parent;
    }

    ghost predicate Sized()
      reads this
    {
      count <= maxCount && values.Length == maxCount && children.Length == maxCount + 1
    }

    ghost function Vals(): seq<V>
      reads this, values
      requires Sized()
    {
      values[..count]
    }
  }

  method ValueSwap<V(0)>(a: array<V>, i: nat, b: array<V>, j: nat)
    requires i < a.Length && j < b.Length
    modifies a, b
    ensures a[i] == old(b[j]) && b[j] == old(a[i])
    ensures forall k :: 0 <= k < a.Length && k != i && (a != b || k != j) ==> a[k] == old(a[k])
    ensures forall k :: 0 <= k < b.Length && k != j && (a != b || k != i) ==> b[k] == old(b[k])
  {
    a[i], b[j] := b[j], a[i];
  }

  // The value loops of the node operations.

  /** `x` with its `len` values from `at` on replaced by those of `y` from `start` on. */
  ghost function SwapIn<V>(x: seq<V>, at: nat, y: seq<V>, start: nat, len: nat): seq<V>
    requires at + len <= |x| && start + len <= |y|
  {
    x[..at] + y[start..start + len] + x[at + len..]
  }

  lemma SwappedIn<V>(x: seq<V>, at: nat, y: seq<V>, start: nat, len: nat, z: seq<V>)
    requires at + len <= |x| == |z| && start + len <= |y|
    requires forall j :: 0 <= j < |z| ==> z[j] == if at <= j < at + len then y[j - at + start] else x[j]
    ensures z == SwapIn(x, at, y, start, len)
  {
  }

  /** Swaps `len` values of `a` from `at` on with those of `b` from `start` on. */
  method SwapAcross<V(0)>(a: array<V>, at: nat, b: array<V>, start: nat, len: nat)
    requires a != b && at + len <= a.Length && start + len <= b.Length
    modifies a, b
    ensures a[..] == SwapIn(old(a[..]), at, old(b[..]), start, len)
    ensures b[..] == SwapIn(old(b[..]), start, old(a[..]), at, len)
  {
    ghost var a0, b0 := a[..], b[..];
    for i := 0 to len
      invariant forall j :: 0 <= j < a.Length ==> a[j] == if at <= j < at + i then b0[j - at + start] else a0[j]
      invariant forall j :: 0 <= j < b.Length ==> b[j] == if start <= j < start + i then a0[j - start + at] else b0[j]
    {
      ValueSwap(a, at + i, b, start + i);
    }
    SwappedIn(a0, at, b0, start, len, a[..]);
    SwappedIn(b0, start, a0, at, len, b[..]);
  }

  /** Moves the values from `d` on down by `d`. */
  method ShiftDown<V(0)>(b: array<V>, d: nat, m: nat)
    requires 1 <= d <= m <= b.Length
    modifies b
    ensures b[..m - d] == old(b[d..m]) && b[m..] == old(b[m..])
  {
    for i := d to m
      invariant forall j :: 0 <= j < i - d ==> b[j] == old(b[j + d])
      invariant forall j :: i <= j < b.Length ==> b[j] == old(b[j])
    {
      ValueSwap(b, i - d, b, i);
    }
  }

  /** Moves the first `m` values up by `d`. */
  method ShiftUp<V(0)>(b: array<V>, d: nat, m: nat)
    requires 1 <= d && m + d <= b.Length
    modifies b
    ensures forall t :: d <= t < m + d ==> b[t] == old(b[t - d])
  {
    for i := m downto 0
      invariant forall j :: i + d <= j < m + d ==> b[j] == old(b[j - d])
      invariant forall j :: 0 <= j < i ==> b[j] == old(b[j])
      invariant forall j :: m + d <= j < b.Length ==> b[j] == old(b[j])
    {
      ValueSwap(b, i, b, i + d);
    }
  }

  /** The values of two siblings and the one between them, cut again after `n` values. */
  ghost predicate Recut<V>(l: seq<V>, x: V, r: seq<V>, l': seq<V>, x': V, r': seq<V>, n: nat)
  {
    l' + [x'] + r' == l + [x] + r && |l'| == n
  }

  lemma RecutRight<V>(l: seq<V>, x: V, r: seq<V>, d: nat)
    requires 1 <= d <= |r|
    ensures Recut(l, x, r, l + [x] + r[..d - 1], r[d - 1], r[d..], |l| + d)
  {
    assert r == r[..d - 1] + [r[d - 1]] + r[d..];
  }

  lemma RightToLeftSeq<V>(l: seq<V>, x: V, r: seq<V>, d: nat, a: seq<V>)
    requires 1 <= d <= |r| && |a| == |l| + d && a[|l|] == x
    requires forall t :: 0 <= t < |a| && t != |l| ==> a[t] == if t < |l| then l[t] else r[t - |l| - 1]
    ensures Recut(l, x, r, a, r[d - 1], r[d..], |l| + d)
  {
    assert a == l + [x] + r[..d - 1];
    RecutRight(l, x, r, d);
  }

  /** The separator goes to `dst[i]` and `src[j]` becomes the separator. */
  method PassSeparator<V(0)>(dst: array<V>, i: nat, p: array<V>, k: nat, src: array<V>, j: nat)
    requires dst != src && dst != p && src != p && i < dst.Length && k < p.Length && j < src.Length
    modifies dst, p, src
    ensures dst[..] == old(dst[..])[i := old(p[k])] && p[..] == old(p[..])[k := old(src[j])]
    ensures src[..] == old(src[..])[j := src[j]]
  {
    ValueSwap(dst, i, p, k);
    ValueSwap(p, k, src, j);
  }

  /** The separator goes to the end of `a` and the first values of `b` after it, the last of them
      to `p[k]`. */
  method PassRight<V(0)>(a: array<V>, n: nat, p: array<V>, k: nat, b: array<V>, d: nat)
    requires a != b && a != p && b != p && k < p.Length
    requires 1 <= d <= b.Length && n + d <= a.Length
    modifies a, p, b
    ensures forall t :: 0 <= t < n + d ==> a[t] == if t < n then old(a[t]) else if t == n then old(p[k]) else old(b[t - n - 1])
    ensures forall t :: d <= t < b.Length ==> b[t] == old(b[t])
    ensures p[..] == old(p[..])[k := old(b[d - 1])]
  {
    hide SwapIn;
    ghost var a0, b0, x := a[..], b[..], p[k];
    PassSeparator(a, n, p, k, b, d - 1);
    ghost var b1, p1 := b[..], p[..];
    SwapAcross(a, n + 1, b, 0, d - 1);
    PassRightSeq(a0, n, x, b0, b1, d, a[..], b[..]);
    assert p[..] == p1;
  }

  lemma PassRightSeq<V>(a0: seq<V>, n: nat, x: V, b0: seq<V>, b1: seq<V>, d: nat, a2: seq<V>, b2: seq<V>)
    requires 1 <= d <= |b0| == |b1| && n + d <= |a0| && b1 == b0[d - 1 := b1[d - 1]]
    requires a2 == SwapIn(a0[n := x], n + 1, b1, 0, d - 1) && b2 == SwapIn(b1, 0, a0[n := x], n + 1, d - 1)
    ensures |a2| == |a0| && |b2| == |b0|
    ensures forall t :: 0 <= t < n + d ==> a2[t] == if t < n then a0[t] else if t == n then x else b0[t - n - 1]
    ensures forall t :: d <= t < |b2| ==> b2[t] == b0[t]
  {
  }

  /** rebalance_right_to_left, values: `d` of them go from `b` through `p[k]` to the end of `a`. */
  method ValuesRightToLeft<V(0)>(a: array<V>, n: nat, p: array<V>, k: nat, b: array<V>, m: nat, d: nat)
    requires a != b && a != p && b != p && k < p.Length
    requires 1 <= d <= m <= b.Length && n + d <= a.Length
    modifies a, p, b
    ensures Recut(old(a[..n]), old(p[k]), old(b[..m]), a[..n + d], p[k], b[..m - d], n + d)
    ensures p[..] == old(p[..])[k := p[k]]
  {
    hide Recut;
    ghost var l, x, r := a[..n], p[k], b[..m];
    PassRight(a, n, p, k, b, d);
    RightToLeftSeq(l, x, r, d, a[..n + d]);
    assert b[d..m] == r[d..];
    ghost var p1, a1 := p[..], a[..];
    ShiftDown(b, d, m);
    assert p[..] == p1 && a[..] == a1 && a[..n + d] == a1[..n + d];
    assert p[k] == p1[k];
  }

  lemma RecutLeft<V>(l: seq<V>, x: V, r: seq<V>, d: nat)
    requires 1 <= d <= |l|
    ensures Recut(l, x, r, l[..|l| - d], l[|l| - d], l[|l| - d + 1..] + [x] + r, |l| - d)
  {
    var i := |l| - d;
    assert l == l[..i] + [l[i]] + l[i + 1..];
  }

  lemma LeftToRightSeq<V>(a0: seq<V>, n: nat, x: V, r: seq<V>, d: nat,
                          a1: seq<V>, b1: seq<V>, a2: seq<V>, b2: seq<V>)
    requires 1 <= d <= n <= |a0| == |a1| && |r| + d <= |b1| && b1[d - 1] == x
    requires forall t :: d <= t < |r| + d ==> b1[t] == r[t - d]
    requires a1 == a0[n - d := a1[n - d]]
    requires a2 == SwapIn(a1, n - d + 1, b1, 0, d - 1) && b2 == SwapIn(b1, 0, a1, n - d + 1, d - 1)
    ensures Recut(a0[..n], x, r, a2[..n - d], a0[n - d], b2[..|r| + d], n - d)
  {
    var l := a0[..n];
    assert a2[..n - d] == l[..n - d];
    assert b2[..|r| + d] == l[n - d + 1..] + [x] + r;
    RecutLeft(l, x, r, d);
  }

  /** The separator goes to `b`, in front of its shifted values, the last value moved up to `p[k]`. */
  method PassLeft<V(0)>(a: array<V>, n: nat, p: array<V>, k: nat, b: array<V>, m: nat, d: nat)
    requires a != b && a != p && b != p && k < p.Length
    requires 1 <= d <= n <= a.Length && m + d <= b.Length
    modifies a, p, b
    ensures a[..] == old(a[..])[n - d := a[n - d]] && p[..] == old(p[..])[k := old(a[n - d])]
    ensures b[d - 1] == old(p[k]) && forall t :: d <= t < m + d ==> b[t] == old(b[t - d])
  {
    ShiftUp(b, d, m);
    ghost var b1 := b[..];
    PassSeparator(b, d - 1, p, k, a, n - d);
    assert forall t :: d <= t < m + d ==> b[..][t] == b1[t];
  }

  /** rebalance_left_to_right, values: `d` of them go from the end of `a` through `p[k]` to `b`. */
  method ValuesLeftToRight<V(0)>(a: array<V>, n: nat, p: array<V>, k: nat, b: array<V>, m: nat, d: nat)
    requires a != b && a != p && b != p && k < p.Length
    requires 1 <= d <= n <= a.Length && m + d <= b.Length
    modifies a, p, b
    ensures Recut(old(a[..n]), old(p[k]), old(b[..m]), a[..n - d], p[k], b[..m + d], n - d)
    ensures p[..] == old(p[..])[k := p[k]]
  {
    hide Recut, SwapIn;
    ghost var a0, x, r := a[..], p[k], b[..m];
    PassLeft(a, n, p, k, b, m, d);
    ghost var a1, b1, p1 := a[..], b[..], p[..];
    SwapAcross(a, n - d + 1, b, 0, d - 1);
    LeftToRightSeq(a0, n, x, r, d, a1, b1, a[..], b[..]);
    assert p[..] == p1;
    assert p[k] == p1[k] == a0[n - d];
  }

  /** merge, values: `p[k]` and all of `b` go to the end of `a`. */
  method ValuesMerge<V(0)>(a: array<V>, n: nat, p: array<V>, k: nat, b: array<V>, m: nat)
    requires a != b && a != p && b != p && k < p.Length
    requires m <= b.Length && n + 1 + m <= a.Length
    modifies a, p, b
    ensures a[..n + 1 + m] == old(a[..n]) + [old(p[k])] + old(b[..m])
    ensures p[..] == old(p[..])[k := p[k]]
  {
    ghost var l, x, r := a[..n], p[k], b[..m];
    ValueSwap(a, n, p, k);
    assert a[..n + 1] == l + [x];
    SwapAcross(a, n + 1, b, 0, m);
  }

  lemma InsertSeq<V>(a0: seq<V>, a1: seq<V>, n: nat, i: nat, x: V)
    requires i <= n < |a0| == |a1| && a1[i] == x
    requires forall t :: 0 <= t < i ==> a1[t] == a0[t]
    requires forall t :: i < t <= n ==> a1[t] == a0[t - 1]
    requires forall t :: n < t < |a1| ==> a1[t] == a0[t]
    ensures a1[..n + 1] == a0[..i] + [x] + a0[i..n] && a1[n + 1..] == a0[n + 1..]
  {
  }

  lemma RemoveSeq<V>(a0: seq<V>, a1: seq<V>, n: nat, i: nat)
    requires i < n <= |a0| == |a1|
    requires forall t :: 0 <= t < i ==> a1[t] == a0[t]
    requires forall t :: i <= t < n - 1 ==> a1[t] == a0[t + 1]
    requires forall t :: n <= t < |a1| ==> a1[t] == a0[t]
    ensures a1[..n - 1] == a0[..i] + a0[i + 1..n] && a1[n..] == a0[n..]
  {
  }

  /** insert_value, values: `x` enters at `i`, shifted there from the end. */
  method ValuesInsert<V(0)>(a: array<V>, n: nat, i: nat, x: V)
    requires i <= n < a.Length
    modifies a
    ensures a[..n + 1] == old(a[..i]) + [x] + old(a[i..n]) && a[n + 1..] == old(a[n + 1..])
  {
    a[n] := x;
    ghost var a0 := old(a[..]);
    for j := n downto i
      invariant a[j] == x
      invariant forall t :: 0 <= t < j ==> a[t] == a0[t]
      invariant forall t :: j < t <= n ==> a[t] == a0[t - 1]
      invariant forall t :: n < t < a.Length ==> a[t] == a0[t]
    {
      ValueSwap(a, j + 1, a, j);
    }
    InsertSeq(a0, a[..], n, i, x);
  }

  /** remove_value, values: value `i` is shifted to the end. */
  method ValuesRemove<V(0)>(a: array<V>, n: nat, i: nat)
    requires i < n <= a.Length
    modifies a
    ensures a[..n - 1] == old(a[..i]) + old(a[i + 1..n]) && a[n..] == old(a[n..])
  {
    ghost var a0 := a[..];
    for j := i to n - 1
      invariant forall t :: 0 <= t < i ==> a[t] == a0[t]
      invariant forall t :: i <= t < j ==> a[t] == a0[t + 1]
      invariant forall t :: j < t < a.Length ==> a[t] == a0[t]
    {
      ValueSwap(a, j, a, j + 1);
    }
    RemoveSeq(a0, a[..], n, i);
  }

  lemma SplitSeq<V>(l: seq<V>, i: nat, a1: seq<V>, a2: seq<V>, p0: seq<V>, p1: seq<V>, p2: seq<V>, q: nat, k: nat, fill: V)
    requires i < |l| && i < |a1| == |a2| && a1[..i + 1] == l[..i + 1] && k <= q < |p0| == |p1|
    requires p1[..q + 1] == p0[..k] + [fill] + p0[k..q]
    requires p2 == p1[k := a1[i]] && a2 == a1[i := p1[k]]
    ensures l == a2[..i] + [p2[k]] + l[i + 1..]
    ensures p2[..q + 1] == p0[..k] + [p2[k]] + p0[k..q]
  {
    assert a1[..i] == a1[..i + 1][..i] && a1[i] == a1[..i + 1][i];
    assert p2[..q + 1] == p1[..q + 1][k := p2[k]];
  }

  /** split, values: the last `d` go to the empty `b`, the one before them enters the parent at `k`. */
  method ValuesSplit<V(0)>(a: array<V>, n: nat, p: array<V>, q: nat, k: nat, b: array<V>, d: nat, fill: V)
    requires a != b && a != p && b != p && k <= q < p.Length
    requires d < n <= a.Length && d <= b.Length
    modifies a, p, b
    ensures old(a[..n]) == a[..n - d - 1] + [p[k]] + b[..d]
    ensures p[..q + 1] == old(p[..k]) + [p[k]] + old(p[k..q])
  {
    ghost var l, p0 := a[..n], p[..];
    SwapAcross(a, n - d, b, 0, d);
    assert a[..n - d] == l[..n - d] && b[..d] == l[n - d..];
    ValuesInsert(p, q, k, fill);
    ghost var p1, a1 := p[..], a[..];
    assert p1[..q + 1] == p0[..k] + [fill] + p0[k..q];
    ValueSwap(a, n - d - 1, p, k);
    SplitSeq(l, n - d - 1, a1, a[..], p0, p1, p[..], q, k, fill);
  }

  // ------------------------------------------------------------------- kids

  ghost predicate Distinct<T>(s: seq<T>)
  {
    forall i, j :: 0 <= i < j < |s| ==> s[i] != s[j]
  }

  /** `kids` hang below `n` from slot `at` on: in order, and each knows its parent and position. */
  ghost predicate Hung<V(0)>(n: Node<V>, at: nat, kids: seq<Node<V>>)
    reads n.children, (set k | k in kids)`parent, (set k | k in kids)`position
  {
    at + |kids| <= n.children.Length &&
    forall i :: 0 <= i < |kids| ==>
      n.children[at + i] == kids[i] && kids[i].parent == n && kids[i].position == at + i
  }

  /** set_child for a run of kids taken over from another node. */
  method Adopt<V(0)>(dst: Node<V>, at: nat, src: Node<V>, start: nat, ghost kids: seq<Node<V>>, len: nat)
    requires dst.children != src.children && len == |kids| && Distinct(kids)
    requires at + len <= dst.children.Length && start + len <= src.children.Length
    requires forall i :: 0 <= i < len ==> src.children[start + i] == kids[i]
    modifies dst.children, (set k | k in kids)`parent, (set k | k in kids)`position
    ensures Hung(dst, at, kids)
    ensures dst.children[..at] == old(dst.children[..at]) && dst.children[at + len..] == old(dst.children[at + len..])
  {
    for i := 0 to len
      invariant forall j {:trigger kids[j]} :: 0 <= j < i ==>
        dst.children[at + j] == kids[j] && kids[j].parent == dst && kids[j].position == at + j
      invariant dst.children[..at] == old(dst.children[..at]) && dst.children[at + len..] == old(dst.children[at + len..])
    {
      var c := src.children[start + i];
      assert c == kids[i];
      dst.children[at + i] := c;
      c.parent := dst;
      c.position := at + i;
    }
  }

  /** Moves the kids at `at + d` and up down by `d`. */
  method KidsDown<V(0)>(n: Node<V>, at: nat, d: nat, ghost kids: seq<Node<V>>, len: nat)
    requires 1 <= d && len == |kids| && Distinct(kids) && at + d + len <= n.children.Length
    requires forall i :: 0 <= i < len ==> n.children[at + d + i] == kids[i]
    modifies n.children, (set k | k in kids)`parent, (set k | k in kids)`position
    ensures Hung(n, at, kids) && n.children[..at] == old(n.children[..at])
  {
    for i := 0 to len
      invariant forall j {:trigger kids[j]} :: 0 <= j < i ==>
        n.children[at + j] == kids[j] && kids[j].parent == n && kids[j].position == at + j
      invariant forall j {:trigger kids[j]} :: i <= j < len ==> n.children[at + d + j] == kids[j]
      invariant n.children[..at] == old(n.children[..at])
    {
      var c := n.children[at + d + i];
      assert c == kids[i];
      n.children[at + i] := c;
      c.parent := n;
      c.position := at + i;
      n.children[at + d + i] := null;
    }
  }

  /** Moves the kids at `at` and up up by `d`. */
  method KidsUp<V(0)>(n: Node<V>, at: nat, d: nat, ghost kids: seq<Node<V>>, len: nat)
    requires 1 <= d && len == |kids| && Distinct(kids) && at + d + len <= n.children.Length
    requires forall i :: 0 <= i < len ==> n.children[at + i] == kids[i]
    modifies n.children, (set k | k in kids)`parent, (set k | k in kids)`position
    ensures Hung(n, at + d, kids) && n.children[..at] == old(n.children[..at])
  {
    for i := len downto 0
      invariant forall j {:trigger kids[j]} :: i <= j < len ==>
        n.children[at + d + j] == kids[j] && kids[j].parent == n && kids[j].position == at + d + j
      invariant forall j {:trigger kids[j]} :: 0 <= j < i ==> n.children[at + j] == kids[j]
      invariant n.children[..at] == old(n.children[..at])
    {
      var c := n.children[at + i];
      assert c == kids[i];
      n.children[at + d + i] := c;
      c.parent := n;
      c.position := at + d + i;
      n.children[at + i] := null;
    }
  }

  // ---------------------------------------------- what the operations compute

  /** The subtrees that a node's kids stand for. */
  ghost function Trees<K, V>(kids: seq<K>, tree: K -> BTreeShape.Tree<V>): seq<BTreeShape.Tree<V>>
  {
    seq(|kids|, i requires 0 <= i < |kids| => tree(kids[i]))
  }

  /** The tree of a node with these values and kids. */
  ghost function TreeOf<K, V>(vals: seq<V>, kids: seq<K>, tree: K -> BTreeShape.Tree<V>): BTreeShape.Tree<V>
  {
    BTreeShape.Node(vals, Trees(kids, tree))
  }

  /** `a`, `x` and `b` are the cut of `t` after `n` values. */
  ghost predicate CutsTo<V>(t: BTreeShape.Tree<V>, n: nat, a: BTreeShape.Tree<V>, x: V, b: BTreeShape.Tree<V>)
  {
    && n < |t.vals| && (t.Leaf() || |t.kids| == |t.vals| + 1)
    && a == BTreeShape.CutLeft(t, n) && x == t.vals[n] && b == BTreeShape.CutRight(t, n)
  }

  lemma TreesConcat<K, V>(a: seq<K>, b: seq<K>, tree: K -> BTreeShape.Tree<V>)
    ensures Trees(a + b, tree) == Trees(a, tree) + Trees(b, tree)
  {
  }

  /** Values and kids of two nodes with the value between them are the join of the tree algorithms. */
  lemma MergeIsJoin<K, V>(l: seq<V>, x: V, r: seq<V>, lk: seq<K>, rk: seq<K>, tree: K -> BTreeShape.Tree<V>)
    ensures TreeOf(l + [x] + r, lk + rk, tree) == BTreeShape.Join(TreeOf(l, lk, tree), x, TreeOf(r, rk, tree))
  {
    TreesConcat(lk, rk, tree);
  }

  /** Values and kids parted around a value are the cut of the tree algorithms. */
  lemma SplitIsCut<K, V>(a: seq<V>, x: V, b: seq<V>, ak: seq<K>, bk: seq<K>, tree: K -> BTreeShape.Tree<V>)
    requires (ak == [] && bk == []) || (|ak| == |a| + 1 && |bk| == |b| + 1)
    ensures CutsTo(TreeOf(a + [x] + b, ak + bk, tree), |a|, TreeOf(a, ak, tree), x, TreeOf(b, bk, tree))
  {
    TreesConcat(ak, bk, tree);
    assert (a + [x] + b)[..|a|] == a && (a + [x] + b)[|a| + 1..] == b;
  }

  /** A rebalance, in either direction, is a join and a cut after n values. */
  lemma RecutIsCut<K, V>(l: seq<V>, x: V, r: seq<V>, lk: seq<K>, rk: seq<K>,
                         l': seq<V>, x': V, r': seq<V>, lk': seq<K>, rk': seq<K>, n: nat,
                         tree: K -> BTreeShape.Tree<V>)
    requires Recut(l, x, r, l', x', r', n) && lk' + rk' == lk + rk
    requires (lk == [] && rk == []) || (|lk| == |l| + 1 && |rk| == |r| + 1 && |lk'| == n + 1)
    ensures CutsTo(BTreeShape.Join(TreeOf(l, lk, tree), x, TreeOf(r, rk, tree)), n,
                   TreeOf(l', lk', tree), x', TreeOf(r', rk', tree))
  {
    MergeIsJoin(l, x, r, lk, rk, tree);
    SplitIsCut(l', x', r', lk', rk', tree);
  }

  /** The kids that belong to values and a leaf flag. */
  ghost predicate KidsFor<K, V>(vals: seq<V>, kids: seq<K>, leaf: bool)
  {
    if leaf then kids == [] else |kids| == |vals| + 1
  }

  lemma TakenRight<K, V>(l: seq<V>, x: V, r: seq<V>, lk: seq<K>, rk: seq<K>, l': seq<V>, x': V, r': seq<V>, d: nat,
                         leaf: bool, tree: K -> BTreeShape.Tree<V>)
    requires Recut(l, x, r, l', x', r', |l| + d) && KidsFor(l, lk, leaf) && KidsFor(r, rk, leaf) && d <= |r|
    ensures CutsTo(BTreeShape.Join(TreeOf(l, lk, tree), x, TreeOf(r, rk, tree)), |l| + d,
                   TreeOf(l', if leaf then [] else lk + rk[..d], tree), x', TreeOf(r', if leaf then [] else rk[d..], tree))
  {
    hide CutsTo, TreeOf, Recut;
    if leaf {
      RecutIsCut(l, x, r, lk, rk, l', x', r', [], [], |l| + d, tree);
    } else {
      assert lk + rk[..d] + rk[d..] == lk + rk;
      RecutIsCut(l, x, r, lk, rk, l', x', r', lk + rk[..d], rk[d..], |l| + d, tree);
    }
  }

  lemma TakenLeft<K, V>(l: seq<V>, x: V, r: seq<V>, lk: seq<K>, rk: seq<K>, l': seq<V>, x': V, r': seq<V>, d: nat,
                        leaf: bool, tree: K -> BTreeShape.Tree<V>)
    requires d <= |l| && Recut(l, x, r, l', x', r', |l| - d) && KidsFor(l, lk, leaf) && KidsFor(r, rk, leaf)
    ensures CutsTo(BTreeShape.Join(TreeOf(l, lk, tree), x, TreeOf(r, rk, tree)), |l| - d,
                   TreeOf(l', if leaf then [] else lk[..|lk| - d], tree), x',
                   TreeOf(r', if leaf then [] else lk[|lk| - d..] + rk, tree))
  {
    hide CutsTo, TreeOf, Recut;
    if leaf {
      RecutIsCut(l, x, r, lk, rk, l', x', r', [], [], |l| - d, tree);
    } else {
      var m := |lk| - d;
      assert lk[..m] + (lk[m..] + rk) == lk + rk;
      RecutIsCut(l, x, r, lk, rk, l', x', r', lk[..m], lk[m..] + rk, |l| - d, tree);
    }
  }

  // -------------------------------------------------------- node operations

  /** `kids` are exactly the kids of `n`. */
  ghost predicate HasKids<V(0)>(n: Node<V>, kids: seq<Node<V>>)
    reads n, n.children, set k | k in kids
  {
    n.Sized() && Distinct(kids) && if n.leaf then kids == [] else |kids| == n.count + 1 && Hung(n, 0, kids)
  }

  ghost predicate Apart<V(0)>(l: Node<V>, r: Node<V>, p: Node<V>, kids: seq<Node<V>>)
  {
    l != r && l != p && r != p && l !in kids && r !in kids && p !in kids &&
    l.values != r.values && l.values != p.values && r.values != p.values &&
    l.children != r.children && l.children != p.children && r.children != p.children &&
    var vs: set<object> := {l.values, r.values, p.values};
    var cs: set<object> := {l.children, r.children, p.children};
    vs !! cs
  }

  /** Adjacent siblings below `p`. */
  ghost predicate Pair<V(0)>(l: Node<V>, r: Node<V>, p: Node<V>, lk: seq<Node<V>>, rk: seq<Node<V>>)
    reads l, r, p, l.children, r.children, set k | k in lk, set k | k in rk
  {
    Apart(l, r, p, lk + rk) && l.parent == p && r.parent == p && l.leaf == r.leaf && p.Sized() &&
    l.position + 1 == r.position <= p.count && HasKids(l, lk) && HasKids(r, rk)
  }

  lemma HungFits<V(0)>(n: Node<V>, at: nat, kids: seq<Node<V>>)
    requires Hung(n, at, kids)
    ensures at + |kids| <= n.children.Length
  {
  }

  /** Hanging kids in two runs. */
  lemma HungConcat<V(0)>(n: Node<V>, at: nat, a: seq<Node<V>>, b: seq<Node<V>>)
    requires Hung(n, at, a) && Hung(n, at + |a|, b)
    ensures Hung(n, at, a + b)
  {
    forall i | 0 <= i < |a + b|
      ensures n.children[at + i] == (a + b)[i] && (a + b)[i].parent == n && (a + b)[i].position == at + i
    {
      if i >= |a| {
        assert (a + b)[i] == b[i - |a|];
        assert n.children[at + |a| + (i - |a|)] == b[i - |a|];
      }
    }
  }

  /** Kids of two nodes are different kids. */
  lemma KidsApart<V(0)>(l: Node<V>, r: Node<V>, lk: seq<Node<V>>, rk: seq<Node<V>>)
    requires l != r && Hung(l, 0, lk) && Hung(r, 0, rk)
    ensures forall k :: k in lk ==> k !in rk
  {
    assert forall i, j :: 0 <= i < |lk| && 0 <= j < |rk| ==> lk[i].parent != rk[j].parent;
  }

  /** A node's kids in two parts. */
  lemma HungParts<V(0)>(n: Node<V>, kids: seq<Node<V>>, m: nat)
    requires Hung(n, 0, kids) && Distinct(kids) && m <= |kids|
    ensures Hung(n, 0, kids[..m]) && Distinct(kids[m..]) && Distinct(kids[..m])
    ensures forall i :: 0 <= i < m ==> n.children[i] == kids[..m][i]
    ensures forall i :: 0 <= i < |kids| - m ==> n.children[m + i] == kids[m..][i]
    ensures forall k :: k in kids[..m] ==> k !in kids[m..]
  {
    forall i | 0 <= i < |kids| - m
      ensures n.children[m + i] == kids[m..][i]
    {
      assert kids[m + i] == kids[m..][i];
    }
  }

  /** The slots from `at` on hold the kids. */
  ghost predicate Slots<V(0)>(c: seq<Node?<V>>, at: nat, kids: seq<Node<V>>)
  {
    at + |kids| <= |c| && forall i :: 0 <= i < |kids| ==> c[at + i] == kids[i]
  }

  /** The kids know their parent and positions. */
  ghost predicate Known<V(0)>(n: Node<V>, at: nat, kids: seq<Node<V>>)
    reads (set k | k in kids)`parent, (set k | k in kids)`position
  {
    forall i :: 0 <= i < |kids| ==> kids[i].parent == n && kids[i].position == at + i
  }

  lemma HungIs<V(0)>(n: Node<V>, at: nat, kids: seq<Node<V>>)
    ensures Hung(n, at, kids) <==> Slots(n.children[..], at, kids) && Known(n, at, kids)
  {
  }

  lemma SlotsStay<V(0)>(a: seq<Node?<V>>, b: seq<Node?<V>>, at: nat, kids: seq<Node<V>>)
    requires |a| == |b| && Slots(a, at, kids) && a[at..at + |kids|] == b[at..at + |kids|]
    ensures Slots(b, at, kids)
  {
    forall i | 0 <= i < |kids|
      ensures b[at + i] == kids[i]
    {
      assert a[at..at + |kids|][i] == b[at..at + |kids|][i];
    }
  }

  /** Kids taken over into the slots before those of other kids. */
  method AdoptBefore<V(0)>(dst: Node<V>, src: Node<V>, start: nat, ghost kids: seq<Node<V>>, len: nat, ghost rest: seq<Node<V>>)
    requires dst.children != src.children && len == |kids| && Distinct(kids) && start + len <= src.children.Length
    requires forall i :: 0 <= i < len ==> src.children[start + i] == kids[i]
    requires Hung(dst, len, rest) && forall k :: k in rest ==> k !in kids
    modifies dst.children, (set k | k in kids)`parent, (set k | k in kids)`position
    ensures Hung(dst, 0, kids + rest)
  {
    HungIs(dst, len, rest);
    hide Hung, Distinct;
    ghost var before := dst.children[..];
    Adopt(dst, 0, src, start, kids, len);
    assert before[len..] == dst.children[len..];
    SlotsStay(before, dst.children[..], len, rest);
    HungIs(dst, len, rest);
    HungConcat(dst, 0, kids, rest);
  }

  /** Kids taken over into the slots after those of other kids. */
  method AdoptAfter<V(0)>(dst: Node<V>, at: nat, src: Node<V>, ghost kids: seq<Node<V>>, len: nat, ghost first: seq<Node<V>>)
    requires dst.children != src.children && len == |kids| && Distinct(kids) && len <= src.children.Length
    requires forall i :: 0 <= i < len ==> src.children[i] == kids[i]
    requires at == |first| && at + len <= dst.children.Length
    requires Hung(dst, 0, first) && forall k :: k in first ==> k !in kids
    modifies dst.children, (set k | k in kids)`parent, (set k | k in kids)`position
    ensures Hung(dst, 0, first + kids)
  {
    HungIs(dst, 0, first);
    hide Hung, Distinct;
    ghost var before := dst.children[..];
    Adopt(dst, at, src, 0, kids, len);
    assert before[..at] == dst.children[..at];
    SlotsStay(before, dst.children[..], 0, first);
    HungIs(dst, 0, first);
    HungConcat(dst, 0, first, kids);
  }

  method KidsRightToLeft<V(0)>(l: Node<V>, n: nat, r: Node<V>, m: nat, d: nat, ghost lk: seq<Node<V>>, ghost rk: seq<Node<V>>)
    requires l != r && l.children != r.children && Distinct(lk) && Distinct(rk)
    requires |lk| == n + 1 && |rk| == m + 1 && 1 <= d <= m && Hung(l, 0, lk) && Hung(r, 0, rk)
    requires n + d + 1 <= l.children.Length
    modifies l.children, r.children, (set k | k in rk)`parent, (set k | k in rk)`position
    ensures Hung(l, 0, lk + rk[..d]) && Hung(r, 0, rk[d..])
  {
    HungFits(r, 0, rk);
    hide Hung, Distinct;
    ghost var moved, kept := rk[..d], rk[d..];
    KidsApart(l, r, lk, rk);
    HungParts(r, rk, d);
    AdoptAfter(l, 1 + n, r, moved, d, lk);
    KidsDown(r, 0, d, kept, m - d + 1);
  }

  method RebalanceRightToLeft<V(0)>(l: Node<V>, r: Node<V>, p: Node<V>, d: nat,
                                    ghost lk: seq<Node<V>>, ghost rk: seq<Node<V>>,
                                    ghost tree: Node<V> -> BTreeShape.Tree<V>)
    requires Pair(l, r, p, lk, rk) && 1 <= d <= r.count && l.count + d <= l.maxCount
    modifies l`count, r`count, l.values, r.values, p.values, l.children, r.children
    modifies (set k | k in rk)`parent, (set k | k in rk)`position
    ensures l.count == old(l.count) + d && r.count == old(r.count) - d
    ensures !l.leaf ==> Hung(l, 0, lk + rk[..d]) && Hung(r, 0, rk[d..])
    ensures Recut(old(l.Vals()), old(p.values[l.position]), old(r.Vals()),
                  l.Vals(), p.values[l.position], r.Vals(), old(l.count) + d)
    ensures p.values[..] == old(p.values[..])[l.position := p.values[l.position]]
    ensures CutsTo(BTreeShape.Join(TreeOf(old(l.Vals()), lk, tree), old(p.values[l.position]), TreeOf(old(r.Vals()), rk, tree)),
                   l.count, TreeOf(l.Vals(), if l.leaf then [] else lk + rk[..d], tree), p.values[l.position],
                   TreeOf(r.Vals(), if l.leaf then [] else rk[d..], tree))
  {
    hide Recut, Distinct, Hung, CutsTo, TreeOf;
    ghost var l0, x0, r0 := l.Vals(), p.values[l.position], r.Vals();
    ValuesRightToLeft(l.values, l.count, p.values, l.position, r.values, r.count, d);
    if !l.leaf {
      KidsRightToLeft(l, l.count, r, r.count, d, lk, rk);
    }
    l.count := l.count + d;
    r.count := r.count - d;
    TakenRight(l0, x0, r0, lk, rk, l.Vals(), p.values[l.position], r.Vals(), d, l.leaf, tree);
  }

  method KidsLeftToRight<V(0)>(l: Node<V>, n: nat, r: Node<V>, m: nat, d: nat, ghost lk: seq<Node<V>>, ghost rk: seq<Node<V>>)
    requires l != r && l.children != r.children && Distinct(lk) && Distinct(rk)
    requires |lk| == n + 1 && |rk| == m + 1 && 1 <= d <= n && Hung(l, 0, lk) && Hung(r, 0, rk)
    requires m + d + 1 <= r.children.Length
    modifies l.children, r.children
    modifies (set k | k in lk)`parent, (set k | k in lk)`position, (set k | k in rk)`parent, (set k | k in rk)`position
    ensures Hung(l, 0, lk[..|lk| - d]) && Hung(r, 0, lk[|lk| - d..] + rk)
  {
    HungFits(l, 0, lk);
    HungFits(r, 0, rk);
    hide Hung, Distinct;
    ghost var kept, moved := lk[..n + 1 - d], lk[n + 1 - d..];
    KidsApart(l, r, lk, rk);
    HungParts(r, rk, m + 1);
    assert rk[..m + 1] == rk;
    KidsUp(r, 0, d, rk, m + 1);
    HungParts(l, lk, n + 1 - d);
    AdoptBefore(r, l, n + 1 - d, moved, d, rk);
  }

  method RebalanceLeftToRight<V(0)>(l: Node<V>, r: Node<V>, p: Node<V>, d: nat,
                                    ghost lk: seq<Node<V>>, ghost rk: seq<Node<V>>,
                                    ghost tree: Node<V> -> BTreeShape.Tree<V>)
    requires Pair(l, r, p, lk, rk) && 1 <= d <= l.count && r.count + d <= r.maxCount
    modifies l`count, r`count, l.values, r.values, p.values, l.children, r.children
    modifies (set k | k in lk)`parent, (set k | k in lk)`position, (set k | k in rk)`parent, (set k | k in rk)`position
    ensures l.count == old(l.count) - d && r.count == old(r.count) + d
    ensures !l.leaf ==> d <= |lk| && Hung(l, 0, lk[..|lk| - d]) && Hung(r, 0, lk[|lk| - d..] + rk)
    ensures Recut(old(l.Vals()), old(p.values[l.position]), old(r.Vals()),
                  l.Vals(), p.values[l.position], r.Vals(), old(l.count) - d)
    ensures p.values[..] == old(p.values[..])[l.position := p.values[l.position]]
    ensures CutsTo(BTreeShape.Join(TreeOf(old(l.Vals()), lk, tree), old(p.values[l.position]), TreeOf(old(r.Vals()), rk, tree)),
                   l.count, TreeOf(l.Vals(), if l.leaf then [] else lk[..|lk| - d], tree), p.values[l.position],
                   TreeOf(r.Vals(), if l.leaf then [] else lk[|lk| - d..] + rk, tree))
  {
    hide Recut, Distinct, Hung, CutsTo, TreeOf;
    ghost var l0, x0, r0 := l.Vals(), p.values[l.position], r.Vals();
    ValuesLeftToRight(l.values, l.count, p.values, l.position, r.values, r.count, d);
    if !l.leaf {
      KidsLeftToRight(l, l.count, r, r.count, d, lk, rk);
    }
    l.count := l.count - d;
    r.count := r.count + d;
    TakenLeft(l0, x0, r0, lk, rk, l.Vals(), p.values[l.position], r.Vals(), d, l.leaf, tree);
  }

  /** remove_value, kids: the kid after `kept` goes, those after it move down. */
  method KidsRemove<V(0)>(p: Node<V>, ghost kept: seq<Node<V>>, ghost moved: seq<Node<V>>, at: nat, len: nat)
    requires at == |kept| && len == |moved| && Distinct(moved) && Hung(p, 0, kept) && Hung(p, at + 1, moved)
    requires forall k :: k in kept ==> k !in moved
    modifies p.children, (set k | k in moved)`parent, (set k | k in moved)`position
    ensures Hung(p, 0, kept + moved)
  {
    assert forall j :: 0 <= j < len ==> p.children[at + 1 + j] == moved[j];
    assert forall j :: 0 <= j < at ==> p.children[0 + j] == kept[j];
    KidsDown(p, at, 1, moved, len);
    assert forall j :: 0 <= j < at ==> p.children[..at][j] == kept[j];
    HungConcat(p, 0, kept, moved);
  }

  /** insert_value and set_child, kids: `dest` comes after `kept`, those after it move up. */
  method KidsInsert<V(0)>(p: Node<V>, ghost kept: seq<Node<V>>, dest: Node<V>, ghost moved: seq<Node<V>>, at: nat, len: nat)
    requires at == |kept| && len == |moved| && Distinct(moved) && Hung(p, 0, kept) && Hung(p, at, moved)
    requires at + 1 + len <= p.children.Length && dest !in kept && dest !in moved
    requires forall k :: k in kept ==> k !in moved
    modifies p.children, (set k | k in moved)`parent, (set k | k in moved)`position, dest`parent, dest`position
    ensures Hung(p, 0, kept + [dest] + moved)
  {
    assert forall j :: 0 <= j < len ==> p.children[at + j] == moved[j];
    assert forall j :: 0 <= j < at ==> p.children[0 + j] == kept[j];
    KidsUp(p, at, 1, moved, len);
    assert forall j :: 0 <= j < at ==> p.children[..at][j] == kept[j];
    PlaceKid(p, kept, at, dest, moved);
  }

  /** set_child in the free slot between two runs of kids. */
  method PlaceKid<V(0)>(p: Node<V>, ghost kept: seq<Node<V>>, at: nat, dest: Node<V>, ghost moved: seq<Node<V>>)
    requires at == |kept| && Hung(p, 0, kept) && Hung(p, at + 1, moved) && at < p.children.Length
    requires dest !in kept && dest !in moved
    modifies p.children, dest`parent, dest`position
    ensures Hung(p, 0, kept + [dest] + moved)
  {
    p.children[at] := dest;
    dest.parent := p;
    dest.position := at;
    assert Hung(p, 0, kept);
    assert Hung(p, at + 1, moved);
    HungConcat(p, 0, kept, [dest]);
    HungConcat(p, 0, kept + [dest], moved);
  }

  method KidsMerge<V(0)>(l: Node<V>, n: nat, r: Node<V>, m: nat, ghost lk: seq<Node<V>>, ghost rk: seq<Node<V>>)
    requires l != r && l.children != r.children && Distinct(lk) && Distinct(rk)
    requires |lk| == n + 1 && |rk| == m + 1 && Hung(l, 0, lk) && Hung(r, 0, rk)
    requires n + m + 2 <= l.children.Length
    modifies l.children, (set k | k in rk)`parent, (set k | k in rk)`position
    ensures Hung(l, 0, lk + rk)
  {
    HungFits(r, 0, rk);
    hide Hung, Distinct;
    KidsApart(l, r, lk, rk);
    HungParts(r, rk, m + 1);
    assert rk[..m + 1] == rk;
    AdoptAfter(l, 1 + n, r, rk, m + 1, lk);
  }

  /** The first half of merge: the values and kids of `r` and the value between go to `l`. */
  method MergeInto<V(0)>(l: Node<V>, r: Node<V>, p: Node<V>, ghost lk: seq<Node<V>>, ghost rk: seq<Node<V>>)
    requires Pair(l, r, p, lk, rk) && l.count + 1 + r.count <= l.maxCount
    modifies l`count, r`count, l.values, r.values, p.values, l.children
    modifies (set k | k in rk)`parent, (set k | k in rk)`position
    ensures l.Sized() && l.count == old(l.count) + 1 + old(r.count) && r.count == 0
    ensures l.Vals() == old(l.Vals()) + [old(p.values[l.position])] + old(r.Vals())
    ensures p.values[..] == old(p.values[..])[l.position := p.values[l.position]]
    ensures !l.leaf ==> Hung(l, 0, lk + rk)
  {
    hide Distinct, Hung;
    ValuesMerge(l.values, l.count, p.values, l.position, r.values, r.count);
    if !l.leaf {
      KidsMerge(l, l.count, r, r.count, lk, rk);
    }
    l.count, r.count := 1 + l.count + r.count, 0;
  }

  /** The second half: the parent drops the value and the kid after it. */
  method RemoveValue<V(0)>(p: Node<V>, i: nat, ghost kept: seq<Node<V>>, ghost moved: seq<Node<V>>)
    requires p.Sized() && i < p.count && |kept| == i + 1 && |moved| == p.count - i - 1
    requires Distinct(moved) && Hung(p, 0, kept) && Hung(p, i + 2, moved) && forall k :: k in kept ==> k !in moved
    requires p.values as object != p.children && p !in kept && p !in moved
    modifies p`count, p.values, p.children, (set k | k in moved)`parent, (set k | k in moved)`position
    ensures p.Sized() && p.count == old(p.count) - 1
    ensures p.Vals() == old(p.Vals()[..i]) + old(p.Vals()[i + 1..])
    ensures Hung(p, 0, kept + moved)
  {
    hide Distinct, Hung;
    KidsRemove(p, kept, moved, i + 1, p.count - i - 1);
    ValuesRemove(p.values, p.count, i);
    p.count := p.count - 1;
    assert p.Vals() == old(p.values[..i]) + old(p.values[i + 1..p.count]);
    assert old(p.Vals()[..i]) == old(p.values[..i]) && old(p.Vals()[i + 1..]) == old(p.values[i + 1..p.count]);
  }

  method Merge<V(0)>(l: Node<V>, r: Node<V>, p: Node<V>, ghost lk: seq<Node<V>>, ghost rk: seq<Node<V>>,
                     ghost kept: seq<Node<V>>, ghost moved: seq<Node<V>>, ghost tree: Node<V> -> BTreeShape.Tree<V>)
    requires Pair(l, r, p, lk, rk) && l.count + 1 + r.count <= l.maxCount
    requires |kept| == l.position + 1 && |moved| == p.count - l.position - 1 && Distinct(moved)
    requires Hung(p, 0, kept) && kept[l.position] == l && Hung(p, l.position + 2, moved)
    requires forall k :: k in kept ==> k !in moved && k !in lk && k !in rk && k != p
    requires forall k :: k in moved ==> k !in lk && k !in rk && k != l && k != r && k != p
    modifies l`count, r`count, p`count, l.values, r.values, p.values, l.children, p.children
    modifies (set k | k in rk)`parent, (set k | k in rk)`position, (set k | k in moved)`parent, (set k | k in moved)`position
    ensures l.Sized() && p.Sized() && p.count == old(p.count) - 1 && l.position == old(l.position)
    ensures l.Vals() == old(l.Vals()) + [old(p.values[l.position])] + old(r.Vals())
    ensures p.Vals() == old(p.Vals()[..l.position]) + old(p.Vals()[l.position + 1..])
    ensures !l.leaf ==> Hung(l, 0, lk + rk)
    ensures Hung(p, 0, kept + moved)
    ensures TreeOf(l.Vals(), lk + rk, tree) ==
      BTreeShape.Join(TreeOf(old(l.Vals()), lk, tree), old(p.values[l.position]), TreeOf(old(r.Vals()), rk, tree))
  {
    hide Distinct, TreeOf;
    MergeIsJoin(l.Vals(), p.values[l.position], r.Vals(), lk, rk, tree);
    ghost var k, v := l.position, p.values[..];
    MergeInto(l, r, p, lk, rk);
    assert p.values[..k] == v[..k] && p.values[k + 1..p.count] == v[k + 1..p.count];
    ghost var merged := l.Vals();
    RemoveValue(p, l.position, kept, moved);
  }

  method KidsSplit<V(0)>(n: Node<V>, start: nat, dest: Node<V>, ghost nk: seq<Node<V>>, len: nat)
    requires n != dest && n.children != dest.children && Distinct(nk) && Hung(n, 0, nk)
    requires start + len == |nk| && len <= dest.children.Length
    modifies dest.children, (set k | k in nk)`parent, (set k | k in nk)`position
    ensures Hung(n, 0, nk[..start]) && Hung(dest, 0, nk[start..])
  {
    assert forall i :: 0 <= i < start ==> n.children[0 + i] == nk[i];
    Adopt(dest, 0, n, start, nk[start..], len);
  }

  /** The node's half of split: its last `d` values and their kids go to `dest`, the value before
      them enters the parent's values. */
  method SplitOff<V(0)>(n: Node<V>, dest: Node<V>, p: Node<V>, d: nat, fill: V, ghost nk: seq<Node<V>>)
    requires Apart(n, dest, p, nk) && dest.count == 0 && n.leaf == dest.leaf && n.position <= p.count < p.maxCount
    requires n.Sized() && dest.Sized() && p.Sized() && HasKids(n, nk) && d < n.count && dest.maxCount == n.maxCount
    modifies n`count, dest`count, n.values, dest.values, p.values, dest.children
    modifies (set k | k in nk)`parent, (set k | k in nk)`position
    ensures n.Sized() && dest.Sized() && dest.count == d && n.count == old(n.count) - d - 1
    ensures n.Vals() + [p.values[n.position]] + dest.Vals() == old(n.Vals())
    ensures p.values[..p.count + 1]
         == old(p.values[..n.position]) + [p.values[n.position]] + old(p.values[n.position..p.count])
    ensures !n.leaf ==> Hung(n, 0, nk[..old(n.count) - d]) && Hung(dest, 0, nk[old(n.count) - d..])
  {
    hide Distinct, Hung;
    ValuesSplit(n.values, n.count, p.values, p.count, n.position, dest.values, d, fill);
    if !n.leaf {
      KidsSplit(n, n.count - d, dest, nk, d + 1);
    }
    n.count, dest.count := n.count - d - 1, d;
  }

  /** split: the last values go to the new node `dest`, the one before them to the parent. */
  method Split<V(0)>(n: Node<V>, dest: Node<V>, p: Node<V>, insertPosition: nat, fill: V, ghost nk: seq<Node<V>>,
                     ghost kept: seq<Node<V>>, ghost moved: seq<Node<V>>, ghost tree: Node<V> -> BTreeShape.Tree<V>)
    requires Apart(n, dest, p, nk) && n.parent == p && dest.count == 0 && n.leaf == dest.leaf
    requires n.Sized() && dest.Sized() && p.Sized() && HasKids(n, nk)
    requires n.count > 0 && dest.maxCount == n.maxCount && n.position <= p.count < p.maxCount
    requires |kept| == n.position + 1 && |moved| == p.count - n.position && Distinct(moved)
    requires Hung(p, 0, kept) && kept[n.position] == n && Hung(p, n.position + 1, moved)
    requires forall k :: k in kept ==> k !in moved && k !in nk && k != dest && k != p
    requires forall k :: k in moved ==> k !in nk && k != n && k != dest && k != p
    modifies n`count, dest`count, p`count, n.values, dest.values, p.values, dest.children, p.children
    modifies (set k | k in nk)`parent, (set k | k in nk)`position, (set k | k in moved)`parent, (set k | k in moved)`position
    modifies dest`parent, dest`position
    ensures n.Sized() && dest.Sized() && p.Sized() && n.position == old(n.position) && p.count == old(p.count) + 1
    ensures dest.count == BTreeInsert.SplitCount(old(n.count), insertPosition, n.maxCount) && n.count == old(n.count) - dest.count - 1
    ensures n.Vals() + [p.values[n.position]] + dest.Vals() == old(n.Vals())
    ensures p.Vals() == old(p.values[..n.position]) + [p.values[n.position]] + old(p.values[n.position..p.count])
    ensures Hung(p, 0, kept + [dest] + moved)
    ensures !n.leaf ==> Hung(n, 0, nk[..old(n.count) - dest.count]) && Hung(dest, 0, nk[old(n.count) - dest.count..])
    ensures CutsTo(TreeOf(old(n.Vals()), nk, tree), n.count,
                   TreeOf(n.Vals(), if n.leaf then [] else nk[..old(n.count) - dest.count], tree), p.values[n.position],
                   TreeOf(dest.Vals(), if n.leaf then [] else nk[old(n.count) - dest.count..], tree))
  {
    hide Distinct, Hung, CutsTo, TreeOf;
    SplitOff(n, dest, p, BTreeInsert.SplitCount(n.count, insertPosition, n.maxCount), fill, nk);
    ghost var nk1, dk := if n.leaf then [] else nk[..n.count + 1], if n.leaf then [] else nk[n.count + 1..];
    assert nk1 + dk == nk;
    SplitIsCut(n.Vals(), p.values[n.position], dest.Vals(), nk1, dk, tree);
    KidsInsert(p, kept, dest, moved, n.position + 1, p.count - n.position);
    p.count := p.count + 1;
  }
}
