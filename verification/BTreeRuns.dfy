/** Runs of insertions and erasures. */
module BTreeRuns {
  import opened BTreeShape
  import opened BTreeContext
  import opened BTreeSearch
  import opened BTreeIterator
  import opened BTreeSet
  import opened BTreeErase

  /** erase_unique: finds the key and erases it; the count is 0 when it is not there. */
  function EraseUnique<K>(b: BTree<K>, key: K, less: Less<K>, max: nat): (r: (BTree<K>, nat))
    requires ValidTree(b, less, max) && max >= 3
  {
    if b.Empty? then (b, 0)
    else
      var at := Descend(Root, b.root, key, less, Height(b.root), max);
      var found := ValueAt(at.ctx, at.node.vals, at.pos);
      if found.Some? && !less(key, found.value) then
        ClimbedRank(at.ctx, at.node, at.pos, 0, max);
        (Erase(b, ClimbedPath(at.ctx, at.node.vals, at.pos), less, max).tree, 1)
      else (b, 0)
  }

  /** Is the key at its place in a sorted sequence? */
  predicate Present<K>(s: seq<K>, key: K, less: Less<K>)
  {
    var k := LowerBound(s, key, less);
    k < |s| && !less(key, s[k])
  }

  /** A valid tree without the key, if it was there, and otherwise unchanged; how many keys went. */
  ghost predicate Removed<K(!new)>(s: seq<K>, key: K, less: Less<K>, b: BTree<K>, n: nat, max: nat)
  {
    && ValidTree(b, less, max) && n == (if Present(s, key, less) then 1 else 0)
    && Elements(b) == if Present(s, key, less) then RemoveAt(s, LowerBound(s, key, less)) else s
  }

  lemma EraseUniqueCorrect<K(!new)>(b: BTree<K>, key: K, less: Less<K>, max: nat)
    requires ValidTree(b, less, max) && max >= 3 && StrictOrder(less)
    ensures Removed(Elements(b), key, less, EraseUnique(b, key, less, max).0, EraseUnique(b, key, less, max).1, max)
  {
    hide AllShape, Contents, Descend, LowerBound, Points, Rank, Value, Erase, Pre, Suf, ClimbedPath, RemoveAt;
    EmptySearch(key, less);
    if b.Rooted? {
      var at := Descend(Root, b.root, key, less, Height(b.root), max);
      LocateRank(b.root, key, less, Height(b.root), max);
      SearchResult(Elements(b), |Pre(at.ctx)| + at.pos, key, less);
      var found := ValueAt(at.ctx, at.node.vals, at.pos);
      if found.Some? && !less(key, found.value) {
        ClimbedRank(at.ctx, at.node, at.pos, 0, max);
        EraseCorrect(b, ClimbedPath(at.ctx, at.node.vals, at.pos), less, max);
      }
    }
  }

  lemma EmptySearch<K>(key: K, less: Less<K>)
    ensures LowerBound([], key, less) == 0
  {
  }

  datatype Op<K> = Insert(key: K) | Delete(key: K)

  /** What an operation does to the keys, as a sorted sequence. */
  ghost function Effect<K>(s: seq<K>, op: Op<K>, less: Less<K>): seq<K>
  {
    var k := LowerBound(s, op.key, less);
    match op
    case Insert(key) => if Present(s, key, less) then s else InsertAt(s, k, key)
    case Delete(key) => if Present(s, key, less) then RemoveAt(s, k) else s
  }

  ghost function EffectAll<K>(s: seq<K>, ops: seq<Op<K>>, less: Less<K>): seq<K>
    decreases |ops|
  {
    if ops == [] then s else EffectAll(Effect(s, ops[0], less), ops[1..], less)
  }

  function Apply<K>(b: BTree<K>, op: Op<K>, less: Less<K>, max: nat): BTree<K>
    requires ValidTree(b, less, max) && max >= 3
  {
    match op
    case Insert(key) => InsertUnique(b, key, less, max).tree
    case Delete(key) => EraseUnique(b, key, less, max).0
  }

  lemma ApplyCorrect<K(!new)>(b: BTree<K>, op: Op<K>, less: Less<K>, max: nat)
    requires ValidTree(b, less, max) && max >= 3 && StrictOrder(less)
    ensures ValidTree(Apply(b, op, less, max), less, max)
    ensures Elements(Apply(b, op, less, max)) == Effect(Elements(b), op, less)
  {
    hide ValidTree, Elements, InsertUnique, EraseUnique, LowerBound;
    match op
    case Insert(key) => InsertUniqueCorrect(b, key, less, max);
    case Delete(key) => EraseUniqueCorrect(b, key, less, max);
  }

  /** Runs of insertions and erasures on a tree. */
  ghost predicate Reaches<K>(b: BTree<K>, ops: seq<Op<K>>, c: BTree<K>, less: Less<K>, max: nat)
    requires max >= 3
    decreases |ops|
  {
    ValidTree(b, less, max) &&
    if ops == [] then c == b else Reaches(Apply(b, ops[0], less, max), ops[1..], c, less, max)
  }

  /** Every run leads to a well-formed tree holding exactly the keys the same run leaves in a sorted
      sequence. */
  lemma {:induction false} RunCorrect<K(!new)>(b: BTree<K>, ops: seq<Op<K>>, less: Less<K>, max: nat) returns (c: BTree<K>)
    requires ValidTree(b, less, max) && max >= 3 && StrictOrder(less)
    ensures Reaches(b, ops, c, less, max)
    ensures ValidTree(c, less, max) && Elements(c) == EffectAll(Elements(b), ops, less) && Size(c) == |Elements(c)|
    decreases |ops|
  {
    hide ValidTree, Elements, Apply, Effect, Size;
    if ops == [] {
      c := b;
      SizeExact(b, less, max);
    } else {
      ApplyCorrect(b, ops[0], less, max);
      c := RunCorrect(Apply(b, ops[0], less, max), ops[1..], less, max);
    }
  }
}
