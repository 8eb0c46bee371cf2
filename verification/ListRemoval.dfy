/** Removing the first or the last few elements equal to a value. */
module ListRemoval {
  import opened Basics
  import opened ListStore

  /** c without the first n elements equal to v. */
  function WithoutFirst(c: seq<string>, v: string, n: nat): seq<string>
  {
    if c == [] || n == 0 then c
    else if c[0] == v then WithoutFirst(c[1..], v, n - 1)
    else [c[0]] + WithoutFirst(c[1..], v, n)
  }

  /** c without the last n elements equal to v. */
  function WithoutLast(c: seq<string>, v: string, n: nat): seq<string>
  {
    if c == [] || n == 0 then c
    else
      var k := |c| - 1;
      if c[k] == v then WithoutLast(c[..k], v, n - 1) else WithoutLast(c[..k], v, n) + [c[k]]
  }

  /** What LREM leaves: from the front for a positive count, from the back for a negative one, of all
      for 0. */
  function Removed(c: seq<string>, count: int, v: string): seq<string>
  {
    if count < 0 then WithoutLast(c, v, -count) else WithoutFirst(c, v, if count > 0 then count else |c|)
  }

  /** Of the value as many elements go as asked for, or all there are; every other one stays. */
  lemma RemovedCounts(c: seq<string>, count: int, v: string)
    ensures var m := multiset(c)[v];
      var gone := if count == 0 then m else Min(m, if count < 0 then -count else count);
      && multiset(Removed(c, count, v)) == multiset(c)[v := m - gone]
      && |Removed(c, count, v)| == |c| - gone
  {
    var n := if count < 0 then -count else if count > 0 then count else |c|;
    if count < 0 {
      WithoutLastCounts(c, v, n);
    } else {
      WithoutFirstCounts(c, v, n);
    }
    assert |multiset(c)| == |c|;
  }

  /** m with n fewer of v, or none. */
  function Lacking(m: multiset<string>, v: string, n: nat): multiset<string>
  {
    m[v := m[v] - Min(m[v], n)]
  }

  lemma OneMore(m: multiset<string>, x: string, v: string, n: nat)
    requires n > 0
    ensures Lacking(m + multiset{x}, v, n) == if x == v then Lacking(m, v, n - 1) else Lacking(m, v, n) + multiset{x}
    ensures Min((m + multiset{x})[v], n) == if x == v then Min(m[v], n - 1) + 1 else Min(m[v], n)
  {
  }

  lemma {:induction false} WithoutFirstCounts(c: seq<string>, v: string, n: nat)
    ensures multiset(WithoutFirst(c, v, n)) == Lacking(multiset(c), v, n)
    ensures |WithoutFirst(c, v, n)| == |c| - Min(multiset(c)[v], n)
    decreases |c|
  {
    if c != [] && n > 0 {
      assert c == [c[0]] + c[1..];
      assert multiset(c) == multiset(c[1..]) + multiset{c[0]};
      OneMore(multiset(c[1..]), c[0], v, n);
      hide Lacking, Min;
      WithoutFirstCounts(c[1..], v, if c[0] == v then n - 1 else n);
    }
  }

  lemma {:induction false} WithoutLastCounts(c: seq<string>, v: string, n: nat)
    ensures multiset(WithoutLast(c, v, n)) == Lacking(multiset(c), v, n)
    ensures |WithoutLast(c, v, n)| == |c| - Min(multiset(c)[v], n)
    decreases |c|
  {
    if c != [] && n > 0 {
      var k := |c| - 1;
      assert c == c[..k] + [c[k]];
      assert multiset(c) == multiset(c[..k]) + multiset{c[k]};
      OneMore(multiset(c[..k]), c[k], v, n);
      hide Lacking, Min;
      WithoutLastCounts(c[..k], v, if c[k] == v then n - 1 else n);
    }
  }

  /** Neither the first nor the last element is among those removed. */
  predicate Spares(c: seq<string>, count: int, v: string)
  {
    c != [] ==>
      && (c[0] != v || (count < 0 && multiset(c)[v] > -count))
      && (c[|c| - 1] != v || (count > 0 && multiset(c)[v] > count))
  }

  // ------------------------------------------------------------- on elements

  function FirstGone(s: Entries, v: string, n: nat): Entries
  {
    if s == [] || n == 0 then s
    else if s[0].value == v then FirstGone(s[1..], v, n - 1)
    else [s[0]] + FirstGone(s[1..], v, n)
  }

  function LastGone(s: Entries, v: string, n: nat): Entries
  {
    if s == [] || n == 0 then s
    else
      var k := |s| - 1;
      if s[k].value == v then LastGone(s[..k], v, n - 1) else LastGone(s[..k], v, n) + [s[k]]
  }

  lemma {:induction false} FirstGoneValues(s: Entries, v: string, n: nat)
    ensures Values(FirstGone(s, v, n)) == WithoutFirst(Values(s), v, n)
    decreases |s|
  {
    if s != [] && n > 0 {
      assert Values(s)[1..] == Values(s[1..]);
      if s[0].value == v {
        FirstGoneValues(s[1..], v, n - 1);
      } else {
        FirstGoneValues(s[1..], v, n);
        ValuesConcat([s[0]], FirstGone(s[1..], v, n));
        ValuesOne(s[0]);
      }
    }
  }

  lemma {:induction false} LastGoneValues(s: Entries, v: string, n: nat)
    ensures Values(LastGone(s, v, n)) == WithoutLast(Values(s), v, n)
    decreases |s|
  {
    if s != [] && n > 0 {
      var k := |s| - 1;
      assert Values(s)[..k] == Values(s[..k]);
      if s[k].value == v {
        LastGoneValues(s[..k], v, n - 1);
      } else {
        LastGoneValues(s[..k], v, n);
        ValuesConcat(LastGone(s[..k], v, n), [s[k]]);
        ValuesOne(s[k]);
      }
    }
  }

  /** One step of the scan from the front. */
  lemma FirstGoneStep(s: Entries, k: nat, v: string, n: nat)
    requires k < |s| && n > 0
    ensures FirstGone(s[k..], v, n) ==
      if s[k].value == v then FirstGone(s[k + 1..], v, n - 1) else [s[k]] + FirstGone(s[k + 1..], v, n)
  {
    assert s[k..][1..] == s[k + 1..];
  }

  /** One step of the scan from the back. */
  lemma LastGoneStep(s: Entries, k: nat, v: string, n: nat)
    requires k < |s| && n > 0
    ensures LastGone(s[..k + 1], v, n) ==
      if s[k].value == v then LastGone(s[..k], v, n - 1) else LastGone(s[..k], v, n) + [s[k]]
  {
    assert s[..k + 1][..k] == s[..k];
  }

  lemma FirstGoneEnd(s: Entries, v: string, n: nat)
    requires s == [] || n == 0
    ensures FirstGone(s, v, n) == s
  {
  }

  lemma LastGoneEnd(s: Entries, v: string, n: nat)
    requires s == [] || n == 0
    ensures LastGone(s, v, n) == s
  {
  }

  lemma {:induction false} FirstGoneIn(s: Entries, v: string, n: nat)
    ensures forall e :: e in FirstGone(s, v, n) ==> e in s
    decreases |s|
  {
    if s != [] && n > 0 {
      FirstGoneIn(s[1..], v, if s[0].value == v then n - 1 else n);
    }
  }

  lemma {:induction false} LastGoneIn(s: Entries, v: string, n: nat)
    ensures forall e :: e in LastGone(s, v, n) ==> e in s
    decreases |s|
  {
    if s != [] && n > 0 {
      var k := |s| - 1;
      LastGoneIn(s[..k], v, if s[k].value == v then n - 1 else n);
    }
  }

  lemma NoneRemoved(count: int, v: string)
    ensures Removed([], count, v) == []
  {
  }

  lemma SplitAt(a: Entries, s: Entries, k: nat)
    requires k < |s|
    ensures a + s[k..] == a + [s[k]] + s[k + 1..]
  {
  }

  /** The entry between two parts is the one deleted. */
  lemma DelBetween(a: Entries, e: Entry, b: Entries)
    requires Ordered(a + [e] + b)
    ensures Del(a + [e] + b, Val(e.idx)) == a + b && Ordered(a + b)
  {
    var s := a + [e] + b;
    assert s[|a|] == e && s[..|a|] == a && s[|a| + 1..] == b;
    DelIs(s, |a|);
  }

  /** A scan from the front at position k, with `passed` left of what it passed. */
  ghost predicate Scanned(s: Entries, k: nat, v: string, n: nat, removed: nat, passed: Entries, left: Entries)
  {
    && k <= |s| && removed <= n && |left| == |s| - removed && left == passed + s[k..] && Ordered(left)
    && FirstGone(s, v, n) == passed + FirstGone(s[k..], v, n - removed)
  }

  lemma ScanStart(s: Entries, v: string, n: nat)
    requires Ordered(s)
    ensures Scanned(s, 0, v, n, 0, [], s)
  {
    hide FirstGone;
    assert s[0..] == s;
  }

  lemma ScanHit(s: Entries, k: nat, v: string, n: nat, removed: nat, passed: Entries, left: Entries)
    requires k < |s| && removed < n && Scanned(s, k, v, n, removed, passed, left) && s[k].value == v
    ensures Scanned(s, k + 1, v, n, removed + 1, passed, Del(left, Val(s[k].idx)))
  {
    FirstGoneStep(s, k, v, n - removed);
    SplitAt(passed, s, k);
    hide FirstGone, Ordered, Del;
    DelBetween(passed, s[k], s[k + 1..]);
  }

  lemma ScanMiss(s: Entries, k: nat, v: string, n: nat, removed: nat, passed: Entries, left: Entries)
    requires k < |s| && removed < n && Scanned(s, k, v, n, removed, passed, left) && s[k].value != v
    ensures Scanned(s, k + 1, v, n, removed, passed + [s[k]], left)
  {
    hide FirstGone, Ordered;
    FirstGoneStep(s, k, v, n - removed);
    SplitAt(passed, s, k);
    var rest := FirstGone(s[k + 1..], v, n - removed);
    assert passed + ([s[k]] + rest) == passed + [s[k]] + rest;
  }

  lemma ScanEnd(s: Entries, k: nat, v: string, n: nat, removed: nat, passed: Entries, left: Entries)
    requires Scanned(s, k, v, n, removed, passed, left) && (k == |s| || removed == n)
    ensures left == FirstGone(s, v, n) && Ordered(left) && removed == |s| - |left|
  {
    hide FirstGone, Ordered;
    FirstGoneEnd(s[k..], v, n - removed);
  }

  /** A scan from the back that has come down to position k. */
  ghost predicate ScannedBack(s: Entries, k: nat, v: string, n: nat, removed: nat, passed: Entries, left: Entries)
  {
    && k <= |s| && removed <= n && |left| == |s| - removed && left == s[..k] + passed && Ordered(left)
    && LastGone(s, v, n) == LastGone(s[..k], v, n - removed) + passed
  }

  lemma BackStart(s: Entries, v: string, n: nat)
    requires Ordered(s)
    ensures ScannedBack(s, |s|, v, n, 0, [], s)
  {
    hide LastGone;
    assert s[..|s|] == s;
  }

  lemma BackHit(s: Entries, k: nat, v: string, n: nat, removed: nat, passed: Entries, left: Entries)
    requires k < |s| && removed < n && ScannedBack(s, k + 1, v, n, removed, passed, left) && s[k].value == v
    ensures ScannedBack(s, k, v, n, removed + 1, passed, Del(left, Val(s[k].idx)))
  {
    LastGoneStep(s, k, v, n - removed);
    SplitBack(s, k, passed);
    hide LastGone, Ordered, Del;
    DelBetween(s[..k], s[k], passed);
  }

  lemma BackMiss(s: Entries, k: nat, v: string, n: nat, removed: nat, passed: Entries, left: Entries)
    requires k < |s| && removed < n && ScannedBack(s, k + 1, v, n, removed, passed, left) && s[k].value != v
    ensures ScannedBack(s, k, v, n, removed, [s[k]] + passed, left)
  {
    hide LastGone, Ordered;
    LastGoneStep(s, k, v, n - removed);
    SplitBack(s, k, passed);
    var rest := LastGone(s[..k], v, n - removed);
    assert rest + [s[k]] + passed == rest + ([s[k]] + passed);
    assert s[..k] + [s[k]] + passed == s[..k] + ([s[k]] + passed);
  }

  lemma SplitBack(s: Entries, k: nat, b: Entries)
    requires k < |s|
    ensures s[..k + 1] + b == s[..k] + [s[k]] + b
  {
  }

  lemma BackEnd(s: Entries, k: nat, v: string, n: nat, removed: nat, passed: Entries, left: Entries)
    requires ScannedBack(s, k, v, n, removed, passed, left) && (k == 0 || removed == n)
    ensures left == LastGone(s, v, n) && Ordered(left) && removed == |s| - |left|
  {
    hide LastGone, Ordered;
    LastGoneEnd(s[..k], v, n - removed);
  }

  // ------------------------------------------------- what stays at either end

  lemma CountSplit(s: Entries, k: nat, v: string)
    requires k <= |s|
    ensures multiset(Values(s))[v] == multiset(Values(s[..k]))[v] + multiset(Values(s[k..]))[v]
  {
    assert s == s[..k] + s[k..];
    ValuesConcat(s[..k], s[k..]);
  }

  lemma CountOne(s: Entries, v: string)
    requires |s| == 1
    ensures multiset(Values(s))[v] == if s[0].value == v then 1 else 0
  {
    assert s == [s[0]];
    ValuesOne(s[0]);
  }

  lemma CountIn(s: Entries, k: nat, v: string)
    requires k < |s| && s[k].value == v
    ensures multiset(Values(s))[v] > 0
  {
    assert Values(s)[k] == v;
  }

  lemma OrderedPart(s: Entries, l: nat, h: nat)
    requires Ordered(s) && l <= h <= |s|
    ensures Ordered(s[l..h]) && forall i, k :: 0 <= i < |s| && l <= k < h && i != k ==> s[i] != s[k]
  {
  }

  lemma NotIn(s: Entries, l: nat, h: nat, i: nat)
    requires Ordered(s) && l <= h <= |s| && i < |s| && !(l <= i < h)
    ensures s[i] !in s[l..h]
  {
  }

  /** Removing from the front takes the first element exactly when it is equal. */
  lemma FirstGoneFirst(s: Entries, v: string, n: nat)
    requires Ordered(s) && s != [] && n > 0
    ensures s[0] in FirstGone(s, v, n) <==> s[0].value != v
  {
    if s[0].value == v {
      FirstGoneIn(s[1..], v, n - 1);
      NotIn(s, 1, |s|, 0);
    }
  }

  /** It takes the last element exactly when it is equal and no more are equal than go. */
  lemma {:induction false} FirstGoneLast(s: Entries, v: string, n: nat)
    requires Ordered(s) && s != []
    ensures s[|s| - 1] in FirstGone(s, v, n) <==> s[|s| - 1].value != v || multiset(Values(s))[v] > n
    decreases |s|
  {
    hide Ordered, Values;
    var m := |s| - 1;
    if n == 0 {
      if s[m].value == v {
        CountIn(s, m, v);
      }
    } else {
      CountSplit(s, 1, v);
      CountOne(s[..1], v);
      if m == 0 {
        assert s[1..] == [];
        NoneCounted(v);
      } else {
        OrderedPart(s, 1, |s|);
        assert s[1..|s|] == s[1..];
        FirstGoneLast(s[1..], v, if s[0].value == v then n - 1 else n);
        NotIn(s, m, |s|, 0);
      }
    }
  }

  lemma NoneCounted(v: string)
    ensures multiset(Values([]))[v] == 0
  {
  }

  /** Removing from the back takes the last element exactly when it is equal. */
  lemma LastGoneLast(s: Entries, v: string, n: nat)
    requires Ordered(s) && s != [] && n > 0
    ensures s[|s| - 1] in LastGone(s, v, n) <==> s[|s| - 1].value != v
  {
    var m := |s| - 1;
    if s[m].value == v {
      LastGoneIn(s[..m], v, n - 1);
      NotIn(s, 0, m, m);
    }
  }

  /** It takes the first element exactly when it is equal and no more are equal than go. */
  lemma {:induction false} LastGoneFirst(s: Entries, v: string, n: nat)
    requires Ordered(s) && s != []
    ensures s[0] in LastGone(s, v, n) <==> s[0].value != v || multiset(Values(s))[v] > n
    decreases |s|
  {
    hide Ordered, Values;
    var m := |s| - 1;
    if n == 0 {
      if s[0].value == v {
        CountIn(s, 0, v);
      }
    } else {
      CountSplit(s, m, v);
      CountOne(s[m..], v);
      if m == 0 {
        assert s[..m] == [];
        NoneCounted(v);
      } else {
        OrderedPart(s, 0, m);
        LastGoneFirst(s[..m], v, if s[m].value == v then n - 1 else n);
        NotIn(s, 0, 1, m);
      }
    }
  }

  /** LREM takes neither end element exactly when the contents say so. */
  lemma SparesEnds(s: Entries, count: int, v: string)
    requires Ordered(s) && s != []
    ensures var n := if count < 0 then -count else if count > 0 then count else |s|;
      var t := if count < 0 then LastGone(s, v, n) else FirstGone(s, v, n);
      s[0] in t && s[|s| - 1] in t <==> Spares(Values(s), count, v)
  {
    hide Ordered, FirstGone, LastGone;
    assert Values(s)[0] == s[0].value && Values(s)[|s| - 1] == s[|s| - 1].value;
    assert |multiset(Values(s))| == |s|;
    if count < 0 {
      LastGoneFirst(s, v, -count);
      LastGoneLast(s, v, -count);
    } else {
      var n := if count > 0 then count else |s|;
      FirstGoneFirst(s, v, n);
      FirstGoneLast(s, v, n);
      AtMostAll(Values(s), v);
    }
  }

  lemma AtMostAll(c: seq<string>, v: string)
    ensures multiset(c)[v] <= |c|
  {
    WithoutFirstCounts(c, v, |c|);
  }
}
