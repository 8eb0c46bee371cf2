/** Differences and intersections of stored sets, by scans cut short at the sets' bounds. */
module SetAlgebra {
  import opened SetOrder
  import opened Sets

  /** All integers and bounds of the sets lie within half a turn above base. */
  ghost predicate AllValid(sets: seq<SetKey>, base: Int64)
    reads set k | k in sets
  {
    forall k :: k in sets ==> k.Valid() && k.On(base)
  }

  /** Members from lo up to hi, in order, as an iterator put at lo meets them. */
  method Scan(members: seq<Data>, lo: Data, hi: Data, ghost base: Int64) returns (found: set<Data>)
    requires Sorted(members) && Arc(base, members) && Near(base, lo) && Near(base, hi)
    ensures forall x :: x in found <==> x in members && AtMost(lo, x) && AtMost(x, hi)
  {
    hide Less, Greater, Seek, Near;
    SeekSplits(base, members, lo);
    var k := Seek(members, lo);
    found := {};
    ghost var start := k;
    forall x | x in members
      ensures Greater(x, hi) <==> !AtMost(x, hi)
    {
      Total(base, hi, x);
    }
    while k < |members| && !Greater(members[k], hi)
      invariant start <= k <= |members|
      invariant forall x :: x in found <==> exists i :: start <= i < k && members[i] == x
      invariant forall i :: start <= i < k ==> AtMost(members[i], hi)
    {
      found := found + {members[k]};
      k := k + 1;
    }
    forall i | k <= i < |members|
      ensures !AtMost(members[i], hi)
    {
      if i > k {
        Transitive(base, hi, members[k], members[i]);
      }
    }
  }

  function Higher(a: Data, b: Data): Data
  {
    if Greater(a, b) then a else b
  }

  function Lower(a: Data, b: Data): Data
  {
    if Less(a, b) then a else b
  }

  lemma HigherBound(base: Int64, a: Data, b: Data, x: Data)
    requires Near(base, a) && Near(base, b) && Near(base, x)
    ensures AtMost(Higher(a, b), x) <==> AtMost(a, x) && AtMost(b, x)
    ensures AtMost(x, Lower(a, b)) <==> AtMost(x, a) && AtMost(x, b)
  {
    hide Less, Greater, Near;
    Total(base, a, b);
    Total(base, b, a);
    if AtMost(a, x) && AtMost(b, a) { AtMostTransitive(base, b, a, x); }
    if AtMost(b, x) && AtMost(a, b) { AtMostTransitive(base, a, b, x); }
    if AtMost(x, a) && AtMost(a, b) { AtMostTransitive(base, x, a, b); }
    if AtMost(x, b) && AtMost(b, a) { AtMostTransitive(base, x, b, a); }
  }

  /** Sets whose bounds do not overlap have no member in common. */
  lemma Apart(base: Int64, x: Data, lo: Data, hi: Data)
    requires Near(base, x) && Near(base, lo) && Near(base, hi) && Less(hi, lo)
    ensures !(AtMost(lo, x) && AtMost(x, hi))
  {
    hide Less, Near;
    if AtMost(lo, x) && AtMost(x, hi) {
      AtMostTransitive(base, lo, x, hi);
    }
  }

  /** The members of a set that is there lie between its bounds. */
  lemma Between(k: SetKey, base: Int64)
    requires k.Valid() && k.On(base) && k.present
    ensures k.min.Some? && k.max.Some? && Near(base, k.min.value) && Near(base, k.max.value)
    ensures forall x :: x in k.members ==> Near(base, x) && AtMost(k.min.value, x) && AtMost(x, k.max.value)
  {
    hide Less, Greater, Sorted, Near;
    forall x | x in k.members
      ensures AtMost(x, k.max.value)
    {
      Total(base, k.max.value, x);
    }
  }

  /** SDIFF: the first set is read from its recorded lower bound on. */
  method SDiff(sets: seq<SetKey>, ghost base: Int64) returns (result: set<Data>)
    requires sets != [] && AllValid(sets, base)
    ensures forall x :: x in result <==>
      x in sets[0].members && forall i :: 1 <= i < |sets| ==> x !in sets[i].members
  {
    hide Less, Greater, Sorted, Near, Seek, Bracketed;
    var first := sets[0];
    assert first in sets;
    if !first.present {
      return {};
    }
    SeekLowest(first.members, first.min, first.max);
    result := set x | x in first.members[Seek(first.members, first.min.value)..];
    for i := 1 to |sets|
      invariant forall x :: x in result <==>
        x in first.members && forall j :: 1 <= j < i ==> x !in sets[j].members
    {
      assert sets[i] in sets;
      var common := Common(first, sets[i], base);
      result := result - common;
    }
  }

  /** Members of k that can be members of first: those within both sets' bounds. */
  method Common(first: SetKey, k: SetKey, ghost base: Int64) returns (found: set<Data>)
    requires first.Valid() && k.Valid() && first.On(base) && k.On(base) && first.present
    ensures forall x :: x in first.members ==> (x in found <==> x in k.members)
  {
    hide Less, Greater, Sorted, Near, Bracketed;
    if !k.present {
      return {};
    }
    Between(first, base);
    Between(k, base);
    var lo, hi := Higher(first.min.value, k.min.value), Lower(first.max.value, k.max.value);
    forall x | x in first.members
      ensures AtMost(lo, x) && AtMost(x, hi) <==>
        AtMost(first.min.value, x) && AtMost(k.min.value, x) && AtMost(x, first.max.value) && AtMost(x, k.max.value)
    {
      HigherBound(base, first.min.value, k.min.value, x);
      HigherBound(base, first.max.value, k.max.value, x);
    }
    if Greater(k.min.value, first.max.value) || Less(k.max.value, first.min.value) {
      Total(base, first.max.value, k.min.value);
      forall x | x in first.members
        ensures x !in k.members
      {
        if Less(first.max.value, k.min.value) {
          Apart(base, x, k.min.value, first.max.value);
        } else {
          Apart(base, x, first.min.value, k.max.value);
        }
      }
      return {};
    }
    found := Scan(k.members, lo, hi, base);
  }

  ghost predicate InAll(sets: seq<SetKey>, n: nat, x: Data)
    requires n <= |sets|
    reads set k | k in sets
  {
    forall i :: 0 <= i < n ==> x in sets[i].members
  }

  /** Bounds that bracket what the first n sets have in common. */
  ghost predicate Within(sets: seq<SetKey>, n: nat, lo: Data, hi: Data, base: Int64)
    requires 0 < n <= |sets|
    reads set k | k in sets
  {
    && Near(base, lo) && Near(base, hi)
    && (forall i :: 0 <= i < n ==> sets[i].present)
    && forall x :: InAll(sets, n, x) ==> AtMost(lo, x) && AtMost(x, hi)
  }

  /** SINTER: all scans run between the highest lower bound and the lowest upper bound; each keeps
      those of its members that the scan before it kept. */
  method SInter(sets: seq<SetKey>, ghost base: Int64) returns (result: set<Data>)
    requires sets != [] && AllValid(sets, base)
    ensures forall x :: x in result <==> InAll(sets, |sets|, x)
  {
    hide Less, Greater, Sorted, Near, Bracketed;
    var absent, lo, hi := Bounds(sets, base);
    assert sets[0] in sets;
    if absent || Greater(lo, hi) {
      forall x
        ensures !InAll(sets, |sets|, x)
      {
        NoneCommon(sets, absent, lo, hi, x, base);
      }
      return {};
    }
    result := Scan(sets[0].members, lo, hi, base);
    for i := 1 to |sets|
      invariant forall x :: x in result <==>
        AtMost(lo, x) && AtMost(x, hi) && InAll(sets, i, x)
    {
      assert sets[i] in sets;
      var scanned := Scan(sets[i].members, lo, hi, base);
      result := set x | x in scanned && x in result;
    }
  }

  method Bounds(sets: seq<SetKey>, ghost base: Int64) returns (absent: bool, lo: Data, hi: Data)
    requires sets != [] && AllValid(sets, base)
    ensures absent ==> exists i :: 0 <= i < |sets| && !sets[i].present
    ensures !absent ==> Within(sets, |sets|, lo, hi, base)
  {
    hide Less, Greater, Sorted, Near, Bracketed;
    assert sets[0] in sets;
    absent, lo, hi := false, Int(0), Int(0);
    for i := 0 to |sets|
      invariant !absent && (i > 0 ==> Within(sets, i, lo, hi, base))
    {
      var k := sets[i];
      assert k in sets;
      if !k.present {
        absent := true;
        return;
      }
      Between(k, base);
      forall x | i > 0 && x in k.members
        ensures AtMost(Higher(k.min.value, lo), x) <==> AtMost(lo, x) && AtMost(k.min.value, x)
        ensures AtMost(x, Lower(k.max.value, hi)) <==> AtMost(x, hi) && AtMost(x, k.max.value)
      {
        HigherBound(base, k.min.value, lo, x);
        HigherBound(base, k.max.value, hi, x);
      }
      lo := if i == 0 then k.min.value else Higher(k.min.value, lo);
      hi := if i == 0 then k.max.value else Lower(k.max.value, hi);
    }
  }

  lemma NoneCommon(sets: seq<SetKey>, absent: bool, lo: Data, hi: Data, x: Data, base: Int64)
    requires sets != [] && AllValid(sets, base)
    requires absent ==> exists i :: 0 <= i < |sets| && !sets[i].present
    requires !absent ==> Within(sets, |sets|, lo, hi, base) && Greater(lo, hi)
    ensures !InAll(sets, |sets|, x)
  {
    hide Less, Greater, Sorted, Bracketed, Near;
    if absent {
      var i :| 0 <= i < |sets| && !sets[i].present;
      assert sets[i] in sets;
      assert x !in sets[i].members;
    } else if InAll(sets, |sets|, x) {
      assert sets[0] in sets && x in sets[0].members;
      Total(base, hi, lo);
      Apart(base, x, lo, hi);
    }
  }
}
