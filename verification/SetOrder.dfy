/** Set members and their order in the store. */
module SetOrder {
  import opened Basics
  import opened DataOrder

  type Int64 = x: int | -HALF <= x < HALF

  /** A member: a 64-bit integer, or the bytes of anything else. */
  datatype Data = Int(n: Int64) | Text(b: seq<Byte>)

  /** Integers compare by the sign of their 64-bit difference and come before text; text compares byte by
      byte, the shorter first. */
  function Compare(a: Data, b: Data): int
  {
    match (a, b)
    case (Int(n), Int(m)) => Sign(Wrap(n - m), 0)
    case (Int(_), Text(_)) => -1
    case (Text(_), Int(_)) => 1
    case (Text(x), Text(y)) => CompareStrings(x, y)
  }

  predicate Less(a: Data, b: Data)
  {
    Compare(a, b) < 0
  }

  predicate Greater(a: Data, b: Data)
  {
    Compare(a, b) > 0
  }

  // ------------------------------------------------ when this is an order

  /** The comparison of two integers is the one of their values exactly when the difference fits. */
  lemma NumericExact(n: Int64, m: Int64)
    ensures (Less(Int(n), Int(m)) <==> n < m) <==> -HALF <= n - m < HALF
  {
  }

  /** Three integers, each less than the next, around in a circle. */
  lemma Cycle()
    ensures Less(Int(-HALF), Int(-1)) && Less(Int(-1), Int(0)) && Less(Int(0), Int(-HALF))
  {
  }

  /** How far n lies above base on the circle of 64-bit integers. */
  function Place(base: Int64, n: Int64): (p: nat)
    ensures p < 2 * HALF
  {
    if n >= base then n - base else n - base + 2 * HALF
  }

  /** An integer less than half a turn above base, or text. */
  predicate Near(base: Int64, x: Data)
  {
    x.Int? ==> Place(base, x.n) < HALF
  }

  ghost predicate Arc(base: Int64, s: seq<Data>)
  {
    forall x :: x in s ==> Near(base, x)
  }

  /** The comparison is a strict total order of s. */
  ghost predicate Ordered(s: seq<Data>)
  {
    && (forall a, b :: a in s && b in s ==> (Less(a, b) <==> Greater(b, a)))
    && (forall a, b :: a in s && b in s ==> a == b || Less(a, b) || Less(b, a))
    && (forall a, b :: a in s && b in s ==> !(Less(a, b) && Less(b, a)))
    && (forall a, b, c :: a in s && b in s && c in s && Less(a, b) && Less(b, c) ==> Less(a, c))
  }

  lemma Total(base: Int64, a: Data, b: Data)
    requires Near(base, a) && Near(base, b)
    ensures a == b || Less(a, b) || Less(b, a)
    ensures !(Less(a, b) && Less(b, a)) && !Less(a, a)
    ensures Less(a, b) <==> Greater(b, a)
  {
    hide TextLess, CompareStrings;
    if a.Text? && b.Text? {
      CompareIsLess(a.b, b.b);
      CompareIsLess(b.b, a.b);
      TextTotal(a.b, b.b);
    }
    if a.Text? {
      CompareIsLess(a.b, a.b);
      TextTotal(a.b, a.b);
    }
  }

  lemma Transitive(base: Int64, a: Data, b: Data, c: Data)
    requires Near(base, a) && Near(base, b) && Near(base, c)
    requires Less(a, b) && Less(b, c)
    ensures Less(a, c)
  {
    hide TextLess, CompareStrings;
    if a.Text? && b.Text? && c.Text? {
      CompareIsLess(a.b, b.b);
      CompareIsLess(b.b, c.b);
      CompareIsLess(a.b, c.b);
      TextTransitive(a.b, b.b, c.b);
    }
  }

  /** The comparison orders a set exactly when its integers lie within half a turn. */
  lemma OrderedExact(s: seq<Data>)
    ensures Ordered(s) <==> exists base: Int64 :: Arc(base, s)
  {
    hide Less, Greater;
    if base: Int64 :| Arc(base, s) {
      forall a, b | a in s && b in s
        ensures a == b || Less(a, b) || Less(b, a)
        ensures (Less(a, b) <==> Greater(b, a)) && !(Less(a, b) && Less(b, a))
      {
        Total(base, a, b);
      }
      forall a, b, c | a in s && b in s && c in s && Less(a, b) && Less(b, c)
        ensures Less(a, c)
      {
        Transitive(base, a, b, c);
      }
    }
    if Ordered(s) {
      if s == [] {
        assert Arc(0, s);
      } else {
        var m := Least(s, s);
        NotLessNear(m, s);
      }
    }
  }

  /** The least of some members of an ordered set. */
  lemma {:induction false} Least(s: seq<Data>, t: seq<Data>) returns (m: Data)
    requires Ordered(s) && t != [] && forall x :: x in t ==> x in s
    ensures m in t && forall x :: x in t ==> !Less(x, m)
  {
    hide Less, Greater;
    m := t[0];
    if |t| > 1 {
      var l := Least(s, t[1..]);
      m := if Less(l, t[0]) then l else t[0];
      forall x | x in t
        ensures !Less(x, m)
      {
        assert x == t[0] || x in t[1..];
      }
    }
  }

  /** Whatever is not less than m lies within half a turn above it. */
  lemma NotLessNear(m: Data, s: seq<Data>)
    requires forall x :: x in s ==> !Less(x, m)
    ensures Arc(if m.Int? then m.n else 0, s)
  {
  }

  predicate AtMost(a: Data, b: Data)
  {
    !Less(b, a)
  }

  lemma AtMostTransitive(base: Int64, a: Data, b: Data, c: Data)
    requires Near(base, a) && Near(base, b) && Near(base, c)
    requires AtMost(a, b) && AtMost(b, c)
    ensures AtMost(a, c)
  {
    hide Less, Greater;
    Total(base, a, b);
    Total(base, b, c);
    Total(base, c, a);
    if Less(c, a) && Less(a, b) {
      Transitive(base, c, a, b);
    }
  }

  // -------------------------------------------------------- members in order

  ghost predicate Sorted(s: seq<Data>)
  {
    forall i, j :: 0 <= i < j < |s| ==> Less(s[i], s[j])
  }

  /** Where an iterator put at x stands: on the first member not below x. */
  function Seek(s: seq<Data>, x: Data): (k: nat)
    ensures k <= |s|
    ensures forall i :: 0 <= i < k ==> Less(s[i], x)
  {
    if s == [] || !Less(s[0], x) then 0 else 1 + Seek(s[1..], x)
  }

  lemma {:induction false} SeekSplits(base: Int64, s: seq<Data>, x: Data)
    requires Sorted(s) && Arc(base, s) && Near(base, x)
    ensures forall i :: 0 <= i < |s| ==> (Less(s[i], x) <==> i < Seek(s, x))
  {
    hide Less, Near;
    if s != [] {
      if Less(s[0], x) {
        SeekSplits(base, s[1..], x);
        forall i | 0 <= i < |s|
          ensures Less(s[i], x) <==> i < Seek(s, x)
        {
          assert i > 0 ==> s[i] == s[1..][i - 1];
        }
      } else {
        forall i | 0 <= i < |s|
          ensures !Less(s[i], x)
        {
          if i > 0 {
            NotBelow(base, s[0], s[i], x);
          }
        }
      }
    }
  }

  lemma NotBelow(base: Int64, a: Data, b: Data, x: Data)
    requires Near(base, a) && Near(base, b) && Near(base, x)
    requires Less(a, b) && !Less(a, x)
    ensures !Less(b, x)
  {
    hide Less, Near;
    if Less(b, x) {
      Transitive(base, a, b, x);
    }
  }

  function Put(s: seq<Data>, x: Data): seq<Data>
  {
    var k := Seek(s, x);
    if k < |s| && s[k] == x then s else s[..k] + [x] + s[k..]
  }

  function Del(s: seq<Data>, x: Data): seq<Data>
  {
    var k := Seek(s, x);
    if k < |s| && s[k] == x then s[..k] + s[k + 1..] else s
  }

  lemma PutSorted(base: Int64, s: seq<Data>, x: Data)
    requires Sorted(s) && Arc(base, s) && Near(base, x)
    ensures Sorted(Put(s, x)) && Arc(base, Put(s, x)) && (forall y :: y in Put(s, x) <==> y in s || y == x)
    ensures |Put(s, x)| == |s| + if x in s then 0 else 1
    ensures x in s ==> Put(s, x) == s
  {
    SeekSplits(base, s, x);
    hide Less, Seek, Near;
    var k := Seek(s, x);
    Present(base, s, x, k);
    forall i | k <= i < |s|
      ensures s[i] == x || Less(x, s[i])
    {
      Total(base, s[i], x);
    }
    if !(k < |s| && s[k] == x) {
      assert forall i :: k <= i < |s| ==> s[i] != x;
    }
  }

  lemma Present(base: Int64, s: seq<Data>, x: Data, k: nat)
    requires Sorted(s) && Arc(base, s) && Near(base, x)
    requires k <= |s| && forall i :: 0 <= i < |s| ==> (Less(s[i], x) <==> i < k)
    ensures x in s <==> k < |s| && s[k] == x
    ensures forall i :: 0 <= i < |s| && i != k ==> s[i] != x
  {
    hide Less, Near;
    forall i | 0 <= i < |s| && i != k
      ensures s[i] != x
    {
      Total(base, x, x);
      if i > k {
        assert Less(s[k], s[i]) && !Less(s[k], x);
      }
    }
  }

  lemma DelSorted(base: Int64, s: seq<Data>, x: Data)
    requires Sorted(s) && Arc(base, s) && Near(base, x)
    ensures Sorted(Del(s, x)) && (forall y :: y in Del(s, x) <==> y in s && y != x)
    ensures |Del(s, x)| == |s| - if x in s then 1 else 0
    ensures x !in s ==> Del(s, x) == s
  {
    SeekSplits(base, s, x);
    hide Less, Seek, Near;
    var k := Seek(s, x);
    Present(base, s, x, k);
    if k < |s| && s[k] == x {
      Cut(s, k);
    }
  }

  lemma Cut(s: seq<Data>, k: nat)
    requires Sorted(s) && k < |s| && forall i :: 0 <= i < |s| && i != k ==> s[i] != s[k]
    ensures var t := s[..k] + s[k + 1..]; Sorted(t) && forall y :: y in t <==> y in s && y != s[k]
  {
    hide Less;
    var t := s[..k] + s[k + 1..];
    forall i, j | 0 <= i < j < |t|
      ensures Less(t[i], t[j])
    {
      assert t[i] == s[if i < k then i else i + 1] && t[j] == s[if j < k then j else j + 1];
    }
    forall y
      ensures y in t <==> y in s && y != s[k]
    {
      if y in s && y != s[k] {
        var i :| 0 <= i < |s| && s[i] == y;
        assert t[if i < k then i else i - 1] == y;
      }
    }
  }
}
