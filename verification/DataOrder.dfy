/** How stored strings compare: byte by byte, the shorter first. */
module DataOrder {
  import opened Basics

  function Sign(a: int, b: int): int
  {
    if a > b then 1 else if a < b then -1 else 0
  }

  /** The sign memcmp gives for two strings of one length. */
  function MemCmp(a: seq<Byte>, b: seq<Byte>): int
    requires |a| == |b|
  {
    if a == [] then 0 else if a[0] != b[0] then Sign(a[0], b[0]) else MemCmp(a[1..], b[1..])
  }

  /** The string branch of the stored-data comparison. */
  function CompareStrings(a: seq<Byte>, b: seq<Byte>): int
  {
    var n := Min(|a|, |b|);
    if n == 0 then |a| - |b|
    else
      var c := MemCmp(a[..n], b[..n]);
      if c != 0 then c else |a| - |b|
  }

  /** The lexicographic order. */
  predicate TextLess(a: seq<Byte>, b: seq<Byte>)
  {
    b != [] && (a == [] || a[0] < b[0] || (a[0] == b[0] && TextLess(a[1..], b[1..])))
  }

  lemma TakeTail(s: seq<Byte>, n: nat)
    requires 1 <= n <= |s|
    ensures s[..n][1..] == s[1..][..n - 1]
  {
  }

  lemma CompareStep(a: seq<Byte>, b: seq<Byte>)
    requires a != [] && b != []
    ensures CompareStrings(a, b) == if a[0] != b[0] then Sign(a[0], b[0]) else CompareStrings(a[1..], b[1..])
  {
    var n := Min(|a|, |b|);
    TakeTail(a, n);
    TakeTail(b, n);
    assert Min(|a[1..]|, |b[1..]|) == n - 1;
    var c := MemCmp(a[1..][..n - 1], b[1..][..n - 1]);
    assert n == 1 ==> c == 0;
    assert MemCmp(a[..n], b[..n]) == if a[0] != b[0] then Sign(a[0], b[0]) else c;
  }

  /** The comparison is the lexicographic order. */
  lemma {:induction false} CompareIsLess(a: seq<Byte>, b: seq<Byte>)
    ensures CompareStrings(a, b) < 0 <==> TextLess(a, b)
    ensures CompareStrings(a, b) == 0 <==> a == b
  {
    if a != [] && b != [] {
      CompareStep(a, b);
      CompareIsLess(a[1..], b[1..]);
      assert a == [a[0]] + a[1..] && b == [b[0]] + b[1..];
    }
  }

  lemma {:induction false} TextTotal(a: seq<Byte>, b: seq<Byte>)
    ensures a == b || TextLess(a, b) || TextLess(b, a)
    ensures !(TextLess(a, b) && TextLess(b, a))
    ensures !TextLess(a, a)
  {
    if a != [] {
      TextTotal(a[1..], if b != [] then b[1..] else []);
      if b != [] && a[0] == b[0] {
        assert a[1..] == b[1..] ==> a == [a[0]] + a[1..] == b;
      }
    }
  }

  lemma {:induction false} TextTransitive(a: seq<Byte>, b: seq<Byte>, c: seq<Byte>)
    requires TextLess(a, b) && TextLess(b, c)
    ensures TextLess(a, c)
  {
    if a != [] && a[0] == b[0] == c[0] {
      TextTransitive(a[1..], b[1..], c[1..]);
    }
  }
}
