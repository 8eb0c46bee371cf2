/** Lists kept as indexed elements plus a meta record, against plain sequences. */
module Lists {
  import opened Basics
  import opened ListRemoval
  import opened ListStore

  ghost predicate Contiguous(s: Entries, base: int)
  {
    forall i :: 0 <= i < |s| ==> s[i].idx == Int(base + i)
  }

  /** The meta record describes the stored elements: the length is exact, and no element is outside
      the bounds. The sequential flag means that indexes run from min to max without a gap. */
  ghost predicate Fits(s: Entries, len: int, min: Index, max: Index, sequential: bool)
  {
    && Ordered(s) && len == |s| > 0 && Val(min) <= Val(s[0].idx) && Val(s[|s| - 1].idx) <= Val(max)
    && (sequential ==> s[0].idx == min && s[|s| - 1].idx == max && min.Int? && Contiguous(s, min.n))
  }

  /** The bounds are the indexes of the first and the last element. */
  ghost predicate Ends(s: Entries, min: Index, max: Index)
  {
    s != [] && s[0].idx == min && s[|s| - 1].idx == max
  }

  // ------------------------------------------------------------ on sequences

  function Reversed(v: seq<string>): (r: seq<string>)
    ensures |r| == |v|
  {
    if v == [] then [] else Reversed(v[1..]) + [v[0]]
  }

  lemma {:induction false} ReversedAppend(v: seq<string>, x: string)
    ensures Reversed(v + [x]) == [x] + Reversed(v)
  {
    if v != [] {
      ReversedAppend(v[1..], x);
      assert (v + [x])[1..] == v[1..] + [x];
    }
  }

  /** c with the values pushed one after the other. */
  function Pushed(c: seq<string>, left: bool, values: seq<string>): seq<string>
  {
    if left then Reversed(values) + c else c + values
  }

  lemma PushedNone(c: seq<string>, left: bool)
    ensures Pushed(c, left, []) == c
  {
  }

  lemma PushedStep(c: seq<string>, left: bool, values: seq<string>, i: nat)
    requires i < |values|
    ensures var was := Pushed(c, left, values[..i]);
      Pushed(c, left, values[..i + 1]) == if left then [values[i]] + was else was + [values[i]]
  {
    assert values[..i + 1] == values[..i] + [values[i]];
    hide Reversed;
    ReversedAppend(values[..i], values[i]);
  }

  /** A position counted from the end when negative. */
  function Normal(i: int, len: int): int
  {
    if i < 0 then len + i else i
  }

  /** Elements start to end, both included, positions counted from the end when negative. */
  function Slice(c: seq<string>, start: int, end: int): seq<string>
  {
    var s, e := Max(Normal(start, |c|), 0), Normal(end, |c|);
    if s > e || s >= |c| then [] else c[s..Min(e, |c| - 1) + 1]
  }

  /** The first place where v stands in c; |c| if it stands nowhere. */
  function First(c: seq<string>, v: string): (p: nat)
    ensures p <= |c|
  {
    if c == [] || c[0] == v then 0 else 1 + First(c[1..], v)
  }

  lemma {:induction false} FirstIs(c: seq<string>, v: string, p: nat)
    requires p <= |c| && (forall i :: 0 <= i < p ==> c[i] != v) && (p < |c| ==> c[p] == v)
    ensures First(c, v) == p
  {
    if p > 0 {
      assert c[0] != v;
      FirstIs(c[1..], v, p - 1);
    }
  }

  lemma {:induction false} FirstIn(c: seq<string>, v: string)
    ensures First(c, v) < |c| <==> v in c
  {
    if c != [] && c[0] != v {
      FirstIn(c[1..], v);
    }
  }

  /** c with v put next to the first pivot, if there is one. */
  function Inserted(c: seq<string>, before: bool, pivot: string, v: string): seq<string>
  {
    var p := First(c, pivot);
    if p == |c| then c else if before then c[..p] + [v] + c[p..] else c[..p + 1] + [v] + c[p + 1..]
  }

  /** How many elements a trim takes off the front, and the last position it keeps. */
  function Trims(len: nat, start: int, end: int): (t: (nat, nat))
    ensures t.0 <= len && (t.1 > 0 ==> t.0 <= t.1 < len)
  {
    var s, e := Max(Normal(start, len), 0), Normal(end, len);
    if s > e || s >= len then (len, 0) else (s, Min(e, len - 1))
  }

  /** What a trim leaves: nothing goes off the back when the last position kept is 0. */
  function Trimmed(c: seq<string>, start: int, end: int): seq<string>
  {
    var (l, r) := Trims(|c|, start, end);
    if r > 0 then c[l..r + 1] else c[l..]
  }

  /** The trim is the slice, except when asked to keep just the first of several elements. */
  lemma TrimExact(c: seq<string>, start: int, end: int)
    ensures Trimmed(c, start, end) == Slice(c, start, end) <==>
      !(Normal(start, |c|) <= 0 && Normal(end, |c|) == 0 && |c| > 1)
  {
    assert |c| <= 1 && Slice(c, start, end) != [] ==> Slice(c, start, end) == c;
  }

  lemma TrimKeepsAll()
    ensures Trimmed(["a", "b"], 0, 0) == ["a", "b"] && Slice(["a", "b"], 0, 0) == ["a"]
  {
  }

  // ------------------------------------------------------------- on elements

  /** The index given to a pushed element: one beyond the bound, truncated if it is fractional. */
  function Beyond(left: bool, min: Index, max: Index): int
  {
    if left then (match min case Int(n) => n - 1 case Float(x) => Trunc(x) - 1)
    else (match max case Int(n) => n + 1 case Float(x) => Trunc(x) + 1)
  }

  lemma FitsBounds(s: Entries, len: int, min: Index, max: Index, sequential: bool)
    requires Fits(s, len, min, max, sequential)
    ensures len == |s| > 0 && Ordered(s)
    ensures sequential ==> min.Int? && max.Int?
  {
  }

  lemma FitsContiguous(s: Entries, len: int, min: Index, max: Index)
    requires Fits(s, len, min, max, true)
    ensures min.Int? && Contiguous(s, min.n) && max == Int(min.n + len - 1)
  {
  }

  lemma FirstFits(v: string)
    ensures Fits(Put([], Entry(Int(0), v)), 1, Int(0), Int(0), true) && Ends(Put([], Entry(Int(0), v)), Int(0), Int(0))
    ensures Values(Put([], Entry(Int(0), v))) == [v] && Values([]) == []
  {
  }

  lemma PushFits(s: Entries, len: int, min: Index, max: Index, sequential: bool, left: bool, v: string)
    requires Fits(s, len, min, max, sequential)
    ensures var idx := Int(Beyond(left, min, max));
      && Fits(Put(s, Entry(idx, v)), len + 1, if left then idx else min, if left then max else idx, sequential)
      && (Ends(s, min, max) ==> Ends(Put(s, Entry(idx, v)), if left then idx else min, if left then max else idx))
      && Values(Put(s, Entry(idx, v))) == if left then [v] + Values(s) else Values(s) + [v]
  {
    var e := Entry(Int(Beyond(left, min, max)), v);
    BeyondOutside(min, max);
    hide Beyond, Val, Values, Put;
    PutNew(s, e, if left then 0 else |s|);
    assert s[..0] + [e] + s[0..] == [e] + s && s[..|s|] + [e] + s[|s|..] == s + [e];
    if left {
      assert Values(s)[..0] + [v] + Values(s)[0..] == [v] + Values(s);
    } else {
      assert Values(s)[..|s|] + [v] + Values(s)[|s|..] == Values(s) + [v];
    }
  }

  lemma BeyondOutside(min: Index, max: Index)
    ensures Val(Int(Beyond(true, min, max))) < Val(min) && Val(max) < Val(Int(Beyond(false, min, max)))
    ensures min.Int? ==> Beyond(true, min, max) == min.n - 1
    ensures max.Int? ==> Beyond(false, min, max) == max.n + 1
  {
    if min.Float? {
      TruncOutside(min.x);
    }
    if max.Float? {
      TruncOutside(max.x);
    }
  }

  /** Without the first element, or without the last, the bound moves in by one position. */
  lemma EndFits(s: Entries, len: int, min: Index, max: Index, sequential: bool)
    requires Fits(s, len, min, max, sequential) && |s| > 1
    ensures Fits(s[1..], len - 1, s[1].idx, max, sequential)
    ensures Fits(s[..|s| - 1], len - 1, min, s[|s| - 2].idx, sequential)
    ensures Ends(s, min, max) ==> Ends(s[1..], s[1].idx, max) && Ends(s[..|s| - 1], min, s[|s| - 2].idx)
    ensures sequential ==> min.Int? && max.Int? && s[1].idx == Int(min.n + 1) && s[|s| - 2].idx == Int(max.n - 1)
  {
  }

  /** An iterator put at the lower bound stands on the first element, one put at the upper bound on
      the last or behind it. */
  lemma EndsFound(s: Entries, len: int, min: Index, max: Index, sequential: bool)
    requires Fits(s, len, min, max, sequential)
    ensures s != [] && Seek(s, Val(min)) == 0 && Land(s, Val(max)) == |s| - 1
    ensures sequential ==> s[0].idx == min && s[|s| - 1].idx == max
  {
    SeekIs(s, Val(min), 0);
    SeekLast(s, Val(max));
  }

  lemma SeekLast(s: Entries, x: real)
    requires Ordered(s) && s != [] && Val(s[|s| - 1].idx) <= x
    ensures Land(s, x) == |s| - 1
  {
    SeekIs(s, x, if Val(s[|s| - 1].idx) == x then |s| - 1 else |s|);
  }

  lemma PopIs(s: Entries, left: bool)
    requires Ordered(s) && s != []
    ensures var k := if left then 0 else |s| - 1; var t := Del(s, Val(s[k].idx));
      && Values(s)[k] == s[k].value
      && t == (if left then s[1..] else s[..|s| - 1])
      && Values(t) == (if left then Values(s)[1..] else Values(s)[..|s| - 1])
  {
    DelIs(s, if left then 0 else |s| - 1);
  }

  /** A lower bound widened to take in an index, and an upper bound. */
  function Lowered(min: Index, i: Index): Index
  {
    if Val(min) > Val(i) then i else min
  }

  function Raised(max: Index, i: Index): Index
  {
    if Val(max) < Val(i) then i else max
  }

  /** The index of an element put next to position k: half way to the neighbour, or one beyond. */
  function Beside(s: Entries, k: nat, before: bool): real
    requires k < |s|
  {
    var q := if before then k - 1 else k + 1;
    if 0 <= q < |s| then (Val(s[q].idx) + Val(s[k].idx)) / 2.0
    else if before then Val(s[k].idx) - 1.0 else Val(s[k].idx) + 1.0
  }

  lemma InsertFits(s: Entries, len: int, min: Index, max: Index, sequential: bool, k: nat, before: bool, v: string)
    requires Fits(s, len, min, max, sequential) && k < |s|
    ensures var x := Beside(s, k, before); var t := Put(s, Entry(Float(x), v)); var p := if before then k else k + 1;
      && Fits(t, len + 1, Lowered(min, Float(x)), Raised(max, Float(x)), false)
      && (Ends(s, min, max) ==> Ends(t, Lowered(min, Float(x)), Raised(max, Float(x))))
      && Values(t) == Values(s)[..p] + [v] + Values(s)[p..]
  {
    hide Put, Values;
    var x := Beside(s, k, before);
    var p := if before then k else k + 1;
    PutNew(s, Entry(Float(x), v), p);
    assert p > 0 ==> Val(min) <= Val(s[p - 1].idx);
    assert p < |s| ==> Val(s[p].idx) <= Val(max);
  }

  lemma SetFits(s: Entries, len: int, min: Index, max: Index, sequential: bool, k: nat, v: string)
    requires Fits(s, len, min, max, sequential) && k < |s|
    ensures var t := Put(s, Entry(s[k].idx, v));
      && Fits(t, len, min, max, sequential) && Values(t) == Values(s)[k := v]
      && (Ends(s, min, max) ==> Ends(t, min, max))
  {
    PutOver(s, Entry(s[k].idx, v), k);
  }

  lemma FitsAt(s: Entries, len: int, min: Index, max: Index, sequential: bool, k: nat)
    requires Fits(s, len, min, max, sequential) && k < |s|
    ensures Seek(s, Val(s[k].idx)) == k && Get(s, Val(s[k].idx)) == Some(s[k].value) && Seek(s, Val(min)) == 0
    ensures sequential ==> s[k].idx == Int(min.n + k)
  {
    SeekAt(s, k);
    SeekIs(s, Val(min), 0);
  }

  lemma DelFront(s: Entries, base: int, i: nat)
    requires Contiguous(s, base) && i < |s|
    ensures Del(s[i..], Val(Int(base + i))) == s[i + 1..]
  {
    SeekIs(s[i..], Val(Int(base + i)), 0);
  }

  lemma DelBack(s: Entries, base: int, l: nat, r: nat, i: nat)
    requires Contiguous(s, base) && l <= r < i < |s|
    ensures Del(s[l..r + 1] + s[i..], Val(Int(base + i))) == s[l..r + 1] + s[i + 1..]
  {
    var t, k := s[l..r + 1] + s[i..], r + 1 - l;
    assert t[k] == s[i];
    assert forall j :: 0 <= j < k ==> t[j] == s[l + j];
    SeekIs(t, Val(Int(base + i)), k);
    assert t[..k] == s[l..r + 1] && t[k + 1..] == s[i + 1..];
  }

  lemma PartFits(s: Entries, base: int, max: Index, l: nat, h: nat)
    requires Fits(s, |s|, Int(base), max, true) && l < h <= |s|
    ensures Fits(s[l..h], h - l, Int(base + l), Int(base + h - 1), true) && Ends(s[l..h], Int(base + l), Int(base + h - 1))
  {
  }

  lemma DelFirst(s: Entries, k: nat)
    requires Ordered(s) && k < |s|
    ensures Del(s[k..], Val(s[k].idx)) == s[k + 1..]
  {
    SeekIs(s[k..], Val(s[k].idx), 0);
  }

  lemma DelLast(s: Entries, l: nat, k: nat)
    requires Ordered(s) && l <= k < |s|
    ensures Del(s[l..k + 1], Val(s[k].idx)) == s[l..k]
  {
    var t := s[l..k + 1];
    assert t[k - l] == s[k] && t[..k - l] == s[l..k];
    SeekIs(t, Val(s[k].idx), k - l);
  }

  lemma TrimmedFits(s: Entries, len: int, min: Index, max: Index, l: nat, r: nat)
    requires Fits(s, len, min, max, false) && l <= len && (r > 0 ==> l <= r < len)
    ensures var h := if r > 0 then r + 1 else len;
      var low, high := if l > 0 && l < len then s[l].idx else min, if r > 0 then s[r].idx else max;
      h > l ==> Fits(s[l..h], h - l, low, high, false) && (Ends(s, min, max) ==> Ends(s[l..h], low, high))
  {
  }

  /** Some of the elements still lie within the bounds. */
  lemma RemovedFits(s: Entries, len: int, min: Index, max: Index, sequential: bool, t: Entries)
    requires Fits(s, len, min, max, sequential) && Ordered(t) && forall e :: e in t ==> e in s
    ensures forall e :: e in s ==> Val(min) <= Val(e.idx) <= Val(max)
    ensures t != [] ==> Fits(t, |t|, min, max, false)
  {
    forall e | e in s
      ensures Val(min) <= Val(e.idx) <= Val(max)
    {
      var i :| 0 <= i < |s| && s[i] == e;
      assert i > 0 ==> Val(s[0].idx) < Val(s[i].idx);
      assert i < |s| - 1 ==> Val(s[i].idx) < Val(s[|s| - 1].idx);
    }
    if t != [] {
      assert t[0] in t && t[|t| - 1] in t;
    }
  }

  /** The bounds are still those of the elements exactly when both end elements stay. */
  lemma EndsStay(s: Entries, min: Index, max: Index, t: Entries)
    requires Ordered(s) && Ordered(t) && Ends(s, min, max) && t != [] && forall e :: e in t ==> e in s
    ensures Ends(t, min, max) <==> s[0] in t && s[|s| - 1] in t
  {
    assert t[0] in t && t[|t| - 1] in t;
    var i :| 0 <= i < |s| && s[i] == t[0];
    var j :| 0 <= j < |s| && s[j] == t[|t| - 1];
    if s[0] in t {
      var k :| 0 <= k < |t| && t[k] == s[0];
    }
    if s[|s| - 1] in t {
      var k :| 0 <= k < |t| && t[k] == s[|s| - 1];
    }
  }

  /** Two elements at 0 and 1; without the first the lower bound is still 0 and the first index 1. */
  lemma BoundLags()
    ensures var s := [Entry(Int(0), "a"), Entry(Int(1), "b")]; var t := FirstGone(s, "a", 1);
      && Fits(s, 2, Int(0), Int(1), true) && t == [Entry(Int(1), "b")]
      && Fits(t, 1, Int(0), Int(1), false) && !Ends(t, Int(0), Int(1))
  {
    var s := [Entry(Int(0), "a"), Entry(Int(1), "b")];
    assert s[1..] == [Entry(Int(1), "b")];
  }

  lemma ValuesPart(s: Entries, l: nat, h: nat)
    requires l <= h <= |s|
    ensures Values(s[l..h]) == Values(s)[l..h]
  {
  }

  class List {
    var present: bool
    var len: int
    var min: Index
    var max: Index
    var sequential: bool
    var store: Entries

    ghost predicate Valid()
      reads this
    {
      if present then Fits(store, len, min, max, sequential) else store == []
    }

    /** The bounds of the meta record are those of the elements. */
    ghost predicate Exact()
      reads this
    {
      present && store != [] ==> Ends(store, min, max)
    }

    ghost function Contents(): seq<string>
      reads this
    {
      Values(store)
    }

    constructor ()
      ensures Valid() && Exact() && Contents() == []
    {
      present, len, min, max, sequential, store := false, 0, Int(0), Int(0), true, [];
    }

    /** LPUSH, RPUSH and their X forms. */
    method Push(left: bool, ifPresent: bool, values: seq<string>) returns (reply: int)
      requires Valid() && values != []
      modifies this
      ensures Valid() && (old(Exact()) ==> Exact())
      ensures ifPresent && old(Contents()) == [] ==> reply == 0 && Contents() == []
      ensures !ifPresent || old(Contents()) != [] ==>
        Contents() == Pushed(old(Contents()), left, values) && reply == |Contents()|
    {
      hide Fits, Ends, Values, Pushed;
      if present {
        FitsBounds(store, len, min, max, sequential);
      }
      if ifPresent && !present {
        return 0;
      }
      if !present {
        present, len, min, max, sequential := true, 0, Int(0), Int(0), true;
      }
      PushedNone(Contents(), left);
      assert values[..0] == [];
      for i := 0 to |values|
        invariant present && (if len == 0 then i == 0 && Fresh() else Valid()) && (old(Exact()) ==> Exact())
        invariant Contents() == Pushed(old(Contents()), left, values[..i])
      {
        PushedStep(old(Contents()), left, values, i);
        PushOne(left, values[i]);
        FitsBounds(store, len, min, max, sequential);
      }
      assert values[..|values|] == values;
      FitsBounds(store, len, min, max, sequential);
      reply := len;
    }

    /** The meta record just made for a list that did not exist. */
    ghost predicate Fresh()
      reads this
    {
      store == [] && len == 0 && min == max == Int(0) && sequential
    }

    method PushOne(left: bool, value: string)
      requires present && if len == 0 then Fresh() else Valid()
      modifies this
      ensures present && Valid() && len == old(len) + 1 && (old(Exact()) ==> Exact())
      ensures Contents() == if left then [value] + old(Contents()) else old(Contents()) + [value]
    {
      hide Fits, Ends, Put, Values;
      if len != 0 {
        FitsBounds(store, len, min, max, sequential);
      }
      var idx := 0;
      if len > 0 {
        PushFits(store, len, min, max, sequential, left, value);
        idx := Beyond(left, min, max);
        if left {
          min := Int(idx);
        } else {
          max := Int(idx);
        }
      }
      FirstFits(value);
      store := Put(store, Entry(Int(idx), value));
      len := len + 1;
    }

    /** LPOP and RPOP. */
    method Pop(left: bool) returns (reply: Option<string>)
      requires Valid()
      modifies this
      ensures Valid() && (old(Exact()) ==> Exact())
      ensures old(Contents()) == [] ==> reply == None && Contents() == []
      ensures old(Contents()) != [] ==>
        var c := old(Contents());
        && reply == Some(if left then c[0] else c[|c| - 1])
        && Contents() == if left then c[1..] else c[..|c| - 1]
    {
      hide Fits, Ends, Del, Seek, Land, Values, Ordered;
      if present {
        FitsBounds(store, len, min, max, sequential);
      }
      if !present || len == 0 {
        return None;
      }
      EndsFound(store, len, min, max, sequential);
      PopIs(store, left);
      if len > 1 {
        EndFits(store, len, min, max, sequential);
      }
      var k := if left then Seek(store, Val(min)) else Land(store, Val(max));
      reply := Some(store[k].value);
      store := Del(store, Val(store[k].idx));
      if sequential {
        if left {
          min := Int(min.n + 1);
        } else {
          max := Int(max.n - 1);
        }
      } else if len > 1 {
        if left {
          min := store[0].idx;
        } else {
          max := store[|store| - 1].idx;
        }
      }
      len := len - 1;
      if len == 0 {
        present := false;
      }
    }

    /** LINSERT: None is a syntax error, 0 a missing list, -1 a missing pivot. */
    method Insert(before: Option<bool>, pivot: string, value: string) returns (reply: Option<int>)
      requires Valid()
      modifies this
      ensures Valid() && (old(Exact()) ==> Exact())
      ensures Contents() == if before.Some? then Inserted(old(Contents()), before.value, pivot, value) else old(Contents())
      ensures reply ==
        if before.None? then None
        else if old(Contents()) == [] then Some(0)
        else Some(if pivot in old(Contents()) then |Contents()| else -1)
    {
      hide Fits, Ends, Values;
      if before.None? {
        return None;
      }
      if !present {
        return Some(0);
      }
      FitsBounds(store, len, min, max, sequential);
      var k := Search(pivot);
      FirstIn(Contents(), pivot);
      if k == len {
        return Some(-1);
      }
      InsertAt(k, before.value, value);
      reply := Some(len);
    }

    /** The position of the first element equal to the pivot. */
    method Search(pivot: string) returns (k: nat)
      requires Valid() && present
      ensures k == First(Contents(), pivot)
    {
      hide Fits, Ends, Seek;
      FitsBounds(store, len, min, max, sequential);
      FitsAt(store, len, min, max, sequential, 0);
      k := Seek(store, Val(min));
      while k < |store| && store[k].value != pivot
        invariant k <= |store| && forall i :: 0 <= i < k ==> store[i].value != pivot
      {
        k := k + 1;
      }
      FirstIs(Values(store), pivot, k);
    }

    method InsertAt(k: nat, before: bool, value: string)
      requires Valid() && present && k < len
      modifies this
      ensures Valid() && present && len == old(len) + 1 == |Contents()| && (old(Exact()) ==> Exact())
      ensures var c := old(Contents());
        k < |c| && Contents() == if before then c[..k] + [value] + c[k..] else c[..k + 1] + [value] + c[k + 1..]
    {
      hide Fits, Ends, Put, Values;
      FitsBounds(store, len, min, max, sequential);
      InsertFits(store, len, min, max, sequential, k, before, value);
      var x := Beside(store, k, before);
      store := Put(store, Entry(Float(x), value));
      len := len + 1;
      sequential := false;
      min, max := Lowered(min, Float(x)), Raised(max, Float(x));
      FitsBounds(store, len, min, max, sequential);
    }

    /** LINDEX. */
    method At(index: int) returns (reply: Option<string>)
      requires Valid()
      ensures var i := Normal(index, |Contents()|);
        reply == if 0 <= i < |Contents()| then Some(Contents()[i]) else None
    {
      hide Fits, Ends, Get;
      if !present {
        return None;
      }
      FitsBounds(store, len, min, max, sequential);
      var i := Normal(index, len);
      if i < 0 || i >= len {
        return None;
      }
      FitsAt(store, len, min, max, sequential, i);
      if sequential {
        reply := Get(store, Val(Int(min.n + i)));
      } else {
        var k, cursor := Seek(store, Val(min)), 0;
        while k < |store| && cursor != i
          invariant cursor == k <= i
        {
          cursor, k := cursor + 1, k + 1;
        }
        reply := Some(store[k].value);
      }
    }

    /** LSET: None is a missing list, false an index out of range. */
    method Set(index: int, value: string) returns (reply: Option<bool>)
      requires Valid()
      modifies this
      ensures Valid() && (old(Exact()) ==> Exact())
      ensures var c := old(Contents()); var i := Normal(index, |c|);
        && Contents() == (if 0 <= i < |c| then c[i := value] else c)
        && reply == if c == [] then None else Some(0 <= i < |c|)
    {
      hide Fits, Ends, Put, Seek;
      if !present {
        return None;
      }
      FitsBounds(store, len, min, max, sequential);
      var i := Normal(index, len);
      if i < 0 || i >= len {
        return Some(false);
      }
      FitsAt(store, len, min, max, sequential, i);
      SetFits(store, len, min, max, sequential, i, value);
      if sequential {
        store := Put(store, Entry(Int(min.n + i), value));
      } else {
        var k := Seek(store, Val(min));
        while k < |store| && k != i
          invariant k <= i
        {
          k := k + 1;
        }
        store := Put(store, Entry(store[k].idx, value));
      }
      reply := Some(true);
    }

    /** LRANGE. */
    method Range(start: int, end: int) returns (reply: seq<string>)
      requires Valid()
      ensures reply == Slice(Contents(), start, end)
    {
      hide Fits, Ends, Seek, Values;
      reply := [];
      if !present {
        return;
      }
      FitsBounds(store, len, min, max, sequential);
      var s, e := Max(Normal(start, len), 0), Normal(end, len);
      if s > e || s >= len {
        return;
      }
      e := Min(e, len - 1);
      FitsAt(store, len, min, max, sequential, s);
      var k, cursor := 0, 0;
      if sequential {
        k, cursor := Seek(store, Val(Int(min.n + s))), s;
      } else {
        k := Seek(store, Val(min));
      }
      reply := Collect(k, cursor, s, e);
    }

    /** Elements from the iterator's position on, those before `start` skipped, up to `end`. */
    method Collect(at: nat, from: nat, start: nat, end: nat) returns (reply: seq<string>)
      requires at == from <= start <= end < |store|
      ensures reply == Contents()[start..end + 1]
    {
      ghost var c := Contents();
      var k, cursor := at, from;
      reply := [];
      while k < |store| && cursor <= end
        invariant k == cursor <= end + 1
        invariant reply == if cursor < start then [] else c[start..cursor]
      {
        if cursor >= start {
          reply := reply + [store[k].value];
        }
        cursor, k := cursor + 1, k + 1;
      }
    }

    /** LTRIM. */
    method Trim(start: int, end: int)
      requires Valid()
      modifies this
      ensures Valid() && (old(Exact()) ==> Exact())
      ensures Contents() == Trimmed(old(Contents()), start, end)
    {
      hide Fits, Ends, Values, Trims;
      if !present {
        return;
      }
      FitsBounds(store, len, min, max, sequential);
      var (l, r) := Trims(len, start, end);
      ghost var h := if r > 0 then r + 1 else len;
      ValuesPart(store, l, h);
      var trimmed := 0;
      if sequential {
        trimmed := TrimSequential(l, r);
      } else {
        trimmed := TrimIterating(l, r);
      }
      len := len - trimmed;
      if len == 0 {
        present := false;
      }
    }

    /** Elements of a list whose indexes are contiguous go by their indexes. */
    method TrimSequential(l: nat, r: nat) returns (trimmed: nat)
      requires Fits(store, len, min, max, true) && l <= len && (r > 0 ==> l <= r < len)
      modifies this`store, this`min, this`max
      ensures var h := if r > 0 then r + 1 else len;
        && store == old(store)[l..h] && trimmed == len - (h - l)
        && (h > l ==> Fits(store, h - l, min, max, true) && Ends(store, min, max))
    {
      hide Fits, Ends, Contiguous;
      FitsBounds(store, len, min, max, true);
      FitsContiguous(store, len, min, max);
      var base := min.n;
      ghost var h := if r > 0 then r + 1 else len;
      trimmed := RemoveFront(base, l);
      if r > 0 {
        var back := RemoveBack(old(store), base, l, r);
        trimmed := trimmed + back;
        max := Int(base + r);
      }
      if l > 0 {
        min := Int(base + l);
      }
      if h > l {
        PartFits(old(store), base, old(max), l, h);
      }
    }

    /** Elements go as iterators from either end meet them, and the bounds become those of the elements
        where they stop. */
    method TrimIterating(l: nat, r: nat) returns (trimmed: nat)
      requires Fits(store, len, min, max, false) && l <= len && (r > 0 ==> l <= r < len)
      modifies this`store, this`min, this`max
      ensures var h := if r > 0 then r + 1 else len;
        && store == old(store)[l..h] && trimmed == len - (h - l)
        && (h > l ==> Fits(store, h - l, min, max, false) && (old(Ends(store, min, max)) ==> Ends(store, min, max)))
    {
      hide Fits, Ends, Seek, Land;
      FitsBounds(store, len, min, max, false);
      EndsFound(store, len, min, max, false);
      TrimmedFits(store, len, min, max, l, r);
      var was := store;
      PassFront(was, Seek(was, Val(min)), l);
      trimmed := l;
      if l > 0 && l < |was| {
        min := was[l].idx;
      }
      if r > 0 {
        PassBack(was, Land(was, Val(max)), l, r);
        trimmed := trimmed + (len - r - 1);
        max := was[r].idx;
      }
    }

    /** An iterator at position k deletes up to position l. */
    method PassFront(was: Entries, k: nat, l: nat)
      requires Ordered(was) && k == 0 <= l <= |was| && store == was
      modifies this`store
      ensures store == was[l..]
    {
      hide Del, Ordered;
      for i := k to l
        invariant store == was[i..]
      {
        DelFirst(was, i);
        store := Del(store, Val(was[i].idx));
      }
    }

    /** An iterator at position k deletes back to position r. */
    method PassBack(was: Entries, k: nat, l: nat, r: nat)
      requires Ordered(was) && l <= r <= k == |was| - 1 && store == was[l..]
      modifies this`store
      ensures store == was[l..r + 1]
    {
      hide Del, Ordered;
      var i := k;
      while i > r
        invariant r <= i < |was| && store == was[l..i + 1]
      {
        DelLast(was, l, i);
        store := Del(store, Val(was[i].idx));
        i := i - 1;
      }
    }

    method RemoveFront(base: int, l: nat) returns (trimmed: nat)
      requires Contiguous(store, base) && l <= |store|
      modifies this`store
      ensures store == old(store)[l..] && trimmed == l
    {
      trimmed := 0;
      for i := 0 to l
        invariant store == old(store)[i..] && trimmed == i
      {
        DelFront(old(store), base, i);
        store := Del(store, Val(Int(base + i)));
        trimmed := trimmed + 1;
      }
    }

    method RemoveBack(ghost was: Entries, base: int, l: nat, r: nat) returns (trimmed: nat)
      requires Contiguous(was, base) && l <= r < |was| == len && store == was[l..]
      modifies this`store
      ensures store == was[l..r + 1] && trimmed == len - (r + 1)
    {
      hide Contiguous, Del;
      trimmed := 0;
      assert store == was[l..r + 1] + was[r + 1..];
      for i := r + 1 to len
        invariant store == was[l..r + 1] + was[i..] && trimmed == i - (r + 1)
      {
        DelBack(was, base, l, r, i);
        store := Del(store, Val(Int(base + i)));
        trimmed := trimmed + 1;
      }
    }

    /** The first n elements equal to the value go, as an iterator from the lower bound meets them. */
    method RemFirst(value: string, n: nat) returns (removed: nat)
      requires Fits(store, len, min, max, sequential)
      modifies this`store
      ensures store == FirstGone(old(store), value, n) && Ordered(store) && removed == |old(store)| - |store|
    {
      hide Fits, Ends, Del, Seek, Ordered, FirstGone, Scanned;
      FitsBounds(store, len, min, max, sequential);
      EndsFound(store, len, min, max, sequential);
      var was := store;
      var k := Seek(was, Val(min));
      ghost var passed: Entries := [];
      removed := 0;
      ScanStart(was, value, n);
      while k < |was| && removed < n
        invariant k <= |was| && removed <= n && Scanned(was, k, value, n, removed, passed, store)
      {
        if was[k].value == value {
          ScanHit(was, k, value, n, removed, passed, store);
          store := Del(store, Val(was[k].idx));
          removed := removed + 1;
        } else {
          ScanMiss(was, k, value, n, removed, passed, store);
          passed := passed + [was[k]];
        }
        k := k + 1;
      }
      ScanEnd(was, k, value, n, removed, passed, store);
    }

    /** The last n elements equal to the value go, as an iterator from the upper bound meets them. */
    method RemLast(value: string, n: nat) returns (removed: nat)
      requires Fits(store, len, min, max, sequential)
      modifies this`store
      ensures store == LastGone(old(store), value, n) && Ordered(store) && removed == |old(store)| - |store|
    {
      hide Fits, Ends, Del, Land, Ordered, LastGone, ScannedBack;
      FitsBounds(store, len, min, max, sequential);
      EndsFound(store, len, min, max, sequential);
      var was := store;
      var k := Land(was, Val(max)) + 1;
      ghost var passed: Entries := [];
      removed := 0;
      BackStart(was, value, n);
      while k > 0 && removed < n
        invariant 0 <= k <= |was| && removed <= n && ScannedBack(was, k, value, n, removed, passed, store)
      {
        k := k - 1;
        if was[k].value == value {
          BackHit(was, k, value, n, removed, passed, store);
          store := Del(store, Val(was[k].idx));
          removed := removed + 1;
        } else {
          BackMiss(was, k, value, n, removed, passed, store);
          passed := [was[k]] + passed;
        }
      }
      BackEnd(was, k, value, n, removed, passed, store);
    }

    /** The bounds take in the elements found at them. */
    method Recollect(view: Entries)
      requires forall e :: e in view ==> Val(min) <= Val(e.idx) <= Val(max)
      modifies this`min, this`max
      ensures min == old(min) && max == old(max)
    {
      var k := Seek(view, Val(min));
      if k < |view| {
        min := Lowered(min, view[k].idx);
      }
      if view != [] {
        k := Land(view, Val(max));
        assert view[k] in view;
        max := Raised(max, view[k].idx);
      }
    }

    /** LREM. Bounds are collected again from the store, as it was or as the batch leaves it, but only
        ever widened: they stay where they were. */
    method Rem(count: int, value: string, visible: bool) returns (reply: nat)
      requires Valid()
      modifies this
      ensures Valid()
      ensures Contents() == Removed(old(Contents()), count, value)
      ensures reply == |old(Contents())| - |Contents()|
      ensures old(Exact()) ==> (Exact() <==> Contents() == [] || Spares(old(Contents()), count, value))
    {
      hide Fits, Ends, Values, Removed;
      if !present {
        NoneRemoved(count, value);
        return 0;
      }
      var was := store;
      reply := RemEither(count, value);
      FitsBounds(was, len, min, max, sequential);
      if reply > 0 {
        Recollect(if visible then store else was);
      }
      sequential := false;
      len := len - reply;
      if len == 0 {
        present := false;
      }
    }

    method RemEither(count: int, value: string) returns (removed: nat)
      requires Fits(store, len, min, max, sequential)
      modifies this`store
      ensures Values(store) == Removed(old(Values(store)), count, value)
      ensures removed == |old(store)| - |store| && (store != [] ==> Fits(store, |store|, min, max, false))
      ensures forall e :: e in store || e in old(store) ==> Val(min) <= Val(e.idx) <= Val(max)
      ensures old(Ends(store, min, max)) && store != [] ==>
        (Ends(store, min, max) <==> Spares(old(Values(store)), count, value))
    {
      hide Fits, Ends, Values, WithoutFirst, WithoutLast, Ordered;
      FitsBounds(store, len, min, max, sequential);
      var was := store;
      if count < 0 {
        removed := RemLast(value, -count);
        LastGoneValues(was, value, -count);
        LastGoneIn(was, value, -count);
      } else {
        var n := if count > 0 then count else len;
        removed := RemFirst(value, n);
        FirstGoneValues(was, value, n);
        FirstGoneIn(was, value, n);
      }
      RemovedFits(was, len, min, max, sequential, store);
      SparesEnds(was, count, value);
      if Ends(was, min, max) && store != [] {
        EndsStay(was, min, max, store);
      }
    }
  }
}
