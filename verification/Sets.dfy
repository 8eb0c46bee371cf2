/** Sets kept as ordered members plus a meta record with bounds, against plain sets. */
module Sets {
  import opened Basics
  import opened SetOrder

  /** Every member lies between the recorded bounds. */
  ghost predicate Bracketed(s: seq<Data>, min: Option<Data>, max: Option<Data>)
  {
    min.Some? && max.Some? && forall x :: x in s ==> !Less(x, min.value) && !Greater(x, max.value)
  }

  // ------------------------------------------------------------ the bounds

  /** SetMinMaxData. */
  function Lowered(min: Option<Data>, x: Data): Option<Data>
  {
    if min.None? || Greater(min.value, x) then Some(x) else min
  }

  function Raised(max: Option<Data>, x: Data): Option<Data>
  {
    if max.None? || Less(max.value, x) then Some(x) else max
  }

  function LoweredAll(min: Option<Data>, args: seq<Data>): Option<Data>
  {
    if args == [] then min else Lowered(LoweredAll(min, args[..|args| - 1]), args[|args| - 1])
  }

  function RaisedAll(max: Option<Data>, args: seq<Data>): Option<Data>
  {
    if args == [] then max else Raised(RaisedAll(max, args[..|args| - 1]), args[|args| - 1])
  }

  ghost predicate NearBound(base: Int64, bound: Option<Data>)
  {
    bound.Some? ==> Near(base, bound.value)
  }

  lemma BracketPut(base: Int64, s: seq<Data>, t: seq<Data>, min: Option<Data>, max: Option<Data>, x: Data)
    requires s == [] || Bracketed(s, min, max)
    requires Arc(base, t) && NearBound(base, min) && NearBound(base, max)
    requires forall y :: y in t <==> y in s || y == x
    ensures Bracketed(t, Lowered(min, x), Raised(max, x))
    ensures NearBound(base, Lowered(min, x)) && NearBound(base, Raised(max, x))
  {
    hide Less, Greater, Near;
    assert x in t;
    Total(base, x, x);
    forall y | y in t
      ensures !Less(y, Lowered(min, x).value) && !Greater(y, Raised(max, x).value)
    {
      if min.Some? {
        Total(base, min.value, x);
        Total(base, x, min.value);
        if y in s && s != [] && Less(x, min.value) {
          AtMostTransitive(base, x, min.value, y);
        }
      }
      if max.Some? {
        Total(base, max.value, x);
        Total(base, max.value, y);
        Total(base, x, y);
        if y in s && s != [] && Less(max.value, x) {
          AtMostTransitive(base, y, max.value, x);
        }
      }
    }
  }

  /** A member within the bounds does not move them. */
  lemma BoundsStay(base: Int64, s: seq<Data>, min: Option<Data>, max: Option<Data>, x: Data)
    requires Bracketed(s, min, max) && x in s && Near(base, x) && NearBound(base, min) && NearBound(base, max)
    ensures Lowered(min, x) == min && Raised(max, x) == max
  {
    hide Less, Greater, Near;
    Total(base, x, min.value);
    Total(base, max.value, x);
  }

  /** The bounds a new set gets are two of its members, and bracket all of them exactly when the
      integers among them lie within half a turn. */
  lemma BoundsExact(args: seq<Data>)
    requires args != []
    ensures Bracketed(args, LoweredAll(None, args), RaisedAll(None, args)) <==> exists base: Int64 :: Arc(base, args)
  {
    hide Less, Greater, Near, Arc;
    if base: Int64 :| Arc(base, args) {
      BoundsOnArc(base, args);
    }
    if Bracketed(args, LoweredAll(None, args), RaisedAll(None, args)) {
      NotLessNear(LoweredAll(None, args).value, args);
    }
  }

  lemma {:induction false} BoundsOnArc(base: Int64, args: seq<Data>)
    requires Arc(base, args)
    ensures args == [] || Bracketed(args, LoweredAll(None, args), RaisedAll(None, args))
    ensures NearBound(base, LoweredAll(None, args)) && NearBound(base, RaisedAll(None, args))
  {
    hide Less, Greater, Near, Bracketed;
    if args != [] {
      var n := |args| - 1;
      BoundsOnArc(base, args[..n]);
      assert args == args[..n] + [args[n]];
      BracketPut(base, args[..n], args, LoweredAll(None, args[..n]), RaisedAll(None, args[..n]), args[n]);
    }
  }

  /** Adding the lowest 64-bit integer, 0 and 1 to a new set records 1 as its lower bound. */
  lemma BoundsAstray()
    ensures var args := [Int(-HALF), Int(0), Int(1)];
      && LoweredAll(None, args) == RaisedAll(None, args) == Some(Int(1))
      && !Bracketed(args, LoweredAll(None, args), RaisedAll(None, args))
  {
    var args := [Int(-HALF), Int(0), Int(1)];
    assert args[..2] == [Int(-HALF), Int(0)] && args[..2][..1] == [Int(-HALF)] && args[..2][..1][..0] == [];
    assert LoweredAll(None, args[..2][..1]) == RaisedAll(None, args[..2][..1]) == Some(Int(-HALF));
    assert LoweredAll(None, args[..2]) == Some(Int(-HALF)) && RaisedAll(None, args[..2]) == Some(Int(0));
    assert args[1] in args && Less(args[1], Int(1));
  }

  // --------------------------------------------------- members after a command

  function PutAll(s: seq<Data>, args: seq<Data>): seq<Data>
  {
    if args == [] then s else Put(PutAll(s, args[..|args| - 1]), args[|args| - 1])
  }

  function DelAll(s: seq<Data>, args: seq<Data>): seq<Data>
  {
    if args == [] then s else Del(DelAll(s, args[..|args| - 1]), args[|args| - 1])
  }

  /** Adding gives the union. */
  lemma {:induction false} PutAllUnion(base: Int64, s: seq<Data>, args: seq<Data>)
    requires Sorted(s) && Arc(base, s) && Arc(base, args)
    ensures Sorted(PutAll(s, args)) && Arc(base, PutAll(s, args))
    ensures forall x :: x in PutAll(s, args) <==> x in s || x in args
  {
    hide Sorted, Put, Near;
    if args != [] {
      var n := |args| - 1;
      assert args == args[..n] + [args[n]];
      PutAllUnion(base, s, args[..n]);
      PutSorted(base, PutAll(s, args[..n]), args[n]);
    }
  }

  /** Removing gives the difference. */
  lemma {:induction false} DelAllDifference(base: Int64, s: seq<Data>, args: seq<Data>)
    requires Sorted(s) && Arc(base, s) && Arc(base, args)
    ensures Sorted(DelAll(s, args)) && Arc(base, DelAll(s, args))
    ensures forall x :: x in DelAll(s, args) <==> x in s && x !in args
  {
    hide Sorted, Del, Near;
    if args != [] {
      var n := |args| - 1;
      assert args == args[..n] + [args[n]];
      DelAllDifference(base, s, args[..n]);
      DelSorted(base, DelAll(s, args[..n]), args[n]);
    }
  }

  /** How often the arguments name a member. */
  function Named(s: seq<Data>, args: seq<Data>): nat
  {
    if args == [] then 0
    else Named(s, args[..|args| - 1]) + if args[|args| - 1] in s then 1 else 0
  }

  /** Some member is named twice. */
  predicate Repeats(s: seq<Data>, args: seq<Data>)
  {
    exists i, j :: 0 <= i < j < |args| && args[i] == args[j] && args[i] in s
  }

  /** As many members go as are named, or fewer exactly when one is named twice. */
  lemma {:induction false} NamedOnce(base: Int64, s: seq<Data>, args: seq<Data>)
    requires Sorted(s) && Arc(base, s) && Arc(base, args)
    ensures Named(s, args) >= |s| - |DelAll(s, args)|
    ensures Named(s, args) == |s| - |DelAll(s, args)| <==> !Repeats(s, args)
  {
    hide Sorted, Del, Near;
    if args != [] {
      var n := |args| - 1;
      var before := args[..n];
      assert args == before + [args[n]];
      NamedOnce(base, s, before);
      DelAllDifference(base, s, before);
      DelSorted(base, DelAll(s, before), args[n]);
      assert forall i :: 0 <= i < n ==> before[i] == args[i];
      if args[n] in s && args[n] in before {
        var i :| 0 <= i < n && before[i] == args[n];
        assert args[i] == args[n];
      } else if i, j :| 0 <= i < j < |args| && args[i] == args[j] && args[i] in s {
        assert j < n && before[i] == before[j];
      }
    }
  }

  lemma {:induction false} NoneNamed(args: seq<Data>)
    ensures DelAll([], args) == [] && Named([], args) == 0
  {
    if args != [] {
      NoneNamed(args[..|args| - 1]);
    }
  }

  // ---------------------------------------------------------------- the key

  class SetKey {
    var present: bool
    var len: int
    var min: Option<Data>
    var max: Option<Data>
    var members: seq<Data>

    /** The stored members are in order, and the meta record counts and brackets them. */
    ghost predicate Valid()
      reads this
    {
      && Sorted(members)
      && if present then len == |members| > 0 && Bracketed(members, min, max) else members == [] && min == max == None
    }

    /** The integers the key holds, bounds included, lie within half a turn above base. */
    ghost predicate On(base: Int64)
      reads this
    {
      Arc(base, members) && NearBound(base, min) && NearBound(base, max)
    }

    constructor ()
      ensures Valid() && members == [] && forall base: Int64 :: On(base)
    {
      present, len, min, max, members := false, 0, None, None, [];
    }

    /** SADD: the store's members are looked up as they were before the command. */
    method SAdd(args: seq<Data>, ghost base: Int64) returns (reply: nat)
      requires Valid() && On(base) && Arc(base, args) && args != []
      modifies this
      ensures Valid() && On(base)
      ensures members == PutAll(old(members), args)
      ensures min == LoweredAll(old(min), args) && max == RaisedAll(old(max), args)
      ensures reply == |members| - |old(members)|
    {
      hide Bracketed, Put, Lowered, Raised, Sorted, Near;
      var before := members;
      var added: set<Data> := {};
      for i := 0 to |args|
        invariant Sorted(members) && On(base) && present == old(present) && len == old(len)
        invariant members == PutAll(before, args[..i])
        invariant min == LoweredAll(old(min), args[..i]) && max == RaisedAll(old(max), args[..i])
        invariant forall x :: x in members <==> x in before || x in added
        invariant |members| == |before| + |added|
        invariant members == [] || Bracketed(members, min, max)
        invariant i > 0 ==> members != []
      {
        var x := args[i];
        assert args[..i + 1][..i] == args[..i];
        PutSorted(base, members, x);
        if (!present || x !in before) && x !in added {
          BracketPut(base, members, Put(members, x), min, max, x);
          members := Put(members, x);
          min, max := Lowered(min, x), Raised(max, x);
          added := added + {x};
        } else {
          BoundsStay(base, members, min, max, x);
        }
      }
      assert args[..|args|] == args;
      if !present {
        present, len := true, |added|;
      } else if len >= 0 {
        len := len + |added|;
      }
      reply := |added|;
    }

    /** SREM. Removals go into a write batch; an engine either looks members up in the store as it was
        before, or sees the removals of the batch. */
    method SRem(args: seq<Data>, visible: bool, ghost base: Int64) returns (reply: nat)
      requires Valid() && On(base) && Arc(base, args)
      modifies this
      ensures On(base) && members == DelAll(old(members), args)
      ensures reply == |old(members)| - |members| <==> visible || !Repeats(old(members), args)
      ensures Valid() <==> visible || !Repeats(old(members), args) || members == []
      ensures !visible ==> reply == Named(old(members), args)
      ensures present <==> old(present) && (reply == 0 || reply < old(len))
      ensures present ==> len == old(len) - reply && unchanged(`min, `max)
    {
      hide Bracketed, Del, Near, Repeats;
      reply := 0;
      DelAllDifference(base, members, args);
      NamedOnce(base, members, args);
      if present {
        reply := RemoveAll(args, visible, base);
        BracketFewer(old(members), members, min, max);
        if reply > 0 && len == 0 {
          present, min, max := false, None, None;
        }
      } else {
        NoneNamed(args);
      }
    }

    /** The loop of SREM over its arguments. */
    method RemoveAll(args: seq<Data>, visible: bool, ghost base: Int64) returns (reply: nat)
      requires Valid() && On(base) && Arc(base, args) && present
      modifies this`members, this`len
      ensures members == DelAll(old(members), args)
      ensures reply == if visible then |old(members)| - |members| else Named(old(members), args)
      ensures len == if reply < old(len) then old(len) - reply else 0
    {
      hide Bracketed, Del, Near, Sorted;
      var before := members;
      reply := 0;
      for i := 0 to |args|
        invariant members == DelAll(before, args[..i])
        invariant reply == if visible then |before| - |members| else Named(before, args[..i])
        invariant len == if reply < old(len) then old(len) - reply else 0
      {
        var x := args[i];
        assert args[..i + 1][..i] == args[..i];
        DelAllDifference(base, before, args[..i]);
        DelSorted(base, members, x);
        if (if visible then x in members else x in before) {
          members := Del(members, x);
          if len > 0 {
            len := len - 1;
          }
          reply := reply + 1;
        } else {
          assert x !in members && members == Del(members, x);
        }
      }
      assert args[..|args|] == args;
    }

    /** SPOP: members go in order, from the recorded lower bound on. */
    method SPop(count: int, ghost base: Int64) returns (reply: seq<Data>)
      requires Valid() && On(base)
      modifies this
      ensures Valid() && On(base)
      ensures var n := Min(Abs(count), |old(members)|); reply == old(members)[..n] && members == old(members)[n..]
    {
      hide Bracketed, Del, Less, Near;
      reply := [];
      if !present {
        return;
      }
      SeekLowest(members, min, max);
      var k := Seek(members, min.value);
      var remove := false;
      while k < |members| && |reply| < Abs(count)
        invariant k == 0 && Sorted(members) && Arc(base, members) && len == |members| && present && unchanged(`min, `max)
        invariant |reply| <= |old(members)| && |reply| <= Abs(count)
        invariant reply == old(members)[..|reply|] && members == old(members)[|reply|..]
        invariant remove <==> members == []
        decreases |members|
      {
        DelFirst(base, members);
        reply := reply + [members[k]];
        members := Del(members, members[k]);
        if len > 0 {
          len := len - 1;
          remove := len == 0;
        }
      }
      BracketFewer(old(members), members, min, max);
      if remove {
        present, min, max := false, None, None;
      } else {
        BoundsStay(base, members, min, max, members[k]);
        min := Lowered(min, members[k]);
      }
    }
  }

  function Abs(n: int): nat
  {
    if n < 0 then -n else n
  }

  lemma DelFirst(base: Int64, s: seq<Data>)
    requires s != [] && Sorted(s) && Arc(base, s)
    ensures Del(s, s[0]) == s[1..] && Sorted(s[1..])
  {
    Total(base, s[0], s[0]);
  }

  /** An iterator put at a lower bound stands on the first member. */
  lemma SeekLowest(s: seq<Data>, min: Option<Data>, max: Option<Data>)
    requires Bracketed(s, min, max)
    ensures min.Some? && max.Some? && Seek(s, min.value) == 0
  {
    hide Less, Greater;
    assert s != [] ==> s[0] in s;
  }

  lemma BracketFewer(s: seq<Data>, t: seq<Data>, min: Option<Data>, max: Option<Data>)
    requires Bracketed(s, min, max) && forall x :: x in t ==> x in s
    ensures Bracketed(t, min, max)
  {
    hide Less, Greater;
  }

  // ------------------------------------------------------------------ runs

  datatype Op = Add(args: seq<Data>) | Remove(args: seq<Data>) | PopLowest(count: int)

  /** The members a command leaves. */
  function After(s: seq<Data>, op: Op): seq<Data>
  {
    match op
    case Add(args) => PutAll(s, args)
    case Remove(args) => DelAll(s, args)
    case PopLowest(count) => s[Min(Abs(count), |s|)..]
  }

  function AfterAll(s: seq<Data>, ops: seq<Op>): seq<Data>
    decreases |ops|
  {
    if ops == [] then s else AfterAll(After(s, ops[0]), ops[1..])
  }

  /** An addition names at least one member; integers lie within half a turn. */
  ghost predicate Legal(op: Op, base: Int64)
  {
    op.PopLowest? || (Arc(base, op.args) && (op.Add? ==> op.args != []))
  }

  /** A removal keeps the meta record exact. */
  predicate Calm(s: seq<Data>, op: Op, visible: bool)
  {
    op.Remove? ==> visible || !Repeats(s, op.args) || DelAll(s, op.args) == []
  }

  ghost predicate AllCalm(s: seq<Data>, ops: seq<Op>, visible: bool)
    decreases |ops|
  {
    ops == [] || (Calm(s, ops[0], visible) && AllCalm(After(s, ops[0]), ops[1..], visible))
  }

  /** Members before and after a command, as sets; what is popped is below what stays. */
  lemma AfterMeans(base: Int64, s: seq<Data>, op: Op)
    requires Sorted(s) && Arc(base, s) && Legal(op, base)
    ensures Sorted(After(s, op)) && Arc(base, After(s, op))
    ensures op.Add? ==> forall x :: x in After(s, op) <==> x in s || x in op.args
    ensures op.Remove? ==> forall x :: x in After(s, op) <==> x in s && x !in op.args
    ensures op.PopLowest? ==> |After(s, op)| == |s| - Min(Abs(op.count), |s|)
    ensures op.PopLowest? ==> forall x, y :: x in s && x !in After(s, op) && y in After(s, op) ==> Less(x, y)
  {
    hide Less, Near, PutAll, DelAll;
    match op
    case Add(args) => PutAllUnion(base, s, args);
    case Remove(args) => DelAllDifference(base, s, args);
    case PopLowest(count) =>
      var n := Min(Abs(count), |s|);
      var t := s[n..];
      forall x, y | x in s && x !in t && y in t
        ensures Less(x, y)
      {
        var i :| 0 <= i < |s| && s[i] == x;
        var j :| 0 <= j < |t| && t[j] == y;
        assert s[n + j] == y;
      }
  }

  /** One command: it keeps the meta record exact exactly when it is calm. */
  method Perform(k: SetKey, op: Op, visible: bool, ghost base: Int64)
    requires k.Valid() && k.On(base) && Legal(op, base)
    modifies k
    ensures k.On(base) && k.members == After(old(k.members), op)
    ensures k.Valid() <==> Calm(old(k.members), op, visible)
  {
    hide Sorted, Bracketed, PutAll, DelAll, Near;
    match op
    case Add(args) =>
      var n := k.SAdd(args, base);
    case Remove(args) =>
      var n := k.SRem(args, visible, base);
    case PopLowest(count) =>
      var popped := k.SPop(count, base);
  }

  /** A run, up to the first command that is not calm. Over the run the recorded bounds bracket all
      members, the length is exact and the members are what the commands leave one after the other,
      exactly when all commands are calm; the first that is not ends this. */
  method Run(k: SetKey, ops: seq<Op>, visible: bool, ghost base: Int64) returns (n: nat)
    requires k.Valid() && k.On(base) && forall i :: 0 <= i < |ops| ==> Legal(ops[i], base)
    modifies k
    ensures n <= |ops| && k.On(base) && (k.Valid() ==> n == |ops| && k.members == AfterAll(old(k.members), ops))
    ensures k.Valid() <==> AllCalm(old(k.members), ops, visible)
  {
    hide After, Sorted, Bracketed, Calm, Legal, Near;
    n := 0;
    var calm := true;
    while n < |ops| && calm
      invariant n <= |ops| && k.On(base) && (k.Valid() <==> calm)
      invariant AllCalm(old(k.members), ops, visible) <==> calm && AllCalm(k.members, ops[n..], visible)
      invariant calm ==> AfterAll(k.members, ops[n..]) == AfterAll(old(k.members), ops)
    {
      assert ops[n..][0] == ops[n] && ops[n..][1..] == ops[n + 1..];
      calm := Calm(k.members, ops[n], visible);
      Perform(k, ops[n], visible, base);
      n := n + 1;
    }
  }

  lemma NamedTwice(a: Data, b: Data)
    requires Less(a, b) && a != b
    ensures Named([a, b], [a, a]) == 2 && Repeats([a, b], [a, a]) && DelAll([a, b], [a, a]) == [b]
  {
    var s, args := [a, b], [a, a];
    assert s[0] == a && args[..1] == [a] && args[..1][..0] == [];
    assert Named(s, args[..1]) == 1;
    assert args[0] == args[1];
    Total(if a.Int? then a.n else 0, a, a);
    assert DelAll(s, args[..1]) == Del(s, a) == [b];
    assert Del([b], a) == [b];
  }

  /** Removing a from {a, b} twice in one command, where the removals of a batch do not show: b stays
      stored without a meta record, and the reply is 2. */
  method RemoveTwice(k: SetKey, a: Data, b: Data, ghost base: Int64) returns (reply: nat)
    requires k.Valid() && k.On(base) && k.members == [a, b]
    modifies k
    ensures reply == 2 && k.members == [b] && !k.present && !k.Valid()
  {
    hide Near, DelAll, Named, Repeats;
    assert k.members[0] == a && k.members[1] == b;
    Total(base, a, a);
    NamedTwice(a, b);
    reply := k.SRem([a, a], false, base);
  }
}
