/** Runs of list commands, against the same commands on plain sequences. */
module ListRuns {
  import opened Basics
  import opened ListRemoval
  import opened Lists
  import opened ListStore

  datatype Op =
    | PushOp(left: bool, ifPresent: bool, values: seq<string>)
    | PopOp(left: bool)
    | InsertOp(before: Option<bool>, pivot: string, value: string)
    | AtOp(index: int)
    | SetOp(index: int, value: string)
    | RangeOp(start: int, end: int)
    | TrimOp(start: int, end: int)
    | RemOp(count: int, value: string, visible: bool)

  datatype Reply = Number(n: int) | Element(v: Option<string>) | Elements(vs: seq<string>) | Done | Error

  /** A push has at least one value. */
  predicate Legal(op: Op)
  {
    op.PushOp? ==> op.values != []
  }

  /** The sequence after a command on sequence c. */
  function Effect(c: seq<string>, op: Op): seq<string>
  {
    match op
    case PushOp(left, ifPresent, values) =>
      if ifPresent && c == [] then c else Pushed(c, left, values)
    case PopOp(left) => if c == [] then c else if left then c[1..] else c[..|c| - 1]
    case InsertOp(before, pivot, value) => if before.Some? then Inserted(c, before.value, pivot, value) else c
    case AtOp(_) => c
    case SetOp(index, value) =>
      var i := Normal(index, |c|);
      if 0 <= i < |c| then c[i := value] else c
    case RangeOp(_, _) => c
    case TrimOp(start, end) => Trimmed(c, start, end)
    case RemOp(count, value, _) => Removed(c, count, value)
  }

  /** The reply to a command on sequence c. */
  function Answer(c: seq<string>, op: Op): Reply
  {
    match op
    case PushOp(_, ifPresent, _) => Number(if ifPresent && c == [] then 0 else |Effect(c, op)|)
    case PopOp(left) => Element(if c == [] then None else Some(if left then c[0] else c[|c| - 1]))
    case InsertOp(before, pivot, _) =>
      if before.None? then Error
      else Number(if c == [] then 0 else if pivot in c then |Effect(c, op)| else -1)
    case AtOp(index) =>
      var i := Normal(index, |c|);
      Element(if 0 <= i < |c| then Some(c[i]) else None)
    case SetOp(index, _) =>
      if c == [] then Element(None) else if 0 <= Normal(index, |c|) < |c| then Done else Error
    case RangeOp(start, end) => Elements(Slice(c, start, end))
    case TrimOp(_, _) => Done
    case RemOp(_, _, _) => Number(|c| - |Effect(c, op)|)
  }

  /** The command keeps recorded bounds those of the elements: all do but a removal that takes an end
      element and leaves others. */
  predicate Steady(c: seq<string>, op: Op)
  {
    op.RemOp? ==> Effect(c, op) == [] || Spares(c, op.count, op.value)
  }

  method Perform(l: List, op: Op) returns (reply: Reply)
    requires l.Valid() && Legal(op)
    modifies l
    ensures old(l.Exact()) ==> (l.Exact() <==> Steady(old(l.Contents()), op))
    ensures l.Valid() && l.Contents() == Effect(old(l.Contents()), op) && reply == Answer(old(l.Contents()), op)
  {
    hide Values, Fits, Ends, Inserted, Slice, Pushed, Trimmed, Removed, Spares;
    match op
    case PushOp(left, ifPresent, values) =>
      var n := l.Push(left, ifPresent, values);
      reply := Number(n);
    case PopOp(left) =>
      var v := l.Pop(left);
      reply := Element(v);
    case InsertOp(before, pivot, value) =>
      var n := l.Insert(before, pivot, value);
      reply := if n.None? then Error else Number(n.value);
    case AtOp(index) =>
      var v := l.At(index);
      reply := Element(v);
    case SetOp(index, value) =>
      var ok := l.Set(index, value);
      reply := if ok.None? then Element(None) else if ok.value then Done else Error;
    case RangeOp(start, end) =>
      var vs := l.Range(start, end);
      reply := Elements(vs);
    case TrimOp(start, end) =>
      l.Trim(start, end);
      reply := Done;
    case RemOp(count, value, visible) =>
      var n := l.Rem(count, value, visible);
      reply := Number(n);
  }

  function EffectAll(c: seq<string>, ops: seq<Op>): seq<string>
    decreases |ops|
  {
    if ops == [] then c else EffectAll(Effect(c, ops[0]), ops[1..])
  }

  function AnswerAll(c: seq<string>, ops: seq<Op>): seq<Reply>
    decreases |ops|
  {
    if ops == [] then [] else [Answer(c, ops[0])] + AnswerAll(Effect(c, ops[0]), ops[1..])
  }

  predicate AllSteady(c: seq<string>, ops: seq<Op>)
    decreases |ops|
  {
    ops == [] || (Steady(c, ops[0]) && AllSteady(Effect(c, ops[0]), ops[1..]))
  }

  /** Every run of commands gives the replies and ends with the contents that a plain sequence would,
      and with the bounds of its elements if every removal spares both ends. */
  method Run(l: List, ops: seq<Op>) returns (replies: seq<Reply>)
    requires l.Valid() && forall i :: 0 <= i < |ops| ==> Legal(ops[i])
    modifies l
    ensures l.Valid() && (old(l.Exact()) && AllSteady(old(l.Contents()), ops) ==> l.Exact())
    ensures l.Contents() == EffectAll(old(l.Contents()), ops) && replies == AnswerAll(old(l.Contents()), ops)
    decreases |ops|
  {
    hide Effect, Answer, Values, Fits, Ends, Steady;
    if ops == [] {
      return [];
    }
    var first := Perform(l, ops[0]);
    var rest := Run(l, ops[1..]);
    replies := [first] + rest;
  }

  /** RPUSH a b, then LREM 1 a: the lower bound stays at the index that a had. */
  method StaleBound(visible: bool) returns (l: List)
    ensures l.Valid() && l.Contents() == ["b"] && !l.Exact()
  {
    hide Values, Fits, Ends;
    l := new List();
    var n := l.Push(false, false, ["a", "b"]);
    assert l.Contents() == ["a", "b"];
    assert ["a", "b"][0] == "a" && ["a", "b"][1..] == ["b"];
    n := l.Rem(1, "a", visible);
  }

  // --------------------------------------------------------- from one list to another

  /** A key with a list, present or not, or with a value of another type. */
  datatype Key = Of(list: List) | Foreign

  ghost function Objects(k: Key): set<object>
  {
    if k.Of? then {k.list} else {}
  }

  ghost predicate ValidKey(k: Key)
    reads Objects(k)
  {
    k.Of? ==> k.list.Valid()
  }

  ghost predicate ExactKey(k: Key)
    reads Objects(k)
  {
    k.Of? ==> k.list.Exact()
  }

  /** A key's elements; none stands for a value of another type. */
  ghost function Holds(k: Key): Option<seq<string>>
    reads Objects(k)
  {
    if k.Of? then Some(k.list.Contents()) else None
  }

  function Bag(c: Option<seq<string>>): multiset<string>
  {
    if c.Some? then multiset(c.value) else multiset{}
  }

  /** Reply and new elements when the last element of one key goes to the front of another. */
  function Moved(src: Option<seq<string>>, dst: Option<seq<string>>): (Reply, Option<seq<string>>, Option<seq<string>>)
  {
    if src.None? then (Error, src, dst)
    else if src.value == [] then (Element(None), src, dst)
    else
      var n := |src.value| - 1;
      var v := src.value[n];
      if dst.None? then (Error, Some(src.value[..n]), dst)
      else (Element(Some(v)), Some(src.value[..n]), Some([v] + dst.value))
  }

  /** The elements of one key when its last becomes its first. */
  function Rotated(c: Option<seq<string>>): Option<seq<string>>
  {
    if c.None? || c.value == [] then c
    else var n := |c.value| - 1; Some([c.value[n]] + c.value[..n])
  }

  /** The move loses nothing exactly when there is nothing to move or the destination can take it. */
  lemma MoveConserves(src: Option<seq<string>>, dst: Option<seq<string>>)
    ensures var (_, s, d) := Moved(src, dst);
      Bag(s) + Bag(d) == Bag(src) + Bag(dst) <==> Bag(src) == multiset{} || dst.Some?
    ensures Bag(Rotated(src)) == Bag(src)
    ensures src.None? ==> Bag(src) == multiset{}
  {
    if src.Some? && src.value != [] {
      var n := |src.value| - 1;
      var v := src.value[n];
      LastApart(src.value);
      MoreThan(multiset(src.value[..n]), v, Bag(dst));
      if dst.Some? {
        assert multiset([v] + dst.value) == multiset{v} + Bag(dst);
      }
    }
  }

  lemma MoreThan(a: multiset<string>, v: string, b: multiset<string>)
    ensures a + multiset{v} != multiset{} && a + b != a + multiset{v} + b
    ensures a + (multiset{v} + b) == a + multiset{v} + b
  {
    assert v in a + multiset{v};
    assert (a + b)[v] + 1 == (a + multiset{v} + b)[v];
  }

  lemma LastApart(c: seq<string>)
    requires c != []
    ensures var n := |c| - 1;
      && multiset(c) == multiset(c[..n]) + multiset{c[n]}
      && multiset([c[n]] + c[..n]) == multiset(c)
  {
    assert c == c[..|c| - 1] + [c[|c| - 1]];
  }

  /** Moving the only element of a list to a key of another type: an error, and the element is gone. */
  lemma MoveLoses()
    ensures Moved(Some(["a"]), None) == (Error, Some([]), None)
  {
  }

  /** All elements of two keys, which may be the same. */
  ghost function Both(src: Key, dst: Key): multiset<string>
    reads Objects(src), Objects(dst)
  {
    if src == dst then Bag(Holds(src)) else Bag(Holds(src)) + Bag(Holds(dst))
  }

  /** RPOPLPUSH: the last element of one list becomes the first of the other, or of the same. It is
      popped before the destination's type is looked at. */
  method RPopLPush(src: Key, dst: Key) returns (reply: Reply)
    requires ValidKey(src) && ValidKey(dst)
    modifies Objects(src), Objects(dst)
    ensures ValidKey(src) && ValidKey(dst)
    ensures old(ExactKey(src) && ExactKey(dst)) ==> ExactKey(src) && ExactKey(dst)
    ensures reply == old(Moved(Holds(src), Holds(dst))).0
    ensures if src == dst then Holds(src) == old(Rotated(Holds(src)))
            else (reply, Holds(src), Holds(dst)) == old(Moved(Holds(src), Holds(dst)))
    ensures Both(src, dst) == old(Both(src, dst)) <==> old(Bag(Holds(src))) == multiset{} || dst.Of?
  {
    hide Bag;
    MoveConserves(Holds(src), Holds(dst));
    if src.Foreign? {
      return Error;
    }
    if dst.Foreign? {
      var popped := src.list.Pop(false);
      return if popped.Some? then Error else Element(None);
    }
    var moved := MoveLast(src.list, dst.list);
    return Element(moved);
  }

  /** Both keys are lists. */
  method MoveLast(src: List, dst: List) returns (reply: Option<string>)
    requires src.Valid() && dst.Valid()
    modifies src, dst
    ensures src.Valid() && dst.Valid()
    ensures old(src.Exact() && dst.Exact()) ==> src.Exact() && dst.Exact()
    ensures Element(reply) == old(Moved(Some(src.Contents()), Some(dst.Contents()))).0
    ensures if src == dst then Some(src.Contents()) == old(Rotated(Some(src.Contents())))
      else (Element(reply), Some(src.Contents()), Some(dst.Contents())) ==
             old(Moved(Some(src.Contents()), Some(dst.Contents())))
  {
    hide Values, Fits, Ends, Pushed;
    reply := src.Pop(false);
    if reply.Some? {
      PushedOne(dst.Contents(), reply.value);
      var n := dst.Push(true, false, [reply.value]);
    }
  }

  lemma PushedOne(c: seq<string>, v: string)
    ensures Pushed(c, true, [v]) == [v] + c
  {
    assert Reversed([v]) == [v];
  }
}
