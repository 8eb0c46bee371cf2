/** Merge operands of the storage engine: folding them together before applying them. */
module MergeFold {
  import opened Basics

  datatype Data = Int(n: int) | Float(x: real) | Text(s: string)

  datatype Kind = StringKind | FieldKind | OtherKind

  /** A stored value: nothing, or a kind, a payload and an expiry time. */
  datatype Value = Absent | Present(kind: Kind, data: Data, ttl: int)

  datatype Op =
    | IncrBy(step: int)
    | HIncr(step: int)
    | IncrByFloat(amount: real)
    | HIncrByFloat(num: Data)
    | PExpireAt(ms: int)
    | SetXX(data: Data)
    | SetNX(data: Data)

  predicate IsNumber(d: Data)
  {
    d.Int? || d.Float?
  }

  function Num(d: Data): real
  {
    match d
    case Int(n) => n as real
    case Float(x) => x
    case Text(_) => 0.0
  }

  /** Operands as the commands make them: integers of 64 bits, numbers for the float form. */
  predicate WellTyped(op: Op)
  {
    match op
    case IncrBy(n) => Wrap(n) == n
    case HIncr(n) => Wrap(n) == n
    case HIncrByFloat(num) => IsNumber(num)
    case _ => true
  }

  /** One operand on a value; an operand that fails leaves the value as it was. */
  function Apply(v: Value, op: Op): Value
  {
    match op
    case IncrBy(n) =>
      if v.Absent? then Present(StringKind, Int(n), 0)
      else if v.kind.StringKind? && v.data.Int? then v.(data := Int(Wrap(v.data.n + n)))
      else v
    case HIncr(n) =>
      if v.Absent? then Present(FieldKind, Int(n), 0)
      else if v.data.Int? then v.(data := Int(Wrap(n + v.data.n)))
      else v
    case IncrByFloat(amount) =>
      if v.Absent? then Present(StringKind, Float(amount), 0)
      else if v.kind.StringKind? && IsNumber(v.data) then v.(data := Float(Num(v.data) + amount))
      else v
    case HIncrByFloat(num) =>
      if v.Absent? then Present(FieldKind, num, 0)
      else if IsNumber(v.data) then v.(data := Float(Num(num) + Num(v.data)))
      else v
    case PExpireAt(ms) => if v.Absent? || v.ttl == ms then v else v.(ttl := ms)
    case SetXX(data) => if v.Present? && v.kind.StringKind? then v.(data := data) else v
    case SetNX(data) => if v.Absent? then Present(StringKind, data, 0) else v
  }

  /** MergeOperands: one operand for two of the same kind. */
  function Merge(left: Op, right: Op): Option<Op>
  {
    match (left, right)
    case (IncrBy(a), IncrBy(b)) => Some(IncrBy(Wrap(b + a)))
    case (HIncr(a), HIncr(b)) => Some(HIncr(Wrap(b + a)))
    case (IncrByFloat(a), IncrByFloat(b)) => Some(IncrByFloat(b + a))
    case (HIncrByFloat(a), HIncrByFloat(b)) => Some(HIncrByFloat(Float(Num(b) + Num(a))))
    case (PExpireAt(_), PExpireAt(_)) => Some(right)
    case (SetXX(_), SetXX(_)) => Some(right)
    case (SetNX(_), SetNX(_)) => Some(left)
    case _ => None
  }

  lemma WrapAdd(a: int, b: int)
    ensures Wrap(Wrap(a) + b) == Wrap(a + b) && Wrap(Wrap(a)) == Wrap(a)
  {
    var q := (a + HALF) / (2 * HALF);
    assert Wrap(a) == a - q * (2 * HALF);
    WrapTurns(a + b, q);
  }

  lemma WrapTurns(n: int, q: int)
    ensures Wrap(n - q * (2 * HALF)) == Wrap(n)
  {
  }

  /** Two operands folded do what the two do in turn, on any value. */
  lemma MergePair(v: Value, left: Op, right: Op)
    requires WellTyped(left) && WellTyped(right) && Merge(left, right).Some?
    ensures WellTyped(Merge(left, right).value)
    ensures Apply(v, Merge(left, right).value) == Apply(Apply(v, left), right)
  {
    hide Wrap;
    match left
    case IncrBy(a) => AddTwice(v, a, right.step);
    case HIncr(a) => AddTwice(v, a, right.step);
    case _ =>
  }

  lemma AddTwice(v: Value, a: int, b: int)
    ensures Wrap(Wrap(b + a)) == Wrap(b + a)
    ensures Wrap(a + b) == Wrap(b + a)
    ensures v.Present? && v.data.Int? ==> Wrap(v.data.n + Wrap(b + a)) == Wrap(Wrap(v.data.n + a) + b)
  {
    WrapAdd(b + a, 0);
    if v.Present? && v.data.Int? {
      WrapAdd(b + a, v.data.n);
      WrapAdd(v.data.n + a, b);
    }
  }

  // ------------------------------------------------------------- any bracketing

  datatype Bracketing = One(op: Op) | Two(left: Bracketing, right: Bracketing)

  function Operands(b: Bracketing): seq<Op>
  {
    match b
    case One(op) => [op]
    case Two(l, r) => Operands(l) + Operands(r)
  }

  /** The operand that folding in this order gives, if every fold succeeds. */
  function Folded(b: Bracketing): Option<Op>
  {
    match b
    case One(op) => Some(op)
    case Two(l, r) =>
      if Folded(l).Some? && Folded(r).Some? then Merge(Folded(l).value, Folded(r).value) else None
  }

  function ApplyAll(v: Value, ops: seq<Op>): Value
    decreases |ops|
  {
    if ops == [] then v else ApplyAll(Apply(v, ops[0]), ops[1..])
  }

  lemma {:induction false} ApplyAllConcat(v: Value, a: seq<Op>, b: seq<Op>)
    ensures ApplyAll(v, a + b) == ApplyAll(ApplyAll(v, a), b)
    decreases |a|
  {
    hide Apply;
    if a == [] {
      assert a + b == b;
    } else {
      ApplyAllConcat(Apply(v, a[0]), a[1..], b);
      assert (a + b)[1..] == a[1..] + b;
    }
  }

  predicate AllWellTyped(b: Bracketing)
  {
    match b
    case One(op) => WellTyped(op)
    case Two(l, r) => AllWellTyped(l) && AllWellTyped(r)
  }

  /** However the operands are folded, the result does to any value what they do one by one. */
  lemma {:induction false} FoldedApplies(b: Bracketing, v: Value)
    requires AllWellTyped(b) && Folded(b).Some?
    ensures WellTyped(Folded(b).value)
    ensures Apply(v, Folded(b).value) == ApplyAll(v, Operands(b))
  {
    hide Apply, Merge, WellTyped;
    match b
    case One(op) =>
    case Two(l, r) =>
      FoldedApplies(l, v);
      FoldedApplies(r, Apply(v, Folded(l).value));
      MergePair(v, Folded(l).value, Folded(r).value);
      ApplyAllConcat(v, Operands(l), Operands(r));
  }

  /** Which kind an operand is of. */
  function Tag(op: Op): nat
  {
    match op
    case IncrBy(_) => 0
    case HIncr(_) => 1
    case IncrByFloat(_) => 2
    case HIncrByFloat(_) => 3
    case PExpireAt(_) => 4
    case SetXX(_) => 5
    case SetNX(_) => 6
  }

  ghost predicate OneKind(ops: seq<Op>, t: nat)
  {
    forall i :: 0 <= i < |ops| ==> Tag(ops[i]) == t
  }

  lemma OneKindConcat(a: seq<Op>, c: seq<Op>, t: nat)
    requires c != []
    ensures OneKind(a + c, t) <==> OneKind(a, t) && OneKind(c, t)
    ensures OneKind(c, t) <==> Tag(c[0]) == t && OneKind(c, Tag(c[0]))
  {
    hide Tag;
    assert forall i :: 0 <= i < |a| ==> (a + c)[i] == a[i];
    if OneKind(a + c, t) {
      forall i | 0 <= i < |c|
        ensures Tag(c[i]) == t
      {
        assert c[i] == (a + c)[|a| + i];
      }
    }
  }

  /** Folding succeeds exactly when all operands are of one kind. */
  lemma {:induction false} FoldedKinds(b: Bracketing)
    ensures Operands(b) != []
    ensures Folded(b).Some? <==> OneKind(Operands(b), Tag(Operands(b)[0]))
    ensures Folded(b).Some? ==> Tag(Folded(b).value) == Tag(Operands(b)[0])
  {
    hide Merge, Tag, OneKind;
    match b
    case One(op) => OneKindSingle(op);
    case Two(l, r) =>
      FoldedKinds(l);
      FoldedKinds(r);
      OneKindConcat(Operands(l), Operands(r), Tag(Operands(l)[0]));
      if Folded(l).Some? && Folded(r).Some? {
        MergeKinds(Folded(l).value, Folded(r).value);
      }
  }

  lemma OneKindSingle(op: Op)
    ensures OneKind([op], Tag(op))
  {
  }

  lemma MergeKinds(a: Op, b: Op)
    ensures Merge(a, b).Some? <==> Tag(a) == Tag(b)
    ensures Merge(a, b).Some? ==> Tag(Merge(a, b).value) == Tag(a)
  {
  }
}
