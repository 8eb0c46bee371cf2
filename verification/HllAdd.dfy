/** Raising one register, dense or sparse. */
module HllAdd {
  import opened Basics
  import opened HllRegisters
  import opened HllSparse
  import opened HllDense

  /** The opcodes the sparse add writes in place of an opcode of value `v` whose run has `left`
      registers before the raised one and `right` after it. */
  method SplitOpcode(v: nat, left: nat, right: nat, count: nat) returns (n: seq<Byte>)
    requires v <= VAL_MAX_VALUE && 1 <= count <= VAL_MAX_VALUE
    requires left + 1 + right <= if v == 0 then REGISTERS else VAL_MAX_LEN
    ensures Opcodes(n) && SparseRegs(n) == Repeat(v, left) + [count] + Repeat(v, right)
    ensures |n| <= if left + 1 + right <= ZERO_MAX_LEN then 3 else 5
  {
    n := [];
    if left != 0 {
      n := WriteRun(n, v, left);
    } else {
      assert SparseRegs(n) == Repeat(v, left);
    }
    ValWritten(count, 1);
    SparseConcat(n, ValOp(count, 1));
    n := n + ValOp(count, 1);
    assert SparseRegs(n) == Repeat(v, left) + [count];
    if right != 0 {
      n := WriteRun(n, v, right);
    } else {
      assert SparseRegs(n) == SparseRegs(n) + Repeat(v, right);
    }
  }

  /** Appends one opcode for a run of `len` registers of value `v`. */
  method WriteRun(n: seq<Byte>, v: nat, len: nat) returns (m: seq<Byte>)
    requires Opcodes(n) && v <= VAL_MAX_VALUE && 1 <= len <= if v == 0 then REGISTERS else VAL_MAX_LEN
    ensures Opcodes(m) && SparseRegs(m) == SparseRegs(n) + Repeat(v, len)
    ensures |m| <= |n| + if len <= ZERO_MAX_LEN then 1 else 2
  {
    if v == 0 {
      if len > ZERO_MAX_LEN {
        XZeroWritten(len);
        SparseConcat(n, XZeroOp(len));
        m := n + XZeroOp(len);
      } else {
        ZeroWritten(len);
        SparseConcat(n, ZeroOp(len));
        m := n + ZeroOp(len);
      }
    } else {
      ValWritten(v, len);
      SparseConcat(n, ValOp(v, len));
      m := n + ValOp(v, len);
    }
  }

  /** Replacing the opcode at `p` by opcodes that raise one of its registers raises that register. */
  lemma RaiseRegister(body: seq<Byte>, p: nat, n: seq<Byte>, left: nat, count: nat)
    requires Boundary(body, p) && p < |body| && left < RunLen(body[p..])
    requires Opcodes(n)
    requires SparseRegs(n) == Repeat(ValueOf(body[p]), left) + [count]
                            + Repeat(ValueOf(body[p]), RunLen(body[p..]) - left - 1)
    ensures var next := body[..p] + n + body[p + OpBytes(body[p])..];
      var index := |SparseRegs(body[..p])| + left;
      index < |SparseRegs(body)| && Boundary(next, p) &&
      SparseRegs(body)[index] == ValueOf(body[p]) && SparseRegs(next) == SparseRegs(body)[index := count]
  {
    hide SparseRegs, Opcodes, RunLen;
    BoundaryNext(body, p);
    var tail := n + body[p + OpBytes(body[p])..];
    BoundaryRegs(body, p);
    SparseConcat(n, body[p + OpBytes(body[p])..]);
    ReplaceTail(body, p, tail);
    assert body[..p] + tail == body[..p] + n + body[p + OpBytes(body[p])..];
    RaiseInRun(SparseRegs(body[..p]), ValueOf(body[p]), RunLen(body[p..]),
               SparseRegs(body[p + OpBytes(body[p])..]), left, count);
  }

  lemma RaiseInRun(pre: seq<nat>, v: nat, len: nat, post: seq<nat>, left: nat, count: nat)
    requires left < len
    ensures (pre + (Repeat(v, len) + post))[|pre| + left] == v
    ensures pre + ((Repeat(v, left) + [count] + Repeat(v, len - left - 1)) + post)
         == (pre + (Repeat(v, len) + post))[|pre| + left := count]
  {
  }

  /** A string that stands for a HyperLogLog in one of its two encodings. */
  ghost predicate WellFormed(v: seq<Byte>)
  {
    |v| >= HDR_SIZE &&
    ((v[4] == HLL_DENSE && |v| == DENSE_SIZE) || (v[4] == HLL_SPARSE && SparseValid(v[HDR_SIZE..])))
  }

  /** Its registers, whatever the encoding. */
  ghost function Registers(v: seq<Byte>): (r: seq<nat>)
    requires WellFormed(v)
    ensures |r| == REGISTERS
  {
    if v[4] == HLL_DENSE then DenseRegs(v[HDR_SIZE..]) else SparseRegs(v[HDR_SIZE..])
  }

  function Invalidated(b: Byte): Byte
  {
    if b < 128 then b + 128 else b
  }

  method DenseAdd(a: array<Byte>, index: nat, count: nat) returns (ret: int)
    requires DENSE_SIZE < a.Length && index < REGISTERS && count < 64
    modifies a
    ensures ret == if old(DenseRegs(RegisterBytes(a)))[index] < count then 1 else 0
    ensures DenseRegs(RegisterBytes(a))
         == old(DenseRegs(RegisterBytes(a)))[index := Max(old(DenseRegs(RegisterBytes(a)))[index], count)]
    ensures a[..][..HDR_SIZE] == old(a[..][..HDR_SIZE]) && a[..][DENSE_SIZE..] == old(a[..][DENSE_SIZE..])
  {
    var oldCount := GetRegister(a, index);
    if count > oldCount {
      SetRegister(a, index, count);
      return 1;
    }
    return 0;
  }

  lemma DenseView(s: Sds)
    requires s.Valid() && s.len == DENSE_SIZE
    ensures s.Body() == RegisterBytes(s.buf)
    ensures s.Header() == s.buf[..][..HDR_SIZE]
    ensures s.buf[4] == HLL_DENSE ==> WellFormed(s.Contents()) && Registers(s.Contents()) == DenseRegs(s.Body())
  {
  }

  lemma {:induction false} SparseValuesSmall(body: seq<Byte>)
    requires Opcodes(body)
    ensures forall i :: 0 <= i < |SparseRegs(body)| ==> SparseRegs(body)[i] <= VAL_MAX_VALUE
  {
    if body != [] {
      SparseValuesSmall(body[OpBytes(body[0])..]);
    }
  }

  lemma NoOpcodes()
    ensures Opcodes([]) && SparseRegs([]) == []
  {
  }

  /** The promotion tail of the sparse add: convert, then add to the dense registers. */
  method PromoteAndAdd(s: Sds, index: nat, count: nat) returns (ret: int)
    requires s.Valid() && s.buf[4] == HLL_SPARSE && index < REGISTERS && count < 64
    requires s.Body() == [] || (SparseValid(s.Body()) && SparseRegs(s.Body())[index] < count)
    modifies s, s.buf
    ensures s.Valid() && (s.buf == old(s.buf) || fresh(s.buf))
    ensures ret == if old(s.Body()) == [] then -1 else 1
    ensures ret == 1 ==> WellFormed(s.Contents()) && s.Header() == old(s.Header())[4 := HLL_DENSE]
    ensures ret == 1 ==> Registers(s.Contents()) == old(SparseRegs(s.Body()))[index := count]
  {
    hide DenseRegs, SparseRegs, Opcodes;
    NoOpcodes();
    ret := SparseToDense(s);
    if ret == -1 {
      return;
    }
    DenseView(s);
    ret := DenseAdd(s.buf, index, count);
    DenseView(s);
    assert s.buf[4] == s.Header()[4];
  }

  /** What the sparse add leaves in the string when it raised register `index` to `count`. */
  ghost predicate Raised(before: seq<Byte>, after: seq<Byte>, index: nat, count: nat, maxBytes: nat)
    requires WellFormed(before) && index < REGISTERS
  {
    WellFormed(after) &&
    Registers(after) == Registers(before)[index := count] &&
    (after[4] == HLL_SPARSE ==>
       |after| <= |before| + 3 && (|after| > |before| ==> |after| <= maxBytes) &&
       after[..HDR_SIZE] == before[..HDR_SIZE][8 := Invalidated(before[8])]) &&
    (after[4] == HLL_DENSE ==> after[..HDR_SIZE] == before[..HDR_SIZE][4 := HLL_DENSE])
  }

  /** The string after writing `n` over the opcode at `p`. */
  ghost function Rewritten(body: seq<Byte>, p: nat, n: seq<Byte>): seq<Byte>
    requires p < |body| && p + OpBytes(body[p]) <= |body|
  {
    body[..p] + n + body[p + OpBytes(body[p])..]
  }

  lemma ThreePieces(pre: seq<Byte>, op: seq<Byte>, tail: seq<Byte>)
    requires Opcodes(pre) && Opcodes(op) && Opcodes(tail)
    ensures Boundary(pre + op + tail, |pre|)
  {
    hide SparseRegs, Opcodes;
    SparseConcat(op, tail);
    var all := pre + op + tail;
    assert all[..|pre|] == pre && all[|pre|..] == op + tail;
    BoundaryIntro(all, |pre|);
  }

  lemma RewrittenPieces(body: seq<Byte>, prev: nat, p: nat, n: seq<Byte>)
    requires prev <= p < |body| && p + OpBytes(body[p]) <= |body|
    ensures body[..prev] + body[prev..p] + (n + body[p + OpBytes(body[p])..]) == Rewritten(body, p, n)
  {
  }

  lemma StartBoundary(body: seq<Byte>, prev: int, p: nat, n: seq<Byte>)
    requires p < |body| && Boundary(body, p) && Opcodes(n) && -1 <= prev < p && (prev == -1 ==> p == 0)
    requires prev >= 0 ==> Opcodes(body[..prev]) && Opcodes(body[prev..p])
    ensures p + OpBytes(body[p]) <= |body| && Boundary(Rewritten(body, p, n), if prev >= 0 then prev else 0)
  {
    hide SparseRegs, Opcodes, RunLen;
    BoundaryNext(body, p);
    var post := body[p + OpBytes(body[p])..];
    SparseConcat(n, post);
    if prev >= 0 {
      ThreePieces(body[..prev], body[prev..p], n + post);
      RewrittenPieces(body, prev, p, n);
    } else {
      BoundaryZero(n + post);
      RewrittenPieces(body, 0, p, n);
      assert [] + [] + (n + post) == n + post;
    }
  }

  /** Writing `n` at `p` raises register `index` to `count`; the merge may start at `start`. */
  ghost predicate Plan(body: seq<Byte>, start: nat, p: nat, n: seq<Byte>, index: nat, count: nat)
    requires SparseValid(body) && index < REGISTERS
  {
    p < |body| && p + OpBytes(body[p]) <= |body| && |n| <= OpBytes(body[p]) + 3 &&
    Boundary(Rewritten(body, p, n), start) &&
    SparseRegs(Rewritten(body, p, n)) == SparseRegs(body)[index := count]
  }

  /** Steps 1 and 2: finds the opcode of register `index` and, unless its value is `count` already
      or more, the opcodes to write over it. */
  method PlanUpdate(body: seq<Byte>, index: nat, count: nat)
    returns (needed: bool, start: nat, p: nat, n: seq<Byte>)
    requires SparseValid(body) && body != [] && index < REGISTERS && 1 <= count <= VAL_MAX_VALUE
    ensures needed <==> SparseRegs(body)[index] < count
    ensures needed ==> Plan(body, start, p, n, index, count)
  {
    hide SparseRegs, Opcodes;
    var prev, first, span;
    p, prev, first, span := FindOpcode(body, index);
    start := if prev >= 0 then prev else 0;
    var b, left := body[p], index - first;
    BoundaryNext(body, p);
    SparseValuesSmall(body);
    RegisterInRun(body, p, left);
    if IsVal(b) && ValueOf(b) >= count {
      return false, start, p, [];
    }
    if !IsXZero(b) && span == 1 {
      ValWritten(count, 1);
      n := ValOp(count, 1);
      assert SparseRegs(n) == Repeat(ValueOf(b), 0) + [count] + Repeat(ValueOf(b), 0);
    } else {
      n := SplitOpcode(ValueOf(b), left, span - left - 1, count);
    }
    RaiseRegister(body, p, n, left, count);
    StartBoundary(body, prev, p, n);
    return true, start, p, n;
  }

  lemma RegisterInRun(body: seq<Byte>, p: nat, left: nat)
    requires Boundary(body, p) && p < |body| && left < RunLen(body[p..])
    ensures |SparseRegs(body[..p])| + left < |SparseRegs(body)|
    ensures SparseRegs(body)[|SparseRegs(body[..p])| + left] == ValueOf(body[p])
  {
    BoundaryNext(body, p);
    BoundaryRegs(body, p);
  }

  /** Steps 3 and 4: substitute `n` for the opcode at `p`, merge, invalidate the cached cardinality. */
  method Rewrite(s: Sds, start: nat, p: nat, n: seq<Byte>, ghost index: nat, ghost count: nat)
    requires s.Valid() && SparseValid(s.Body()) && index < REGISTERS
    requires Plan(s.Body(), start, p, n, index, count)
    requires s.len + |n| < s.buf.Length + OpBytes(s.Body()[p])
    modifies s`len, s.buf
    ensures s.Valid() && s.buf == old(s.buf) && s.len <= old(s.len + |n| - OpBytes(s.Body()[p]))
    ensures s.Header() == old(s.Header())[8 := Invalidated(old(s.Header())[8])]
    ensures SparseValid(s.Body()) && SparseRegs(s.Body()) == old(SparseRegs(s.Body()))[index := count]
  {
    hide SparseRegs, Opcodes, RunLen;
    s.Splice(p, OpBytes(s.buf[HDR_SIZE + p]), n);
    MergeAdjacent(s, start);
    label merged:
    s.buf[8] := Invalidated(s.buf[8]);
    assert s.Body() == old@merged(s.Body());
    assert s.Header() == old@merged(s.Header())[8 := s.buf[8]];
  }

  /** The sparse add of a count the sparse representation can hold. */
  method SparseUpdate(s: Sds, index: nat, count: nat, maxBytes: nat) returns (ret: int)
    requires s.Valid() && s.buf[4] == HLL_SPARSE && index < REGISTERS && 1 <= count <= VAL_MAX_VALUE
    requires s.Body() == [] || SparseValid(s.Body())
    modifies s, s.buf
    ensures s.Valid() && (s.buf == old(s.buf) || fresh(s.buf))
    ensures ret == -1 <==> old(s.Body()) == []
    ensures old(s.Body()) != [] ==> ret == if old(SparseRegs(s.Body()))[index] < count then 1 else 0
    ensures ret == 0 ==> s.Contents() == old(s.Contents())
    ensures ret == 1 ==> Raised(old(s.Contents()), s.Contents(), index, count, maxBytes)
  {
    hide SparseRegs, Opcodes, RunLen;
    s.MakeRoomFor(3);
    var body := s.buf[..s.len][HDR_SIZE..];
    if body == [] {
      return -1;
    }
    var needed, start, p, n := PlanUpdate(body, index, count);
    if !needed {
      return 0;
    }
    var deltaLen := |n| - OpBytes(body[p]);
    if deltaLen > 0 && s.len + deltaLen > maxBytes {
      ret := PromoteAndAdd(s, index, count);
      return;
    }
    Rewrite(s, start, p, n, index, count);
    return 1;
  }

  method SparseAdd(s: Sds, index: nat, count: nat, maxBytes: nat) returns (ret: int)
    requires s.Valid() && s.buf[4] == HLL_SPARSE && index < REGISTERS && 1 <= count < 64
    requires s.Body() == [] || SparseValid(s.Body())
    modifies s, s.buf
    ensures s.Valid() && (s.buf == old(s.buf) || fresh(s.buf))
    ensures ret == -1 <==> old(s.Body()) == []
    ensures old(s.Body()) != [] ==> ret == if old(SparseRegs(s.Body()))[index] < count then 1 else 0
    ensures ret == 0 ==> s.Contents() == old(s.Contents())
    ensures ret == 1 ==> Raised(old(s.Contents()), s.Contents(), index, count, maxBytes)
  {
    if count > VAL_MAX_VALUE {
      if s.len > HDR_SIZE {
        SparseValuesSmall(s.Body());
      }
      ret := PromoteAndAdd(s, index, count);
      return;
    }
    ret := SparseUpdate(s, index, count, maxBytes);
  }
}
