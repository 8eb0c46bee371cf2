/** The dense representation and the promotion to it. */
module HllDense {
  import opened Basics
  import opened HllRegisters
  import opened HllSparse

  const DENSE_SIZE: nat := HDR_SIZE + DENSE_BYTES

  /** The register bytes of a string laid out as header, dense registers, terminator. */
  ghost function RegisterBytes(a: array<Byte>): (p: seq<Byte>)
    reads a
    requires DENSE_SIZE < a.Length
    ensures |p| == DENSE_BYTES
  {
    a[..][HDR_SIZE..DENSE_SIZE]
  }

  method GetRegister(a: array<Byte>, i: nat) returns (v: nat)
    requires DENSE_SIZE < a.Length && i < REGISTERS
    ensures v == DenseRegs(RegisterBytes(a))[i]
  {
    var g := HDR_SIZE + 3 * (i / 4);
    assert TripleAt(RegisterBytes(a), i / 4) == Triple(a[g], a[g + 1], a[g + 2]);
    v := Unpack(Triple(a[g], a[g + 1], a[g + 2]), i % 4);
  }

  method SetRegister(a: array<Byte>, i: nat, v: nat)
    requires DENSE_SIZE < a.Length && i < REGISTERS && v < 64
    modifies a
    ensures DenseRegs(RegisterBytes(a)) == old(DenseRegs(RegisterBytes(a)))[i := v]
    ensures a[..][..HDR_SIZE] == old(a[..][..HDR_SIZE]) && a[..][DENSE_SIZE..] == old(a[..][DENSE_SIZE..])
  {
    ghost var p := RegisterBytes(a);
    var g := HDR_SIZE + 3 * (i / 4);
    var t := Pack(Triple(a[g], a[g + 1], a[g + 2]), i % 4, v);
    assert TripleAt(p, i / 4) == Triple(a[g], a[g + 1], a[g + 2]);
    a[g], a[g + 1], a[g + 2] := t.x, t.y, t.z;
    assert RegisterBytes(a) == DenseSet(p, i, v);
    DenseSetRegs(p, i, v);
  }

  /** Writes the run `v` of length `n` into registers `idx` and up. */
  method FillRun(a: array<Byte>, idx: nat, v: nat, n: nat)
    requires DENSE_SIZE < a.Length && idx + n <= REGISTERS && v < 64
    modifies a
    ensures DenseRegs(RegisterBytes(a))
         == old(DenseRegs(RegisterBytes(a)))[..idx] + Repeat(v, n) + old(DenseRegs(RegisterBytes(a)))[idx + n..]
    ensures a[..][..HDR_SIZE] == old(a[..][..HDR_SIZE]) && a[..][DENSE_SIZE..] == old(a[..][DENSE_SIZE..])
  {
    var left := n;
    ghost var r := DenseRegs(RegisterBytes(a));
    while left > 0
      invariant 0 <= left <= n
      invariant DenseRegs(RegisterBytes(a)) == r[..idx] + Repeat(v, n - left) + r[idx + n - left..]
      invariant a[..][..HDR_SIZE] == old(a[..][..HDR_SIZE]) && a[..][DENSE_SIZE..] == old(a[..][DENSE_SIZE..])
    {
      SetRegister(a, idx + n - left, v);
      left := left - 1;
    }
  }

  lemma FillSplit(done: seq<nat>, v: nat, n: nat)
    requires |done| + n <= REGISTERS
    ensures var r := done + Repeat(0, REGISTERS - |done|);
      r[..|done|] + Repeat(v, n) + r[|done| + n..] == done + Repeat(v, n) + Repeat(0, REGISTERS - |done| - n)
    ensures done + Repeat(0, REGISTERS - |done|) == done + Repeat(0, n) + Repeat(0, REGISTERS - |done| - n)
  {
  }

  /** Decodes the opcodes of `body` into the zeroed dense registers of `a`;
      `idx` is how many registers they cover. */
  method DecodeSparse(body: seq<Byte>, a: array<Byte>) returns (idx: nat)
    requires Opcodes(body) && |SparseRegs(body)| <= REGISTERS
    requires DENSE_SIZE < a.Length && DenseRegs(RegisterBytes(a)) == Repeat(0, REGISTERS)
    modifies a
    ensures idx == |SparseRegs(body)|
    ensures DenseRegs(RegisterBytes(a)) == SparseRegs(body) + Repeat(0, REGISTERS - idx)
    ensures a[..][..HDR_SIZE] == old(a[..][..HDR_SIZE]) && a[..][DENSE_SIZE..] == old(a[..][DENSE_SIZE..])
  {
    hide SparseRegs, Opcodes, RunLen, DenseRegs, DenseGet;
    var p := 0;
    idx := 0;
    BoundaryZero(body);
    while p < |body|
      invariant Boundary(body, p) && idx == |SparseRegs(body[..p])| <= REGISTERS
      invariant DenseRegs(RegisterBytes(a)) == SparseRegs(body[..p]) + Repeat(0, REGISTERS - idx)
      invariant a[..][..HDR_SIZE] == old(a[..][..HDR_SIZE]) && a[..][DENSE_SIZE..] == old(a[..][DENSE_SIZE..])
      decreases |body| - p
    {
      BoundaryRegs(body, p);
      BoundaryNext(body, p);
      var n := RunLen(body[p..]);
      FillSplit(SparseRegs(body[..p]), ValueOf(body[p]), n);
      if IsVal(body[p]) {
        FillRun(a, idx, ValueOf(body[p]), n);
      }
      idx := idx + n;
      p := p + OpBytes(body[p]);
    }
    assert body[..p] == body;
  }

  /** What promotion may be applied to: dense strings of the right size, sparse strings of whole
      opcodes covering no more registers than there are. */
  ghost predicate Promotable(s: Sds)
    reads s, s.buf
  {
    s.Valid() &&
    if s.buf[4] == HLL_DENSE then |s.Body()| == DENSE_BYTES
    else Opcodes(s.Body()) && |SparseRegs(s.Body())| <= REGISTERS
  }

  method SparseToDense(s: Sds) returns (ret: int)
    requires Promotable(s)
    modifies s
    ensures s.Valid() && (s.buf == old(s.buf) || fresh(s.buf))
    ensures ret == if old(s.buf[4] == HLL_DENSE || |SparseRegs(s.Body())| == REGISTERS) then 0 else -1
    ensures ret == -1 || old(s.buf[4]) == HLL_DENSE ==> s.Header() == old(s.Header()) && s.Body() == old(s.Body())
    ensures ret == 0 && old(s.buf[4]) != HLL_DENSE ==>
              |s.Body()| == DENSE_BYTES
              && DenseRegs(s.Body()) == old(SparseRegs(s.Body()))
              && s.Header() == old(s.Header())[4 := HLL_DENSE]
  {
    if s.buf[4] == HLL_DENSE {
      return 0;
    }
    var body := s.buf[..s.len][HDR_SIZE..];
    var dense := new Byte[DENSE_SIZE + 1](_ => 0);
    forall i | 0 <= i < HDR_SIZE {
      dense[i] := s.buf[i];
    }
    dense[4] := HLL_DENSE;
    DenseZero(RegisterBytes(dense));
    assert dense[..][..HDR_SIZE] == s.Header()[4 := HLL_DENSE];
    var idx := DecodeSparse(body, dense);
    if idx != REGISTERS {
      return -1;
    }
    s.buf, s.len := dense, DENSE_SIZE;
    assert s.Header() == dense[..][..HDR_SIZE];
    assert s.Body() == RegisterBytes(dense);
    return 0;
  }
}
