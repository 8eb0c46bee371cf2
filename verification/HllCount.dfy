/** The sum of 2^-register and the number of zero registers, computed from each representation.
    Sums are exact: doubles are modelled by reals. */
module HllCount {
  import opened Basics
  import opened HllRegisters
  import opened HllSparse
  import opened HllDense
  import opened HllAdd

  ghost function Pow2Neg(r: nat): real
  {
    if r == 0 then 1.0 else Pow2Neg(r - 1) / 2.0
  }

  ghost function Sum(regs: seq<nat>): real
  {
    if regs == [] then 0.0 else Sum(regs[..|regs| - 1]) + Pow2Neg(regs[|regs| - 1])
  }

  ghost function Zeros(regs: seq<nat>): nat
  {
    if regs == [] then 0 else Zeros(regs[..|regs| - 1]) + if regs[|regs| - 1] == 0 then 1 else 0
  }

  lemma SumPush(regs: seq<nat>, v: nat)
    ensures Sum(regs + [v]) == Sum(regs) + Pow2Neg(v)
    ensures Zeros(regs + [v]) == Zeros(regs) + if v == 0 then 1 else 0
  {
    assert (regs + [v])[..|regs|] == regs;
  }

  lemma SumNext(regs: seq<nat>, i: nat)
    requires i < |regs|
    ensures Sum(regs[..i + 1]) == Sum(regs[..i]) + Pow2Neg(regs[i])
    ensures Zeros(regs[..i + 1]) == Zeros(regs[..i]) + if regs[i] == 0 then 1 else 0
  {
    SumPush(regs[..i], regs[i]);
    assert regs[..i + 1] == regs[..i] + [regs[i]];
  }

  ghost function RunSum(v: nat, n: nat): real
  {
    if v == 0 then n as real else Pow2Neg(v) * n as real
  }

  lemma Distribute(x: real, n: nat)
    ensures x * (n + 1) as real == x * n as real + x
  {
    assert (n + 1) as real == n as real + 1.0;
  }

  lemma RunSumStep(v: nat, n: nat)
    requires n > 0
    ensures RunSum(v, n) == RunSum(v, n - 1) + Pow2Neg(v)
  {
    Distribute(Pow2Neg(v), n - 1);
  }

  /** A run adds its value as many times as it is long. */
  lemma {:induction false} SumRun(regs: seq<nat>, v: nat, n: nat)
    ensures Sum(regs + Repeat(v, n)) == Sum(regs) + RunSum(v, n)
    ensures Zeros(regs + Repeat(v, n)) == Zeros(regs) + if v == 0 then n else 0
  {
    hide Sum, Zeros, Pow2Neg;
    if n == 0 {
      assert regs + Repeat(v, n) == regs;
    } else {
      SumRun(regs, v, n - 1);
      SumPush(regs + Repeat(v, n - 1), v);
      assert regs + Repeat(v, n) == (regs + Repeat(v, n - 1)) + [v];
      RunSumStep(v, n);
    }
  }

  /** The table of 2^-j the counting loops index. */
  ghost predicate IsTable(pe: seq<real>)
  {
    |pe| == 64 && forall j :: 0 <= j < 64 ==> pe[j] == Pow2Neg(j)
  }

  method BuildTable() returns (pe: seq<real>)
    ensures IsTable(pe)
  {
    pe := [1.0];
    var power := 1.0;
    for j := 1 to 64
      invariant |pe| == j && power > 0.0 && 1.0 / power == Pow2Neg(j - 1)
      invariant forall k :: 0 <= k < j ==> pe[k] == Pow2Neg(k)
    {
      power := power * 2.0;
      pe := pe + [1.0 / power];
    }
  }

  lemma SumOpcode(body: seq<Byte>, p: nat)
    requires Boundary(body, p) && p < |body|
    ensures Boundary(body, p + OpBytes(body[p]))
    ensures var before, after := SparseRegs(body[..p]), SparseRegs(body[..p + OpBytes(body[p])]);
      var n := RunLen(body[p..]);
      |after| == |before| + n &&
      Sum(after) == Sum(before) + RunSum(ValueOf(body[p]), n) &&
      Zeros(after) == Zeros(before) + if ValueOf(body[p]) == 0 then n else 0
  {
    hide SparseRegs, Opcodes, RunLen, Sum, Zeros, Pow2Neg, RunSum;
    BoundaryNext(body, p);
    SumRun(SparseRegs(body[..p]), ValueOf(body[p]), RunLen(body[p..]));
  }

  lemma SumStart(body: seq<Byte>)
    requires Opcodes(body)
    ensures Boundary(body, 0) && SparseRegs(body[..0]) == []
    ensures Sum([]) == 0.0 && Zeros([]) == 0
  {
    BoundaryZero(body);
  }

  method SparseSum(body: seq<Byte>, pe: seq<real>) returns (e: real, ez: nat, invalid: bool)
    requires Opcodes(body) && IsTable(pe)
    ensures e == Sum(SparseRegs(body)) && ez == Zeros(SparseRegs(body))
    ensures invalid <==> |SparseRegs(body)| != REGISTERS
  {
    hide SparseRegs, Opcodes, Sum, Zeros, Pow2Neg;
    var p, idx := 0, 0;
    e, ez := 0.0, 0;
    SumStart(body);
    while p < |body|
      invariant Boundary(body, p) && idx == |SparseRegs(body[..p])|
      invariant e + ez as real == Sum(SparseRegs(body[..p])) && ez == Zeros(SparseRegs(body[..p]))
      decreases |body| - p
    {
      SumOpcode(body, p);
      var b, runLen := body[p], RunLen(body[p..]);
      idx := idx + runLen;
      if IsVal(b) {
        e := e + pe[ValueOf(b)] * runLen as real;
        p := p + 1;
      } else {
        ez := ez + runLen;
        p := p + OpBytes(b);
      }
    }
    assert body[..p] == body;
    invalid := idx != REGISTERS;
    e := e + ez as real;
  }

  lemma SumFour(regs: seq<nat>, i: nat)
    requires i + 4 <= |regs|
    ensures Sum(regs[..i + 4]) == Sum(regs[..i])
      + (Pow2Neg(regs[i]) + Pow2Neg(regs[i + 1])) + (Pow2Neg(regs[i + 2]) + Pow2Neg(regs[i + 3]))
    ensures Zeros(regs[..i + 4]) == Zeros(regs[..i])
      + IsNil(regs[i]) + IsNil(regs[i + 1]) + IsNil(regs[i + 2]) + IsNil(regs[i + 3])
  {
    SumNext(regs, i);
    SumNext(regs, i + 1);
    SumNext(regs, i + 2);
    SumNext(regs, i + 3);
  }

  function IsNil(r: nat): nat
  {
    if r == 0 then 1 else 0
  }

  lemma DenseFour(p: seq<Byte>, g: nat)
    requires |p| == DENSE_BYTES && 4 * g + 4 <= REGISTERS
    ensures DenseRegs(p)[4 * g] == p[3 * g] % 64
    ensures DenseRegs(p)[4 * g + 1] == p[3 * g] as int / 64 + p[3 * g + 1] as int % 16 * 4
    ensures DenseRegs(p)[4 * g + 2] == p[3 * g + 1] as int / 16 + p[3 * g + 2] as int % 4 * 16
    ensures DenseRegs(p)[4 * g + 3] == p[3 * g + 2] as int / 4
  {
    assert (4 * g + 1) / 4 == g && (4 * g + 2) / 4 == g && (4 * g + 3) / 4 == g;
    assert (4 * g + 1) % 4 == 1 && (4 * g + 2) % 4 == 2 && (4 * g + 3) % 4 == 3;
  }

  /** 1024 rounds of twelve bytes, sixteen registers each. */
  method DenseSum(p: seq<Byte>, pe: seq<real>) returns (e: real, ez: nat)
    requires |p| == DENSE_BYTES && IsTable(pe)
    ensures e == Sum(DenseRegs(p)) && ez == Zeros(DenseRegs(p))
  {
    e, ez := 0.0, 0;
    ghost var regs := DenseRegs(p);
    for j := 0 to 1024
      invariant e == Sum(regs[..16 * j]) && ez == Zeros(regs[..16 * j])
    {
      var a, na := DenseSumFour(p, pe, 4 * j);
      var b, nb := DenseSumFour(p, pe, 4 * j + 1);
      var c, nc := DenseSumFour(p, pe, 4 * j + 2);
      var d, nd := DenseSumFour(p, pe, 4 * j + 3);
      e := e + (a + b + c + d);
      ez := ez + na + nb + nc + nd;
    }
    assert regs[..16384] == regs;
  }

  /** Four registers of a round: three bytes, shifted, or-ed and masked. */
  method DenseSumFour(p: seq<Byte>, pe: seq<real>, g: nat) returns (e: real, ez: nat)
    requires |p| == DENSE_BYTES && IsTable(pe) && 4 * g + 4 <= REGISTERS
    ensures Sum(DenseRegs(p)[..4 * g + 4]) == Sum(DenseRegs(p)[..4 * g]) + e
    ensures Zeros(DenseRegs(p)[..4 * g + 4]) == Zeros(DenseRegs(p)[..4 * g]) + ez
  {
    hide Sum, Zeros, Pow2Neg, DenseRegs;
    DenseFour(p, g);
    SumFour(DenseRegs(p), 4 * g);
    var x, y, z := p[3 * g] as int, p[3 * g + 1] as int, p[3 * g + 2] as int;
    var r0, r1, r2, r3 := x % 64, x / 64 + y % 16 * 4, y / 16 + z % 4 * 16, z / 4;
    ez := IsNil(r0) + IsNil(r1) + IsNil(r2) + IsNil(r3);
    e := (pe[r0] + pe[r1]) + (pe[r2] + pe[r3]);
  }

  lemma SumNone()
    ensures Sum([]) == 0.0 && Zeros([]) == 0 && Pow2Neg(0) == 1.0
  {
  }

  /** Raw registers, one byte each, eight at a time: a zero word adds eight zero registers. */
  method RawSum(regs: seq<nat>, pe: seq<real>) returns (e: real, ez: nat)
    requires |regs| == REGISTERS && IsTable(pe) && forall i :: 0 <= i < |regs| ==> regs[i] < 64
    ensures e == Sum(regs) && ez == Zeros(regs)
  {
    hide Sum, Zeros, Pow2Neg;
    SumNone();
    e, ez := 0.0, 0;
    for j := 0 to REGISTERS / 8
      invariant e + ez as real == Sum(regs[..8 * j]) && ez == Zeros(regs[..8 * j])
    {
      if regs[8 * j..8 * j + 8] == Repeat(0, 8) {
        SumRun(regs[..8 * j], 0, 8);
        assert regs[..8 * j] + regs[8 * j..8 * j + 8] == regs[..8 * j + 8];
        ez := ez + 8;
      } else {
        for k := 0 to 8
          invariant e + ez as real == Sum(regs[..8 * j + k]) && ez == Zeros(regs[..8 * j + k])
        {
          SumNext(regs, 8 * j + k);
          if regs[8 * j + k] != 0 {
            e := e + pe[regs[8 * j + k]];
          } else {
            ez := ez + 1;
          }
        }
      }
    }
    assert regs[..REGISTERS] == regs;
    e := e + ez as real;
  }

  type Card = n: nat | n < 0x1_0000_0000_0000_0000

  /** The estimate computed from the two sums; the bias polynomial and the floating-point
      arithmetic that turn them into a cardinality are the uninterpreted `estimate`. */
  ghost function Estimate(estimate: (real, nat) -> Card, regs: seq<nat>): Card
  {
    estimate(Sum(regs), Zeros(regs))
  }

  /** The count of a stored string depends on its registers only, not on their representation. */
  method Count(v: seq<Byte>, estimate: (real, nat) -> Card) returns (card: Card, invalid: bool)
    requires |v| >= HDR_SIZE
    requires if v[4] == HLL_DENSE then |v| == DENSE_SIZE else v[4] == HLL_SPARSE && Opcodes(v[HDR_SIZE..])
    ensures invalid <==> !WellFormed(v)
    ensures !invalid ==> card == Estimate(estimate, Registers(v))
  {
    hide SparseRegs, Sum, Zeros;
    var pe := BuildTable();
    var e, ez;
    if v[4] == HLL_DENSE {
      e, ez := DenseSum(v[HDR_SIZE..], pe);
      invalid := false;
    } else {
      e, ez, invalid := SparseSum(v[HDR_SIZE..], pe);
    }
    card := estimate(e, ez);
  }

  method CountRaw(regs: seq<nat>, estimate: (real, nat) -> Card) returns (card: Card)
    requires |regs| == REGISTERS && forall i :: 0 <= i < |regs| ==> regs[i] < 64
    ensures card == Estimate(estimate, regs)
  {
    hide Sum, Zeros;
    var pe := BuildTable();
    var e, ez := RawSum(regs, pe);
    card := estimate(e, ez);
  }
}
