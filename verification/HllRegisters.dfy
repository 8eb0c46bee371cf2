/** The registers of a HyperLogLog as a plain vector, and what the dense and the
    sparse byte layouts decode to.

    Bytes are integers in 0..255 and the bit macros of the source appear in their
    arithmetic form; module HllBits proves that form equal to the bit form. */
module HllRegisters {
  import opened Basics

  const REGISTERS: nat := 16384
  const DENSE_BYTES: nat := 12288
  const HDR_SIZE: nat := 16

  // ------------------------------------------------------------------ vectors

  function Repeat(v: nat, n: nat): (r: seq<nat>)
  {
    seq(n, _ => v)
  }

  /** Register-wise maximum, what merging two HyperLogLogs means. */
  function MaxRegs(a: seq<nat>, b: seq<nat>): seq<nat>
    requires |a| == |b|
  {
    seq(|a|, i requires 0 <= i < |a| => Max(a[i], b[i]))
  }

  // ------------------------------------------------------------ dense layout

  /** Three bytes hold four 6-bit registers, least significant bits first. */
  datatype Triple = Triple(x: Byte, y: Byte, z: Byte)

  function Unpack(t: Triple, k: nat): (r: nat)
    requires k < 4
    ensures r < 64
  {
    match k
    case 0 => t.x % 64
    case 1 => t.x / 64 + t.y % 16 * 4
    case 2 => t.y / 16 + t.z % 4 * 16
    case _ => t.z / 4
  }

  function Pack(t: Triple, k: nat, v: nat): Triple
    requires k < 4 && v < 64
  {
    match k
    case 0 => Triple(t.x / 64 * 64 + v, t.y, t.z)
    case 1 => Triple(t.x % 64 + v % 4 * 64, t.y / 16 * 16 + v / 4, t.z)
    case 2 => Triple(t.x, t.y % 16 + v % 16 * 16, t.z / 4 * 4 + v / 16)
    case _ => Triple(t.x, t.y, t.z % 4 + v * 4)
  }

  /** A byte keeps its low part `b % m` when its high part is overwritten, and conversely. */
  lemma Halves(lo: nat, hi: nat, m: nat)
    requires lo < m && (m == 4 || m == 16 || m == 64)
    ensures (lo + hi * m) % m == lo && (lo + hi * m) / m == hi
  {
    if m == 4 {
      assert (lo + hi * 4) % 4 == lo && (lo + hi * 4) / 4 == hi;
    } else if m == 16 {
      assert (lo + hi * 16) % 16 == lo && (lo + hi * 16) / 16 == hi;
    } else {
      assert (lo + hi * 64) % 64 == lo && (lo + hi * 64) / 64 == hi;
    }
  }

  lemma UnpackPack0(t: Triple, v: nat, j: nat)
    requires v < 64 && j < 4
    ensures Unpack(Pack(t, 0, v), j) == if j == 0 then v else Unpack(t, j)
  {
    Halves(v, t.x / 64, 64);
  }

  lemma UnpackPack1(t: Triple, v: nat, j: nat)
    requires v < 64 && j < 4
    ensures Unpack(Pack(t, 1, v), j) == if j == 1 then v else Unpack(t, j)
  {
    Halves(t.x % 64, v % 4, 64);
    Halves(v / 4, t.y / 16, 16);
  }

  lemma UnpackPack2(t: Triple, v: nat, j: nat)
    requires v < 64 && j < 4
    ensures Unpack(Pack(t, 2, v), j) == if j == 2 then v else Unpack(t, j)
  {
    Halves(t.y % 16, v % 16, 16);
    Halves(v / 16, t.z / 4, 4);
  }

  lemma UnpackPack3(t: Triple, v: nat, j: nat)
    requires v < 64 && j < 4
    ensures Unpack(Pack(t, 3, v), j) == if j == 3 then v else Unpack(t, j)
  {
    Halves(t.z % 4, v, 4);
  }

  /** Writing one of the four registers leaves the other three alone. */
  lemma UnpackPack(t: Triple, k: nat, v: nat, j: nat)
    requires k < 4 && v < 64 && j < 4
    ensures Unpack(Pack(t, k, v), j) == if j == k then v else Unpack(t, j)
  {
    match k
    case 0 => UnpackPack0(t, v, j);
    case 1 => UnpackPack1(t, v, j);
    case 2 => UnpackPack2(t, v, j);
    case _ => UnpackPack3(t, v, j);
  }

  function TripleAt(p: seq<Byte>, g: nat): Triple
    requires 3 * g + 3 <= |p|
  {
    Triple(p[3 * g], p[3 * g + 1], p[3 * g + 2])
  }

  function DenseGet(p: seq<Byte>, i: nat): (r: nat)
    requires |p| == DENSE_BYTES && i < REGISTERS
    ensures r < 64
  {
    Unpack(TripleAt(p, i / 4), i % 4)
  }

  function DenseSet(p: seq<Byte>, i: nat, v: nat): (q: seq<Byte>)
    requires |p| == DENSE_BYTES && i < REGISTERS && v < 64
    ensures |q| == |p|
  {
    var g := i / 4;
    var t := Pack(TripleAt(p, g), i % 4, v);
    p[3 * g := t.x][3 * g + 1 := t.y][3 * g + 2 := t.z]
  }

  /** The 16384 registers a dense buffer holds. */
  function DenseRegs(p: seq<Byte>): (r: seq<nat>)
    requires |p| == DENSE_BYTES
    ensures |r| == REGISTERS
  {
    seq(REGISTERS, i requires 0 <= i < REGISTERS => DenseGet(p, i))
  }

  lemma DenseGetSet(p: seq<Byte>, i: nat, v: nat, j: nat)
    requires |p| == DENSE_BYTES && i < REGISTERS && v < 64 && j < REGISTERS
    ensures DenseGet(DenseSet(p, i, v), j) == if i == j then v else DenseGet(p, j)
  {
    var q := DenseSet(p, i, v);
    if i / 4 == j / 4 {
      UnpackPack(TripleAt(p, i / 4), i % 4, v, j % 4);
      assert TripleAt(q, i / 4) == Pack(TripleAt(p, i / 4), i % 4, v);
    } else {
      assert TripleAt(q, j / 4) == TripleAt(p, j / 4);
    }
  }

  /** Dense registers behave as an array of 16384 counters. */
  lemma DenseSetRegs(p: seq<Byte>, i: nat, v: nat)
    requires |p| == DENSE_BYTES && i < REGISTERS && v < 64
    ensures DenseRegs(DenseSet(p, i, v)) == DenseRegs(p)[i := v]
  {
    forall j | 0 <= j < REGISTERS
      ensures DenseRegs(DenseSet(p, i, v))[j] == DenseRegs(p)[i := v][j]
    {
      DenseGetSet(p, i, v, j);
    }
  }

  lemma DenseZero(p: seq<Byte>)
    requires |p| == DENSE_BYTES
    requires forall i :: 0 <= i < |p| ==> p[i] == 0
    ensures DenseRegs(p) == Repeat(0, REGISTERS)
  {
    forall j | 0 <= j < REGISTERS
      ensures DenseGet(p, j) == 0
    {
      assert TripleAt(p, j / 4) == Triple(0, 0, 0);
    }
  }

  // ----------------------------------------------------------- sparse layout

  predicate IsZero(b: Byte) { b < 64 }

  predicate IsXZero(b: Byte) { 64 <= b < 128 }

  predicate IsVal(b: Byte) { 128 <= b }

  /** How many bytes the opcode starting with `b` takes. */
  function OpBytes(b: Byte): nat
  {
    if IsXZero(b) then 2 else 1
  }

  /** How many registers the first opcode of `s` covers. */
  function RunLen(s: seq<Byte>): (n: nat)
    requires s != [] && OpBytes(s[0]) <= |s|
    ensures n > 0
  {
    if IsZero(s[0]) then s[0] % 64 + 1
    else if IsXZero(s[0]) then (s[0] as int) % 64 * 256 + s[1] as int + 1
    else s[0] % 4 + 1
  }

  function ValueOf(b: Byte): nat
  {
    if IsVal(b) then b / 4 % 32 + 1 else 0
  }

  /** `s` is a whole number of opcodes. */
  predicate Opcodes(s: seq<Byte>)
  {
    s == [] || (OpBytes(s[0]) <= |s| && Opcodes(s[OpBytes(s[0])..]))
  }

  /** The registers a string of opcodes stands for. */
  function SparseRegs(s: seq<Byte>): seq<nat>
    requires Opcodes(s)
  {
    if s == [] then [] else Repeat(ValueOf(s[0]), RunLen(s)) + SparseRegs(s[OpBytes(s[0])..])
  }

  predicate SparseValid(s: seq<Byte>)
  {
    Opcodes(s) && |SparseRegs(s)| == REGISTERS
  }

  lemma SparseStep(s: seq<Byte>)
    requires s != [] && OpBytes(s[0]) <= |s| && Opcodes(s[OpBytes(s[0])..])
    ensures Opcodes(s)
    ensures SparseRegs(s) == Repeat(ValueOf(s[0]), RunLen(s)) + SparseRegs(s[OpBytes(s[0])..])
  {
  }

  lemma RunLenPrefix(a: seq<Byte>, b: seq<Byte>)
    requires a != [] && OpBytes(a[0]) <= |a|
    ensures RunLen(a + b) == RunLen(a)
    ensures (a + b)[OpBytes(a[0])..] == a[OpBytes(a[0])..] + b
  {
  }

  lemma Assoc(x: seq<nat>, y: seq<nat>, z: seq<nat>)
    ensures x + (y + z) == x + y + z
  {
  }

  lemma {:induction false} SparseConcat(a: seq<Byte>, b: seq<Byte>)
    requires Opcodes(a) && Opcodes(b)
    ensures Opcodes(a + b)
    ensures SparseRegs(a + b) == SparseRegs(a) + SparseRegs(b)
  {
    if a == [] {
      assert a + b == b;
    } else {
      var tail := a[OpBytes(a[0])..];
      SparseConcat(tail, b);
      RunLenPrefix(a, b);
      SparseStep(a + b);
      Assoc(Repeat(ValueOf(a[0]), RunLen(a)), SparseRegs(tail), SparseRegs(b));
    }
  }

  /** Moving the boundary between two opcode strings over one opcode. */
  lemma SparseAdvance(a: seq<Byte>, b: seq<Byte>)
    requires Opcodes(a) && Opcodes(b) && b != []
    ensures Opcodes(a + b[..OpBytes(b[0])])
    ensures SparseRegs(a + b[..OpBytes(b[0])]) == SparseRegs(a) + Repeat(ValueOf(b[0]), RunLen(b))
    ensures SparseRegs(b) == Repeat(ValueOf(b[0]), RunLen(b)) + SparseRegs(b[OpBytes(b[0])..])
  {
    SparseOne(b);
    SparseConcat(a, b[..OpBytes(b[0])]);
  }

  lemma SparseOne(b: seq<Byte>)
    requires Opcodes(b) && b != []
    ensures Opcodes(b[..OpBytes(b[0])])
    ensures SparseRegs(b[..OpBytes(b[0])]) == Repeat(ValueOf(b[0]), RunLen(b))
  {
    var op := b[..OpBytes(b[0])];
    assert op[OpBytes(op[0])..] == [];
    assert Opcodes([]);
    assert RunLen(op) == RunLen(b);
    assert SparseRegs(op) == Repeat(ValueOf(b[0]), RunLen(b)) + [];
  }

  // The three opcode writers.

  function ZeroOp(n: nat): (s: seq<Byte>)
    requires 1 <= n <= 64
  {
    [n - 1]
  }

  function XZeroOp(n: nat): (s: seq<Byte>)
    requires 1 <= n <= REGISTERS
  {
    [(n - 1) / 256 + 64, (n - 1) % 256]
  }

  function ValOp(v: nat, n: nat): (s: seq<Byte>)
    requires 1 <= v <= 32 && 1 <= n <= 4
  {
    [(v - 1) * 4 + (n - 1) + 128]
  }

  /** Each writer produces one opcode, which reads back as what was written. */
  lemma ZeroWritten(n: nat)
    requires 1 <= n <= 64
    ensures Opcodes(ZeroOp(n)) && SparseRegs(ZeroOp(n)) == Repeat(0, n)
  {
    assert ZeroOp(n)[1..] == [];
  }

  lemma XZeroWritten(n: nat)
    requires 1 <= n <= REGISTERS
    ensures Opcodes(XZeroOp(n)) && SparseRegs(XZeroOp(n)) == Repeat(0, n)
  {
    assert XZeroOp(n)[2..] == [];
    assert RunLen(XZeroOp(n)) == n;
  }

  lemma ValWritten(v: nat, n: nat)
    requires 1 <= v <= 32 && 1 <= n <= 4
    ensures Opcodes(ValOp(v, n)) && SparseRegs(ValOp(v, n)) == Repeat(v, n)
  {
    assert ValOp(v, n)[1..] == [];
    assert ValueOf(ValOp(v, n)[0]) == v && RunLen(ValOp(v, n)) == n;
  }
}
