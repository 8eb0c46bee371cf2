/** The in-place editing of the sparse representation. */
module HllSparse {
  import opened Basics
  import opened HllRegisters

  const VAL_MAX_VALUE: nat := 32
  const VAL_MAX_LEN: nat := 4
  const ZERO_MAX_LEN: nat := 64
  const HLL_DENSE: Byte := 0
  const HLL_SPARSE: Byte := 1

  /** A dynamic string holding a HyperLogLog: `len` bytes of `buf`, a 16-byte header and then the
      body. One more byte is always allocated for the terminator. */
  class Sds {
    var buf: array<Byte>
    var len: nat

    ghost predicate Valid()
      reads this
    {
      HDR_SIZE <= len < buf.Length
    }

    ghost function Header(): (h: seq<Byte>)
      reads this, buf
      requires Valid()
      ensures |h| == HDR_SIZE
    {
      buf[..len][..HDR_SIZE]
    }

    ghost function Body(): (s: seq<Byte>)
      reads this, buf
      requires Valid()
      ensures |s| == len - HDR_SIZE
    {
      buf[..len][HDR_SIZE..]
    }

    ghost function Contents(): seq<Byte>
      reads this, buf
      requires Valid()
    {
      buf[..len]
    }

    constructor (s: seq<Byte>)
      requires HDR_SIZE <= |s|
      ensures Valid() && fresh(buf) && Contents() == s
    {
      buf := new Byte[|s| + 1](i => if 0 <= i < |s| then s[i] else 0);
      len := |s|;
    }

    method MakeRoomFor(n: nat)
      requires Valid()
      modifies this
      ensures Valid() && Header() == old(Header()) && Body() == old(Body())
      ensures buf == old(buf) || fresh(buf)
      ensures len + n < buf.Length
    {
      if buf.Length <= len + n {
        var bigger := new Byte[len + n + 1];
        forall i | 0 <= i < len {
          bigger[i] := buf[i];
        }
        buf := bigger;
      }
    }

    /** Replaces `oldLen` body bytes at body offset `p` by `s`: memmove of the tail, then memcpy. */
    method Splice(p: nat, oldLen: nat, s: seq<Byte>)
      requires Valid() && HDR_SIZE + p + oldLen <= len && len - oldLen + |s| < buf.Length
      modifies this`len, buf
      ensures Valid() && buf == old(buf) && Header() == old(Header())
      ensures Body() == old(Body()[..p]) + s + old(Body()[p + oldLen..])
    {
      SpliceSeq(buf[..len], p, oldLen, s);
      Replace(HDR_SIZE + p, oldLen, s);
    }

    method Replace(at: nat, oldLen: nat, s: seq<Byte>)
      requires at + oldLen <= len < buf.Length && len - oldLen + |s| < buf.Length
      modifies this`len, buf
      ensures len == old(len) - oldLen + |s| < buf.Length && buf == old(buf)
      ensures buf[..len] == old(buf[..len][..at]) + s + old(buf[..len][at + oldLen..])
    {
      ghost var n, b0 := len, buf[..];
      MoveTail(at + oldLen, |s| - oldLen);
      len := len - oldLen + |s|;
      ghost var b1 := buf[..];
      CopyIn(at, s);
      ghost var b2 := buf[..];
      MovedAndCopied(b0, b1, b2, n, at, oldLen, s);
      assert buf[..len] == b2[..len];
      assert b0[..n] == old(buf[..len]);
    }

    /** memmove of everything from `from` to the end. */
    method MoveTail(from: nat, shift: int)
      requires from <= len < buf.Length && 0 <= from + shift && len + shift < buf.Length
      modifies buf
      ensures forall i :: from + shift <= i < len + shift ==> buf[i] == old(buf[i - shift])
      ensures forall i :: 0 <= i < from && i < from + shift ==> buf[i] == old(buf[i])
    {
      forall i | from <= i < len {
        buf[i + shift] := buf[i];
      }
    }

    /** memcpy of `s` to `at`. */
    method CopyIn(at: nat, s: seq<Byte>)
      requires at + |s| <= buf.Length
      modifies buf
      ensures forall i :: 0 <= i < buf.Length ==> buf[i] == if at <= i < at + |s| then s[i - at] else old(buf[i])
    {
      forall i | 0 <= i < |s| {
        buf[at + i] := s[i];
      }
    }
  }

  /** A tail moved, then bytes copied into the gap. */
  lemma MovedAndCopied(b0: seq<Byte>, b1: seq<Byte>, b2: seq<Byte>, n: nat, at: nat, oldLen: nat, s: seq<Byte>)
    requires at + oldLen <= n < |b0| == |b1| == |b2| && n - oldLen + |s| < |b0|
    requires forall i :: at + |s| <= i < n - oldLen + |s| ==> b1[i] == b0[i + oldLen - |s|]
    requires forall i :: 0 <= i < at ==> b1[i] == b0[i]
    requires forall i :: 0 <= i < |b2| ==> b2[i] == if at <= i < at + |s| then s[i - at] else b1[i]
    ensures b2[..n - oldLen + |s|] == b0[..n][..at] + s + b0[..n][at + oldLen..]
  {
    var after := b0[..n][..at] + s + b0[..n][at + oldLen..];
    forall i | 0 <= i < |after|
      ensures b2[i] == after[i]
    {
      assert b2[i] == if at <= i < at + |s| then s[i - at] else b1[i];
    }
  }

  lemma SpliceSeq(before: seq<Byte>, p: nat, oldLen: nat, s: seq<Byte>)
    requires HDR_SIZE + p + oldLen <= |before|
    ensures var after := before[..HDR_SIZE + p] + s + before[HDR_SIZE + p + oldLen..];
      after[..HDR_SIZE] == before[..HDR_SIZE] &&
      after[HDR_SIZE..] == before[HDR_SIZE..][..p] + s + before[HDR_SIZE..][p + oldLen..]
  {
    assert before[..HDR_SIZE + p] == before[..HDR_SIZE] + before[HDR_SIZE..][..p];
    assert before[HDR_SIZE..][p + oldLen..] == before[HDR_SIZE + p + oldLen..];
  }

  /** `body` splits into whole opcodes at `p`. */
  ghost predicate Boundary(body: seq<Byte>, p: nat)
  {
    Opcodes(body) && p <= |body| && Opcodes(body[..p]) && Opcodes(body[p..])
  }

  lemma BoundaryIntro(body: seq<Byte>, p: nat)
    requires p <= |body| && Opcodes(body[..p]) && Opcodes(body[p..])
    ensures Boundary(body, p)
  {
    hide SparseRegs, Opcodes;
    SparseConcat(body[..p], body[p..]);
    assert body == body[..p] + body[p..];
  }

  lemma BoundaryZero(body: seq<Byte>)
    requires Opcodes(body)
    ensures Boundary(body, 0) && SparseRegs(body[..0]) == []
  {
    assert body[..0] == [] && body[0..] == body;
  }

  lemma BoundaryRegs(body: seq<Byte>, p: nat)
    requires Boundary(body, p)
    ensures SparseRegs(body) == SparseRegs(body[..p]) + SparseRegs(body[p..])
  {
    hide SparseRegs, Opcodes;
    SparseConcat(body[..p], body[p..]);
    assert body == body[..p] + body[p..];
  }

  lemma BoundaryNext(body: seq<Byte>, p: nat)
    requires Boundary(body, p) && p < |body|
    ensures Boundary(body, p + OpBytes(body[p])) && Opcodes(body[p..p + OpBytes(body[p])])
    ensures SparseRegs(body[..p + OpBytes(body[p])])
         == SparseRegs(body[..p]) + Repeat(ValueOf(body[p]), RunLen(body[p..]))
    ensures SparseRegs(body[p..])
         == Repeat(ValueOf(body[p]), RunLen(body[p..])) + SparseRegs(body[p + OpBytes(body[p])..])
  {
    var b, n := body[p..], OpBytes(body[p]);
    SparseOne(b);
    SparseAdvance(body[..p], b);
    assert b[..n] == body[p..p + n];
    assert body[..p] + b[..n] == body[..p + n];
    assert b[n..] == body[p + n..];
  }

  lemma NotAtEnd(body: seq<Byte>, p: nat, index: nat)
    requires SparseValid(body) && Boundary(body, p)
    requires |SparseRegs(body[..p])| <= index < REGISTERS
    ensures p < |body|
  {
    assert body[..|body|] == body;
  }

  /** Step 1 of the sparse add: the opcode that covers register `index`.
      `prev` is where the opcode before it starts, -1 when there is none. */
  method FindOpcode(body: seq<Byte>, index: nat) returns (p: nat, prev: int, first: nat, span: nat)
    requires body == [] || SparseValid(body)
    requires index < REGISTERS
    ensures body == [] <==> span == 0
    ensures body != [] ==> p < |body| && Boundary(body, p)
    ensures body != [] ==> first == |SparseRegs(body[..p])| && span == RunLen(body[p..])
    ensures body != [] ==> first <= index < first + span
    ensures -1 <= prev < p && (prev == -1 ==> p == 0)
    ensures 0 <= prev && body != [] ==> Opcodes(body[..prev]) && Opcodes(body[prev..p])
  {
    p, prev, first, span := 0, -1, 0, 0;
    if body != [] {
      assert body[..0] == [] && body[0..] == body;
    }
    while p < |body|
      invariant body == [] ==> p == 0
      invariant body != [] ==> p < |body| && Boundary(body, p)
      invariant body != [] ==> first == |SparseRegs(body[..p])| <= index
      invariant -1 <= prev < p && (prev == -1 ==> p == 0)
      invariant 0 <= prev && body != [] ==> Opcodes(body[..prev]) && Opcodes(body[prev..p])
      invariant p == 0 <==> span == 0
      decreases |body| - p
    {
      BoundaryNext(body, p);
      var opLen := 1;
      if IsZero(body[p]) {
        span := body[p] % 64 + 1;
      } else if IsVal(body[p]) {
        span := body[p] % 4 + 1;
      } else {
        span := (body[p] as int) % 64 * 256 + body[p + 1] as int + 1;
        opLen := 2;
      }
      assert span == RunLen(body[p..]) && opLen == OpBytes(body[p]);
      if index <= first + span - 1 {
        return;
      }
      prev := p;
      p := p + opLen;
      first := first + span;
      NotAtEnd(body, p, index);
    }
  }

  /** Replacing everything from an opcode boundary on. */
  lemma ReplaceTail(body: seq<Byte>, p: nat, tail: seq<Byte>)
    requires Boundary(body, p) && Opcodes(tail)
    ensures Boundary(body[..p] + tail, p)
    ensures SparseRegs(body[..p] + tail) == SparseRegs(body[..p]) + SparseRegs(tail)
  {
    hide SparseRegs, Opcodes;
    var next := body[..p] + tail;
    assert next[..p] == body[..p] && next[p..] == tail;
    BoundaryIntro(next, p);
    BoundaryRegs(next, p);
  }

  predicate Mergeable(b: Byte, c: Byte)
  {
    IsVal(b) && IsVal(c) && ValueOf(b) == ValueOf(c) && (b as int) % 4 + (c as int) % 4 + 2 <= VAL_MAX_LEN
  }

  function Merged(b: Byte, c: Byte): seq<Byte>
    requires Mergeable(b, c)
  {
    ValOp(ValueOf(b), (b as int) % 4 + (c as int) % 4 + 2)
  }

  lemma RepeatTwice(v: nat, m: nat, n: nat)
    ensures Repeat(v, m) + Repeat(v, n) == Repeat(v, m + n)
  {
  }

  lemma TwoVals(tail: seq<Byte>)
    requires Opcodes(tail) && |tail| >= 2 && Mergeable(tail[0], tail[1])
    ensures Opcodes(tail[2..]) && Opcodes(tail[1..]) && ValueOf(tail[0]) == ValueOf(tail[1])
    ensures 1 <= ValueOf(tail[0]) <= VAL_MAX_VALUE && 2 <= RunLen(tail) + RunLen(tail[1..]) <= VAL_MAX_LEN
    ensures Merged(tail[0], tail[1]) == ValOp(ValueOf(tail[0]), RunLen(tail) + RunLen(tail[1..]))
    ensures SparseRegs(tail) == Repeat(ValueOf(tail[0]), RunLen(tail)) +
      (Repeat(ValueOf(tail[1]), RunLen(tail[1..])) + SparseRegs(tail[2..]))
  {
    hide Opcodes, SparseRegs, RunLen, ValueOf;
    ValStep(tail);
    ValStep(tail[1..]);
    assert tail[1..][1..] == tail[2..];
  }

  lemma ValStep(s: seq<Byte>)
    requires Opcodes(s) && s != [] && IsVal(s[0])
    ensures Opcodes(s[1..]) && SparseRegs(s) == Repeat(ValueOf(s[0]), RunLen(s)) + SparseRegs(s[1..])
    ensures RunLen(s) == s[0] as int % 4 + 1 && 1 <= ValueOf(s[0]) <= VAL_MAX_VALUE
  {
  }

  lemma MergeFirstTwo(tail: seq<Byte>)
    requires Opcodes(tail) && |tail| >= 2 && Mergeable(tail[0], tail[1])
    ensures Opcodes(Merged(tail[0], tail[1]) + tail[2..])
    ensures SparseRegs(Merged(tail[0], tail[1]) + tail[2..]) == SparseRegs(tail)
  {
    hide Opcodes, SparseRegs, RunLen, Repeat, ValueOf;
    TwoVals(tail);
    var v, m, n := ValueOf(tail[0]), RunLen(tail), RunLen(tail[1..]);
    ValWritten(v, m + n);
    SparseConcat(Merged(tail[0], tail[1]), tail[2..]);
    RepeatTwice(v, m, n);
    Assoc(Repeat(v, m), Repeat(v, n), SparseRegs(tail[2..]));
  }

  /** Two adjacent VAL opcodes of the same value become one. */
  lemma MergeVals(body: seq<Byte>, p: nat)
    requires Boundary(body, p) && p + 1 < |body| && Mergeable(body[p], body[p + 1])
    ensures var next := body[..p] + Merged(body[p], body[p + 1]) + body[p + 2..];
      Boundary(next, p) && SparseRegs(next) == SparseRegs(body)
  {
    hide SparseRegs, Opcodes;
    var tail := Merged(body[p], body[p + 1]) + body[p + 2..];
    assert body[p..][2..] == body[p + 2..];
    MergeFirstTwo(body[p..]);
    ReplaceTail(body, p, tail);
    BoundaryRegs(body, p);
    assert body[..p] + tail == body[..p] + Merged(body[p], body[p + 1]) + body[p + 2..];
  }

  /** Step 4 of the sparse add: scans up to five opcodes from `start` and merges adjacent VALs. */
  method MergeAdjacent(s: Sds, start: nat)
    requires s.Valid() && Boundary(s.Body(), start)
    modifies s`len, s.buf
    ensures s.Valid() && s.buf == old(s.buf) && s.len <= old(s.len) && s.Header() == old(s.Header())
    ensures Opcodes(s.Body())
    ensures SparseRegs(s.Body()) == old(SparseRegs(s.Body()))
  {
    var p, scanLen := start, 5;
    while HDR_SIZE + p < s.len && scanLen > 0
      invariant s.Valid() && s.buf == old(s.buf) && s.len <= old(s.len) && s.Header() == old(s.Header())
      invariant Boundary(s.Body(), p)
      invariant SparseRegs(s.Body()) == old(SparseRegs(s.Body()))
      decreases scanLen
    {
      scanLen := scanLen - 1;
      p := MergeStep(s, p);
    }
  }

  /** One iteration of that scan; `q` is where the next one looks. */
  method MergeStep(s: Sds, p: nat) returns (q: nat)
    requires s.Valid() && HDR_SIZE + p < s.len && Boundary(s.Body(), p)
    modifies s`len, s.buf
    ensures s.Valid() && s.buf == old(s.buf) && s.len <= old(s.len) && s.Header() == old(s.Header())
    ensures Boundary(s.Body(), q)
    ensures SparseRegs(s.Body()) == old(SparseRegs(s.Body()))
  {
    hide SparseRegs, Opcodes;
    ghost var body := s.Body();
    BoundaryNext(body, p);
    var b := s.buf[HDR_SIZE + p];
    assert body[p] == b;
    if IsXZero(b) {
      return p + 2;
    } else if IsZero(b) {
      return p + 1;
    }
    if HDR_SIZE + p + 1 < s.len && IsVal(s.buf[HDR_SIZE + p + 1]) {
      var c := s.buf[HDR_SIZE + p + 1];
      var v1, v2 := ValueOf(b), ValueOf(c);
      if v1 == v2 {
        var n := (b as int % 4 + 1) + (c as int % 4 + 1);
        if n <= VAL_MAX_LEN {
          assert body[p + 1] == c;
          MergeVals(body, p);
          s.Splice(p, 2, Merged(b, c));
          // The merged opcode is tried again against the one on its right.
          return p;
        }
      }
    }
    return p + 1;
  }
}
