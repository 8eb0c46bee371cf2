/** Element hashing, and what the registers of a set of elements are. */
module HllElements {
  import opened Basics
  import opened HllRegisters
  import opened Powers

  // ----------------------------------------------------------- hash pattern

  type Hash = h: nat | h < 0x1_0000_0000_0000_0000
  const TOP_BIT: nat := 0x8000_0000_0000_0000

  /** The register an element goes to, and the length of its pattern 00..1: how far the first
      one-bit above the 14 index bits is, bit 63 counting as set. */
  ghost predicate IsPattern(h: Hash, index: nat, count: nat)
  {
    index == h % REGISTERS &&
    1 <= count <= 50 &&
    (count == 50 || Bit(h, 13 + count) == 1) &&
    forall i :: 14 <= i < 13 + count ==> Bit(h, i) == 0
  }

  lemma PatternUnique(h: Hash, i: nat, c: nat, j: nat, d: nat)
    requires IsPattern(h, i, c) && IsPattern(h, j, d)
    ensures i == j && c == d
  {
    assert c < 50 ==> Bit(h, 13 + c) == 1;
    assert d < 50 ==> Bit(h, 13 + d) == 1;
  }

  method PatLen(h: Hash) returns (index: nat, count: nat)
    ensures IsPattern(h, index, count)
  {
    index := h % REGISTERS;
    // The top bit is or-ed in so that the loop stops.
    var hash: nat := if h < TOP_BIT then h + TOP_BIT else h;
    var bit: nat := REGISTERS;
    TopPower();
    count := 1;
    while hash / bit % 2 == 0
      invariant 1 <= count <= 50 && bit == Pow2(13 + count)
      invariant forall i :: 14 <= i < 13 + count ==> Bit(h, i) == 0
      decreases 50 - count
    {
      LowBits(h, 13 + count);
      count := count + 1;
      bit := bit * 2;
    }
    LowBits(h, 13 + count);
  }

  /** Or-ing in the top bit changes no other bit. */
  lemma LowBits(h: Hash, i: nat)
    requires i <= 63
    ensures var hash := if h < TOP_BIT then h + TOP_BIT else h;
      (i == 63 ==> hash / Pow2(i) % 2 == 1) &&
      (i < 63 ==> (hash / Pow2(i) % 2 == 1 <==> Bit(h, i) == 1))
  {
    hide Pow2;
    TopPower();
    if i < 63 {
      TopBitSplit(i);
      EvenShift(h, Pow2(62 - i), Pow2(i));
    } else {
      assert TOP_BIT / TOP_BIT == 1;
    }
  }

  lemma TopBitSplit(i: nat)
    requires i < 63
    ensures TOP_BIT == 2 * Pow2(62 - i) * Pow2(i)
  {
    TopPower();
    PowSplit(i, 63);
    assert Pow2(63 - i) == 2 * Pow2(62 - i);
  }

  ghost function FirstBit(h: Hash, k: nat): (c: nat)
    requires 1 <= k <= 50
    ensures k <= c <= 50
    decreases 50 - k
  {
    if k == 50 || Bit(h, 13 + k) == 1 then k else FirstBit(h, k + 1)
  }

  ghost function PatIndex(h: Hash): (i: nat)
    ensures i < REGISTERS
  {
    h % REGISTERS
  }

  ghost function PatCount(h: Hash): (c: nat)
    ensures 1 <= c <= 50
  {
    FirstBit(h, 1)
  }

  lemma {:induction false} PatternFrom(h: Hash, k: nat)
    requires 1 <= k <= 50 && forall i :: 14 <= i < 13 + k ==> Bit(h, i) == 0
    ensures IsPattern(h, PatIndex(h), FirstBit(h, k))
    decreases 50 - k
  {
    hide Bit;
    if k < 50 && Bit(h, 13 + k) == 0 {
      PatternFrom(h, k + 1);
    }
  }

  /** The pattern exists and is unique, so it is a function of the hash. */
  lemma PatternOf(h: Hash, index: nat, count: nat)
    ensures IsPattern(h, index, count) <==> index == PatIndex(h) && count == PatCount(h)
  {
    PatternFrom(h, 1);
    if IsPattern(h, index, count) {
      PatternUnique(h, index, count, PatIndex(h), PatCount(h));
    }
  }

  // ------------------------------------------------- the registers of a set

  type Element = seq<Byte>
  type Hashing = Element -> Hash

  /** `regs` are the registers of the element set `s`: each is the longest pattern of the
      elements that go to it, zero if there are none. */
  ghost predicate RegsOf(hash: Hashing, s: set<Element>, regs: seq<nat>)
  {
    |regs| == REGISTERS &&
    (forall e :: e in s ==> PatCount(hash(e)) <= regs[PatIndex(hash(e))]) &&
    (forall i :: 0 <= i < REGISTERS && regs[i] != 0 ==> Reached(hash, s, i, regs[i]))
  }

  ghost predicate Reached(hash: Hashing, s: set<Element>, i: nat, c: nat)
  {
    exists e :: e in s && PatIndex(hash(e)) == i && PatCount(hash(e)) == c
  }

  /** Registers depend on the set of elements only: not on order, repetition or representation. */
  lemma RegsOfUnique(hash: Hashing, s: set<Element>, a: seq<nat>, b: seq<nat>)
    requires RegsOf(hash, s, a) && RegsOf(hash, s, b)
    ensures a == b
  {
    hide PatCount, PatIndex;
    forall i | 0 <= i < REGISTERS
      ensures a[i] == b[i]
    {
      if a[i] != 0 {
        var e :| e in s && PatIndex(hash(e)) == i && PatCount(hash(e)) == a[i];
      }
      if b[i] != 0 {
        var e :| e in s && PatIndex(hash(e)) == i && PatCount(hash(e)) == b[i];
      }
    }
  }

  lemma RegsOfEmpty(hash: Hashing)
    ensures RegsOf(hash, {}, Repeat(0, REGISTERS))
  {
  }

  lemma RegsOfAdd(hash: Hashing, s: set<Element>, regs: seq<nat>, e: Element)
    requires RegsOf(hash, s, regs)
    ensures var i := PatIndex(hash(e));
      RegsOf(hash, s + {e}, regs[i := Max(regs[i], PatCount(hash(e)))])
  {
    var i, c := PatIndex(hash(e)), PatCount(hash(e));
    var next := regs[i := Max(regs[i], c)];
    hide PatCount, PatIndex;
    forall j | 0 <= j < REGISTERS && next[j] != 0
      ensures Reached(hash, s + {e}, j, next[j])
    {
      if j == i && next[j] == c {
        assert e in s + {e};
      } else {
        ReachedMore(hash, s, s + {e}, j, regs[j]);
      }
    }
  }

  lemma ReachedMore(hash: Hashing, s: set<Element>, t: set<Element>, i: nat, c: nat)
    requires Reached(hash, s, i, c) && s <= t
    ensures Reached(hash, t, i, c)
  {
    hide PatCount, PatIndex;
    var e :| e in s && PatIndex(hash(e)) == i && PatCount(hash(e)) == c;
    assert e in t;
  }

  /** The registers of a union are the register-wise maxima. */
  lemma RegsOfUnion(hash: Hashing, s: set<Element>, a: seq<nat>, t: set<Element>, b: seq<nat>)
    requires RegsOf(hash, s, a) && RegsOf(hash, t, b)
    ensures RegsOf(hash, s + t, MaxRegs(a, b))
  {
    hide PatCount, PatIndex;
    var m := MaxRegs(a, b);
    forall j | 0 <= j < REGISTERS && m[j] != 0
      ensures Reached(hash, s + t, j, m[j])
    {
      if m[j] == a[j] {
        ReachedMore(hash, s, s + t, j, a[j]);
      } else {
        ReachedMore(hash, t, s + t, j, b[j]);
      }
    }
  }
}
