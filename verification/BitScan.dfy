/** The first bit of a kind in a byte string, found a word at a time. */
module BitScan {
  import opened Basics
  import opened Powers

  const WORD := 8  // bytes in an unsigned long

  /** Bit p of the string, the first bit of a byte being its highest; zeros beyond the end. */
  ghost function BitAt(s: seq<Byte>, p: nat): nat
  {
    if p / 8 < |s| then Bit(s[p / 8], 7 - p % 8) else 0
  }

  ghost predicate IsFirst(s: seq<Byte>, bit: nat, p: nat)
  {
    BitAt(s, p) == bit && forall q :: 0 <= q < p ==> BitAt(s, q) != bit
  }

  /** No bit of the kind among the first n bytes. */
  ghost predicate Passed(s: seq<Byte>, bit: nat, n: nat)
  {
    forall q :: 0 <= q < 8 * n ==> BitAt(s, q) != bit
  }

  lemma SmallPowers()
    ensures Pow2(0) == 1 && Pow2(1) == 2 && Pow2(2) == 4 && Pow2(3) == 8
    ensures Pow2(4) == 16 && Pow2(5) == 32 && Pow2(6) == 64 && Pow2(7) == 128 && Pow2(8) == 256
  {
    assert Pow2(4) == 16;
  }

  /** A byte of all zeros, or all ones, has only such bits; any other byte has one of each. */
  lemma ByteBits(b: Byte)
    ensures b == 0 ==> forall k :: 0 <= k < 8 ==> Bit(b, k) == 0
    ensures b == 255 ==> forall k :: 0 <= k < 8 ==> Bit(b, k) == 1
    ensures b != 0 ==> exists k :: 0 <= k < 8 && Bit(b, k) == 1
    ensures b != 255 ==> exists k :: 0 <= k < 8 && Bit(b, k) == 0
  {
    SmallPowers();
    hide Pow2;
    forall k | 0 <= k < 8
      ensures b == 0 ==> Bit(b, k) == 0
      ensures b == 255 ==> Bit(b, k) == 1
    {
      EachBit(k);
    }
    if b != 0 {
      BitOne(b);
    }
    if b != 255 {
      BitZero(b);
    }
  }

  lemma EachBit(k: nat)
    requires k < 8
    ensures Bit(0, k) == 0 && Bit(255, k) == 1
  {
    SmallPowers();
    hide Pow2;
    assert k == 0 || k == 1 || k == 2 || k == 3 || k == 4 || k == 5 || k == 6 || k == 7;
  }

  lemma BitOne(b: Byte)
    requires b != 0
    ensures exists k :: 0 <= k < 8 && Bit(b, k) == 1
  {
    SmallPowers();
    hide Pow2;
    if b >= 128 { assert Bit(b, 7) == 1; }
    else if b >= 64 { assert Bit(b, 6) == 1; }
    else if b >= 32 { assert Bit(b, 5) == 1; }
    else if b >= 16 { assert Bit(b, 4) == 1; }
    else if b >= 8 { assert Bit(b, 3) == 1; }
    else if b >= 4 { assert Bit(b, 2) == 1; }
    else if b >= 2 { assert Bit(b, 1) == 1; }
    else { assert Bit(b, 0) == 1; }
  }

  lemma BitZero(b: Byte)
    requires b != 255
    ensures exists k :: 0 <= k < 8 && Bit(b, k) == 0
  {
    SmallPowers();
    hide Pow2;
    if b < 128 { assert Bit(b, 7) == 0; }
    else if b < 192 { assert Bit(b, 6) == 0; }
    else if b < 224 { assert Bit(b, 5) == 0; }
    else if b < 240 { assert Bit(b, 4) == 0; }
    else if b < 248 { assert Bit(b, 3) == 0; }
    else if b < 252 { assert Bit(b, 2) == 0; }
    else if b < 254 { assert Bit(b, 1) == 0; }
    else { assert Bit(b, 0) == 0; }
  }

  /** The byte that holds no bit of the kind. */
  function SkipValue(bit: nat): Byte
  {
    if bit == 1 then 0 else 255
  }

  lemma PassByte(s: seq<Byte>, bit: nat, n: nat)
    requires bit < 2 && n < |s| && s[n] == SkipValue(bit) && Passed(s, bit, n)
    ensures Passed(s, bit, n + 1)
  {
    hide Bit;
    ByteBits(s[n]);
    forall q | 8 * n <= q < 8 * (n + 1)
      ensures BitAt(s, q) != bit
    {
      assert q / 8 == n && 0 <= 7 - q % 8 < 8;
    }
  }

  /** A byte other than the skipped one holds a bit of the kind. */
  lemma HoldsBit(s: seq<Byte>, bit: nat, n: nat) returns (k: nat)
    requires bit < 2 && n < |s| && s[n] != SkipValue(bit)
    ensures k < 8 && BitAt(s, 8 * n + k) == bit
  {
    hide Bit;
    ByteBits(s[n]);
    var m :| 0 <= m < 8 && Bit(s[n], m) == bit;
    k := 7 - m;
    assert (8 * n + k) / 8 == n && (8 * n + k) % 8 == k;
  }

  // -------------------------------------------------------------------- words

  /** The last 8 * j bits of the word are those of the string from byte i on. */
  ghost predicate Loaded(s: seq<Byte>, i: nat, j: nat, word: nat)
  {
    forall p :: 8 * i <= p < 8 * (i + j) ==> Bit(word, 8 * (i + j) - 1 - p) == BitAt(s, p)
  }

  lemma DivTwice(n: nat, p: nat)
    requires p > 0
    ensures n / (256 * p) == n / 256 / p
  {
    var h, t := n / 256, n % 256;
    var q, r := h / p, h % p;
    assert h == p * q + r;
    Scaled(p, q, r);
    DivIs(n, 256 * p, q, 256 * r + t);
  }

  lemma Scaled(p: nat, q: nat, r: nat)
    ensures 256 * (p * q + r) == 256 * p * q + 256 * r
  {
  }

  lemma HighBit(word: nat, b: Byte, m: nat)
    requires m >= 8
    ensures Bit(word * 256 + b, m) == Bit(word, m - 8)
  {
    SmallPowers();
    PowSplit(8, m);
    DivTwice(word * 256 + b, Pow2(m - 8));
    assert (word * 256 + b) / 256 == word;
  }

  lemma LowBit(word: nat, b: Byte, m: nat)
    requires m < 8
    ensures Bit(word * 256 + b, m) == Bit(b, m)
  {
    hide Pow2;
    SmallPowers();
    PowSplit(m, 7);
    Regroup(word, Pow2(7 - m), Pow2(m));
    EvenShift(b, word * Pow2(7 - m), Pow2(m));
  }

  lemma Regroup(w: nat, x: nat, y: nat)
    ensures 2 * (w * x) * y == w * (2 * (x * y))
  {
  }

  function Padded(s: seq<Byte>, i: nat): Byte
  {
    if i < |s| then s[i] else 0
  }

  lemma LoadByte(s: seq<Byte>, i: nat, j: nat, word: nat)
    requires Loaded(s, i, j, word)
    ensures Loaded(s, i, j + 1, word * 256 + Padded(s, i + j))
  {
    var b := Padded(s, i + j);
    forall p | 8 * i <= p < 8 * (i + j + 1)
      ensures Bit(word * 256 + b, 8 * (i + j + 1) - 1 - p) == BitAt(s, p)
    {
      var m := 8 * (i + j + 1) - 1 - p;
      if p < 8 * (i + j) {
        HighBit(word, b, m);
      } else {
        LowBit(word, b, m);
        ByteBits(0);
        hide Bit;
        assert p / 8 == i + j && 7 - p % 8 == m;
      }
    }
  }

  // --------------------------------------------------------------------- scan

  predicate AllSkipped(s: seq<Byte>, i: nat, bit: nat)
    requires i + WORD <= |s|
  {
    forall k :: i <= k < i + WORD ==> s[k] == SkipValue(bit)
  }

  lemma {:induction false} PassBytes(s: seq<Byte>, bit: nat, i: nat, n: nat)
    requires bit < 2 && i <= n <= |s| && Passed(s, bit, i)
    requires forall k :: i <= k < n ==> s[k] == SkipValue(bit)
    ensures Passed(s, bit, n)
    decreases n - i
  {
    if i < n {
      PassByte(s, bit, i);
      PassBytes(s, bit, i + 1, n);
    }
  }

  /** Whole bytes, then whole words, passed over: the bits wanted lie in the next word, or nowhere. */
  method SkipWhole(s: seq<Byte>, addr: nat, bit: nat) returns (i: nat)
    requires bit < 2
    ensures i <= |s| && Passed(s, bit, i)
    ensures i + WORD <= |s| ==> !AllSkipped(s, i, bit)
  {
    hide Passed;
    PassNone(s, bit);
    i := 0;
    while (addr + i) % WORD != 0 && i < |s| && s[i] == SkipValue(bit)
      invariant i <= |s| && Passed(s, bit, i)
      decreases |s| - i
    {
      PassByte(s, bit, i);
      i := i + 1;
    }
    while i + WORD <= |s| && AllSkipped(s, i, bit)
      invariant i <= |s| && Passed(s, bit, i)
      decreases |s| - i
    {
      PassBytes(s, bit, i, i + WORD);
      i := i + WORD;
    }
  }

  lemma PassNone(s: seq<Byte>, bit: nat)
    ensures Passed(s, bit, 0)
  {
  }

  /** A word's bytes, the first one the highest, zeros where the string ends. */
  method LoadWord(s: seq<Byte>, i: nat) returns (word: nat)
    ensures Loaded(s, i, WORD, word)
    ensures (forall k :: i <= k < i + WORD ==> Padded(s, k) == 0) ==> word == 0
  {
    word := 0;
    for j := 0 to WORD
      invariant Loaded(s, i, j, word)
      invariant (forall k :: i <= k < i + j ==> Padded(s, k) == 0) ==> word == 0
    {
      LoadByte(s, i, j, word);
      word := word * 256 + Padded(s, i + j);
    }
  }

  /** Where the skipping stopped, either the next word holds a bit of the kind, or it is a 1 and
      there is none in the string. */
  lemma NextWord(s: seq<Byte>, bit: nat, i: nat) returns (p: nat)
    requires bit < 2 && i <= |s| && (i + WORD <= |s| ==> !AllSkipped(s, i, bit))
    ensures 8 * i <= p <= 8 * (i + WORD)
    ensures if p < 8 * (i + WORD) then BitAt(s, p) == bit else bit == 1 && (Passed(s, bit, i) ==> Passed(s, bit, |s|))
    ensures p == 8 * (i + WORD) ==> forall k :: i <= k < i + WORD ==> Padded(s, k) == 0
  {
    if n :| i <= n < i + WORD && n < |s| && s[n] != SkipValue(bit) {
      var k := HoldsBit(s, bit, n);
      p := 8 * n + k;
    } else if bit == 0 {
      p := 8 * |s|;
    } else {
      p := 8 * (i + WORD);
      if Passed(s, bit, i) {
        PassBytes(s, bit, i, |s|);
      }
    }
  }

  lemma {:induction false} BitOfZero(k: nat)
    ensures Bit(0, k) == 0
  {
  }

  /** A word with no bit set is zero, and only that. */
  lemma ZeroWord(s: seq<Byte>, i: nat, word: nat, p: nat)
    requires Loaded(s, i, WORD, word) && 8 * i <= p < 8 * (i + WORD) && BitAt(s, p) == 1
    ensures word != 0
  {
    BitOfZero(8 * (i + WORD) - 1 - p);
  }

  /** bitpos: the least position holding the bit, under zero padding on the right; -1 exactly when a 1
      is wanted and there is none. The scan of the last word stops on the bit: it never runs out. */
  method BitPos(s: seq<Byte>, addr: nat, bit: nat) returns (pos: int)
    requires bit < 2
    ensures pos == -1 || (pos >= 0 && IsFirst(s, bit, pos))
    ensures pos == -1 <==> bit == 1 && Passed(s, 1, |s|)
  {
    hide Bit, BitAt, Pow2;
    var i := SkipWhole(s, addr, bit);
    var word := LoadWord(s, i);
    ghost var p := NextWord(s, bit, i);
    if bit == 1 && word == 0 {
      if p < 8 * (i + WORD) {
        ZeroWord(s, i, word, p);
      }
      return -1;
    }
    pos := ScanWord(s, bit, i, word, p);
    BeyondEnd(s);
  }

  /** Bit of a word under a mask of one bit. */
  function Masked(word: nat, one: nat): nat
  {
    if one > 0 then word / one % 2 else 0
  }

  /** The last word, bit by bit from the highest. */
  method ScanWord(s: seq<Byte>, bit: nat, i: nat, word: nat, ghost p: nat) returns (pos: nat)
    requires Loaded(s, i, WORD, word) && Passed(s, bit, i)
    requires 8 * i <= p < 8 * (i + WORD) && BitAt(s, p) == bit
    ensures IsFirst(s, bit, pos) && pos < 8 * (i + WORD)
  {
    hide Bit, BitAt, Pow2, Loaded, Masked;
    pos := 8 * i;
    ghost var k := 63;
    var one := 0x8000_0000_0000_0000;
    TopPower();
    WordBit(s, i, word, pos);
    while one > 0 && Masked(word, one) != bit
      invariant 8 * i <= pos <= p && k == 8 * (i + WORD) - 1 - pos >= 0 && one == Pow2(k)
      invariant Masked(word, one) == BitAt(s, pos)
      invariant forall q :: 0 <= q < pos ==> BitAt(s, q) != bit
      decreases p - pos
    {
      HalfPower(k);
      pos := pos + 1;
      one := one / 2;
      k := k - 1;
      WordBit(s, i, word, pos);
    }
  }

  lemma HalfPower(k: nat)
    ensures k > 0 ==> Pow2(k) / 2 == Pow2(k - 1)
  {
  }

  lemma WordBit(s: seq<Byte>, i: nat, word: nat, p: nat)
    requires Loaded(s, i, WORD, word) && 8 * i <= p < 8 * (i + WORD)
    ensures Masked(word, Pow2(8 * (i + WORD) - 1 - p)) == BitAt(s, p)
  {
    hide BitAt;
  }

  lemma BeyondEnd(s: seq<Byte>)
    ensures forall p :: p >= 8 * |s| ==> BitAt(s, p) == 0
  {
  }
}
