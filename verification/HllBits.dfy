/** The bit macros of the HyperLogLog source, on 8-bit vectors, and their equality with the
    arithmetic forms the other modules use. */
module HllBits {
  import R = HllRegisters
  import A = HllAdd
  import opened ByteSums

  // HLL_DENSE_GET_REGISTER and HLL_DENSE_SET_REGISTER for a bit offset `fb` in the first byte.
  // Shifts by constants, because registers start at bit 0, 6, 4 or 2 of a byte.

  function GetBits(b0: bv8, b1: bv8, k: nat): bv8
    requires k < 4
  {
    match k
    case 0 => ((b0 >> 0) | (b1 << 8)) & 63
    case 1 => ((b0 >> 6) | (b1 << 2)) & 63
    case 2 => ((b0 >> 4) | (b1 << 4)) & 63
    case _ => ((b0 >> 2) | (b1 << 6)) & 63
  }

  function SetFirst(b0: bv8, k: nat, v: bv8): bv8
    requires k < 4
  {
    match k
    case 0 => (b0 & !63) | v
    case 1 => (b0 & !(63 << 6)) | (v << 6)
    case 2 => (b0 & !(63 << 4)) | (v << 4)
    case _ => (b0 & !(63 << 2)) | (v << 2)
  }

  function SetSecond(b1: bv8, k: nat, v: bv8): bv8
    requires k < 4
  {
    match k
    case 0 => (b1 & !(63 >> 8)) | (v >> 8)
    case 1 => (b1 & !(63 >> 2)) | (v >> 2)
    case 2 => (b1 & !(63 >> 4)) | (v >> 4)
    case _ => (b1 & !(63 >> 6)) | (v >> 6)
  }

  /** Where the macros find register `i`: byte i*6/8, bit i*6 mod 8. */
  lemma RegisterOffset(i: nat)
    ensures i * 6 / 8 == 3 * (i / 4) + (if i % 4 == 0 then 0 else i % 4 - 1)
    ensures i * 6 % 8 == (if i % 4 == 0 then 0 else 8 - 2 * (i % 4))
  {
  }

  lemma Shr(x: bv8)
    ensures Int(x >> 2) == Int(x) / 4
    ensures Int(x >> 4) == Int(x) / 16
    ensures Int(x >> 6) == Int(x) / 64
  {
  }

  lemma Low(x: bv8)
    ensures Int(x & 63) == Int(x) % 64
    ensures Int(x & 15) == Int(x) % 16
    ensures Int(x & 3) == Int(x) % 4
  {
  }

  lemma High6(x: bv8)
    ensures Int(x & 192) == Int(x) / 64 * 64
  {
  }

  lemma High4(x: bv8)
    ensures Int(x & 240) == Int(x) / 16 * 16
  {
  }

  lemma High2(x: bv8)
    ensures Int(x & 252) == Int(x) / 4 * 4
  {
  }

  lemma Shl2(x: bv8)
    ensures Int((x & 15) << 2) == Int(x) % 16 * 4
    ensures Int((x & 63) << 2) == Int(x) % 64 * 4
  {
  }

  lemma Shl4(x: bv8)
    ensures Int((x & 3) << 4) == Int(x) % 4 * 16
  {
  }

  lemma Shl4Wide(x: bv8)
    ensures Int((x & 15) << 4) == Int(x) % 16 * 16
  {
  }

  lemma Shl6(x: bv8)
    ensures Int((x & 3) << 6) == Int(x) % 4 * 64
  {
  }

  lemma GetAsSum(x: bv8, y: bv8)
    ensures GetBits(x, y, 0) == x & 63
    ensures GetBits(x, y, 1) == (x >> 6) + ((y & 15) << 2)
    ensures GetBits(x, y, 2) == (x >> 4) + ((y & 3) << 4)
    ensures GetBits(x, y, 3) == x >> 2
  {
  }

  lemma GetSecondRegister(x: bv8, y: bv8)
    ensures Int(GetBits(x, y, 1)) == Int(x) / 64 + Int(y) % 16 * 4
  {
    hide Int, GetBits;
    GetAsSum(x, y);
    Shr(x);
    Shl2(y);
    SumInt(x >> 6, (y & 15) << 2, Int(y) % 16 * 4);
  }

  lemma GetThirdRegister(y: bv8, z: bv8)
    ensures Int(GetBits(y, z, 2)) == Int(y) / 16 + Int(z) % 4 * 16
  {
    hide Int, GetBits;
    GetAsSum(y, z);
    Shr(y);
    Shl4(z);
    SumInt(y >> 4, (z & 3) << 4, Int(z) % 4 * 16);
  }

  lemma GetFirstAndLast(x: bv8, y: bv8)
    ensures Int(GetBits(x, y, 0)) == Int(x) % 64
    ensures Int(GetBits(x, y, 3)) == Int(x) / 4
  {
    hide Int, GetBits;
    GetAsSum(x, y);
    Low(x);
    Shr(x);
  }

  /** Reading a register: the macro gives what the three-byte layout says. `w` is the byte after
      the group, which reading the fourth register touches without effect. */
  lemma GetMacro(x: bv8, y: bv8, z: bv8, w: bv8)
    ensures var t := R.Triple(Int(x), Int(y), Int(z));
      Int(GetBits(x, y, 0)) == R.Unpack(t, 0) &&
      Int(GetBits(x, y, 1)) == R.Unpack(t, 1) &&
      Int(GetBits(y, z, 2)) == R.Unpack(t, 2) &&
      Int(GetBits(z, w, 3)) == R.Unpack(t, 3)
  {
    hide Int, GetBits;
    GetFirstAndLast(x, y);
    GetSecondRegister(x, y);
    GetThirdRegister(y, z);
    GetFirstAndLast(z, w);
  }

  lemma SetAsSum(x: bv8, v: bv8)
    requires v < 64
    ensures SetFirst(x, 0, v) == (x & 192) + v
    ensures SetFirst(x, 1, v) == (x & 63) + ((v & 3) << 6)
    ensures SetFirst(x, 2, v) == (x & 15) + ((v & 15) << 4)
    ensures SetFirst(x, 3, v) == (x & 3) + ((v & 63) << 2)
  {
  }

  lemma SetSecondAsSum(x: bv8, v: bv8)
    requires v < 64
    ensures SetSecond(x, 0, v) == x
    ensures SetSecond(x, 1, v) == (x & 240) + (v >> 2)
    ensures SetSecond(x, 2, v) == (x & 252) + (v >> 4)
    ensures SetSecond(x, 3, v) == x
  {
    SetSecondMiddle(x, v);
    hide SetSecond;
    SetSecondOuter(x, v);
  }

  lemma SetSecondOuter(x: bv8, v: bv8)
    requires v < 64
    ensures SetSecond(x, 0, v) == x && SetSecond(x, 3, v) == x
  {
  }

  lemma SetSecondMiddle(x: bv8, v: bv8)
    requires v < 64
    ensures SetSecond(x, 1, v) == (x & 240) + (v >> 2)
    ensures SetSecond(x, 2, v) == (x & 252) + (v >> 4)
  {
  }

  lemma Small(v: bv8)
    ensures v < 64 <==> Int(v) < 64
  {
  }

  lemma SetSecondByte(y: bv8, v: bv8)
    requires v < 64
    ensures SetSecond(y, 0, v) == y && SetSecond(y, 3, v) == y
    ensures Int(SetSecond(y, 1, v)) == Int(y) / 16 * 16 + Int(v) / 4
    ensures Int(SetSecond(y, 2, v)) == Int(y) / 4 * 4 + Int(v) / 16
  {
    Small(v);
    hide Int, SetSecond;
    SetSecondAsSum(y, v);
    High4(y);
    High2(y);
    Shr(v);
    SumInt(y & 240, v >> 2, Int(v) / 4);
    SumInt(y & 252, v >> 4, Int(v) / 16);
  }

  lemma SetFirstByte0(x: bv8, v: bv8)
    requires v < 64
    ensures Int(SetFirst(x, 0, v)) == Int(x) / 64 * 64 + Int(v)
  {
    Small(v);
    hide Int, SetFirst;
    SetAsSum(x, v);
    High6(x);
    SumInt(x & 192, v, Int(v));
  }

  lemma SetFirstByte1(x: bv8, v: bv8)
    requires v < 64
    ensures Int(SetFirst(x, 1, v)) == Int(x) % 64 + Int(v) % 4 * 64
  {
    hide Int, SetFirst;
    SetAsSum(x, v);
    Low(x);
    Shl6(v);
    SumInt(x & 63, (v & 3) << 6, Int(v) % 4 * 64);
  }

  lemma SetFirstByte2(x: bv8, v: bv8)
    requires v < 64
    ensures Int(SetFirst(x, 2, v)) == Int(x) % 16 + Int(v) % 16 * 16
  {
    hide Int, SetFirst;
    SetAsSum(x, v);
    Low(x);
    Shl4Wide(v);
    SumInt(x & 15, (v & 15) << 4, Int(v) % 16 * 16);
  }

  lemma SetFirstByte3(x: bv8, v: bv8)
    requires v < 64
    ensures Int(SetFirst(x, 3, v)) == Int(x) % 4 + Int(v) * 4
  {
    hide Int, SetFirst;
    Small(v);
    SetAsSum(x, v);
    Low(x);
    Shl2(v);
    SumInt(x & 3, (v & 63) << 2, Int(v) % 64 * 4);
  }

  /** Three bytes as the layout has them. */
  function Bytes(x: bv8, y: bv8, z: bv8): R.Triple
  {
    R.Triple(Int(x), Int(y), Int(z))
  }

  /** The bytes of a group after a write of register k: the macro changes two of them. */
  function Write(x: bv8, y: bv8, z: bv8, k: nat, v: bv8): R.Triple
    requires k < 4
  {
    if k <= 1 then Bytes(SetFirst(x, k, v), SetSecond(y, k, v), z)
    else if k == 2 then Bytes(x, SetFirst(y, k, v), SetSecond(z, k, v))
    else Bytes(x, y, SetFirst(z, k, v))
  }

  /** Writing a register: the bytes the macro leaves are the layout with that register written. */
  lemma SetMacro(x: bv8, y: bv8, z: bv8, k: nat, v: bv8, n: nat)
    requires v < 64 && n < 64 && Int(v) == n && k < 4
    ensures Write(x, y, z, k, v) == R.Pack(Bytes(x, y, z), k, n)
  {
    hide Int, SetFirst, SetSecond;
    if k == 0 {
      SetFirstByte0(x, v);
      SetSecondByte(y, v);
    } else if k == 1 {
      SetFirstByte1(x, v);
      SetSecondByte(y, v);
    } else if k == 2 {
      SetFirstByte2(y, v);
      SetSecondByte(z, v);
    } else {
      SetFirstByte3(z, v);
    }
  }

  // ------------------------------------------------------------ sparse macros

  lemma SparseKinds(b: bv8)
    ensures b & 0xc0 == 0 <==> R.IsZero(Int(b))
    ensures b & 0xc0 == 0x40 <==> R.IsXZero(Int(b))
    ensures b & 0x80 != 0 <==> R.IsVal(Int(b))
  {
  }

  lemma ValValue(b: bv8)
    ensures Int((b >> 2) & 0x1f) == Int(b) / 4 % 32
  {
    hide Int;
    Shr(b);
    Low5(b >> 2);
  }

  lemma Low5(x: bv8)
    ensures Int(x & 0x1f) == Int(x) % 32
  {
  }

  lemma XZeroBit(h: bv8)
    requires h < 64
    ensures Int(h | 0x40) == Int(h) + 64
  {
  }

  lemma ValByte(v: bv8, n: bv8)
    requires v < 32 && n < 4
    ensures Int(((v << 2) | n) | 0x80) == Int(v) * 4 + Int(n) + 128
  {
  }

  /** The cache flag: bit 7 of the first cardinality byte. */
  lemma CacheFlag(b: bv8)
    ensures b & 0x80 == 0 <==> Int(b) < 128
    ensures Int(b | 0x80) == A.Invalidated(Int(b))
  {
  }
}
