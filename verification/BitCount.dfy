/** The number of one bits in a byte string, counted sixteen bytes at a time. */
module BitCount {
  import opened ByteSums

  function One(b: bool): (n: nat)
    ensures n <= 1
  {
    if b then 1 else 0
  }

  /** One bits of a byte. */
  function OnesIn(b: bv8): (n: nat)
    ensures n <= 8
  {
    ((One(b & 1 != 0) + One(b & 2 != 0)) + (One(b & 4 != 0) + One(b & 8 != 0))) +
    ((One(b & 16 != 0) + One(b & 32 != 0)) + (One(b & 64 != 0) + One(b & 128 != 0)))
  }

  function Ones(s: seq<bv8>): nat
  {
    if s == [] then 0 else OnesIn(s[0]) + Ones(s[1..])
  }

  /** A word as loaded from four bytes, the first one the lowest. */
  function Load(a: bv8, b: bv8, c: bv8, d: bv8): bv32
  {
    (a as bv32) | ((b as bv32) << 8) | ((c as bv32) << 16) | ((d as bv32) << 24)
  }

  // --------------------------------------------------- counting inside a word

  /** Each pair of bits replaced by its number of ones. */
  function Pairs(x: bv32): bv32
  {
    x - ((x >> 1) & 0x5555_5555)
  }

  /** Neighbouring pairs added, in groups of four bits. */
  function Nibbles(x: bv32): bv32
  {
    (x & 0x3333_3333) + ((x >> 2) & 0x3333_3333)
  }

  /** Neighbouring groups of four added, in bytes. */
  function Bytes(x: bv32): bv32
  {
    (x + (x >> 4)) & 0x0F0F_0F0F
  }

  /** All bytes added, by a multiplication, in the top byte. */
  function Top(x: bv32): bv32
  {
    (x * 0x0101_0101) >> 24
  }

  function Swar(x: bv32): bv32
  {
    Top(Bytes(Nibbles(Pairs(x))))
  }

  function Wide(a: bv8): bv32
  {
    a as bv32
  }

  function Add32(a: bv32, b: bv32): bv32
  {
    a + b
  }

  function Int32(x: bv32): nat
  {
    x as int
  }

  function Add(a: bv8, b: bv8): bv8
  {
    a + b
  }

  function Add4(a: bv8, b: bv8, c: bv8, d: bv8): bv8
  {
    Add(Add(a, b), Add(c, d))
  }

  /** The bits of a byte, added as bytes. */
  function Sum8(b: bv8): bv8
  {
    Add(Add4(b & 1, (b >> 1) & 1, (b >> 2) & 1, (b >> 3) & 1),
        Add4((b >> 4) & 1, (b >> 5) & 1, (b >> 6) & 1, (b >> 7) & 1))
  }

  function Flat(b: bv8): bv8
  {
    (((b & 1) + ((b >> 1) & 1)) + (((b >> 2) & 1) + ((b >> 3) & 1))) +
    ((((b >> 4) & 1) + ((b >> 5) & 1)) + (((b >> 6) & 1) + ((b >> 7) & 1)))
  }

  lemma SumFlat(b: bv8)
    ensures Sum8(b) == Flat(b)
  {
  }

  lemma Lane0(a: bv8, b: bv8, c: bv8, d: bv8)
    ensures Bytes(Nibbles(Pairs(Load(a, b, c, d)))) & 255 == Flat(a) as bv32
  {
  }

  lemma Lane1(a: bv8, b: bv8, c: bv8, d: bv8)
    ensures (Bytes(Nibbles(Pairs(Load(a, b, c, d)))) >> 8) & 255 == Flat(b) as bv32
  {
  }

  lemma Lane2(a: bv8, b: bv8, c: bv8, d: bv8)
    ensures (Bytes(Nibbles(Pairs(Load(a, b, c, d)))) >> 16) & 255 == Flat(c) as bv32
  {
  }

  lemma Lane3(a: bv8, b: bv8, c: bv8, d: bv8)
    ensures (Bytes(Nibbles(Pairs(Load(a, b, c, d)))) >> 24) & 255 == Flat(d) as bv32
  {
  }

  lemma SumSmall(b: bv8)
    ensures Sum8(b) <= 8
  {
  }

  lemma TopIs(y: bv32, a: bv8, b: bv8, c: bv8, d: bv8)
    requires a <= 8 && b <= 8 && c <= 8 && d <= 8
    requires y & 255 == a as bv32 && (y >> 8) & 255 == b as bv32
    requires (y >> 16) & 255 == c as bv32 && (y >> 24) & 255 == d as bv32
    ensures Top(y) == Wide(Add4(a, b, c, d)) && Add4(a, b, c, d) <= 32
  {
  }

  lemma AddInt(a: bv8, b: bv8)
    requires Int(a) + Int(b) < 256
    ensures Int(Add(a, b)) == Int(a) + Int(b)
  {
    SumInt(a, b, Int(b));
  }

  lemma Add4Int(a: bv8, b: bv8, c: bv8, d: bv8)
    requires Int(a) + Int(b) + Int(c) + Int(d) < 256
    ensures Int(Add4(a, b, c, d)) == Int(a) + Int(b) + Int(c) + Int(d)
  {
    hide Int, Add;
    AddInt(a, b);
    AddInt(c, d);
    AddInt(Add(a, b), Add(c, d));
  }

  lemma BitInts(b: bv8)
    ensures Int(b & 1) == One(b & 1 != 0) && Int((b >> 1) & 1) == One(b & 2 != 0)
    ensures Int((b >> 2) & 1) == One(b & 4 != 0) && Int((b >> 3) & 1) == One(b & 8 != 0)
    ensures Int((b >> 4) & 1) == One(b & 16 != 0) && Int((b >> 5) & 1) == One(b & 32 != 0)
    ensures Int((b >> 6) & 1) == One(b & 64 != 0) && Int((b >> 7) & 1) == One(b & 128 != 0)
  {
  }

  lemma SumIsOnes(b: bv8)
    ensures Int(Sum8(b)) == OnesIn(b)
  {
    hide Int, Add, Add4;
    BitInts(b);
    Add4Int(b & 1, (b >> 1) & 1, (b >> 2) & 1, (b >> 3) & 1);
    Add4Int((b >> 4) & 1, (b >> 5) & 1, (b >> 6) & 1, (b >> 7) & 1);
    AddInt(Add4(b & 1, (b >> 1) & 1, (b >> 2) & 1, (b >> 3) & 1),
           Add4((b >> 4) & 1, (b >> 5) & 1, (b >> 6) & 1, (b >> 7) & 1));
  }

  /** Counting in parallel inside a word gives the number of ones of its four bytes. */
  lemma SwarIs(a: bv8, b: bv8, c: bv8, d: bv8)
    ensures var n := Add4(Sum8(a), Sum8(b), Sum8(c), Sum8(d));
      && Swar(Load(a, b, c, d)) == Wide(n) && n <= 32
      && Int(n) == OnesIn(a) + OnesIn(b) + OnesIn(c) + OnesIn(d)
  {
    hide Sum8, Flat, OnesIn, Int, Top, Bytes, Nibbles, Pairs, Load, Add4, Wide;
    Lane0(a, b, c, d);
    Lane1(a, b, c, d);
    Lane2(a, b, c, d);
    Lane3(a, b, c, d);
    SumFlat(a);
    SumFlat(b);
    SumFlat(c);
    SumFlat(d);
    SumSmall(a);
    SumSmall(b);
    SumSmall(c);
    SumSmall(d);
    TopIs(Bytes(Nibbles(Pairs(Load(a, b, c, d)))), Sum8(a), Sum8(b), Sum8(c), Sum8(d));
    SumIsOnes(a);
    SumIsOnes(b);
    SumIsOnes(c);
    SumIsOnes(d);
    Add4Int(Sum8(a), Sum8(b), Sum8(c), Sum8(d));
  }

  // -------------------------------------------------------------------- count

  /** The counts of four words, added as 32-bit numbers. */
  function Block(s: seq<bv8>): bv32
    requires |s| == 16
  {
    var first := Add32(Swar(Load(s[0], s[1], s[2], s[3])), Swar(Load(s[4], s[5], s[6], s[7])));
    Add32(Add32(first, Swar(Load(s[8], s[9], s[10], s[11]))), Swar(Load(s[12], s[13], s[14], s[15])))
  }

  lemma Widened(a: bv8, b: bv8)
    requires a <= 96 && b <= 32
    ensures Add32(Wide(a), Wide(b)) == Wide(Add(a, b))
    ensures a <= 32 ==> Add(a, b) <= 64
    ensures a <= 64 ==> Add(a, b) <= 96
  {
  }

  lemma WideInt(a: bv8)
    ensures Int32(Wide(a)) == Int(a)
  {
  }

  lemma {:induction false} OnesConcat(s: seq<bv8>, t: seq<bv8>)
    ensures Ones(s + t) == Ones(s) + Ones(t)
  {
    hide OnesIn;
    if s == [] {
      assert s + t == t;
    } else {
      OnesConcat(s[1..], t);
      assert (s + t)[1..] == s[1..] + t;
    }
  }

  function Quad(s: seq<bv8>, i: nat): nat
    requires i + 4 <= |s|
  {
    OnesIn(s[i]) + OnesIn(s[i + 1]) + OnesIn(s[i + 2]) + OnesIn(s[i + 3])
  }

  lemma OnesStep(s: seq<bv8>, i: nat)
    requires i < |s|
    ensures Ones(s[i..]) == OnesIn(s[i]) + Ones(s[i + 1..])
  {
    hide OnesIn;
    assert s[i..][1..] == s[i + 1..];
  }

  lemma OnesQuad(s: seq<bv8>, i: nat)
    requires i + 4 <= |s|
    ensures Ones(s[i..]) == Quad(s, i) + Ones(s[i + 4..])
  {
    hide OnesIn, Ones;
    OnesStep(s, i);
    OnesStep(s, i + 1);
    OnesStep(s, i + 2);
    OnesStep(s, i + 3);
  }

  lemma OnesBlock(s: seq<bv8>)
    requires |s| == 16
    ensures Ones(s) == Quad(s, 0) + Quad(s, 4) + Quad(s, 8) + Quad(s, 12)
  {
    hide Quad, Ones;
    OnesQuad(s, 0);
    OnesQuad(s, 4);
    OnesQuad(s, 8);
    OnesQuad(s, 12);
    OnesNone();
    assert s[0..] == s && s[16..] == [];
  }

  lemma SumFour(a: bv8, b: bv8, c: bv8, d: bv8)
    requires a <= 32 && b <= 32 && c <= 32 && d <= 32
    requires Int(a) <= 32 && Int(b) <= 32 && Int(c) <= 32 && Int(d) <= 32
    ensures Int32(Add32(Add32(Add32(Wide(a), Wide(b)), Wide(c)), Wide(d))) == Int(a) + Int(b) + Int(c) + Int(d)
  {
    hide Int, Add, Add32, Wide, Int32;
    Widened(a, b);
    Widened(Add(a, b), c);
    Widened(Add(Add(a, b), c), d);
    AddInt(a, b);
    AddInt(Add(a, b), c);
    AddInt(Add(Add(a, b), c), d);
    WideInt(Add(Add(Add(a, b), c), d));
  }

  lemma BlockIs(s: seq<bv8>)
    requires |s| == 16
    ensures Int32(Block(s)) == Ones(s)
  {
    hide OnesIn, Int, Swar, Load, Sum8, Add4, Ones, Add32, Wide, Int32;
    OnesBlock(s);
    SwarIs(s[0], s[1], s[2], s[3]);
    SwarIs(s[4], s[5], s[6], s[7]);
    SwarIs(s[8], s[9], s[10], s[11]);
    SwarIs(s[12], s[13], s[14], s[15]);
    SumFour(Add4(Sum8(s[0]), Sum8(s[1]), Sum8(s[2]), Sum8(s[3])),
            Add4(Sum8(s[4]), Sum8(s[5]), Sum8(s[6]), Sum8(s[7])),
            Add4(Sum8(s[8]), Sum8(s[9]), Sum8(s[10]), Sum8(s[11])),
            Add4(Sum8(s[12]), Sum8(s[13]), Sum8(s[14]), Sum8(s[15])));
  }

  /** popcount: blocks of sixteen bytes, then single bytes by table. */
  method PopCount(s: seq<bv8>) returns (bits: nat)
    ensures bits == Ones(s)
  {
    hide OnesIn, Block, Ones, Int32;
    bits := 0;
    var i := 0;
    OnesNone();
    assert s[..0] == [];
    while i + 16 <= |s|
      invariant i <= |s| && bits == Ones(s[..i])
    {
      BlockIs(s[i..i + 16]);
      OnesConcat(s[..i], s[i..i + 16]);
      assert s[..i] + s[i..i + 16] == s[..i + 16];
      bits := bits + Int32(Block(s[i..i + 16]));
      i := i + 16;
    }
    while i < |s|
      invariant i <= |s| && bits == Ones(s[..i])
    {
      OnesOne(s[i]);
      OnesConcat(s[..i], [s[i]]);
      assert s[..i] + [s[i]] == s[..i + 1];
      bits := bits + OnesIn(s[i]);
      i := i + 1;
    }
    assert s[..|s|] == s;
  }

  lemma OnesNone()
    ensures Ones([]) == 0
  {
  }

  lemma OnesOne(b: bv8)
    ensures Ones([b]) == OnesIn(b)
  {
    hide OnesIn;
  }
}
