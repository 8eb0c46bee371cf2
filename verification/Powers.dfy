/** Powers of two, and the bits of a number. */
module Powers {
  import opened Basics

  ghost function Bit(n: nat, k: nat): (b: nat)
    ensures b < 2
  {
    n / Pow2(k) % 2
  }

  lemma TopPower()
    ensures Pow2(14) == 16384 && Pow2(63) == 0x8000_0000_0000_0000
  {
    assert Pow2(7) == 128;
    assert Pow2(14) == 16384;
    assert Pow2(21) == 128 * 16384;
    assert Pow2(28) == 16384 * 16384;
    assert Pow2(35) == 128 * 16384 * 16384;
    assert Pow2(42) == 16384 * 16384 * 16384;
    assert Pow2(49) == 128 * 16384 * 16384 * 16384;
    assert Pow2(56) == 16384 * 16384 * 16384 * 16384;
  }

  lemma {:induction false} PowSplit(i: nat, j: nat)
    requires i <= j
    ensures Pow2(j) == Pow2(j - i) * Pow2(i)
    decreases i
  {
    if i > 0 {
      PowSplit(i - 1, j - 1);
    }
  }

  lemma SmallProduct(d: int, x: int)
    requires d >= 0
    ensures -d < d * x < d ==> x == 0
  {
    assert x >= 1 ==> d * x >= d * 1;
    assert x <= -1 ==> d * x <= d * -1;
  }

  /** Quotient and remainder are unique. */
  lemma DivIs(n: nat, d: nat, q: nat, r: nat)
    requires r < d && n == d * q + r
    ensures n / d == q
  {
    var e := n / d;
    assert n == d * e + n % d;
    assert d * q - d * e == d * (q - e);
    SmallProduct(d, q - e);
  }

  /** Adding an even multiple of m changes no parity of the quotient. */
  lemma EvenShift(h: nat, q: nat, m: nat)
    requires m > 0
    ensures (h + 2 * q * m) / m % 2 == h / m % 2
  {
    var d, e := h / m, 2 * q;
    Distribute(m, d, e);
    DivIs(h + e * m, m, d + e, h % m);
    assert (d + e) % 2 == d % 2;
  }

  lemma Distribute(m: nat, d: nat, e: nat)
    ensures m * (d + e) == m * d + e * m
  {
  }
}
