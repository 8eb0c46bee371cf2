/** Sums of 8-bit vectors that do not overflow are sums of the numbers they stand for. */
module ByteSums {
  import opened Basics

  function Int(b: bv8): Byte
  {
    b as int
  }

  lemma Successor(a: bv8)
    ensures Int(a) < 255 ==> Int(a + 1) == Int(a) + 1
    ensures a != 0 ==> Int(a - 1) == Int(a) - 1
  {
  }

  lemma Shift(a: bv8, b: bv8)
    ensures (a + 1) + (b - 1) == a + b && a + 0 == a
    ensures Int(b) >= 0 && (b == 0 <==> Int(b) == 0)
  {
  }

  lemma {:induction false} SumInt(a: bv8, b: bv8, n: nat)
    requires Int(b) == n && Int(a) + n < 256
    ensures Int(a + b) == Int(a) + n
    decreases n
  {
    hide Int;
    Shift(a, b);
    if n > 0 {
      Successor(a);
      Successor(b);
      SumInt(a + 1, b - 1, n - 1);
    }
  }
}
