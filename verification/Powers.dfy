/** Powers of two. */
module Powers {

  function Pow2(n: nat): (p: nat)
    ensures p > 0
  {
    if n == 0 then 1 else 2 * Pow2(n - 1)
  }

  lemma {:induction false} Pow2Sum(a: nat, b: nat)
    ensures Pow2(a + b) == Pow2(a) * Pow2(b)
  {
    if b > 0 {
      Pow2Sum(a, b - 1);
    }
  }

  lemma SmallPowers()
    ensures Pow2(1) == 2 && Pow2(4) == 16
  {
  }

  lemma Pow2Of16()
    ensures Pow2(16) == 0x1_0000
  {
    hide Pow2;
    SmallPowers();
    Pow2Sum(4, 4);
    Pow2Sum(8, 8);
  }

  lemma Pow2Of64()
    ensures Pow2(32) == 0x1_0000_0000 && Pow2(64) == 0x1_0000_0000_0000_0000
  {
    hide Pow2;
    Pow2Of16();
    Pow2Sum(16, 16);
    Pow2Sum(32, 32);
  }

  /** The number of significands of a double. */
  lemma Pow2Of53()
    ensures Pow2(53) == 9_007_199_254_740_992
  {
    hide Pow2;
    SmallPowers();
    Pow2Of16();
    Pow2Of64();
    Pow2Sum(16, 4);
    Pow2Sum(32, 20);
    Pow2Sum(52, 1);
  }

  lemma Pow2Of28()
    ensures Pow2(28) == 268_435_456
  {
    hide Pow2;
    SmallPowers();
    Pow2Of16();
    Pow2Sum(4, 4);
    Pow2Sum(8, 4);
    Pow2Sum(16, 12);
  }
}
