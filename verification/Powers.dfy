/** Powers of two, used for table sizes and machine words. */
module Powers {

  function Pow2(n: nat): (p: nat)
    ensures p >= 1
  {
    if n == 0 then 1 else 2 * Pow2(n - 1)
  }

  const WORD: nat := 0x1_0000_0000_0000_0000

  lemma WordIsPower()
    ensures Pow2(63) == 0x8000_0000_0000_0000 && Pow2(64) == WORD
  {
    assert Pow2(8) == 256;
    assert Pow2(16) == 65536 by { Pow2Sum(8, 8); }
    assert Pow2(32) == 65536 * 65536 by { Pow2Sum(16, 16); }
    assert Pow2(64) == 0x1_0000_0000 * 0x1_0000_0000 by { Pow2Sum(32, 32); }
  }

  /** `x >> n` on non-negative integers. */
  function ShiftRight(x: nat, n: nat): nat {
    if n == 0 then x else ShiftRight(x / 2, n - 1)
  }

  lemma {:induction false} ShiftRightBound(x: nat, n: nat, m: nat)
    requires x < Pow2(n + m)
    ensures ShiftRight(x, n) < Pow2(m)
  {
    if n > 0 {
      ShiftRightBound(x / 2, n - 1, m);
    }
  }

  lemma TwiceProduct(x: nat, y: nat)
    ensures 2 * (x * y) == (2 * x) * y
  {
  }

  lemma {:induction false} Pow2Sum(a: nat, b: nat)
    ensures Pow2(a + b) == Pow2(a) * Pow2(b)
  {
    if a > 0 {
      Pow2Sum(a - 1, b);
      TwiceProduct(Pow2(a - 1), Pow2(b));
    }
  }

  lemma {:induction false} Pow2Increasing(a: nat, b: nat)
    requires a <= b
    ensures Pow2(a) <= Pow2(b)
    ensures a < b ==> Pow2(a) < Pow2(b)
    decreases b - a
  {
    if a < b {
      Pow2Increasing(a, b - 1);
    }
  }

  /** The least exponent whose power of two reaches `n`. */
  function Exponent(n: nat): (k: nat)
    ensures n <= Pow2(k)
    ensures k > 0 ==> Pow2(k - 1) < n
  {
    if n <= 1 then 0 else 1 + Exponent((n + 1) / 2)
  }

  lemma {:induction false} ExponentOfPower(k: nat)
    ensures Exponent(Pow2(k)) == k
  {
    if k > 0 {
      ExponentOfPower(k - 1);
      assert (Pow2(k) + 1) / 2 == Pow2(k - 1);
    }
  }
}
