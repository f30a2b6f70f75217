/** Remainders as ring positions. */
module Modular {

  lemma ProductAtLeast(k: int, n: nat)
    requires k >= 1
    ensures k * n >= n
  {
  }

  /** Quotient and remainder are unique. */
  lemma DivModUnique(x: int, n: nat, q: int, r: int)
    requires n > 0 && x == q * n + r && 0 <= r < n
    ensures x / n == q && x % n == r
  {
    var q', r' := x / n, x % n;
    assert (q - q') * n == r' - r;
    if q > q' {
      ProductAtLeast(q - q', n);
    } else if q < q' {
      ProductAtLeast(q' - q, n);
    }
  }

  lemma ModStep(x: int, n: nat)
    requires n > 0
    ensures (x + n) % n == x % n
  {
    assert x + n == (x / n + 1) * n + x % n;
    DivModUnique(x + n, n, x / n + 1, x % n);
  }

  /** Two positions closer than the ring's length are in different slots. */
  lemma SlotsDiffer(s: nat, t: nat, n: nat)
    requires s < t < s + n
    ensures s % n != t % n
  {
    if s % n == t % n {
      assert t - s == (t / n - s / n) * n;
      if t / n - s / n >= 1 {
        ProductAtLeast(t / n - s / n, n);
      } else {
        ProductAtLeast(1 + s / n - t / n, n);
      }
    }
  }
}
