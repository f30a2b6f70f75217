/**
 Rounding up to a power of two by smearing the highest bit downwards, as the hash table, the queue and the message
 queue do it.  Numbers are non-negative; words have 64 bits.
 */
module BitTricks {
  import opened Powers

  predicate Bit(n: nat, j: nat) {
    if j == 0 then n % 2 == 1 else Bit(n / 2, j - 1)
  }

  /** Bitwise and. */
  function And(a: nat, b: nat): nat {
    if a == 0 || b == 0 then 0
    else 2 * And(a / 2, b / 2) + if a % 2 == 1 && b % 2 == 1 then 1 else 0
  }

  /** Bitwise or. */
  function Or(a: nat, b: nat): nat {
    if a == 0 && b == 0 then 0
    else 2 * Or(a / 2, b / 2) + if a % 2 == 1 || b % 2 == 1 then 1 else 0
  }

  lemma {:induction false} OrBit(a: nat, b: nat, j: nat)
    ensures Bit(Or(a, b), j) <==> Bit(a, j) || Bit(b, j)
    decreases j
  {
    if a == 0 && b == 0 {
      NoBits(j);
    } else {
      OrHalves(a, b);
      if j > 0 {
        hide Or;
        OrBit(a / 2, b / 2, j - 1);
      }
    }
  }

  lemma OrHalves(a: nat, b: nat)
    requires a != 0 || b != 0
    ensures Or(a, b) / 2 == Or(a / 2, b / 2)
    ensures Or(a, b) % 2 == 1 <==> a % 2 == 1 || b % 2 == 1
  {
  }

  lemma {:induction false} NoBits(j: nat)
    ensures !Bit(0, j)
  {
    if j > 0 {
      NoBits(j - 1);
    }
  }

  lemma {:induction false} ShiftBit(n: nat, w: nat, j: nat)
    ensures Bit(ShiftRight(n, w), j) <==> Bit(n, w + j)
  {
    if w > 0 {
      ShiftBit(n / 2, w - 1, j);
    }
  }

  /** The highest bit of `n` is bit `k` - 1, and it and the `w` - 1 below it are set. */
  ghost predicate Smeared(n: nat, k: nat, w: nat) {
    && (forall j :: j >= k ==> !Bit(n, j))
    && (forall j :: 0 <= j < k <= j + w ==> Bit(n, j))
  }

  function SmearStep(n: nat, w: nat): nat {
    Or(n, ShiftRight(n, w))
  }

  lemma SmearStepBit(n: nat, w: nat, j: nat)
    ensures Bit(SmearStep(n, w), j) <==> Bit(n, j) || Bit(n, w + j)
  {
    OrBit(n, ShiftRight(n, w), j);
    ShiftBit(n, w, j);
  }

  /** One or with the shifted number doubles the run of ones. */
  lemma SmearDoubles(n: nat, k: nat, w: nat)
    requires Smeared(n, k, w)
    ensures Smeared(SmearStep(n, w), k, 2 * w)
  {
    hide Bit, SmearStep;
    var m := SmearStep(n, w);
    forall j: nat | j < k <= j + 2 * w ensures Bit(m, j) {
      SmearStepBit(n, w, j);
      var i := if k > j + w then w + j else j;
      assert i < k <= i + w;
      assert Bit(n, i);
    }
    forall j: nat | j >= k ensures !Bit(m, j) {
      SmearStepBit(n, w, j);
      assert !Bit(n, j) && !Bit(n, w + j);
    }
  }

  /** A number with `k` digits has its highest bit there. */
  lemma {:induction false} HighestBit(n: nat, k: nat, j: nat)
    requires k > 0 && Pow2(k - 1) <= n < Pow2(k)
    ensures Bit(n, k - 1) && (j >= k ==> !Bit(n, j))
    decreases k
  {
    if k == 1 {
      assert n == 1;
      if j >= 1 {
        NoBits(j - 1);
      }
    } else {
      HighestBit(n / 2, k - 1, if j > 0 then j - 1 else 0);
    }
  }

  /** All ones below bit `k` and none from there on is 2^k - 1. */
  lemma {:induction false} AllOnes(n: nat, k: nat)
    requires Smeared(n, k, k)
    ensures n == Pow2(k) - 1
    decreases k
  {
    if k == 0 {
      assert forall j: nat :: !Bit(n, j);
      NoOnes(n);
    } else {
      assert Bit(n, 0);
      assert forall j: nat :: Bit(n / 2, j) == Bit(n, j + 1);
      AllOnes(n / 2, k - 1);
    }
  }

  lemma {:induction false} NoOnes(n: nat)
    requires forall j: nat :: !Bit(n, j)
    ensures n == 0
  {
    assert !Bit(n, 0);
    if n > 0 {
      assert forall j: nat :: Bit(n / 2, j) == Bit(n, j + 1);
      NoOnes(n / 2);
    }
  }

  // ---- the three roundings -------------------------------------------------------------

  /** Shifts by 1, 2, 4, 8 and 16. */
  function Smear32(n: nat): nat {
    SmearStep(SmearStep(SmearStep(SmearStep(SmearStep(n, 1), 2), 4), 8), 16)
  }

  function Smear64(n: nat): nat {
    SmearStep(Smear32(n), 32)
  }

  lemma SmearedAt32(n: nat, k: nat)
    requires k > 0 && Pow2(k - 1) <= n < Pow2(k)
    ensures Smeared(Smear32(n), k, 32) && Smeared(Smear64(n), k, 64)
  {
    forall j: nat ensures Bit(n, k - 1) && (j >= k ==> !Bit(n, j)) {
      HighestBit(n, k, j);
    }
    assert Smeared(n, k, 1);
    hide Smeared, SmearStep;
    var a := SmearStep(n, 1);
    var b := SmearStep(a, 2);
    var c := SmearStep(b, 4);
    var d := SmearStep(c, 8);
    SmearDoubles(n, k, 1);
    SmearDoubles(a, k, 2);
    SmearDoubles(b, k, 4);
    SmearDoubles(c, k, 8);
    SmearDoubles(d, k, 16);
    SmearDoubles(SmearStep(d, 16), k, 32);
  }

  lemma SmearedEnough(n: nat, k: nat, w: nat)
    requires Smeared(n, k, w) && k <= w
    ensures n == Pow2(k) - 1
  {
    assert Smeared(n, k, k);
    AllOnes(n, k);
  }

  lemma {:induction false} NothingToSmear(w: nat)
    ensures ShiftRight(0, w) == 0 && SmearStep(0, w) == 0
  {
    if w > 0 {
      NothingToSmear(w - 1);
    }
  }

  /** Below 2^32 five steps suffice, below 2^64 six. */
  lemma SmearFills(n: nat, k: nat)
    requires if k == 0 then n == 0 else Pow2(k - 1) <= n < Pow2(k)
    ensures k <= 32 ==> Smear32(n) == Pow2(k) - 1
    ensures k <= 64 ==> Smear64(n) == Pow2(k) - 1
  {
    if k == 0 {
      NothingToSmear(1);
      NothingToSmear(2);
      NothingToSmear(4);
      NothingToSmear(8);
      NothingToSmear(16);
      NothingToSmear(32);
    } else {
      SmearedAt32(n, k);
      hide Smeared, Smear32, Smear64;
      if k <= 32 {
        SmearedEnough(Smear32(n), k, 32);
      }
      if k <= 64 {
        SmearedEnough(Smear64(n), k, 64);
      }
    }
  }

  lemma DigitsOfPredecessor(n: nat)
    requires n > 0
    ensures var k := Exponent(n); if k == 0 then n == 1 else Pow2(k - 1) <= n - 1 < Pow2(k)
  {
  }

  lemma ExponentBound(n: nat, k: nat)
    requires n <= Pow2(k)
    ensures Exponent(n) <= k
  {
    var e := Exponent(n);
    Pow2Increasing(k, if e > k then e - 1 else k);
  }

  /** `next_power_of_two` of the hash table. */
  function NextPowerOfTwo(i: nat): nat {
    (Smear64((i - 1) % WORD) + 1) % WORD
  }

  lemma PlusOne(n: nat, m: nat)
    requires n < WORD && m < WORD
    ensures n % WORD == n && (m + 1) % WORD == if m + 1 == WORD then 0 else m + 1
  {
  }

  /** The least power of two not below `i`, as far as 64 bits hold it. */
  lemma NextPowerOfTwoIs(i: nat)
    requires 0 < i <= Pow2(63)
    ensures NextPowerOfTwo(i) == Pow2(Exponent(i))
  {
    hide Smear64, Pow2, Exponent;
    WordIsPower();
    ExponentBound(i, 63);
    DigitsOfPredecessor(i);
    Pow2Increasing(Exponent(i), 63);
    SmearFills(i - 1, Exponent(i));
    PlusOne(i - 1, Pow2(Exponent(i)) - 1);
  }

  /** Above 2^63 it wraps to 0. */
  lemma NextPowerOfTwoWraps(i: nat)
    requires Pow2(63) < i < WORD
    ensures NextPowerOfTwo(i) == 0
  {
    hide Smear64, Pow2;
    WordIsPower();
    SmearFills(i - 1, 64);
    PlusOne(i - 1, Pow2(64) - 1);
  }

  /** `get_nextpowerof2` of the queue. */
  function GetNextPowerOf2(n: nat): nat {
    if n > 0 && And(n, n - 1) != 0 then (Smear64(n) + 1) % WORD else n
  }

  lemma {:induction false} AndOfPower(n: nat)
    requires n > 0 && And(n, n - 1) == 0
    ensures n == Pow2(Exponent(n))
  {
    if n > 1 {
      if n % 2 == 1 {
        AndSelf(n / 2);
      }
      var m := n / 2;
      assert n == 2 * m && (n - 1) / 2 == m - 1;
      AndOfPower(m);
      hide Pow2, And;
      TwicePower(m);
    }
  }

  lemma ExponentStep(n: nat, m: nat)
    requires n == 2 * m && m > 0
    ensures Exponent(n) == 1 + Exponent(m)
  {
    hide Pow2;
    assert (n + 1) / 2 == m;
  }

  lemma TwicePower(m: nat)
    requires m > 0 && m == Pow2(Exponent(m))
    ensures 2 * m == Pow2(Exponent(2 * m))
  {
    ExponentStep(2 * m, m);
    hide Exponent;
    var e := Exponent(m);
    assert Pow2(1 + e) == 2 * Pow2(e);
  }

  lemma OneIsPower()
    ensures Pow2(0) == 1
  {
  }

  lemma {:induction false} AndSelf(n: nat)
    ensures And(n, n) == n
  {
    if n > 0 {
      AndSelf(n / 2);
    }
  }

  lemma GetNextPowerOf2Is(n: nat)
    requires 0 < n <= Pow2(63)
    ensures GetNextPowerOf2(n) == Pow2(Exponent(n))
  {
    hide Smear64, Pow2, Exponent, And;
    if And(n, n - 1) == 0 {
      AndOfPower(n);
    } else {
      WordIsPower();
      ExponentBound(n, 63);
      var k := Exponent(n);
      Pow2Increasing(k, 63);
      AndBelowPower(k);
      DigitsOfPredecessor(n);
      OneIsPower();
      SmearFills(n, k);
      PlusOne(n, Pow2(k) - 1);
    }
  }

  lemma {:induction false} AndBelowPower(k: nat)
    ensures And(Pow2(k), Pow2(k) - 1) == 0
  {
    if k > 0 {
      AndBelowPower(k - 1);
      assert Pow2(k) / 2 == Pow2(k - 1) && (Pow2(k) - 1) / 2 == Pow2(k - 1) - 1;
    }
  }

  /** `validate_capacity` of the message queue; the capacity goes on as a 32-bit int. */
  function ValidateCapacity(capacity: nat): nat {
    Smear32((if capacity < 16 then 16 else capacity) - 1) + 1
  }

  lemma ValidateCapacityIs(capacity: nat)
    requires capacity <= Pow2(32)
    ensures ValidateCapacity(capacity) == Pow2(Exponent(if capacity < 16 then 16 else capacity))
  {
    var n := if capacity < 16 then 16 else capacity;
    assert Pow2(4) == 16;
    hide Smear32, Pow2, Exponent;
    Pow2Increasing(4, 32);
    ExponentBound(n, 32);
    DigitsOfPredecessor(n);
    SmearFills(n - 1, Exponent(n));
  }
}
