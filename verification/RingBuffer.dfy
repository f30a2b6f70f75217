/** The ring object itself and a subscriber of the message queue, run by one thread. */
module RingBuffer {
  import opened BitTricks
  import opened Modular
  import opened Powers
  import opened Wrappers

  // ---- slot selection ------------------------------------------------------------------

  /** `len & (len - 1)` vanishes exactly for the lengths that masking serves: then masking with
      `len - 1` is the remainder. */
  lemma {:induction false} MaskIsRemainder(x: nat, n: nat)
    requires n > 0 && And(n, n - 1) == 0
    ensures And(x, n - 1) == x % n
    decreases n
  {
    if n > 1 {
      if n % 2 == 1 {
        AndSelf(n / 2);
      }
      var m := n / 2;
      assert n == 2 * m;
      MaskStep(x, m);
      MaskIsRemainder(x / 2, m);
      RemainderByHalves(x, m);
    }
  }

  lemma MaskStep(x: nat, m: nat)
    requires m > 0
    ensures And(2 * m, 2 * m - 1) == 2 * And(m, m - 1)
    ensures And(x, 2 * m - 1) == 2 * And(x / 2, m - 1) + x % 2
  {
    assert (2 * m - 1) / 2 == m - 1 && (2 * m - 1) % 2 == 1;
  }

  lemma RemainderByHalves(x: nat, m: nat)
    requires m > 0
    ensures x % (2 * m) == 2 * (x / 2 % m) + x % 2
  {
    var q, r := x / 2 / m, x / 2 % m;
    assert x / 2 == q * m + r;
    assert q * (2 * m) == 2 * (q * m);
    DivModUnique(x, 2 * m, q, 2 * r + x % 2);
  }

  // ---- the length ----------------------------------------------------------------------

  /** A number as a parameter of type int receives it. */
  function Int32(n: nat): int {
    var low := n % 0x1_0000_0000;
    if low < 0x8000_0000 then low else low - 0x1_0000_0000
  }

  /** `init` takes this length. */
  predicate Accepts(len: int) {
    len > 1
  }

  /** The rounded capacity reaches `init` as an int: up to 2^30 it is taken as it is, and any greater one, which is
      rounded to 2^31 or 2^32, is refused. */
  lemma CapacityIsAccepted(capacity: nat)
    requires capacity <= Pow2(32)
    ensures Accepts(Int32(ValidateCapacity(capacity))) <==> capacity <= Pow2(30)
    ensures capacity <= Pow2(30) ==> Int32(ValidateCapacity(capacity)) == ValidateCapacity(capacity) >= 16
  {
    hide ValidateCapacity, Exponent, Pow2, Int32;
    var n := if capacity < 16 then 16 else capacity;
    var k := Exponent(n);
    ValidateCapacityIs(capacity);
    PowersAsInt();
    ExponentBound(n, 32);
    Pow2Increasing(if k < 30 then k else 30, if k < 30 then 30 else k);
    if capacity <= Pow2(30) {
      ExponentBound(n, 30);
      SmallFits(Pow2(k));
    }
  }

  lemma PowersAsInt()
    ensures Pow2(30) == 0x4000_0000 && Pow2(31) == 0x8000_0000 && Pow2(32) == 0x1_0000_0000
    ensures Int32(Pow2(31)) == -0x8000_0000 && Int32(Pow2(32)) == 0
  {
    assert Pow2(10) == 1024;
    assert Pow2(20) == 1024 * 1024 by { Pow2Sum(10, 10); }
    Pow2Sum(10, 20);
    assert Pow2(31) == 0x8000_0000 && Pow2(32) == 0x1_0000_0000;
  }

  lemma SmallFits(n: nat)
    requires n < 0x8000_0000
    ensures Int32(n) == n
  {
  }

  // ---- the ring ------------------------------------------------------------------------

  class Ring<T> {
    var head: nat
    var tail: nat
    const ring: array<T>
    const indexMode: int

    /** Every value pushed; number n is history[n - 1]. */
    ghost var history: seq<T>

    /** The last ring-size pushes are in their slots. */
    ghost predicate Valid()
      reads this, ring
    {
      && ring.Length >= 2
      && indexMode == (if And(ring.Length, ring.Length - 1) == 0 then 0 else 1)
      && head == tail == |history|
      && forall i :: 1 <= i <= tail && tail < i + ring.Length ==> ring[i % ring.Length] == history[i - 1]
    }

    /** `init` on a region of `len` slots; it refuses lengths below 2. */
    constructor (len: nat, fill: T)
      requires len >= 2
      ensures Valid() && fresh(ring) && ring.Length == len && history == []
    {
      ring := new T[len](_ => fill);
      indexMode := if And(len, len - 1) == 0 then 0 else 1;
      head, tail, history := 0, 0, [];
    }

    function Index(number: nat): (i: nat)
      requires ring.Length >= 2 && indexMode == (if And(ring.Length, ring.Length - 1) == 0 then 0 else 1)
      ensures i == number % ring.Length
    {
      if indexMode == 0 then MaskIsRemainder(number, ring.Length); And(number, ring.Length - 1)
      else number % ring.Length
    }

    /** `push` in single-producer mode. */
    method Push(data: T) returns (index: nat)
      requires Valid()
      modifies this, ring
      ensures Valid() && history == old(history) + [data]
      ensures index < ring.Length && ring[index] == data && tail == old(tail) + 1
    {
      head := head + 1;
      index := Index(head);
      forall i | 1 <= i < head && head < i + ring.Length
        ensures i % ring.Length != head % ring.Length
      {
        SlotsDiffer(i, head, ring.Length);
      }
      ring[index] := data;
      tail := head;
      history := history + [data];
    }

    method GetBySequence(number: nat) returns (value: T)
      requires Valid()
      ensures value == ring[number % ring.Length]
      ensures 1 <= number <= tail && tail < number + ring.Length ==> value == history[number - 1]
    {
      value := ring[Index(number)];
    }
  }

  // ---- the subscriber ------------------------------------------------------------------

  /** The slots read for the numbers lo+1..hi. */
  ghost function Pending<T>(slots: seq<T>, lo: nat, hi: nat): seq<T>
    requires |slots| > 0
  {
    if lo >= hi then [] else Pending(slots, lo, hi - 1) + [slots[hi % |slots|]]
  }

  class Subscriber<T> {
    const buffer: Ring<T>
    var currentIndex: nat

    constructor (buffer: Ring<T>, fromBeginning: bool)
      requires buffer.Valid()
      ensures this.buffer == buffer && currentIndex == if fromBeginning then 0 else buffer.tail
    {
      this.buffer := buffer;
      currentIndex := if fromBeginning then 0 else buffer.tail;
    }

    method TryReadNew() returns (data: Option<T>)
      requires buffer.Valid() && this as object != buffer
      modifies this
      ensures old(currentIndex) >= buffer.tail ==> data == None && currentIndex == old(currentIndex)
      ensures old(currentIndex) < buffer.tail ==>
        currentIndex == old(currentIndex) + 1 && data == Some(buffer.ring[currentIndex % buffer.ring.Length])
    {
      var current := buffer.tail;
      data := None;
      if currentIndex < current {
        currentIndex := currentIndex + 1;
        var value := buffer.GetBySequence(currentIndex);
        data := Some(value);
      }
    }

    method GetAllPending() returns (result: seq<T>)
      requires buffer.Valid() && this as object != buffer
      modifies this
      ensures result == Pending(buffer.ring[..], old(currentIndex), buffer.tail)
      ensures currentIndex == if old(currentIndex) < buffer.tail then buffer.tail else old(currentIndex)
      ensures old(currentIndex) <= buffer.tail <= old(currentIndex) + buffer.ring.Length ==>
        result == buffer.history[old(currentIndex)..buffer.tail]
    {
      var current := buffer.tail;
      result := [];
      if currentIndex >= current {
        return;
      }
      var i := currentIndex + 1;
      while i <= current
        invariant currentIndex < i <= current + 1
        modifies {}
        invariant result == Pending(buffer.ring[..], currentIndex, i - 1)
      {
        var data := buffer.GetBySequence(i);
        result := result + [data];
        i := i + 1;
      }
      PendingIsHistory(buffer, currentIndex, current);
      currentIndex := current;
    }

    /** Single reads up to the tail deliver the same as one `GetAllPending`. */
    method ReadOneByOne() returns (result: seq<T>)
      requires buffer.Valid() && this as object != buffer
      modifies this
      ensures result == Pending(buffer.ring[..], old(currentIndex), buffer.tail)
      ensures currentIndex == if old(currentIndex) < buffer.tail then buffer.tail else old(currentIndex)
    {
      result := [];
      var data := TryReadNew();
      while data.Some?
        invariant data.Some? ==> old(currentIndex) < currentIndex <= buffer.tail
        invariant data.Some? ==> result + [data.value] == Pending(buffer.ring[..], old(currentIndex), currentIndex)
        invariant data == None ==> result == Pending(buffer.ring[..], old(currentIndex), buffer.tail)
        invariant data == None ==>
          currentIndex == if old(currentIndex) < buffer.tail then buffer.tail else old(currentIndex)
        decreases buffer.tail - currentIndex, data.Some?
      {
        result := result + [data.value];
        data := TryReadNew();
      }
    }
  }

  lemma {:induction false} PendingIsHistory<T>(buffer: Ring<T>, lo: nat, hi: nat)
    requires buffer.Valid() && lo <= hi <= buffer.tail
    ensures buffer.tail <= lo + buffer.ring.Length ==>
      Pending(buffer.ring[..], lo, hi) == buffer.history[lo..hi]
    decreases hi
  {
    if lo < hi {
      PendingIsHistory(buffer, lo, hi - 1);
      assert buffer.history[lo..hi] == buffer.history[lo..hi - 1] + [buffer.history[hi - 1]];
    }
  }
}
