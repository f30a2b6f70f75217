/**
 The Robin Hood hash table that indexes every market-data slot.

 Slots carry the distance of their entry from its home slot.  A seq-level invariant
 (`RobinHood`) and a seq-level refinement relation (`Stores`) are kept by every operation
 of the class `Table`, whose ghost field `Contents` is the finite map it implements.
 */
module FlatHashMap {
  import BitTricks
  import opened Powers

  const MIN_LOOKUPS: nat := 4
  const MAX_SLOTS: nat := 0x4000_0000_0000_0000
  const HALF_WORD: nat := 0x8000_0000_0000_0000
  const FIBONACCI: nat := 11400714819323198485

  /** One entry: vacant (distance -1), holding a value, or the end sentinel (distance 0). */
  datatype Slot<K, V> = Vacant | Held(distance: nat, key: K, value: V) | EndMark {
    function Distance(): int {
      match this
      case Vacant => -1
      case Held(d, _, _) => d
      case EndMark => 0
    }
  }

  /** `fibonacci_hash_policy::index_for_hash`, on 64-bit words. */
  function HomeOf(hash: nat, shift: nat): nat {
    ShiftRight(FIBONACCI * hash % WORD, shift)
  }

  /** The home slot that a hash policy with the given shift assigns to `key`. */
  function Home<K>(index: (K, nat) -> nat, shift: nat, key: K): nat {
    index(key, shift)
  }

  /** The home slot lies below the 2^(64 - shift) buckets. */
  ghost predicate HomeBelow<K>(index: (K, nat) -> nat, shift: nat, key: K)
    requires shift <= 64
  {
    Home(index, shift, key) < Pow2(64 - shift)
  }

  /** What the table needs of its policy. */
  ghost predicate InRange<K(!new)>(index: (K, nat) -> nat) {
    forall k, shift: nat :: shift <= 64 ==> HomeBelow(index, shift, k)
  }

  /** The default policy over any hash function. */
  function FibonacciPolicy<K>(hash: K -> nat): (K, nat) -> nat {
    (k, shift) => HomeOf(hash(k), shift)
  }

  lemma FibonacciInRange<K(!new)>(hash: K -> nat)
    ensures InRange(FibonacciPolicy(hash))
  {
    forall k, shift: nat | shift <= 64
      ensures HomeBelow(FibonacciPolicy(hash), shift, k)
    {
      WordIsPower();
      ShiftRightBound(FIBONACCI * hash(k) % WORD, shift, 64 - shift);
    }
  }

  // ---- the invariant of one slot array -------------------------------------------------

  /** The largest distance that slot `p` may carry, given the slot before it. */
  function Ceiling<K, V>(s: seq<Slot<K, V>>, p: nat): int
    requires p <= |s|
  {
    if p == 0 then 0 else s[p - 1].Distance() + 1
  }

  /** The slot at `p` obeys the distance rule. */
  ghost predicate Close<K, V>(s: seq<Slot<K, V>>, p: nat)
    requires p < |s|
  {
    s[p].Distance() <= Ceiling(s, p)
  }

  ghost predicate Shaped<K, V>(s: seq<Slot<K, V>>) {
    && |s| > 0
    && s[|s| - 1] == EndMark
    && forall p :: 0 <= p < |s| - 1 ==> s[p] != EndMark
  }

  ghost predicate Placed<K, V>(s: seq<Slot<K, V>>, index: (K, nat) -> nat, shift: nat, lookups: nat) {
    forall p :: 0 <= p < |s| && s[p].Held? ==>
      s[p].distance < lookups && Home(index, shift, s[p].key) + s[p].distance == p
  }

  /** Everything except the slots in [lo, hi), which are vacant, obeys the distance rule;
      the slot at `hi` may be further from home by the width of the gap. */
  ghost predicate Gapped<K, V>(s: seq<Slot<K, V>>, lo: nat, hi: nat) {
    && Shaped(s)
    && lo <= hi < |s|
    && (forall p :: lo <= p < hi ==> s[p] == Vacant)
    && (forall p :: 0 <= p < |s| - 1 && p != hi ==> Close(s, p))
    && s[hi].Distance() <= Ceiling(s, lo) + (hi - lo)
  }

  /** Each distance is at most the previous slot's plus one. */
  ghost predicate Graded<K, V>(s: seq<Slot<K, V>>) {
    forall p :: 0 <= p < |s| - 1 ==> Close(s, p)
  }

  ghost predicate RobinHood<K, V>(s: seq<Slot<K, V>>, index: (K, nat) -> nat, shift: nat, lookups: nat) {
    Shaped(s) && Graded(s) && Placed(s, index, shift, lookups)
  }

  /** The slots hold exactly the pairs of `m`, and `at` says where. */
  ghost predicate Stores<K, V>(s: seq<Slot<K, V>>, at: map<K, nat>, m: map<K, V>) {
    && at.Keys == m.Keys
    && (forall k :: k in at ==> at[k] < |s| && s[at[k]].Held? && s[at[k]].key == k && s[at[k]].value == m[k])
    && (forall p :: 0 <= p < |s| && s[p].Held? ==> s[p].key in at && at[s[p].key] == p)
  }

  lemma EmptySlots<K, V>(s: seq<Slot<K, V>>, index: (K, nat) -> nat, shift: nat, lookups: nat)
    requires Shaped(s) && forall p :: 0 <= p < |s| - 1 ==> s[p] == Vacant
    ensures RobinHood(s, index, shift, lookups) && Stores(s, map[], map[])
  {
  }

  /** Walking back from `q`, distances fall by at most one a slot. */
  lemma {:induction false} RunsBack<K, V>(s: seq<Slot<K, V>>, p: nat, q: nat)
    requires Shaped(s) && Graded(s) && p <= q < |s| - 1
    ensures s[q].Distance() - (q - p) <= s[p].Distance()
    ensures s[q].Distance() <= Ceiling(s, p) + (q - p)
    decreases q - p
  {
    assert Close(s, q);
    if p < q {
      RunsBack(s, p, q - 1);
    }
  }

  lemma PlacedAt<K, V>(s: seq<Slot<K, V>>, index: (K, nat) -> nat, shift: nat, lookups: nat, p: nat)
    requires Placed(s, index, shift, lookups) && p < |s| && s[p].Held?
    ensures s[p].distance < lookups && Home(index, shift, s[p].key) + s[p].distance == p
  {
  }

  /** The state of a displacement chain: all of `all` is in the slots but the entry in hand,
      which is due at `cur`, `distance` slots from its home. */
  ghost predicate InHand<K, V>(s: seq<Slot<K, V>>, index: (K, nat) -> nat, shift: nat, lookups: nat,
                               pos: map<K, nat>, all: map<K, V>, cur: nat, distance: nat, e: Slot<K, V>)
  {
    && e.Held? && e.key in all && e.value == all[e.key] && Home(index, shift, e.key) + distance == cur < |s|
    && distance < lookups && distance <= Ceiling(s, cur)
    && RobinHood(s, index, shift, lookups) && Stores(s, pos, all - {e.key})
  }

  lemma StoredHere<K, V>(s: seq<Slot<K, V>>, at: map<K, nat>, m: map<K, V>, p: nat)
    requires Stores(s, at, m) && p < |s| && s[p].Held?
    ensures at.Keys == m.Keys && s[p].key in m && at[s[p].key] == p
    ensures forall k :: k in m && k != s[p].key ==> at[k] != p
  {
  }

  /** A probe that may continue stands on a held slot, so it never passes the end sentinel. */
  lemma ProbeStaysInside<K, V>(s: seq<Slot<K, V>>, home: nat, distance: nat)
    requires Shaped(s) && home < |s| - 1 && home + distance < |s|
    requires s[home + distance].Distance() >= distance
    ensures s[home + distance].Held? && home + distance < |s| - 1
  {
  }

  /** A key that is stored lies on its probe sequence, and no slot before it stops the probe. */
  lemma StoredKeyIsOnProbePath<K, V>(s: seq<Slot<K, V>>, at: map<K, nat>, m: map<K, V>,
                                     index: (K, nat) -> nat, shift: nat, lookups: nat, key: K, q: nat)
    requires RobinHood(s, index, shift, lookups) && Stores(s, at, m) && key in m
    requires Home(index, shift, key) <= q <= at[key]
    ensures q < |s| - 1 && s[q].Distance() >= q - Home(index, shift, key)
  {
    RunsBack(s, q, at[key]);
  }

  /** Writing a richer-by-distance entry over a vacant or nearer one keeps the invariant. */
  lemma TakeSlot<K, V>(s: seq<Slot<K, V>>, index: (K, nat) -> nat, shift: nat, lookups: nat, cur: nat, e: Slot<K, V>)
    requires RobinHood(s, index, shift, lookups)
    requires cur < |s| - 1 && e.Held? && e.distance < lookups
    requires Home(index, shift, e.key) + e.distance == cur
    requires s[cur].Distance() < e.distance <= Ceiling(s, cur)
    ensures RobinHood(s[cur := e], index, shift, lookups)
  {
    var t := s[cur := e];
    forall p | 0 <= p < |t| - 1
      ensures Close(t, p)
    {
      assert Close(s, p);
    }
  }

  /** Swapping the entry in hand into a held slot: what was there is now in hand. */
  lemma SwapStored<K, V>(s: seq<Slot<K, V>>, at: map<K, nat>, all: map<K, V>, cur: nat, e: Slot<K, V>)
    requires e.Held? && e.key in all && e.value == all[e.key] && Stores(s, at, all - {e.key})
    requires cur < |s| && s[cur].Held?
    ensures s[cur].key in all && s[cur].value == all[s[cur].key] && s[cur].key != e.key
    ensures s[cur].key in at && at[s[cur].key] == cur
    ensures Stores(s[cur := e], (at - {s[cur].key})[e.key := cur], all - {s[cur].key})
  {
  }

  /** Writing the entry in hand to a vacant slot completes the map. */
  lemma SettleStored<K, V>(s: seq<Slot<K, V>>, at: map<K, nat>, all: map<K, V>, cur: nat, e: Slot<K, V>)
    requires e.Held? && e.key in all && e.value == all[e.key] && Stores(s, at, all - {e.key})
    requires cur < |s| && s[cur].Vacant?
    ensures Stores(s[cur := e], at[e.key := cur], all)
  {
  }

  /** The array after moving the entry at `hi` down to the vacant slot `lo`. */
  ghost function Moved<K, V>(s: seq<Slot<K, V>>, lo: nat, hi: nat): seq<Slot<K, V>>
    requires lo < hi < |s| && s[hi].Held? && hi - lo <= s[hi].distance
  {
    s[lo := Held(s[hi].distance - (hi - lo), s[hi].key, s[hi].value)][hi := Vacant]
  }

  /** Moving the entry after a gap to the gap's start moves the gap one slot on. */
  lemma CloseGap<K, V>(s: seq<Slot<K, V>>, lo: nat, hi: nat)
    requires Gapped(s, lo, hi) && lo < hi && hi - lo <= s[hi].Distance()
    ensures hi < |s| - 1 && s[hi].Held? && Gapped(Moved(s, lo, hi), lo + 1, hi + 1)
  {
    var t := Moved(s, lo, hi);
    forall p | 0 <= p < |t| - 1 && p != hi + 1
      ensures Close(t, p)
    {
      assert p != hi ==> Close(s, p);
    }
    assert hi + 1 < |s| - 1 ==> Close(s, hi + 1);
  }

  ghost function Vacated<K, V>(s: seq<Slot<K, V>>, lo: nat, hi: nat): (t: seq<Slot<K, V>>)
    requires lo <= hi <= |s|
    ensures |t| == |s|
  {
    seq(|s|, i requires 0 <= i < |s| => if lo <= i < hi then Vacant else s[i])
  }

  ghost function KeysIn<K, V>(s: seq<Slot<K, V>>, lo: nat, hi: nat): set<K>
    requires hi <= |s|
  {
    set p | lo <= p < hi && s[p].Held? :: s[p].key
  }

  lemma VacatedNext<K, V>(s: seq<Slot<K, V>>, lo: nat, it: nat)
    requires lo <= it < |s|
    ensures Vacated(s, lo, it)[it] == s[it] && Vacated(s, lo, it + 1) == Vacated(s, lo, it)[it := Vacant]
    ensures Vacated(s, lo, lo) == s
    ensures KeysIn(s, lo, it + 1) == KeysIn(s, lo, it) + if s[it].Held? then {s[it].key} else {}
  {
    if s[it].Held? {
      assert s[it].key in KeysIn(s, lo, it + 1);
    }
  }

  lemma NoKeys<K, V>(s: seq<Slot<K, V>>, lo: nat)
    requires lo <= |s|
    ensures KeysIn(s, lo, lo) == {}
  {
  }

  lemma MinusTwice<K, V>(m: map<K, V>, a: set<K>, b: set<K>)
    ensures m - a - b == m - (a + b)
  {
  }

  lemma OpenGap<K, V>(s: seq<Slot<K, V>>, index: (K, nat) -> nat, shift: nat, lookups: nat, lo: nat, hi: nat)
    requires RobinHood(s, index, shift, lookups) && lo < hi < |s|
    ensures Gapped(Vacated(s, lo, hi), lo, hi) && Placed(Vacated(s, lo, hi), index, shift, lookups)
  {
    var t := Vacated(s, lo, hi);
    forall p | 0 <= p < |t| - 1 && p != hi
      ensures Close(t, p)
    {
      assert Close(s, p);
    }
    if hi < |s| - 1 {
      RunsBack(s, lo, hi);
    }
  }

  lemma GapEnds<K, V>(s: seq<Slot<K, V>>, lo: nat, hi: nat)
    requires Gapped(s, lo, hi) && s[hi].Distance() <= 0
    ensures Graded(s)
  {
    assert hi < |s| - 1 ==> Close(s, hi);
  }

  lemma GapFacts<K, V>(s: seq<Slot<K, V>>, lo: nat, hi: nat)
    requires Gapped(s, lo, hi)
    ensures Shaped(s) && hi < |s| && forall p :: lo <= p < hi ==> s[p] == Vacant
  {
  }

  lemma MovedPlaced<K, V>(s: seq<Slot<K, V>>, index: (K, nat) -> nat, shift: nat, lookups: nat, lo: nat, hi: nat)
    requires Placed(s, index, shift, lookups)
    requires lo < hi < |s| && s[hi].Held? && hi - lo <= s[hi].distance
    ensures Placed(Moved(s, lo, hi), index, shift, lookups)
  {
  }

  lemma MovedStored<K, V>(s: seq<Slot<K, V>>, at: map<K, nat>, m: map<K, V>, lo: nat, hi: nat)
    requires Stores(s, at, m) && lo < hi < |s| && s[lo] == Vacant && s[hi].Held? && hi - lo <= s[hi].distance
    ensures Stores(Moved(s, lo, hi), at[s[hi].key := lo], m)
  {
  }

  lemma DropStored<K, V>(s: seq<Slot<K, V>>, at: map<K, nat>, m: map<K, V>, p: nat)
    requires Stores(s, at, m) && p < |s| && s[p].Held?
    ensures s[p].key in m && |m - {s[p].key}| == |m| - 1
    ensures Stores(s[p := Vacant], at - {s[p].key}, m - {s[p].key})
  {
    assert (m - {s[p].key}).Keys == m.Keys - {s[p].key};
  }

  /** A gap can be narrowed from the left: the slots left out are vacant and stay so. */
  lemma NarrowGap<K, V>(s: seq<Slot<K, V>>, lo: nat, lo': nat, hi: nat)
    requires Gapped(s, lo, hi) && lo <= lo' <= hi && (lo' == lo || s[hi].Distance() <= hi - lo')
    ensures Gapped(s, lo', hi)
  {
  }

  /** `m` holds the pairs of `from` whose slot lies before `i`. */
  ghost predicate CopiedBefore<K, V>(m: map<K, V>, from: map<K, V>, at: map<K, nat>, i: nat)
  {
    && (forall k :: k in from ==> k in at && (k in m <==> at[k] < i))
    && m.Keys <= from.Keys
    && (forall k :: k in m ==> m[k] == from[k])
  }

  lemma CopiedNone<K, V>(s: seq<Slot<K, V>>, from: map<K, V>, at: map<K, nat>)
    requires Stores(s, at, from)
    ensures CopiedBefore(map[], from, at, 0)
  {
  }

  lemma CopyNext<K, V>(m: map<K, V>, s: seq<Slot<K, V>>, from: map<K, V>, at: map<K, nat>, i: nat)
    requires Stores(s, at, from) && CopiedBefore(m, from, at, i) && i < |s|
    ensures s[i].Held? ==> s[i].key !in m && CopiedBefore(m[s[i].key := s[i].value], from, at, i + 1)
    ensures !s[i].Held? ==> CopiedBefore(m, from, at, i + 1)
  {
  }

  lemma CopiedAll<K, V>(m: map<K, V>, s: seq<Slot<K, V>>, from: map<K, V>, at: map<K, nat>)
    requires Shaped(s) && Stores(s, at, from) && CopiedBefore(m, from, at, |s| - 1)
    ensures m == from
  {
  }

  // ---- sizes ---------------------------------------------------------------------------

  function Min(a: int, b: int): int {
    if a < b then a else b
  }

  function Max(a: nat, b: nat): nat {
    if a < b then b else a
  }

  /** `fibonacci_hash_policy::next_size_over`; beyond 2^63 the 64-bit rounding wraps to 0. */
  function NextSize(n: nat): (size: nat)
    requires 0 < n < WORD
    ensures size >= 2
    ensures n <= HALF_WORD ==> n <= size
  {
    if n <= HALF_WORD then Max(2, Pow2(Exponent(n))) else 2
  }

  /** ... which is the bit-smearing `next_power_of_two`, but at least two. */
  lemma NextSizeIsRounded(n: nat)
    requires 0 < n < WORD
    ensures NextSize(n) == Max(2, BitTricks.NextPowerOfTwo(n))
  {
    hide Pow2, Exponent, BitTricks.NextPowerOfTwo;
    WordIsPower();
    if n <= HALF_WORD {
      BitTricks.NextPowerOfTwoIs(n);
    } else {
      BitTricks.NextPowerOfTwoWraps(n);
    }
  }

  lemma NextSizeOfPower(k: nat)
    requires 1 <= k <= 63
    ensures 0 < Pow2(k) < WORD && NextSize(Pow2(k)) == Pow2(k)
  {
    WordIsPower();
    Pow2Increasing(k, 63);
    Pow2Increasing(1, k);
    ExponentOfPower(k);
    assert Pow2(1) == 2;
  }

  /** `log2` of a table size, as the exponent that reaches it. */
  lemma NextSizeIsPower(n: nat)
    requires 0 < n < WORD
    ensures var k := Exponent(NextSize(n)); 1 <= k <= 63 && NextSize(n) == Pow2(k)
  {
    if n <= HALF_WORD {
      if Exponent(n) > 63 {
        Pow2Increasing(63, Exponent(n) - 1);
        WordIsPower();
      }
      ExponentOfPower(Exponent(n));
    }
    ExponentOfPower(1);
  }

  /** The operations of a run.  `EraseRange` erases from where `first` is found up to where `last` is found; a key
      that is not found stands for the end, and a range that ends before it starts is not erased. */
  datatype Op<K, V> =
    | Emplace(key: K, value: V)
    | Erase(key: K)
    | EraseRange(first: K, last: K)
    | Rehash(buckets: nat)
    | Clear

  /** Where `find` gets to in these slots. */
  ghost function PosOf<K, V>(s: seq<Slot<K, V>>, key: K): nat
    requires s != []
  {
    if p: nat :| p < |s| && s[p].Held? && s[p].key == key then p else |s| - 1
  }

  lemma PosOfStored<K, V>(s: seq<Slot<K, V>>, at: map<K, nat>, m: map<K, V>, key: K, p: nat)
    requires Stores(s, at, m) && p < |s|
    requires if key in m then s[p].Held? && s[p].key == key else p == |s| - 1
    ensures PosOf(s, key) == p
  {
    if key in m {
      assert at[key] == p;
    }
  }

  /** What an operation does to the finite map, and for a range to which slots. */
  ghost function Apply<K, V>(m: map<K, V>, op: Op<K, V>, slots: seq<Slot<K, V>>): map<K, V> {
    match op
    case Emplace(k, v) => if k in m then m else m[k := v]
    case Erase(k) => m - {k}
    case EraseRange(first, last) =>
      if slots == [] || PosOf(slots, first) > PosOf(slots, last) then m
      else m - KeysIn(slots, PosOf(slots, first), PosOf(slots, last))
    case Rehash(_) => m
    case Clear => map[]
  }

  /** The map after a run, `layouts` being the slots before each operation. */
  ghost function ApplyAll<K, V>(m: map<K, V>, ops: seq<Op<K, V>>, layouts: seq<seq<Slot<K, V>>>): map<K, V>
    requires |layouts| == |ops|
  {
    if ops == [] then m
    else
      var last := |ops| - 1;
      Apply(ApplyAll(m, ops[..last], layouts[..last]), ops[last], layouts[last])
  }

  /** The slots hold exactly this map. */
  ghost predicate Holds<K(!new), V>(s: seq<Slot<K, V>>, m: map<K, V>) {
    exists at :: Stores(s, at, m)
  }

  lemma LayoutsGrow<K, V>(m: map<K, V>, ops: seq<Op<K, V>>, layouts: seq<seq<Slot<K, V>>>, next: seq<Slot<K, V>>)
    requires |layouts| < |ops|
    ensures var i, more := |layouts|, layouts + [next];
            && ApplyAll(m, ops[..i + 1], more) == Apply(ApplyAll(m, ops[..i], layouts), ops[i], next)
            && more[..i] == layouts
            && forall j :: 0 <= j < i ==> more[..j] == layouts[..j]
  {
    var i, more := |layouts|, layouts + [next];
    assert ops[..i + 1][..i] == ops[..i] && more[..i] == layouts;
    forall j | 0 <= j < i ensures more[..j] == layouts[..j] {
    }
  }

  class Table<K(==, !new), V> {
    var entries: array<Slot<K, V>>
    var slotsMinusOne: nat
    var shift: nat
    var maxLookups: nat
    var numElements: nat
    const index: (K, nat) -> nat
    /** The most buckets the allocator will supply; a larger request fails. */
    const maxSlots: nat

    ghost var Contents: map<K, V>
    ghost var at: map<K, nat>

    /** The sizes fit together: either the shared default table, or a power of two. */
    ghost predicate Sized()
      reads this, entries
    {
      && 2 <= maxSlots <= MAX_SLOTS
      && entries.Length == slotsMinusOne + maxLookups + 1
      && BucketCount() <= maxSlots
      && 2 * numElements <= BucketCount()
      && 1 <= shift <= 63
      && InRange(index)
      && (if slotsMinusOne == 0 then
            maxLookups == MIN_LOOKUPS - 1 && shift == 63
          else
            slotsMinusOne + 1 == Pow2(64 - shift) && maxLookups == Max(MIN_LOOKUPS, 64 - shift))
    }

    /** The slots hold the map, though perhaps not where probing would look. */
    ghost predicate Stored()
      reads this, entries
    {
      Sized() && Shaped(entries[..]) && Stores(entries[..], at, Contents) && numElements == |Contents|
    }

    ghost predicate Valid()
      reads this, entries
    {
      Stored() && RobinHood(entries[..], index, shift, maxLookups)
    }

    function BucketCount(): nat
      reads this
    {
      if slotsMinusOne == 0 then 0 else slotsMinusOne + 1
    }

    /** What growing from `buckets` can still consume; bounds the mutual recursion. */
    ghost function Room(buckets: nat): nat {
      if buckets <= maxSlots then maxSlots + 1 - buckets else 0
    }

    lemma HomeFits(key: K)
      requires Sized()
      ensures Home(index, shift, key) <= Max(1, slotsMinusOne)
    {
      assert HomeBelow(index, shift, key);
    }

    /** At most half of the buckets are used, and every key is less than max(4, log2 buckets) slots behind its home;
        the table of a new map has no buckets and three slots. */
    lemma TableIsSparse(key: K)
      requires Valid()
      ensures 2 * |Contents| <= BucketCount()
      ensures key in Contents ==>
                var behind := at[key] - index(key, shift);
                && key in at && at[key] < entries.Length && entries[at[key]] == Held(behind, key, Contents[key])
                && 0 <= behind < (if Exponent(BucketCount()) > 4 then Exponent(BucketCount()) else 4)
    {
      if key in Contents {
        assert entries[..][at[key]].Held?;
        if slotsMinusOne > 0 {
          ExponentOfPower(64 - shift);
        }
      }
    }

    constructor (index: (K, nat) -> nat, maxSlots: nat)
      requires InRange(index) && 2 <= maxSlots <= MAX_SLOTS
      ensures Valid() && Contents == map[] && fresh(entries)
      ensures this.index == index && this.maxSlots == maxSlots
    {
      this.index := index;
      this.maxSlots := maxSlots;
      entries := new Slot<K, V>[MIN_LOOKUPS](i => if i == MIN_LOOKUPS - 1 then EndMark else Vacant);
      slotsMinusOne, shift, maxLookups, numElements := 0, 63, MIN_LOOKUPS - 1, 0;
      Contents, at := map[], map[];
    }

    /** The probe loop of `find` and `emplace`: the slot of `key`, or the first slot nearer to its home. */
    method Probe(key: K) returns (found: bool, p: nat, distance: nat)
      requires Valid()
      ensures found == (key in Contents)
      ensures found ==> p == at[key]
      ensures !found ==> Home(index, shift, key) + distance == p < entries.Length && distance <= maxLookups
      ensures !found ==> entries[p].Distance() < distance <= Ceiling(entries[..], p)
    {
      ghost var s := entries[..];
      HomeFits(key);
      hide Stores, Placed, Graded, InRange, Pow2;
      p, distance := Home(index, shift, key), 0;
      while entries[p].Distance() >= distance
        invariant Home(index, shift, key) + distance == p < entries.Length
        invariant distance <= Ceiling(s, p) && distance <= maxLookups
        invariant key in Contents ==> p <= at[key]
        modifies {}
        decreases entries.Length - p
      {
        ProbeStaysInside(s, Home(index, shift, key), distance);
        PlacedAt(s, index, shift, maxLookups, p);
        StoredHere(s, at, Contents, p);
        if entries[p].key == key {
          return true, p, distance;
        }
        p, distance := p + 1, distance + 1;
      }
      if key in Contents {
        StoredKeyIsOnProbePath(s, at, Contents, index, shift, maxLookups, key, p);
        assert false;
      }
      found := false;
    }

    /** The end position stands for "not found". */
    method Find(key: K) returns (p: nat)
      requires Valid()
      ensures key !in Contents ==> p == entries.Length - 1
      ensures key in Contents ==> p < entries.Length - 1 && entries[p].Held?
      ensures key in Contents ==> entries[p].key == key && entries[p].value == Contents[key]
    {
      var found, distance;
      found, p, distance := Probe(key);
      if !found {
        p := entries.Length - 1;
      }
    }

    /** Doubling the table would exceed what the allocator supplies. */
    predicate Exhausted()
      reads this
    {
      Max(4, 2 * BucketCount()) > maxSlots
    }

    lemma GrowTarget()
      requires Stored()
      ensures Target(Max(4, 2 * BucketCount())) == Max(4, 2 * BucketCount())
    {
      SizedFits();
      if slotsMinusOne == 0 {
        assert Pow2(2) == 4;
        NextSizeOfPower(2);
      } else {
        assert 2 * Pow2(64 - shift) == Pow2(65 - shift);
        BucketsAreFew();
        hide Pow2;
        NextSizeOfPower(65 - shift);
      }
    }

    lemma BucketsAreFew()
      requires Sized() && slotsMinusOne > 0
      ensures 64 - shift <= 62
    {
      WordIsPower();
      if 64 - shift > 62 {
        Pow2Increasing(63, 64 - shift);
      }
    }

    /** Inserts `key` unless it is there.  `!ok` means that the allocator refused a larger table. */
    method Emplace(key: K, value: V) returns (ok: bool, p: nat, inserted: bool)
      requires Valid()
      modifies this, entries
      ensures entries == old(entries) || fresh(entries)
      ensures ok ==> Valid() && old(BucketCount()) <= BucketCount()
      ensures ok ==> inserted == (key !in old(Contents))
      ensures ok ==> Contents == if key in old(Contents) then old(Contents) else old(Contents)[key := value]
      ensures ok ==> key in at && p == at[key]
      ensures !ok ==> key !in old(Contents) && Exhausted()
      decreases Room(BucketCount()), 1
    {
      var found, distance;
      found, p, distance := Probe(key);
      if found {
        return true, p, false;
      }
      ok, p := EmplaceNewKey(distance, p, key, value);
      inserted := true;
    }

    method EmplaceNewKey(distance: nat, cur: nat, key: K, value: V) returns (ok: bool, p: nat)
      requires Valid() && key !in Contents
      requires distance <= maxLookups && Home(index, shift, key) + distance == cur < entries.Length
      requires entries[cur].Distance() < distance <= Ceiling(entries[..], cur)
      modifies this, entries
      ensures entries == old(entries) || fresh(entries)
      ensures ok ==> Valid() && old(BucketCount()) <= BucketCount()
      ensures ok ==> Contents == old(Contents)[key := value] && p == at[key]
      ensures !ok ==> Exhausted()
      decreases Room(BucketCount()), 0
    {
      hide Stores, Graded, Placed, Pow2, InRange;
      p := cur;
      if slotsMinusOne == 0 || distance == maxLookups || 2 * (numElements + 1) > slotsMinusOne + 1 {
        ok := Grow();
        if ok {
          var inserted;
          ok, p, inserted := Emplace(key, value);
        }
        return;
      }
      HomeFits(key);
      if entries[cur].Vacant? {
        Settle(distance, cur, key, value);
        return true, cur;
      }
      ok := Displace(distance, cur, key, value);
      if !ok {
        ok := Grow();
        if ok {
          var inserted;
          ok, p, inserted := Emplace(key, value);
        }
      }
    }

    /** `emplace_new_key` on a vacant slot. */
    method Settle(distance: nat, cur: nat, key: K, value: V)
      requires Valid() && key !in Contents && 2 * (numElements + 1) <= BucketCount()
      requires distance < maxLookups && Home(index, shift, key) + distance == cur < entries.Length - 1
      requires entries[cur].Vacant? && distance <= Ceiling(entries[..], cur)
      modifies entries, this`numElements, this`Contents, this`at
      ensures Valid() && Contents == old(Contents)[key := value] && at[key] == cur
    {
      hide Stores, Graded, Placed, Pow2, InRange;
      ghost var s, e := entries[..], Held(distance, key, value);
      TakeSlot(s, index, shift, maxLookups, cur, e);
      assert Contents == Contents[key := value] - {key};
      SettleStored(s, at, Contents[key := value], cur, e);
      entries[cur] := Held(distance, key, value);
      assert entries[..] == s[cur := e];
      numElements := numElements + 1;
      Contents, at := Contents[key := value], at[key := cur];
    }

    /** `emplace_new_key` on an occupied slot: the new entry evicts the one at `start`, which looks for
        another slot and may evict in turn.  When an evicted entry would reach the lookup limit,
        it is put back in the new entry's slot and the new entry is left out (`!placed`). */
    method Displace(newDistance: nat, start: nat, key: K, value: V) returns (placed: bool)
      requires Valid() && key !in Contents && slotsMinusOne > 0 && 2 * (numElements + 1) <= slotsMinusOne + 1
      requires newDistance < maxLookups && Home(index, shift, key) + newDistance == start < entries.Length - 1
      requires entries[start].Held? && entries[start].distance < newDistance <= Ceiling(entries[..], start)
      modifies entries, this`numElements, this`Contents, this`at
      ensures placed ==> Valid() && Contents == old(Contents)[key := value] && at[key] == start
      ensures !placed ==> Stored() && Contents == old(Contents)
    {
      hide Stores, Graded, Placed, Pow2, InRange;
      ghost var all := Contents[key := value];
      assert Contents == all - {key};
      ghost var s, newcomer := entries[..], Held(newDistance, key, value);
      TakeSlot(s, index, shift, maxLookups, start, newcomer);
      SwapStored(s, at, all, start, newcomer);
      PlacedAt(s, index, shift, maxLookups, start);
      HomeFits(entries[start].key);
      var inHand := entries[start];
      ghost var pos: map<K, nat> := (at - {inHand.key})[key := start];
      entries[start] := Held(newDistance, key, value);
      assert entries[..] == s[start := newcomer];
      placed, inHand, pos := Chain(start, key, inHand, all, pos);
      if placed {
        numElements := numElements + 1;
        Contents, at := all, pos;
      } else {
        PutBack(newDistance, start, key, inHand, all, pos);
      }
    }

    /** A broken chain: the entry in hand takes the slot of the new key, which is dropped. */
    method PutBack(newDistance: nat, start: nat, key: K, e: Slot<K, V>, ghost all: map<K, V>, ghost pos: map<K, nat>)
      requires Sized() && Shaped(entries[..]) && start < entries.Length - 1 && numElements == |Contents|
      requires Contents == all - {key} && e.Held? && e.key in all && e.value == all[e.key] && e.key != key
      requires Stores(entries[..], pos, all - {e.key})
      requires entries[start].Held? && entries[start].key == key && key in pos && pos[key] == start
      modifies entries, this`at
      ensures Stored()
    {
      hide Stores, Pow2, InRange;
      ghost var s := entries[..];
      SwapStored(s, pos, all, start, Held(newDistance, e.key, e.value));
      entries[start] := Held(newDistance, e.key, e.value);
      assert entries[..] == s[start := Held(newDistance, e.key, e.value)];
      at := (pos - {key})[e.key := start];
    }

    /** The displacement loop, from the slot after `start`; `e` is the entry in hand. */
    method Chain(start: nat, key: K, e: Slot<K, V>, ghost all: map<K, V>, ghost pos: map<K, nat>)
      returns (placed: bool, last: Slot<K, V>, ghost pos': map<K, nat>)
      requires e.Held? && start + 1 < entries.Length - 1 && e.key != key
      requires InHand(entries[..], index, shift, maxLookups, pos, all, start + 1, e.distance + 1, e)
      requires entries[start].Held? && entries[start].key == key && key in pos && pos[key] == start
      requires InRange(index) && shift <= 64 && slotsMinusOne + 1 == Pow2(64 - shift)
      requires entries.Length == slotsMinusOne + maxLookups + 1
      modifies entries
      ensures key in pos' && pos'[key] == start
      ensures placed ==> RobinHood(entries[..], index, shift, maxLookups) && Stores(entries[..], pos', all)
      ensures !placed ==> Shaped(entries[..]) && last.Held? && last.key in all && last.value == all[last.key]
      ensures !placed ==> Stores(entries[..], pos', all - {last.key})
      ensures !placed ==> entries[start].Held? && entries[start].key == key && last.key != key
    {
      hide Stores, Graded, Placed;
      var cur: nat, distance: nat := start + 1, e.distance + 1;
      last, pos' := e, pos;
      while !entries[cur].Vacant?
        invariant start < cur < entries.Length - 1
        invariant InHand(entries[..], index, shift, maxLookups, pos', all, cur, distance, last)
        invariant entries[start].Held? && entries[start].key == key
        invariant key in pos' && pos'[key] == start && last.key != key
        decreases entries.Length - cur
      {
        if entries[cur].distance < distance {
          last, distance, pos' := Evict(cur, distance, last, all, pos');
        } else {
          distance := distance + 1;
          if distance == maxLookups {
            return false, last, pos';
          }
        }
        assert HomeBelow(index, shift, last.key);
        cur := cur + 1;
      }
      ghost var s := entries[..];
      TakeSlot(s, index, shift, maxLookups, cur, Held(distance, last.key, last.value));
      SettleStored(s, pos', all, cur, Held(distance, last.key, last.value));
      entries[cur] := Held(distance, last.key, last.value);
      assert entries[..] == s[cur := Held(distance, last.key, last.value)];
      pos' := pos'[last.key := cur];
      placed := true;
    }

    /** One eviction: the entry in hand takes the slot, and the one that was there is now in hand. */
    method Evict(cur: nat, distance: nat, e: Slot<K, V>, ghost all: map<K, V>, ghost pos: map<K, nat>)
      returns (e': Slot<K, V>, distance': nat, ghost pos': map<K, nat>)
      requires cur < entries.Length - 1 && entries[cur].Held? && entries[cur].distance < distance
      requires InHand(entries[..], index, shift, maxLookups, pos, all, cur, distance, e)
      modifies entries
      ensures forall i :: 0 <= i < entries.Length && i != cur ==> entries[i] == old(entries[i])
      ensures e' == old(entries[cur]) && pos' == (pos - {e'.key})[e.key := cur]
      ensures e'.key in pos && pos[e'.key] == cur
      ensures InHand(entries[..], index, shift, maxLookups, pos', all, cur + 1, distance', e')
    {
      hide Stores, Graded, Placed;
      ghost var s := entries[..];
      TakeSlot(s, index, shift, maxLookups, cur, Held(distance, e.key, e.value));
      SwapStored(s, pos, all, cur, Held(distance, e.key, e.value));
      PlacedAt(s, index, shift, maxLookups, cur);
      e' := entries[cur];
      pos' := (pos - {e'.key})[e.key := cur];
      entries[cur] := Held(distance, e.key, e.value);
      assert entries[..] == s[cur := Held(distance, e.key, e.value)];
      distance' := e'.distance + 1;
    }

    method Grow() returns (ok: bool)
      requires Stored()
      modifies this, entries
      ensures entries == old(entries) || fresh(entries)
      ensures ok ==> Valid() && Contents == old(Contents) && old(BucketCount()) < BucketCount()
      ensures !ok ==> Exhausted()
      decreases Room(Max(4, 2 * BucketCount())), 4
    {
      GrowTarget();
      ok := Rehash(Max(4, 2 * BucketCount()));
    }

    ghost function Target(buckets: nat): nat
      requires buckets < WORD && 2 * numElements < WORD
      reads this
    {
      var n := Max(buckets, 2 * numElements);
      if n == 0 then 0 else NextSize(n)
    }

    method Rehash(buckets: nat) returns (ok: bool)
      requires Stored() && buckets < WORD && 2 * numElements < WORD
      requires Target(buckets) == BucketCount() ==> Valid()
      modifies this, entries
      ensures entries == old(entries) || fresh(entries)
      ensures ok ==> Valid() && Contents == old(Contents) && old(Target(buckets)) <= BucketCount()
      ensures !ok ==> Exhausted() || (old(Target(buckets)) > maxSlots && slotsMinusOne == old(slotsMinusOne))
      decreases Room(Target(buckets)), 3
    {
      hide Stores, Graded, Placed, CopiedBefore, Exponent, Pow2;
      var n := Max(buckets, 2 * numElements);
      if n == 0 {
        ResetToEmpty();
        return true;
      }
      NextSizeIsPower(n);
      n := NextSize(n);
      if n == BucketCount() {
        return true;
      }
      if n > maxSlots {
        return false;
      }
      ghost var from, fromAt := Contents, at;
      var oldEntries := entries;
      Install(n);
      ok := MoveIn(oldEntries, from, fromAt);
    }

    /** The refill loop of `rehash`: every entry of the old slots is emplaced, which may grow the table again. */
    method MoveIn(oldEntries: array<Slot<K, V>>, ghost from: map<K, V>, ghost fromAt: map<K, nat>) returns (ok: bool)
      requires Valid() && Contents == map[] && oldEntries != entries
      requires Shaped(oldEntries[..]) && Stores(oldEntries[..], fromAt, from)
      modifies this, entries, oldEntries
      ensures entries == old(entries) || fresh(entries)
      ensures ok ==> Valid() && Contents == from && old(BucketCount()) <= BucketCount()
      ensures !ok ==> Exhausted()
      decreases Room(BucketCount()), 2
    {
      hide Stores, Graded, Placed, CopiedBefore, Exponent, Pow2;
      ghost var s0 := oldEntries[..];
      CopiedNone(s0, from, fromAt);
      var i := 0;
      while i < oldEntries.Length - 1
        invariant 0 <= i <= oldEntries.Length - 1
        invariant Valid() && old(BucketCount()) <= BucketCount()
        invariant (entries == old(entries) || fresh(entries)) && entries != oldEntries
        invariant forall j :: i <= j < oldEntries.Length ==> oldEntries[j] == s0[j]
        invariant CopiedBefore(Contents, from, fromAt, i)
        decreases oldEntries.Length - i
      {
        CopyNext(Contents, s0, from, fromAt, i);
        if oldEntries[i].Held? {
          var p, inserted;
          ok, p, inserted := Emplace(oldEntries[i].key, oldEntries[i].value);
          if !ok {
            return;
          }
          oldEntries[i] := Vacant;
        }
        i := i + 1;
      }
      CopiedAll(Contents, s0, from, fromAt);
      ok := true;
    }

    /** Replaces the slots by `n` vacant buckets with their lookup margin and sentinel. */
    method Install(n: nat)
      requires Sized() && 2 <= n <= maxSlots && n == Pow2(Exponent(n)) && 1 <= Exponent(n) <= 63
      modifies this
      ensures Valid() && Contents == map[] && fresh(entries) && BucketCount() == n
    {
      hide Stores, RobinHood, Shaped, InRange, Exponent, Pow2;
      var k := Exponent(n);
      shift, maxLookups := 64 - k, Max(MIN_LOOKUPS, k);
      var last := n + maxLookups - 1;
      entries := new Slot<K, V>[n + maxLookups](i => if i == last then EndMark else Vacant);
      slotsMinusOne, numElements := n - 1, 0;
      Contents, at := map[], map[];
      EmptySlots(entries[..], index, shift, maxLookups);
    }

    method ResetToEmpty()
      requires Sized() && Contents == map[]
      modifies this
      ensures Valid() && Contents == map[] && fresh(entries) && BucketCount() == 0
    {
      entries := new Slot<K, V>[MIN_LOOKUPS](i => if i == MIN_LOOKUPS - 1 then EndMark else Vacant);
      slotsMinusOne, shift, maxLookups, numElements := 0, 63, MIN_LOOKUPS - 1, 0;
      Contents, at := map[], map[];
    }

    /** `erase(const_iterator)`: vacates the slot and shifts back the run of displaced entries behind it. */
    method EraseAt(p: nat)
      requires Valid() && p < entries.Length && entries[p].Held?
      modifies entries, this`numElements, this`Contents, this`at
      ensures Valid() && Contents == old(Contents) - {old(entries[p].key)}
    {
      hide Stores, Graded, Placed, Gapped, Pow2, InRange;
      OpenGap(entries[..], index, shift, maxLookups, p, p + 1);
      assert entries[..][p := Vacant] == Vacated(entries[..], p, p + 1);
      DestroyValue(p);
      at := ShiftBack(p + 1, 1, at);
    }

    /** `erase(const_iterator, const_iterator)`: erases the slots from `begin` up to `end` and returns
        where the entry that was at `end` now is. */
    method EraseRange(begin: nat, end: nat) returns (next: nat)
      requires Valid() && begin <= end < entries.Length
      requires entries[end].Held? || end == entries.Length - 1
      modifies entries, this`numElements, this`Contents, this`at
      ensures Valid() && Contents == old(Contents) - KeysIn(old(entries[..]), begin, end)
      ensures next < entries.Length && (end == entries.Length - 1 ==> next == end)
      ensures old(entries[end]).Held? ==> entries[next].Held? && entries[next].key == old(entries[end].key)
    {
      hide Stored, RobinHood, Placed, Gapped, Vacated, KeysIn;
      if begin == end {
        NoKeys(entries[..], begin);
        assert Contents - {} == Contents;
        return begin;
      }
      ghost var s := entries[..];
      OpenGap(s, index, shift, maxLookups, begin, end);
      VacatedNext(s, begin, end);
      DestroyRange(begin, end);
      assert entries[..][end] == s[end];
      next := FillGap(begin, end);
    }

    /** The entries behind a gap move back into it. */
    method FillGap(begin: nat, end: nat) returns (next: nat)
      requires Stored() && begin < end < entries.Length
      requires entries[end].Held? || end == entries.Length - 1
      requires Gapped(entries[..], begin, end) && Placed(entries[..], index, shift, maxLookups)
      modifies entries, this`at
      ensures Valid()
      ensures next < entries.Length && (end == entries.Length - 1 ==> next == end)
      ensures old(entries[end]).Held? ==> entries[next].Held? && entries[next].key == old(entries[end].key)
    {
      hide Stores, Graded, Placed, Gapped, Pow2, InRange;
      var width := end - begin;
      if end == entries.Length - 1 {
        GapEnds(entries[..], begin, end);
        return end;
      }
      next := end - Min(entries[end].Distance(), width);
      at := ShiftBack(end, width, at);
    }

    /** `destroy_value` with the element count, where the slot has a value. */
    method DestroyValue(p: nat)
      requires Stored() && p < entries.Length - 1
      modifies entries, this`numElements, this`Contents, this`at
      ensures Stored() && entries[..] == old(entries[..])[p := Vacant]
      ensures Contents == old(Contents) - if old(entries[p]).Held? then {old(entries[p]).key} else {}
    {
      hide Stores, Pow2, InRange;
      ghost var s := entries[..];
      if entries[p].Held? {
        DropStored(s, at, Contents, p);
        Contents, at := Contents - {entries[p].key}, at - {entries[p].key};
        entries[p] := Vacant;
        numElements := numElements - 1;
      } else {
        assert Contents - {} == Contents;
      }
      assert entries[..] == s[p := Vacant];
    }

    /** The first loop of range erasure. */
    method DestroyRange(begin: nat, end: nat)
      requires Stored() && begin < end < entries.Length
      modifies entries, this`numElements, this`Contents, this`at
      ensures Stored() && entries[..] == Vacated(old(entries[..]), begin, end)
      ensures Contents == old(Contents) - KeysIn(old(entries[..]), begin, end)
    {
      hide Stored, Vacated, KeysIn;
      var it := begin;
      ghost var s0 := entries[..];
      VacatedNext(s0, begin, begin);
      assert KeysIn(s0, begin, begin) == {} by { NoKeys(s0, begin); }
      while it != end
        invariant begin <= it <= end
        invariant Stored() && entries[..] == Vacated(s0, begin, it)
        invariant Contents == old(Contents) - KeysIn(s0, begin, it)
      {
        VacatedNext(s0, begin, it);
        assert entries[..][it] == s0[it];
        ghost var gone := KeysIn(s0, begin, it);
        DestroyValue(it);
        MinusTwice(old(Contents), gone, if s0[it].Held? then {s0[it].key} else {});
        it := it + 1;
      }
    }

    /** One turn of the back-shift: the entry at `it` moves as far towards its home as the gap reaches. */
    method ShiftOne(it: nat, width: nat, ghost pos: map<K, nat>) returns (numToMove: nat, ghost pos': map<K, nat>)
      requires 0 < width <= it < entries.Length && Gapped(entries[..], it - width, it) && Shaped(entries[..])
      requires Placed(entries[..], index, shift, maxLookups) && Stores(entries[..], pos, Contents)
      requires entries[it].Distance() > 0
      modifies entries
      ensures numToMove == Min(old(entries[it]).Distance(), width) && it + 1 < entries.Length
      ensures Gapped(entries[..], it + 1 - numToMove, it + 1) && Shaped(entries[..])
      ensures Placed(entries[..], index, shift, maxLookups) && Stores(entries[..], pos', Contents)
      ensures entries[it - numToMove].Held? && entries[it - numToMove].key == old(entries[it].key)
      ensures forall j :: 0 <= j < entries.Length && j != it && j != it - numToMove ==> entries[j] == old(entries[j])
    {
      hide Stores, Graded, Placed, Gapped;
      GapFacts(entries[..], it - width, it);
      ghost var s, lo := entries[..], it - width;
      numToMove := Min(entries[it].distance, width);
      var target := it - numToMove;
      NarrowGap(s, lo, target, it);
      CloseGap(s, target, it);
      MovedPlaced(s, index, shift, maxLookups, target, it);
      MovedStored(s, pos, Contents, target, it);
      pos' := pos[entries[it].key := target];
      entries[target] := Held(entries[it].distance - numToMove, entries[it].key, entries[it].value);
      entries[it] := Vacant;
      assert entries[..] == Moved(s, target, it);
      GapFacts(entries[..], target + 1, it + 1);
    }

    /** The back-shift loop of both erasures: behind a gap of `width` slots, entries move into the gap
        until one is at its home.  (Single erasure is the case of width 1.) */
    method ShiftBack(start: nat, width: nat, ghost pos: map<K, nat>) returns (ghost pos': map<K, nat>)
      requires 0 < width <= start && Gapped(entries[..], start - width, start)
      requires Placed(entries[..], index, shift, maxLookups) && Stores(entries[..], pos, Contents)
      modifies entries
      ensures RobinHood(entries[..], index, shift, maxLookups) && Stores(entries[..], pos', Contents)
      ensures old(entries[start]).Distance() <= 0 ==> entries[start] == old(entries[start])
      ensures old(entries[start]).Distance() > 0 ==>
        var first := entries[start - Min(old(entries[start]).Distance(), width)];
        first.Held? && first.key == old(entries[start].key)
    {
      hide Stores, Graded, Placed, Gapped;
      GapFacts(entries[..], start - width, start);
      var it, numToMove := start, width;
      pos' := pos;
      ghost var moved := start - Min(entries[start].Distance(), width);
      while entries[it].Distance() > 0
        invariant 0 < numToMove <= width && start <= it < entries.Length && numToMove <= it
        invariant Gapped(entries[..], it - numToMove, it) && Shaped(entries[..])
        invariant Placed(entries[..], index, shift, maxLookups) && Stores(entries[..], pos', Contents)
        invariant it == start ==> entries[it] == old(entries[it]) && numToMove == width
        invariant it > start ==> old(entries[start]).Distance() > 0 && moved < it - numToMove
        invariant it > start ==> entries[moved].Held? && entries[moved].key == old(entries[start].key)
        decreases entries.Length - it
      {
        numToMove, pos' := ShiftOne(it, numToMove, pos');
        it := it + 1;
      }
      GapEnds(entries[..], it - numToMove, it);
    }

    /** `erase(const FindKey &)`. */
    method EraseKey(key: K) returns (count: nat)
      requires Valid()
      modifies entries, this`numElements, this`Contents, this`at
      ensures Valid() && Contents == old(Contents) - {key}
      ensures count == if key in old(Contents) then 1 else 0
    {
      var found := Find(key);
      if found == entries.Length - 1 {
        assert Contents - {key} == Contents;
        count := 0;
      } else {
        EraseAt(found);
        count := 1;
      }
    }

    method ClearAll()
      requires Valid()
      modifies entries, this`numElements, this`Contents, this`at
      ensures Valid() && Contents == map[]
    {
      hide Stores, Graded, Placed, Pow2, InRange;
      var i := 0;
      while i < entries.Length - 1
        invariant 0 <= i <= entries.Length - 1 && Shaped(entries[..])
        invariant forall j :: 0 <= j < i ==> entries[j] == Vacant
      {
        if entries[i].Held? {
          entries[i] := Vacant;
        }
        i := i + 1;
      }
      numElements := 0;
      Contents, at := map[], map[];
      EmptySlots(entries[..], index, shift, maxLookups);
    }

    /** Any run of operations leaves the table equal to the finite map that the run describes, unless the allocator
        refused a larger table on the way.  `layouts` records the slots before each operation, which hold the map
        of the run so far; they say which keys a range erasure meets. */
    method Run(ops: seq<Op<K, V>>) returns (ok: bool, ghost layouts: seq<seq<Slot<K, V>>>)
      requires Valid()
      requires forall i :: 0 <= i < |ops| && ops[i].Rehash? ==> ops[i].buckets < WORD
      modifies this, entries
      ensures ok ==> Valid() && |layouts| == |ops| && Contents == ApplyAll(old(Contents), ops, layouts)
      ensures ok ==> forall i :: 0 <= i < |ops| ==> Holds(layouts[i], ApplyAll(old(Contents), ops[..i], layouts[..i]))
      ensures !ok && (forall i :: 0 <= i < |ops| ==> !ops[i].Rehash?) ==> Exhausted()
    {
      hide Stored, RobinHood, Holds, PosOf, KeysIn;
      ok, layouts := true, [];
      var i := 0;
      while i < |ops|
        invariant 0 <= i <= |ops| && (entries == old(entries) || fresh(entries))
        invariant ok && Valid() && |layouts| == i && Contents == ApplyAll(old(Contents), ops[..i], layouts)
        invariant forall j :: 0 <= j < i ==> Holds(layouts[j], ApplyAll(old(Contents), ops[..j], layouts[..j]))
      {
        ghost var before := layouts;
        HoldsNow();
        layouts := layouts + [entries[..]];
        LayoutsGrow(old(Contents), ops, before, entries[..]);
        ok := Do(ops[i]);
        if !ok {
          return;
        }
        i := i + 1;
      }
      assert ops[..i] == ops;
    }

    lemma HoldsNow()
      requires Valid()
      ensures Holds(entries[..], Contents)
    {
      assert Stores(entries[..], at, Contents);
    }

    /** One operation of a run. */
    method Do(op: Op<K, V>) returns (ok: bool)
      requires Valid() && (op.Rehash? ==> op.buckets < WORD)
      modifies this, entries
      ensures entries == old(entries) || fresh(entries)
      ensures ok ==> Valid() && Contents == Apply(old(Contents), op, old(entries[..]))
      ensures !ok && !op.Rehash? ==> Exhausted()
    {
      hide Stored, PosOf, KeysIn;
      ok := true;
      match op {
        case Emplace(k, v) =>
          var p, inserted;
          ok, p, inserted := Emplace(k, v);
        case Erase(k) =>
          var count := EraseKey(k);
        case EraseRange(first, last) =>
          EraseBetween(first, last);
        case Rehash(n) =>
          ValidFits();
          ok := Rehash(n);
        case Clear =>
          ClearAll();
      }
    }

    /** The range from one key to another, or to the end; nothing if the second comes first. */
    method EraseBetween(first: K, last: K)
      requires Valid()
      modifies entries, this`numElements, this`Contents, this`at
      ensures Valid() && Contents == Apply(old(Contents), Op.EraseRange(first, last), old(entries[..]))
    {
      hide Stored, RobinHood, PosOf, KeysIn;
      var p := Find(first);
      var q := Find(last);
      FoundAt(first, p);
      FoundAt(last, q);
      if p <= q {
        var next := EraseRange(p, q);
      }
    }

    lemma FoundAt(key: K, p: nat)
      requires Valid() && p < entries.Length
      requires if key in Contents then entries[p].Held? && entries[p].key == key else p == entries.Length - 1
      ensures PosOf(entries[..], key) == p
    {
      PosOfStored(entries[..], at, Contents, key, p);
    }

    lemma ValidFits()
      requires Valid()
      ensures Stored() && 2 * numElements < WORD
    {
      SizedFits();
    }

    lemma SizedFits()
      requires Stored()
      ensures 2 * numElements < WORD
    {
    }
  }
}
