/** The schema `Hasher`: a handler that folds a value's events into one 64-bit code. */
module JsonHasher {
  import opened JsonValue
  import opened JsonEquality

  /** How leaves are hashed, codes are mixed, and the members of an object are combined. */
  datatype Hashing = Hashing(leaf: Scalar -> bv64, mix: (bv64, bv64) -> bv64, combine: (bv64, bv64) -> bv64)

  /** All that is needed of `combine`: later contributions can change places. */
  ghost predicate OrderFree(h: Hashing) {
    forall a, b, c :: h.combine(h.combine(a, b), c) == h.combine(h.combine(a, c), b)
  }

  const OBJECT_TYPE: bv64 := 3
  const ARRAY_TYPE: bv64 := 4
  const NUMBER_TYPE: bv64 := 6

  /** The source combines members by xor, which is order-free in this sense. */
  lemma XorIsOrderFree(a: bv64, b: bv64, c: bv64)
    ensures (a ^ b) ^ c == (a ^ c) ^ b
  {
  }

  /** Name and value codes, folded by `combine`. */
  function PairsCode(h: Hashing, kv: seq<bv64>): bv64 {
    if |kv| < 2 then h.mix(0, OBJECT_TYPE)
    else h.combine(PairsCode(h, kv[..|kv| - 2]), h.mix(kv[|kv| - 2], kv[|kv| - 1]))
  }

  /** Element codes, folded in order. */
  function ChainCode(h: Hashing, es: seq<bv64>): bv64 {
    if es == [] then h.mix(0, ARRAY_TYPE) else h.mix(ChainCode(h, es[..|es| - 1]), es[|es| - 1])
  }

  /** The code of a value. */
  function Code(h: Hashing, v: Value): bv64
    decreases v, 0
  {
    match v
    case Leaf(x) => h.leaf(x)
    case Array(es) => ChainCode(h, ElementCodes(h, es))
    case Object(ms) => MembersCode(h, ms)
  }

  function MembersCode(h: Hashing, ms: seq<Member>): bv64
    decreases ms, 2
  {
    PairsCode(h, MemberCodes(h, ms))
  }

  /** The contribution of one member. */
  function MemberCode(h: Hashing, m: Member): bv64 {
    h.mix(h.leaf(Text(m.name)), Code(h, m.value))
  }

  function ElementCodes(h: Hashing, es: seq<Value>): (r: seq<bv64>)
    ensures |r| == |es|
    decreases es, 1
  {
    if es == [] then [] else ElementCodes(h, es[..|es| - 1]) + [Code(h, es[|es| - 1])]
  }

  function MemberCodes(h: Hashing, ms: seq<Member>): (r: seq<bv64>)
    ensures |r| == 2 * |ms|
    decreases ms, 1
  {
    if ms == [] then []
    else MemberCodes(h, ms[..|ms| - 1]) + [h.leaf(Text(ms[|ms| - 1].name)), Code(h, ms[|ms| - 1].value)]
  }

  // ---- the handler ---------------------------------------------------------------------

  class Hasher {
    const h: Hashing
    var stack: seq<bv64>

    constructor (h: Hashing)
      ensures this.h == h && stack == []
    {
      this.h := h;
      stack := [];
    }

    method Scalar(x: Scalar)
      modifies this
      ensures stack == old(stack) + [h.leaf(x)]
    {
      stack := stack + [h.leaf(x)];
    }

    method EndObject(memberCount: nat)
      requires 2 * memberCount <= |stack|
      modifies this
      ensures var base := |old(stack)| - 2 * memberCount;
              stack == old(stack)[..base] + [PairsCode(h, old(stack)[base..])]
    {
      var code := h.mix(0, OBJECT_TYPE);
      var base := |stack| - 2 * memberCount;
      var kv := stack[base..];
      var i := 0;
      while i < memberCount
        invariant 0 <= i <= memberCount && code == PairsCode(h, kv[..2 * i])
      {
        assert kv[..2 * (i + 1)][..2 * i] == kv[..2 * i];
        code := h.combine(code, h.mix(kv[i * 2], kv[i * 2 + 1]));
        i := i + 1;
      }
      assert kv[..2 * i] == kv;
      stack := stack[..base] + [code];
    }

    method EndArray(elementCount: nat)
      requires elementCount <= |stack|
      modifies this
      ensures var base := |old(stack)| - elementCount;
              stack == old(stack)[..base] + [ChainCode(h, old(stack)[base..])]
    {
      var code := h.mix(0, ARRAY_TYPE);
      var base := |stack| - elementCount;
      var e := stack[base..];
      var i := 0;
      while i < elementCount
        invariant 0 <= i <= elementCount && code == ChainCode(h, e[..i])
      {
        assert e[..i + 1][..i] == e[..i];
        code := h.mix(code, e[i]);
        i := i + 1;
      }
      assert e[..i] == e;
      stack := stack[..base] + [code];
    }

    /** `Accept` with this handler: whatever is on the stack, one code is pushed. */
    method Accept(v: Value)
      modifies this
      ensures stack == old(stack) + [Code(h, v)]
      decreases v
    {
      hide PairsCode, ChainCode;
      match v
      case Leaf(x) =>
        Scalar(x);
      case Object(ms) =>
        var i := 0;
        while i < |ms|
          invariant 0 <= i <= |ms|
          invariant stack == old(stack) + MemberCodes(h, ms[..i])
        {
          Scalar(Text(ms[i].name));
          Accept(ms[i].value);
          assert ms[..i + 1][..i] == ms[..i];
          i := i + 1;
        }
        assert ms[..i] == ms;
        assert stack[|stack| - 2 * |ms|..] == MemberCodes(h, ms);
        EndObject(|ms|);
      case Array(es) =>
        var i := 0;
        while i < |es|
          invariant 0 <= i <= |es|
          invariant stack == old(stack) + ElementCodes(h, es[..i])
        {
          Accept(es[i]);
          assert es[..i + 1][..i] == es[..i];
          i := i + 1;
        }
        assert es[..i] == es;
        assert stack[|stack| - |es|..] == ElementCodes(h, es);
        EndArray(|es|);
    }
  }

  // ---- what the code depends on --------------------------------------------------------

  /** Mixing and combining lose nothing of what they take in. */
  ghost predicate Faithful(h: Hashing) {
    && (forall a, b, c :: h.mix(a, b) == h.mix(a, c) ==> b == c)
    && (forall a, b, c :: h.mix(a, c) == h.mix(b, c) ==> a == b)
    && (forall a, b, c :: h.combine(a, b) == h.combine(a, c) ==> b == c)
  }

  /** The value of every member counts: an object in which one of them gets another code has another code. */
  lemma MemberValueCounts(h: Hashing, ms: seq<Member>, j: nat, v: Value)
    requires OrderFree(h) && Faithful(h) && j < |ms| && Code(h, v) != Code(h, ms[j].value)
    ensures Code(h, Object(ms[j := Member(ms[j].name, v)])) != Code(h, Object(ms))
  {
    hide Code, OrderFree;
    var name := h.leaf(Text(ms[j].name));
    assert h.mix(name, Code(h, v)) != h.mix(name, Code(h, ms[j].value));
    MemberCounts(h, ms, j, Member(ms[j].name, v));
  }

  /** So does every name. */
  lemma MemberNameCounts(h: Hashing, ms: seq<Member>, j: nat, name: string)
    requires OrderFree(h) && Faithful(h) && j < |ms| && h.leaf(Text(name)) != h.leaf(Text(ms[j].name))
    ensures Code(h, Object(ms[j := Member(name, ms[j].value)])) != Code(h, Object(ms))
  {
    hide Code, OrderFree;
    var value := Code(h, ms[j].value);
    assert h.mix(h.leaf(Text(name)), value) != h.mix(h.leaf(Text(ms[j].name)), value);
    MemberCounts(h, ms, j, Member(name, ms[j].value));
  }

  lemma MemberCounts(h: Hashing, ms: seq<Member>, j: nat, m: Member)
    requires OrderFree(h) && Faithful(h) && j < |ms| && MemberCode(h, m) != MemberCode(h, ms[j])
    ensures Code(h, Object(ms[j := m])) != Code(h, Object(ms))
  {
    var ns := ms[j := m];
    assert Code(h, Object(ns)) == MembersCode(h, ns) && Code(h, Object(ms)) == MembersCode(h, ms);
    hide Code, MemberCode, MembersCode, OrderFree;
    FoldedLast(h, ms, j);
    FoldedLast(h, ns, j);
    assert Without(ns, j) == Without(ms, j);
  }

  /** And so does every element, in its place. */
  lemma {:induction false} ElementCounts(h: Hashing, es: seq<Value>, j: nat, v: Value)
    requires Faithful(h) && j < |es| && Code(h, v) != Code(h, es[j])
    ensures Code(h, Array(es[j := v])) != Code(h, Array(es))
  {
    hide Code;
    var fs, last := es[j := v], |es| - 1;
    ChainSplit(h, es);
    ChainSplit(h, fs);
    if j < last {
      ElementCounts(h, es[..last], j, v);
      assert fs[..last] == es[..last][j := v];
    } else {
      assert fs[..last] == es[..last];
    }
  }

  lemma ChainSplit(h: Hashing, es: seq<Value>)
    requires es != []
    ensures Code(h, Array(es)) == h.mix(Code(h, Array(es[..|es| - 1])), Code(h, es[|es| - 1]))
  {
    var codes := ElementCodes(h, es);
    assert codes[..|codes| - 1] == ElementCodes(h, es[..|es| - 1]);
  }

  // ---- equal values have equal codes ---------------------------------------------------

  function Without(ms: seq<Member>, j: nat): (rest: seq<Member>)
    requires j < |ms|
    ensures |rest| == |ms| - 1
    ensures forall i :: 0 <= i < |rest| ==> rest[i] == ms[if i < j then i else i + 1]
  {
    ms[..j] + ms[j + 1..]
  }

  /** Any member can be folded last. */
  lemma {:induction false} FoldedLast(h: Hashing, ms: seq<Member>, j: nat)
    requires OrderFree(h) && j < |ms|
    ensures MembersCode(h, ms) == h.combine(MembersCode(h, Without(ms, j)), MemberCode(h, ms[j]))
  {
    hide MembersCode, MemberCode, Code;
    var n := |ms| - 1;
    var init := ms[..n];
    FoldSplit(h, init, ms[n]);
    assert init + [ms[n]] == ms;
    if j == n {
      assert Without(ms, j) == init;
    } else {
      FoldedLast(h, init, j);
      assert Without(ms, j) == Without(init, j) + [ms[n]];
      FoldSplit(h, Without(init, j), ms[n]);
    }
  }

  lemma FoldSplit(h: Hashing, init: seq<Member>, m: Member)
    ensures MembersCode(h, init + [m]) == h.combine(MembersCode(h, init), MemberCode(h, m))
  {
    assert (init + [m])[..|init|] == init;
    var kv := MemberCodes(h, init + [m]);
    assert kv[..|kv| - 2] == MemberCodes(h, init);
  }

  lemma MeaningWithout(ms: seq<Member>, j: nat)
    requires NamesDiffer(ms) && j < |ms|
    ensures NamesDiffer(Without(ms, j))
    ensures MeaningOfMembers(Exact, Without(ms, j)) == MeaningOfMembers(Exact, ms) - {ms[j].name}
  {
    var rest := Without(ms, j);
    assert NamesDiffer(rest);
    hide *;
    MeaningNames(Exact, ms);
    MeaningNames(Exact, rest);
    NamesWithout(ms, j);
    forall i | 0 <= i < |rest|
      ensures rest[i].name in MeaningOfMembers(Exact, rest)
        && rest[i].name in MeaningOfMembers(Exact, ms) - {ms[j].name}
      ensures MeaningOfMembers(Exact, rest)[rest[i].name] == MeaningOfMembers(Exact, ms)[rest[i].name]
    {
      MemberMeaning(Exact, rest, i);
      MemberMeaning(Exact, ms, if i < j then i else i + 1);
      NameOf(rest, i);
    }
    AgreeByName(rest, MeaningOfMembers(Exact, rest), MeaningOfMembers(Exact, ms) - {ms[j].name});
  }

  lemma NameOf(ms: seq<Member>, i: nat)
    requires i < |ms|
    ensures ms[i].name in Names(ms)
  {
  }

  lemma NamesWithout(ms: seq<Member>, j: nat)
    requires NamesDiffer(ms) && j < |ms|
    ensures Names(Without(ms, j)) == Names(ms) - {ms[j].name}
  {
    var rest := Without(ms, j);
    forall k | k in Names(ms) - {ms[j].name}
      ensures k in Names(rest)
    {
      var i :| 0 <= i < |ms| && ms[i].name == k;
      assert rest[if i < j then i else i - 1].name == k;
    }
  }

  /** Members with values of one meaning have values of one code. */
  ghost predicate CodesAgree(h: Hashing, ms: seq<Member>, ns: seq<Member>) {
    forall i, j :: 0 <= i < |ms| && 0 <= j < |ns| && MeaningOf(Exact, ms[i].value) == MeaningOf(Exact, ns[j].value) ==>
      Code(h, ms[i].value) == Code(h, ns[j].value)
  }

  lemma CodesAgreeWithout(h: Hashing, ms: seq<Member>, ns: seq<Member>, j: nat)
    requires ms != [] && j < |ns| && CodesAgree(h, ms, ns)
    ensures CodesAgree(h, Without(ms, 0), Without(ns, j))
  {
    hide Code, MeaningOf, Without;
  }

  lemma FindByName(ms: seq<Member>, name: string) returns (j: nat)
    requires name in Names(ms)
    ensures j < |ms| && ms[j].name == name
  {
    j :| 0 <= j < |ms| && ms[j].name == name;
  }

  /** Two member lists with one meaning have one code, whatever the order. */
  lemma {:induction false} MembersWithOneMeaning(h: Hashing, ms: seq<Member>, ns: seq<Member>)
    requires OrderFree(h) && NamesDiffer(ms) && NamesDiffer(ns)
      && MeaningOfMembers(Exact, ms) == MeaningOfMembers(Exact, ns)
    requires CodesAgree(h, ms, ns)
    ensures MembersCode(h, ms) == MembersCode(h, ns)
    decreases |ms|, 1
  {
    MeaningNames(Exact, ms);
    MeaningNames(Exact, ns);
    DistinctNamesCount(ms);
    DistinctNamesCount(ns);
    if ms != [] {
      FirstMatched(h, ms, ns);
    } else {
      assert ns == [];
    }
  }

  lemma {:induction false} FirstMatched(h: Hashing, ms: seq<Member>, ns: seq<Member>)
    requires OrderFree(h) && ms != [] && NamesDiffer(ms) && NamesDiffer(ns)
    requires MeaningOfMembers(Exact, ms) == MeaningOfMembers(Exact, ns) && MeaningOfMembers(Exact, ns).Keys == Names(ns)
    requires CodesAgree(h, ms, ns)
    ensures MembersCode(h, ms) == MembersCode(h, ns)
    decreases |ms|, 0
  {
    hide MembersCode, Code, MeaningOf, MeaningOfMembers, NamesDiffer, Names, Without, OrderFree;
    MemberMeaning(Exact, ms, 0);
    var j := FindByName(ns, ms[0].name);
    MemberMeaning(Exact, ns, j);
    MeaningWithout(ms, 0);
    MeaningWithout(ns, j);
    CodesAgreeWithout(h, ms, ns, j);
    MembersWithOneMeaning(h, Without(ms, 0), Without(ns, j));
    FoldedLast(h, ms, 0);
    FoldedLast(h, ns, j);
  }

  /** No number of one value is 2^64 away from a number of the other.  Only integers below zero and from
      2^63 on can be. */
  ghost predicate NoMix(a: Value, b: Value) {
    forall n, m :: Has(a, n) && Has(b, m) && Bits(n) == Bits(m) ==> n == m
  }

  /** Values that compare equal leave the same code, if no number stands for another of the same bits. */
  lemma {:induction false} EqualValuesHashEqual(h: Hashing, a: Value, b: Value)
    requires OrderFree(h) && Distinct(a) && Distinct(b) && NoMix(a, b) && Equal(a, b)
    ensures Code(h, a) == Code(h, b)
  {
    EqualIsSameReading(Exact, a, b);
    MeaningDeterminesCode(h, a, b);
  }

  /** One step of FNV-1a. */
  function Fnv(code: bv64, byte: bv64): bv64 {
    (code ^ byte) * 0x0000_0100_0000_01b3
  }

  /** FNV-1a over the eight bytes of a word, the least one first. */
  function FnvWord(code: bv64, w: bv64): bv64 {
    var low := Fnv(Fnv(Fnv(Fnv(code, w & 0xFF), (w >> 8) & 0xFF), (w >> 16) & 0xFF), (w >> 24) & 0xFF);
    Fnv(Fnv(Fnv(Fnv(low, (w >> 32) & 0xFF), (w >> 40) & 0xFF), (w >> 48) & 0xFF), (w >> 56) & 0xFF)
  }

  /** The code of a number: its type, the 64 bits that store it, and the same number as a double. */
  function NumberCode(bits: bv64, double: bv64): bv64 {
    FnvWord(FnvWord(Fnv(0x8422_2325_cbf2_9ce4, NUMBER_TYPE), bits), double)
  }

  /** Without that condition they need not: -1 and 2^64 - 1 compare equal, but the source hashes the double
      beside the bits, -1.0 for the one and 2^64 for the other. */
  lemma EqualNumbersHashApart(h: Hashing)
    requires h.leaf(Number(-1)) == NumberCode(0xFFFF_FFFF_FFFF_FFFF, 0xBFF0_0000_0000_0000)
    requires h.leaf(Number(WORD - 1)) == NumberCode(0xFFFF_FFFF_FFFF_FFFF, 0x43F0_0000_0000_0000)
    ensures Equal(Leaf(Number(-1)), Leaf(Number(WORD - 1)))
    ensures Code(h, Leaf(Number(-1))) != Code(h, Leaf(Number(WORD - 1)))
  {
  }

  lemma {:induction false} MeaningDeterminesCode(h: Hashing, a: Value, b: Value)
    requires OrderFree(h) && Distinct(a) && Distinct(b) && MeaningOf(Exact, a) == MeaningOf(Exact, b)
    ensures Code(h, a) == Code(h, b)
    decreases a
  {
    match (a, b)
    case (Leaf(x), Leaf(y)) =>
    case (Array(es), Array(fs)) =>
      ElementsWithOneMeaning(h, es, fs);
    case (Object(ms), Object(ns)) =>
      forall i, j | 0 <= i < |ms| && 0 <= j < |ns| && MeaningOf(Exact, ms[i].value) == MeaningOf(Exact, ns[j].value)
        ensures Code(h, ms[i].value) == Code(h, ns[j].value)
      {
        MeaningDeterminesCode(h, ms[i].value, ns[j].value);
      }
      MembersWithOneMeaning(h, ms, ns);
  }

  lemma {:induction false} ElementsWithOneMeaning(h: Hashing, es: seq<Value>, fs: seq<Value>)
    requires OrderFree(h) && |es| == |fs|
    requires forall i :: 0 <= i < |es| ==> Distinct(es[i]) && Distinct(fs[i])
    requires forall i :: 0 <= i < |es| ==> MeaningOf(Exact, es[i]) == MeaningOf(Exact, fs[i])
    ensures ElementCodes(h, es) == ElementCodes(h, fs)
    decreases es
  {
    if es != [] {
      ElementsWithOneMeaning(h, es[..|es| - 1], fs[..|fs| - 1]);
      MeaningDeterminesCode(h, es[|es| - 1], fs[|fs| - 1]);
    }
  }
}
