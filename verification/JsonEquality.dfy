/** `operator==` on values against an independent meaning, in which objects are finite maps. */
module JsonEquality {
  import opened JsonValue
  import opened Modular

  const WORD: int := 0x1_0000_0000_0000_0000
  const HALF: int := 0x8000_0000_0000_0000

  // ---- operator== ----------------------------------------------------------------------

  /** Integers are compared by the 64 bits that store them. */
  function Bits(n: int): int {
    n % WORD
  }

  predicate SameScalar(a: Scalar, b: Scalar) {
    match (a, b)
    case (Null, Null) => true
    case (Bool(x), Bool(y)) => x == y
    case (Number(n), Number(m)) => Bits(n) == Bits(m)
    case (Text(s), Text(t)) => s == t
    case _ => false
  }

  /** `FindMember`: the first member with the name, or the end. */
  function Find(ms: seq<Member>, name: string): (i: nat)
    ensures i <= |ms|
    ensures i < |ms| ==> ms[i].name == name
    ensures forall j :: 0 <= j < i ==> ms[j].name != name
  {
    if ms == [] || ms[0].name == name then 0 else 1 + Find(ms[1..], name)
  }

  predicate Equal(a: Value, b: Value)
    decreases a, 0
  {
    match (a, b)
    case (Leaf(x), Leaf(y)) => SameScalar(x, y)
    case (Array(es), Array(fs)) => |es| == |fs| && forall i :: 0 <= i < |es| ==> Equal(es[i], fs[i])
    case (Object(ms), Object(ns)) => |ms| == |ns| && forall i :: 0 <= i < |ms| ==> HasEqual(ms[i], ns)
    case _ => false
  }

  predicate HasEqual(m: Member, ns: seq<Member>)
    decreases m, 1
  {
    var j := Find(ns, m.name);
    j < |ns| && Equal(m.value, ns[j].value)
  }

  method FindMember(ms: seq<Member>, name: string) returns (i: nat)
    ensures i == Find(ms, name)
  {
    i := 0;
    while i < |ms|
      invariant 0 <= i <= |ms|
      invariant Find(ms, name) == i + Find(ms[i..], name)
    {
      if ms[i].name == name {
        return;
      }
      assert ms[i..][1..] == ms[i + 1..];
      i := i + 1;
    }
  }

  method Compare(a: Value, b: Value) returns (equal: bool)
    ensures equal == Equal(a, b)
    decreases a
  {
    match (a, b)
    case (Leaf(x), Leaf(y)) =>
      return SameScalar(x, y);
    case (Object(ms), Object(ns)) =>
      if |ms| != |ns| {
        return false;
      }
      var i := 0;
      while i < |ms|
        invariant 0 <= i <= |ms| && forall k :: 0 <= k < i ==> HasEqual(ms[k], ns)
      {
        var j := FindMember(ns, ms[i].name);
        var same := false;
        if j < |ns| {
          same := Compare(ms[i].value, ns[j].value);
        }
        if !same {
          assert !HasEqual(ms[i], ns);
          return false;
        }
        i := i + 1;
      }
      return true;
    case (Array(es), Array(fs)) =>
      if |es| != |fs| {
        return false;
      }
      var i := 0;
      while i < |es|
        invariant 0 <= i <= |es| && forall k :: 0 <= k < i ==> Equal(es[k], fs[k])
      {
        var same := Compare(es[i], fs[i]);
        if !same {
          return false;
        }
        i := i + 1;
      }
      return true;
    case _ =>
      return false;
  }

  // ---- an independent meaning ----------------------------------------------------------

  /** Values up to member order: objects are finite maps, numbers are integers. */
  datatype Meaning =
    | MLeaf(x: Scalar)
    | MArray(elements: seq<Meaning>)
    | MObject(members: map<string, Meaning>)

  /** The signed reading of the stored bits; the number itself when it is in the int64 range. */
  function Signed(n: int): int {
    (n + HALF) % WORD - HALF
  }

  /** The number itself. */
  function Exact(n: int): int {
    n
  }

  function MeaningOfScalar(read: int -> int, x: Scalar): Scalar {
    match x
    case Number(n) => Number(read(n))
    case _ => x
  }

  /** The meaning of a value when its numbers are taken as `read` says. */
  function MeaningOf(read: int -> int, v: Value): Meaning {
    match v
    case Leaf(x) => MLeaf(MeaningOfScalar(read, x))
    case Array(es) => MArray(MeaningOfElements(read, es))
    case Object(ms) => MObject(MeaningOfMembers(read, ms))
  }

  function MeaningOfElements(read: int -> int, es: seq<Value>): (r: seq<Meaning>)
    ensures |r| == |es|
    ensures forall i :: 0 <= i < |es| ==> r[i] == MeaningOf(read, es[i])
  {
    if es == [] then [] else [MeaningOf(read, es[0])] + MeaningOfElements(read, es[1..])
  }

  /** The first of several members with one name counts. */
  function MeaningOfMembers(read: int -> int, ms: seq<Member>): (r: map<string, Meaning>)
    ensures forall i :: 0 <= i < |ms| ==> ms[i].name in r
    ensures forall k :: k in r ==> Find(ms, k) < |ms| && r[k] == MeaningOf(read, ms[Find(ms, k)].value)
  {
    if ms == [] then map[] else MeaningOfMembers(read, ms[1..])[ms[0].name := MeaningOf(read, ms[0].value)]
  }

  predicate NamesDiffer(ms: seq<Member>) {
    forall i, j :: 0 <= i < j < |ms| ==> ms[i].name != ms[j].name
  }

  /** No object in the value has a duplicate name. */
  predicate Distinct(v: Value) {
    match v
    case Leaf(_) => true
    case Array(es) => forall i :: 0 <= i < |es| ==> Distinct(es[i])
    case Object(ms) => NamesDiffer(ms) && forall i :: 0 <= i < |ms| ==> Distinct(ms[i].value)
  }

  function Names(ms: seq<Member>): set<string> {
    set i | 0 <= i < |ms| :: ms[i].name
  }

  lemma {:induction false} DistinctNamesCount(ms: seq<Member>)
    requires NamesDiffer(ms)
    ensures |Names(ms)| == |ms|
  {
    if ms != [] {
      DistinctNamesCount(ms[1..]);
      assert Names(ms) == {ms[0].name} + Names(ms[1..]) by {
        forall k | k in Names(ms)
          ensures k in {ms[0].name} + Names(ms[1..])
        {
          var i :| 0 <= i < |ms| && ms[i].name == k;
          assert i > 0 ==> ms[1..][i - 1].name == k;
        }
      }
    }
  }

  /** Pigeonhole: equally many distinct names, all found on the right, leave no other name there. */
  lemma SameNames(ms: seq<Member>, ns: seq<Member>)
    requires NamesDiffer(ms) && NamesDiffer(ns) && |ms| == |ns|
    requires forall i :: 0 <= i < |ms| ==> Find(ns, ms[i].name) < |ns|
    ensures Names(ms) == Names(ns)
  {
    DistinctNamesCount(ms);
    DistinctNamesCount(ns);
    forall k | k in Names(ms)
      ensures k in Names(ns)
    {
      var i :| 0 <= i < |ms| && ms[i].name == k;
      assert ns[Find(ns, k)].name == k;
    }
    SubsetOfSameSize(Names(ms), Names(ns));
  }

  lemma SubsetOfSameSize<T>(a: set<T>, b: set<T>)
    requires a <= b && |a| == |b|
    ensures a == b
  {
    assert |b - a| == |b| - |a|;
  }

  lemma FindDistinct(ms: seq<Member>, i: nat)
    requires NamesDiffer(ms) && i < |ms|
    ensures Find(ms, ms[i].name) == i
  {
  }

  /** A number that occurs in the value. */
  predicate Has(v: Value, n: int) {
    match v
    case Leaf(x) => x == Number(n)
    case Array(es) => exists i :: 0 <= i < |es| && Has(es[i], n)
    case Object(ms) => exists i :: 0 <= i < |ms| && Has(ms[i].value, n)
  }

  /** On the numbers of the two values, the reading separates what the stored bits separate. */
  ghost predicate ReadsBits(read: int -> int, a: Value, b: Value) {
    forall n, m :: Has(a, n) && Has(b, m) ==> (Bits(n) == Bits(m) <==> read(n) == read(m))
  }

  /** On values without duplicate names, `==` is exactly equality of meanings; in particular it is
      reflexive, symmetric and transitive, and ignores member order. */
  lemma EqualIsSameMeaning(a: Value, b: Value)
    requires Distinct(a) && Distinct(b)
    ensures Equal(a, b) <==> MeaningOf(Signed, a) == MeaningOf(Signed, b)
  {
    hide Equal, Distinct, MeaningOf, Has;
    forall n, m | Has(a, n) && Has(b, m)
      ensures Bits(n) == Bits(m) <==> Signed(n) == Signed(m)
    {
      SignedKeepsBits(n, m);
    }
    EqualIsSameReading(Signed, a, b);
  }

  lemma SignedKeepsBits(n: int, m: int)
    ensures Bits(n) == Bits(m) <==> Signed(n) == Signed(m)
  {
    SignedByBits(n);
    SignedByBits(m);
  }

  lemma SignedByBits(n: int)
    ensures 0 <= Bits(n) < WORD
    ensures Signed(n) == if Bits(n) < HALF then Bits(n) else Bits(n) - WORD
  {
    var q := n / WORD;
    assert n + HALF == WORD * q + (Bits(n) + HALF);
    if Bits(n) < HALF {
      DivModUnique(n + HALF, WORD, q, Bits(n) + HALF);
    } else {
      DivModUnique(n + HALF, WORD, q + 1, Bits(n) - HALF);
    }
  }

  lemma {:induction false} EqualIsSameReading(read: int -> int, a: Value, b: Value)
    requires Distinct(a) && Distinct(b) && ReadsBits(read, a, b)
    ensures Equal(a, b) <==> MeaningOf(read, a) == MeaningOf(read, b)
    decreases a
  {
    match (a, b)
    case (Leaf(x), Leaf(y)) =>
    case (Array(es), Array(fs)) =>
      if |es| == |fs| {
        forall i | 0 <= i < |es|
          ensures Equal(es[i], fs[i]) <==> MeaningOf(read, es[i]) == MeaningOf(read, fs[i])
        {
          EqualIsSameReading(read, es[i], fs[i]);
        }
      }
    case (Object(ms), Object(ns)) =>
      forall i, j | 0 <= i < |ms| && 0 <= j < |ns|
        ensures Equal(ms[i].value, ns[j].value) <==> MeaningOf(read, ms[i].value) == MeaningOf(read, ns[j].value)
      {
        EqualIsSameReading(read, ms[i].value, ns[j].value);
      }
      if Equal(a, b) {
        EqualObjectsMeanTheSame(read, ms, ns);
      } else if MeaningOfMembers(read, ms) == MeaningOfMembers(read, ns) {
        SameMeaningObjectsEqual(read, ms, ns);
      }
    case _ =>
  }

  lemma MemberMeaning(read: int -> int, ms: seq<Member>, i: nat)
    requires NamesDiffer(ms) && i < |ms|
    ensures ms[i].name in MeaningOfMembers(read, ms)
      && MeaningOfMembers(read, ms)[ms[i].name] == MeaningOf(read, ms[i].value)
  {
    FindDistinct(ms, i);
  }

  lemma EqualObjectsMeanTheSame(read: int -> int, ms: seq<Member>, ns: seq<Member>)
    requires NamesDiffer(ms) && NamesDiffer(ns) && |ms| == |ns|
    requires forall i :: 0 <= i < |ms| ==> HasEqual(ms[i], ns)
    requires forall i, j :: 0 <= i < |ms| && 0 <= j < |ns| && Equal(ms[i].value, ns[j].value) ==>
      MeaningOf(read, ms[i].value) == MeaningOf(read, ns[j].value)
    ensures MeaningOfMembers(read, ms) == MeaningOfMembers(read, ns)
  {
    hide MeaningOfMembers, MeaningOf, Equal, NamesDiffer, Names;
    forall i | 0 <= i < |ms|
      ensures Find(ns, ms[i].name) < |ns| && ms[i].name in MeaningOfMembers(read, ms)
        && ms[i].name in MeaningOfMembers(read, ns)
      ensures MeaningOfMembers(read, ms)[ms[i].name] == MeaningOfMembers(read, ns)[ms[i].name]
    {
      assert HasEqual(ms[i], ns);
      MemberMeaning(read, ms, i);
      MemberMeaning(read, ns, Find(ns, ms[i].name));
    }
    SameNames(ms, ns);
    MeaningNames(read, ms);
    MeaningNames(read, ns);
    AgreeByName(ms, MeaningOfMembers(read, ms), MeaningOfMembers(read, ns));
  }

  lemma AgreeByName(ms: seq<Member>, p: map<string, Meaning>, q: map<string, Meaning>)
    requires p.Keys == q.Keys == Names(ms)
    requires forall i :: 0 <= i < |ms| ==> ms[i].name in p && ms[i].name in q && p[ms[i].name] == q[ms[i].name]
    ensures p == q
  {
  }

  lemma SameMeaningObjectsEqual(read: int -> int, ms: seq<Member>, ns: seq<Member>)
    requires NamesDiffer(ms) && NamesDiffer(ns) && MeaningOfMembers(read, ms) == MeaningOfMembers(read, ns)
    requires forall i, j :: 0 <= i < |ms| && 0 <= j < |ns| ==>
      MeaningOf(read, ms[i].value) == MeaningOf(read, ns[j].value) ==> Equal(ms[i].value, ns[j].value)
    ensures Equal(Object(ms), Object(ns))
  {
    MeaningNames(read, ms);
    MeaningNames(read, ns);
    DistinctNamesCount(ms);
    DistinctNamesCount(ns);
    forall i | 0 <= i < |ms|
      ensures HasEqual(ms[i], ns)
    {
      MemberMeaning(read, ms, i);
    }
  }

  lemma MeaningNames(read: int -> int, ms: seq<Member>)
    ensures MeaningOfMembers(read, ms).Keys == Names(ms)
  {
    forall k | k in MeaningOfMembers(read, ms)
      ensures k in Names(ms)
    {
      assert ms[Find(ms, k)].name == k;
    }
  }

  lemma EqualIsSymmetricAndTransitive(a: Value, b: Value, c: Value)
    requires Distinct(a) && Distinct(b) && Distinct(c)
    ensures Equal(a, a)
    ensures Equal(a, b) <==> Equal(b, a)
    ensures Equal(a, b) && Equal(b, c) ==> Equal(a, c)
  {
    EqualIsSameMeaning(a, a);
    EqualIsSameMeaning(a, b);
    EqualIsSameMeaning(b, a);
    EqualIsSameMeaning(b, c);
    EqualIsSameMeaning(a, c);
  }

  /** Two integers that the reader can deliver compare equal exactly when they are equal or one is negative
      and the other is 2^64 more. */
  lemma NumbersEqual(n: int, m: int)
    requires -HALF <= n < WORD && -HALF <= m < WORD
    ensures SameScalar(Number(n), Number(m)) <==> n == m || n == m + WORD || m == n + WORD
  {
  }

  /** `-1` equals the largest unsigned integer. */
  lemma NegativeEqualsHugeUnsigned()
    ensures Equal(Leaf(Number(-1)), Leaf(Number(WORD - 1)))
    ensures MeaningOf(Signed, Leaf(Number(-1))) == MLeaf(Number(-1)) == MeaningOf(Signed, Leaf(Number(WORD - 1)))
  {
  }

  // ---- duplicate names -----------------------------------------------------------------

  /** The value in which every member has the value of the first member of its name. */
  function Firsts(v: Value): Value {
    match v
    case Leaf(_) => v
    case Array(es) => Array(FirstsOfElements(es))
    case Object(ms) => Object(FirstsOfMembers(ms))
  }

  function FirstsOfElements(es: seq<Value>): (r: seq<Value>)
    ensures |r| == |es|
  {
    seq(|es|, i requires 0 <= i < |es| => Firsts(es[i]))
  }

  function FirstsOfMembers(ms: seq<Member>): (r: seq<Member>)
    ensures |r| == |ms|
  {
    seq(|ms|, i requires 0 <= i < |ms| => Member(ms[i].name, Firsts(ms[Find(ms, ms[i].name)].value)))
  }

  /** Where two member lists use a name, they use it in the same places. */
  lemma FindAgrees(ms: seq<Member>, ns: seq<Member>, name: string)
    requires |ms| == |ns| && forall i :: 0 <= i < |ms| ==> (ms[i].name == name <==> ns[i].name == name)
    ensures Find(ms, name) == Find(ns, name)
  {
  }

  /** Every value is equalled by another one, duplicate names or not. */
  lemma {:induction false} FirstsEqual(v: Value)
    ensures Equal(Firsts(v), v)
  {
    match v
    case Leaf(_) =>
    case Array(es) =>
      forall i | 0 <= i < |es|
        ensures Equal(Firsts(es[i]), es[i])
      {
        FirstsEqual(es[i]);
      }
    case Object(ms) =>
      forall i | 0 <= i < |ms|
        ensures HasEqual(FirstsOfMembers(ms)[i], ms)
      {
        FirstsEqual(ms[Find(ms, ms[i].name)].value);
      }
  }

  /** Every value with duplicate names breaks the symmetry of `==`. */
  lemma DuplicateNamesBreakEquality(v: Value) returns (w: Value)
    requires !Distinct(v)
    ensures Equal(v, w) != Equal(w, v)
  {
    FirstsEqual(v);
    if Equal(v, Firsts(v)) {
      w := EqualOneWay(v);
    } else {
      w := Firsts(v);
    }
  }

  lemma {:induction false} EqualOneWay(v: Value) returns (w: Value)
    requires !Distinct(v) && Equal(v, Firsts(v))
    ensures Equal(v, w) && !Equal(w, v)
  {
    match v
    case Array(es) =>
      var i :| 0 <= i < |es| && !Distinct(es[i]);
      assert Equal(es[i], FirstsOfElements(es)[i]);
      var w' := EqualOneWay(es[i]);
      w := Array(FirstsOfElements(es)[i := w']);
      assert w.elements[i] == w';
    case Object(ms) =>
      if NamesDiffer(ms) {
        var i :| 0 <= i < |ms| && !Distinct(ms[i].value);
        FirstOfDistinct(ms, i);
        var w' := EqualOneWay(ms[i].value);
        w := ValueReplaced(ms, i, w');
      } else {
        var i, j :| 0 <= i < j < |ms| && ms[i].name == ms[j].name;
        w := Renamed(ms, i, j);
      }
  }

  lemma FirstOfDistinct(ms: seq<Member>, i: nat)
    requires NamesDiffer(ms) && i < |ms| && Equal(Object(ms), Object(FirstsOfMembers(ms)))
    ensures Equal(ms[i].value, Firsts(ms[i].value))
  {
    var ns := FirstsOfMembers(ms);
    FindDistinct(ms, i);
    FindAgrees(ms, ns, ms[i].name);
    assert HasEqual(ms[i], ns);
  }

  lemma ValueReplaced(ms: seq<Member>, i: nat, value: Value) returns (w: Value)
    requires NamesDiffer(ms) && i < |ms| && Equal(Object(ms), Object(FirstsOfMembers(ms)))
    requires Equal(ms[i].value, value) && !Equal(value, ms[i].value)
    ensures Equal(Object(ms), w) && !Equal(w, Object(ms))
  {
    var ns := FirstsOfMembers(ms)[i := Member(ms[i].name, value)];
    w := Object(ns);
    forall k | 0 <= k < |ms|
      ensures HasEqual(ms[k], ns)
    {
      FindDistinct(ms, k);
      FindAgrees(ms, ns, ms[k].name);
      FirstOfDistinct(ms, k);
    }
    FindDistinct(ms, i);
    assert !HasEqual(ns[i], ms);
  }

  /** A name longer than all names. */
  function Fresh(ms: seq<Member>): (name: string)
    ensures name != "" && forall i :: 0 <= i < |ms| ==> |ms[i].name| < |name|
  {
    if ms == [] then "x" else ms[0].name + Fresh(ms[1..])
  }

  /** The second of two namesakes takes a fresh name. */
  lemma Renamed(ms: seq<Member>, i: nat, j: nat) returns (w: Value)
    requires i < j < |ms| && ms[i].name == ms[j].name && Equal(Object(ms), Object(FirstsOfMembers(ms)))
    ensures Equal(Object(ms), w) && !Equal(w, Object(ms))
  {
    var firsts := FirstsOfMembers(ms);
    var ns := firsts[j := Member(Fresh(ms), firsts[j].value)];
    w := Object(ns);
    assert firsts[i].name == firsts[j].name;
    forall k | 0 <= k < |ms|
      ensures HasEqual(ms[k], ns)
    {
      assert HasEqual(ms[k], firsts);
      EqualUpTo(ms[k], firsts, ns, j);
    }
    assert !HasEqual(ns[j], ms);
  }

  lemma EqualUpTo(m: Member, ns: seq<Member>, ns': seq<Member>, j: nat)
    requires |ns'| == |ns| && forall k :: 0 <= k < |ns| && k != j ==> ns'[k] == ns[k]
    requires HasEqual(m, ns) && Find(ns, m.name) != j && (j < |ns| ==> ns'[j].name != m.name)
    ensures HasEqual(m, ns')
  {
    hide Equal;
  }
}
