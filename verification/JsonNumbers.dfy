/**
 The integer part of the JSON number parser: it accumulates in 32 bits, goes over to 64 and then to a double when the
 next digit would not fit, and reports the narrowest type.  Arithmetic of the machine types is checked not to wrap.
 */
module JsonNumbers {
  import opened Decimal

  newtype uint32 = n: int | 0 <= n < 0x1_0000_0000
  newtype uint64 = n: int | 0 <= n < 0x1_0000_0000_0000_0000

  datatype Number =
    | Uint(n: uint32)
    | Int(i: int)
    | Uint64(n64: uint64)
    | Int64(i64: int)
    | Double(d: real)
    | Invalid

  /** The narrowest type for the integer `n`, or for its negative. */
  function Narrowest(minus: bool, n: nat): Number {
    if minus then
      if n <= 0x8000_0000 then Int(0 - n)
      else if n <= 0x8000_0000_0000_0000 then Int64(0 - n)
      else Double(0.0 - n as real)
    else
      if n <= 0xFFFF_FFFF then Uint(n as uint32)
      else if n <= 0xFFFF_FFFF_FFFF_FFFF then Uint64(n as uint64)
      else Double(n as real)
  }

  /** The number an event carries. */
  function Amount(r: Number): real
    requires r != Invalid
  {
    match r
    case Uint(n) => n as int as real
    case Int(i) => i as real
    case Uint64(n) => n as int as real
    case Int64(i) => i as real
    case Double(d) => d
  }

  /** The event carries the number, and is the one for its range. */
  lemma NarrowestIs(minus: bool, n: nat)
    ensures var r, x := Narrowest(minus, n), if minus then 0 - n else n;
            && r != Invalid && Amount(r) == x as real
            && (r.Int? <==> minus && -0x8000_0000 <= x)
            && (r.Uint? <==> !minus && x <= 0xFFFF_FFFF)
            && (r.Int64? <==> minus && -0x8000_0000_0000_0000 <= x < -0x8000_0000)
            && (r.Uint64? <==> !minus && 0xFFFF_FFFF < x <= 0xFFFF_FFFF_FFFF_FFFF)
            && (r.Double? <==> x < -0x8000_0000_0000_0000 || x > 0xFFFF_FFFF_FFFF_FFFF)
  {
  }

  /** `static_cast<int32_t>(~i + 1)` and its 64-bit form: the two's complement negation, read as signed. */
  function Negated32(i: uint32): int {
    var u := (0x1_0000_0000 - i as int) % 0x1_0000_0000;
    if u < 0x8000_0000 then u else u - 0x1_0000_0000
  }

  function Negated64(i: uint64): int {
    var u := (0x1_0000_0000_0000_0000 - i as int) % 0x1_0000_0000_0000_0000;
    if u < 0x8000_0000_0000_0000 then u else u - 0x1_0000_0000_0000_0000
  }

  /** Takes digits while `limit`, ten times `q` plus the digit `last`, is not exceeded; `full` says whether it
      stopped before a digit. */
  method Accumulate32(s: seq<char>, start: nat, first: uint32, q: uint32, last: char, ghost limit: nat)
    returns (pos: nat, i: uint32, full: bool)
    requires start <= |s| && IsDigit(last) && limit == q as nat * 10 + DigitValue(last) < 0x1_0000_0000
    requires first as nat == Value(s[..start]) <= limit
    ensures start <= pos <= |s| && i as nat == Value(s[..pos]) <= limit
    ensures forall k :: start <= k < pos ==> IsDigit(s[k])
    ensures full <==> pos < |s| && IsDigit(s[pos])
    ensures full ==> Value(s[..pos + 1]) > limit
  {
    pos, i := start, first;
    while pos < |s| && IsDigit(s[pos])
      invariant start <= pos <= |s| && i as nat == Value(s[..pos]) <= limit
      invariant forall k :: start <= k < pos ==> IsDigit(s[k])
    {
      ValueStep(s, pos);
      if i >= q {
        if i != q || s[pos] > last {
          return pos, i, true;
        }
      }
      i := i * 10 + DigitValue(s[pos]) as uint32;
      pos := pos + 1;
    }
    full := false;
  }

  method Accumulate64(s: seq<char>, start: nat, first: uint64, q: uint64, last: char, ghost limit: nat)
    returns (pos: nat, i: uint64, full: bool)
    requires start <= |s| && IsDigit(last) && limit == q as nat * 10 + DigitValue(last) < 0x1_0000_0000_0000_0000
    requires first as nat == Value(s[..start]) <= limit
    ensures start <= pos <= |s| && i as nat == Value(s[..pos]) <= limit
    ensures forall k :: start <= k < pos ==> IsDigit(s[k])
    ensures full <==> pos < |s| && IsDigit(s[pos])
    ensures full ==> Value(s[..pos + 1]) > limit
  {
    pos, i := start, first;
    while pos < |s| && IsDigit(s[pos])
      invariant start <= pos <= |s| && i as nat == Value(s[..pos]) <= limit
      invariant forall k :: start <= k < pos ==> IsDigit(s[k])
    {
      ValueStep(s, pos);
      if i >= q {
        if i != q || s[pos] > last {
          return pos, i, true;
        }
      }
      i := i * 10 + DigitValue(s[pos]) as uint64;
      pos := pos + 1;
    }
    full := false;
  }

  /** `ParseNumber` on an integer without sign, which has been consumed: its digits are all taken, or a leading zero
      alone, and the exact number is reported through the event for its range; beyond 64 bits that is a double. */
  method ParseInteger(s: seq<char>, minus: bool) returns (r: Number, pos: nat)
    ensures r == Invalid <==> s == [] || !IsDigit(s[0])
    ensures r != Invalid ==> pos == if s[0] == '0' then 1 else Digits(s)
    ensures r != Invalid ==>
              var x := if minus then 0 - Value(s[..pos]) else Value(s[..pos]);
              && Amount(r) == x as real
              && (r.Int? <==> minus && -0x8000_0000 <= x)
              && (r.Uint? <==> !minus && x <= 0xFFFF_FFFF)
              && (r.Int64? <==> minus && -0x8000_0000_0000_0000 <= x < -0x8000_0000)
              && (r.Uint64? <==> !minus && 0xFFFF_FFFF < x <= 0xFFFF_FFFF_FFFF_FFFF)
              && (r.Double? <==> x < -0x8000_0000_0000_0000 || x > 0xFFFF_FFFF_FFFF_FFFF)
  {
    if s == [] || !IsDigit(s[0]) {
      return Invalid, 0;
    }
    assert s[..1][..0] == [];
    if s[0] == '0' {
      return if minus then Int(Negated32(0)) else Uint(0), 1;
    }
    assert Value(s[..1]) == DigitValue(s[0]);
    hide Value, Digits;
    r, pos := ParseNarrow(s, minus, DigitValue(s[0]) as uint32);
    NarrowestIs(minus, Value(s[..pos]));
    hide Narrowest, Amount;
  }

  /** From the first digit on, which is not zero. */
  method ParseNarrow(s: seq<char>, minus: bool, first: uint32) returns (r: Number, pos: nat)
    requires s != [] && IsDigit(s[0]) && first as nat == Value(s[..1]) < 10
    ensures pos == Digits(s) && r == Narrowest(minus, Value(s[..pos]))
  {
    hide Value, Digits;
    var i, full;
    if minus {
      pos, i, full := Accumulate32(s, 1, first, 214748364, '8', 0x8000_0000);
    } else {
      pos, i, full := Accumulate32(s, 1, first, 429496729, '5', 0xFFFF_FFFF);
    }
    if full {
      r, pos := ParseWide(s, minus, pos, i as uint64);
    } else {
      DigitsAre(s, pos);
      r := if minus then Int(Negated32(i)) else Uint(i);
    }
  }

  predicate AllDigits(s: seq<char>, k: nat)
    requires k <= |s|
  {
    forall i :: 0 <= i < k ==> IsDigit(s[i])
  }

  /** From the first digit that does not fit 32 bits on. */
  method ParseWide(s: seq<char>, minus: bool, start: nat, first: uint64) returns (r: Number, pos: nat)
    requires start < |s| && AllDigits(s, start + 1) && first as nat == Value(s[..start]) <= 0xFFFF_FFFF
    requires Value(s[..start + 1]) > if minus then 0x8000_0000 else 0xFFFF_FFFF
    ensures pos == Digits(s) && r == Narrowest(minus, Value(s[..pos]))
  {
    hide Value, Digits;
    var i64, full;
    if minus {
      pos, i64, full := Accumulate64(s, start, first, 0x0CCC_CCCC_CCCC_CCCC, '8', 0x8000_0000_0000_0000);
    } else {
      pos, i64, full := Accumulate64(s, start, first, 0x1999_9999_9999_9999, '5', 0xFFFF_FFFF_FFFF_FFFF);
    }
    if !full {
      DigitsAre(s, pos);
      ValueGrows(s, start + 1, pos);
      return if minus then Int64(Negated64(i64)) else Uint64(i64), pos;
    }
    ghost var beyond := pos + 1;
    var d;
    pos, d := AccumulateDouble(s, pos, i64 as int as real);
    ValueGrows(s, beyond, pos);
    DigitsAre(s, pos);
    r := Double(if minus then 0.0 - d else d);
  }

  /** The remaining digits, in a double without its rounding. */
  method AccumulateDouble(s: seq<char>, start: nat, first: real) returns (pos: nat, d: real)
    requires start <= |s| && first == Value(s[..start]) as real
    ensures start <= pos <= |s| && d == Value(s[..pos]) as real
    ensures forall k :: start <= k < pos ==> IsDigit(s[k])
    ensures pos < |s| ==> !IsDigit(s[pos])
  {
    pos, d := start, first;
    while pos < |s| && IsDigit(s[pos])
      invariant start <= pos <= |s| && d == Value(s[..pos]) as real
      invariant forall k :: start <= k < pos ==> IsDigit(s[k])
    {
      ValueStep(s, pos);
      d := d * 10.0 + DigitValue(s[pos]) as real;
      pos := pos + 1;
    }
  }
}
