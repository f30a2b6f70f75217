/**
 The integer parsers of the CSV reader, for a type of any width, with its overflow policies.  A column is the text up to
 its NUL.
 */
module CsvIntegers {
  import opened Decimal

  datatype Policy = ThrowOnOverflow | IgnoreOverflow | SetToMaxOnOverflow

  datatype Result = Parsed(x: int) | NoDigit | IntegerOverflow | IntegerUnderflow

  /** C++ division by ten, towards zero. */
  function Tenth(n: int): int {
    if n >= 0 then n / 10 else -(-n / 10)
  }

  /** What the policy makes of a value that does not fit: `x` is what was read before. */
  function OnOverflow(policy: Policy, x: int, max: int): Result {
    match policy
    case ThrowOnOverflow => IntegerOverflow
    case IgnoreOverflow => Parsed(x)
    case SetToMaxOnOverflow => Parsed(max)
  }

  function OnUnderflow(policy: Policy, x: int, min: int): Result {
    match policy
    case ThrowOnOverflow => IntegerUnderflow
    case IgnoreOverflow => Parsed(x)
    case SetToMaxOnOverflow => Parsed(min)
  }

  /** The number of leading digits that still fit below `limit`. */
  function Fitting(s: seq<char>, limit: nat, k: nat): (f: nat)
    requires k <= Digits(s)
    ensures k <= f <= Digits(s)
    decreases Digits(s) - k
  {
    if k < Digits(s) && Value(s[..k + 1]) <= limit then Fitting(s, limit, k + 1) else k
  }

  /** What a column of digits without sign means for limit `limit` and sign `sign`. */
  function Meaning(s: seq<char>, limit: nat, negative: bool, policy: Policy): Result {
    var sign := if negative then -1 else 1;
    var k := Digits(s);
    if Value(s[..k]) > limit then
      var x := sign * Value(s[..Fitting(s, limit, 0)]);
      if negative then OnUnderflow(policy, x, sign * limit) else OnOverflow(policy, x, limit)
    else if k < |s| then NoDigit
    else Parsed(sign * Value(s))
  }

  lemma {:induction false} FittingStops(s: seq<char>, limit: nat, from: nat, k: nat)
    requires from <= k < Digits(s) && Value(s[..k]) <= limit < Value(s[..k + 1])
    ensures Fitting(s, limit, from) == k
    decreases k - from
  {
    hide Value, Digits;
    if from < k {
      ValueGrows(s, from + 1, k);
      FittingStops(s, limit, from + 1, k);
    }
  }

  lemma DigitRun(s: seq<char>, k: nat)
    requires k < |s| && (forall i :: 0 <= i <= k ==> IsDigit(s[i]))
    ensures k < Digits(s)
  {
  }

  /** `parse_unsigned_integer`: the exact value, or the policy exactly when the value does not fit; a character that
      is no digit counts only if the digits before it fit.  An empty column is zero. */
  method ParseUnsigned(s: seq<char>, max: nat, policy: Policy) returns (r: Result)
    requires max >= 9
    ensures r == Meaning(s, max, false, policy)
  {
    hide Value, Digits, Fitting;
    var x: int := 0;
    ValueOfNothing(s);
    for k := 0 to |s|
      invariant x == Value(s[..k]) <= max
      invariant forall i :: 0 <= i < k ==> IsDigit(s[i])
    {
      if !IsDigit(s[k]) {
        DigitsAre(s, k);
        return NoDigit;
      }
      var y := DigitValue(s[k]);
      ValueStep(s, k);
      if x > (max - y) / 10 {
        DigitRun(s, k);
        FittingStops(s, max, 0, k);
        ValueGrows(s, k + 1, Digits(s));
        return OnOverflow(policy, x, max);
      }
      x := 10 * x + y;
    }
    DigitsAre(s, |s|);
    assert s[..|s|] == s;
    r := Parsed(x);
  }

  lemma ValueOfNothing(s: seq<char>)
    ensures Value(s[..0]) == 0
  {
  }

  /** `parse_signed_integer` for a type from -`max` - 1 to `max`. */
  method ParseSigned(s: seq<char>, max: nat, policy: Policy) returns (r: Result)
    requires max >= 9
    ensures r == if s != [] && s[0] == '-' then Meaning(s[1..], max + 1, true, policy)
                 else if s != [] && s[0] == '+' then Meaning(s[1..], max, false, policy)
                 else Meaning(s, max, false, policy)
  {
    if s != [] && s[0] == '-' {
      r := ParseNegative(s[1..], max, policy);
    } else if s != [] && s[0] == '+' {
      r := ParseUnsigned(s[1..], max, policy);
    } else {
      r := ParseUnsigned(s, max, policy);
    }
  }

  method ParseNegative(s: seq<char>, max: nat, policy: Policy) returns (r: Result)
    requires max >= 9
    ensures r == Meaning(s, max + 1, true, policy)
  {
    hide Value, Digits, Fitting;
    var min := 0 - max - 1;
    var x: int := 0;
    ValueOfNothing(s);
    for k := 0 to |s|
      invariant -x == Value(s[..k]) <= max + 1
      invariant forall i :: 0 <= i < k ==> IsDigit(s[i])
    {
      if !IsDigit(s[k]) {
        DigitsAre(s, k);
        return NoDigit;
      }
      var y := DigitValue(s[k]);
      ValueStep(s, k);
      if x < Tenth(min + y) {
        DigitRun(s, k);
        FittingStops(s, max + 1, 0, k);
        ValueGrows(s, k + 1, Digits(s));
        return OnUnderflow(policy, x, min);
      }
      x := 10 * x - y;
    }
    DigitsAre(s, |s|);
    assert s[..|s|] == s;
    r := Parsed(x);
  }

  /** What a column means by its longest front part of digits that fits, of length `j`: the number if it is the whole
      column, no digit if the next character is none, and otherwise what the policy says. */
  lemma MeaningOfColumn(s: seq<char>, limit: nat, negative: bool, policy: Policy, j: nat)
    requires j <= Digits(s) && Value(s[..j]) <= limit && (j < Digits(s) ==> limit < Value(s[..j + 1]))
    ensures var x := if negative then 0 - Value(s[..j]) else Value(s[..j]);
            Meaning(s, limit, negative, policy) ==
            if j == |s| then Parsed(x)
            else if !IsDigit(s[j]) then NoDigit
            else if policy == IgnoreOverflow then Parsed(x)
            else if policy == SetToMaxOnOverflow then Parsed(if negative then 0 - limit else limit)
            else if negative then IntegerUnderflow else IntegerOverflow
  {
    hide Value, Digits, Fitting;
    if j < Digits(s) {
      ValueOfNothing(s);
      FittingStops(s, limit, 0, j);
      ValueGrows(s, j + 1, Digits(s));
    } else if j == |s| {
      assert s[..j] == s;
    }
  }

  /** For a string of digits: the policy is called exactly when the value does not fit, and set-to-max clamps. */
  lemma DigitsMeaning(s: seq<char>, limit: nat, negative: bool)
    requires Digits(s) == |s|
    ensures Meaning(s, limit, negative, ThrowOnOverflow) ==
            if Value(s) <= limit then Parsed(if negative then 0 - Value(s) else Value(s))
            else if negative then IntegerUnderflow else IntegerOverflow
    ensures Meaning(s, limit, negative, SetToMaxOnOverflow) ==
            var n := if Value(s) <= limit then Value(s) else limit;
            Parsed(if negative then 0 - n else n)
  {
    assert s[..|s|] == s;
  }
}
