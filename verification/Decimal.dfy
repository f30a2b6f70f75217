/** Decimal digit strings and their values. */
module Decimal {

  predicate IsDigit(c: char) {
    '0' <= c <= '9'
  }

  function DigitValue(c: char): (d: nat)
    ensures IsDigit(c) ==> d < 10
  {
    if IsDigit(c) then c as int - '0' as int else 0
  }

  /** The length of the digits that start the text. */
  function Digits(s: seq<char>): (k: nat)
    ensures k <= |s|
    ensures forall i :: 0 <= i < k ==> IsDigit(s[i])
    ensures k < |s| ==> !IsDigit(s[k])
  {
    if s == [] || !IsDigit(s[0]) then 0 else 1 + Digits(s[1..])
  }

  function Value(s: seq<char>): nat {
    if s == [] then 0 else Value(s[..|s| - 1]) * 10 + DigitValue(s[|s| - 1])
  }

  /** A number in decimal, without leading zeros. */
  function Printed(n: nat): seq<char> {
    (if n < 10 then [] else Printed(n / 10)) + [('0' as nat + n % 10) as char]
  }

  /** Reading undoes printing, for every number. */
  lemma {:induction false} PrintedIsRead(n: nat)
    ensures Value(Printed(n)) == n && Digits(Printed(n)) == |Printed(n)|
  {
    var s, last := Printed(n), ('0' as nat + n % 10) as char;
    assert IsDigit(last) && DigitValue(last) == n % 10;
    assert s[..|s| - 1] == if n < 10 then [] else Printed(n / 10);
    if n >= 10 {
      PrintedIsRead(n / 10);
    }
    forall i | 0 <= i < |s|
      ensures IsDigit(s[i])
    {
      assert i < |s| - 1 ==> s[i] == Printed(n / 10)[i];
    }
    DigitsAre(s, |s|);
  }

  lemma ValueStep(s: seq<char>, k: nat)
    requires k < |s|
    ensures Value(s[..k + 1]) == Value(s[..k]) * 10 + DigitValue(s[k])
  {
    assert s[..k + 1][..k] == s[..k];
  }

  /** More digits never make a smaller number. */
  lemma {:induction false} ValueGrows(s: seq<char>, k: nat, n: nat)
    requires k <= n <= |s|
    ensures Value(s[..k]) <= Value(s[..n])
    decreases n - k
  {
    if k < n {
      ValueStep(s, n - 1);
      ValueGrows(s, k, n - 1);
    }
  }

  lemma DigitsAre(s: seq<char>, k: nat)
    requires k <= |s| && (forall i :: 0 <= i < k ==> IsDigit(s[i])) && (k < |s| ==> !IsDigit(s[k]))
    ensures Digits(s) == k
  {
  }
}
