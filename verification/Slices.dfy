/** Slices of slices, and regrouping. */
module Slices {

  lemma SliceSlice<T>(s: seq<T>, i: nat, j: nat, a: nat, b: nat)
    requires i <= j <= |s| && a <= b <= j - i
    ensures s[i..j][a..b] == s[i + a..i + b]
  {
    var x, y := s[i..j][a..b], s[i + a..i + b];
    assert |x| == |y|;
    forall k | 0 <= k < |x| ensures x[k] == y[k] {
    }
  }

  /** Equal prefixes have equal slices. */
  lemma SliceOfPrefix<T>(s: seq<T>, t: seq<T>, k: nat, a: nat, b: nat)
    requires a <= b <= k <= |s| && k <= |t| && s[..k] == t[..k]
    ensures s[a..b] == t[a..b]
  {
    SliceSlice(s, 0, k, a, b);
    SliceSlice(t, 0, k, a, b);
    assert s[0..k] == s[..k] && t[0..k] == t[..k];
  }

  /** Equal suffixes have equal slices. */
  lemma SliceOfSuffix<T>(s: seq<T>, t: seq<T>, k: nat, a: nat, b: nat)
    requires k <= a <= b <= |s| == |t| && s[k..] == t[k..]
    ensures s[a..b] == t[a..b]
  {
    SliceSlice(s, k, |s|, a - k, b - k);
    SliceSlice(t, k, |t|, a - k, b - k);
    assert s[k..|s|] == s[k..] && t[k..|t|] == t[k..];
  }

  lemma Regroup<T>(a: seq<T>, b: seq<T>, c: seq<T>)
    ensures a + b + c == a + (b + c)
  {
  }
}
