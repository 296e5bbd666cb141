/** Character classes of the recognisers, and longest runs of one class. */
module Chars {
  predicate IsNum(c: char) { '0' <= c <= '9' }

  predicate IsAlpha(c: char) { 'a' <= c <= 'z' || 'A' <= c <= 'Z' }

  predicate IsAlphaNum(c: char) { IsAlpha(c) || IsNum(c) }

  predicate IsHexDigit(c: char) { IsNum(c) || 'a' <= c <= 'f' || 'A' <= c <= 'F' }

  predicate StartsWith(p: char -> bool, s: string) { s != "" && p(s[0]) }

  /** The length of the longest prefix of `s` whose characters all satisfy `p`. */
  function Span(p: char -> bool, s: string): (n: nat)
    ensures n <= |s|
    ensures forall i | 0 <= i < n :: p(s[i])
    ensures n < |s| ==> !p(s[n])
  {
    if s == "" || !p(s[0]) then 0
    else
      var m := Span(p, s[1..]);
      assert forall i | 0 < i < m + 1 :: s[i] == s[1..][i - 1];
      m + 1
  }

  lemma SpanUnique(p: char -> bool, s: string, n: nat)
    requires n <= |s|
    requires forall i | 0 <= i < n :: p(s[i])
    requires n < |s| ==> !p(s[n])
    ensures Span(p, s) == n
  {
    var m := Span(p, s);
    assert m < |s| ==> !p(s[m]);
    assert n < |s| ==> !p(s[n]);
  }

  lemma SpanAtLeast(p: char -> bool, s: string, n: nat)
    requires n <= |s|
    requires forall i | 0 <= i < n :: p(s[i])
    ensures n <= Span(p, s)
  {
    var m := Span(p, s);
    assert m < |s| ==> !p(s[m]);
  }

  /** A run `t` followed by something outside the class is the longest run. */
  lemma SpanConcat(p: char -> bool, t: string, r: string)
    requires forall i | 0 <= i < |t| :: p(t[i])
    requires !StartsWith(p, r)
    ensures Span(p, t + r) == |t|
    ensures (t + r)[..|t|] == t && (t + r)[|t|..] == r
  {
    SpanUnique(p, t + r, |t|);
  }
}
