/** Decimal and hexadecimal numerals: values, canonical spelling, digit counts. */
module Numerals {
  import opened Chars

  function Pow(b: nat, e: nat): nat
  {
    if e == 0 then 1 else b * Pow(b, e - 1)
  }

  function DecimalDigitValue(c: char): (v: nat)
    requires IsNum(c)
    ensures v < 10
  {
    c as int - '0' as int
  }

  function DecimalDigit(v: nat): (c: char)
    requires v < 10
    ensures IsNum(c) && DecimalDigitValue(c) == v
  {
    (v + '0' as int) as char
  }

  function HexDigitValue(c: char): (v: nat)
    requires IsHexDigit(c)
    ensures v < 16
  {
    if IsNum(c) then c as int - '0' as int
    else if 'a' <= c <= 'f' then c as int - 'a' as int + 10
    else c as int - 'A' as int + 10
  }

  const DIGITS := "0123456789abcdef"

  /** The lower-case spelling of a hexadecimal digit. */
  function Lower(c: char): char
  {
    if c == 'A' then 'a' else if c == 'B' then 'b' else if c == 'C' then 'c'
    else if c == 'D' then 'd' else if c == 'E' then 'e' else if c == 'F' then 'f' else c
  }

  /** A digit is found at the index of its value in the list of digits, in either case. */
  lemma DigitTable(c: char)
    ensures IsNum(c) ==> DIGITS[DecimalDigitValue(c)] == c
    ensures IsHexDigit(c) ==> DIGITS[HexDigitValue(c)] == Lower(c)
  {
  }

  predicate AllNum(s: string) { forall i | 0 <= i < |s| :: IsNum(s[i]) }

  predicate AllHex(s: string) { forall i | 0 <= i < |s| :: IsHexDigit(s[i]) }

  function DecValue(s: string): nat
    requires AllNum(s)
  {
    if s == "" then 0 else 10 * DecValue(s[..|s| - 1]) + DecimalDigitValue(s[|s| - 1])
  }

  function HexValue(s: string): nat
    requires AllHex(s)
  {
    if s == "" then 0 else 16 * HexValue(s[..|s| - 1]) + HexDigitValue(s[|s| - 1])
  }

  /** The canonical decimal numeral of `n`: no leading zero. */
  function Dec(n: nat): (s: string)
    ensures s != "" && AllNum(s)
  {
    if n < 10 then [DecimalDigit(n)] else Dec(n / 10) + [DecimalDigit(n % 10)]
  }

  predicate Canonical(s: string)
  {
    s != "" && AllNum(s) && (s[0] == '0' ==> |s| == 1)
  }

  lemma {:induction false} DecCanonical(n: nat)
    ensures Canonical(Dec(n)) && DecValue(Dec(n)) == n
    ensures n > 0 ==> Dec(n)[0] != '0'
  {
    if n >= 10 {
      DecCanonical(n / 10);
      assert Dec(n)[..|Dec(n)| - 1] == Dec(n / 10);
    } else {
      assert Dec(n)[..0] == "";
    }
  }

  lemma {:induction false} DecOfCanonical(s: string)
    requires Canonical(s)
    ensures Dec(DecValue(s)) == s
    ensures |s| > 1 ==> DecValue(s) >= 10
    ensures s[0] != '0' ==> DecValue(s) > 0
  {
    var t := s[..|s| - 1];
    assert s == t + [s[|s| - 1]];
    if t == "" {
      assert DecValue(t) == 0;
    } else {
      assert Canonical(t) && t[0] == s[0];
      DecOfCanonical(t);
    }
  }

  lemma {:induction false} DecLengthMonotone(a: nat, b: nat)
    requires a <= b
    ensures |Dec(a)| <= |Dec(b)|
  {
    if a >= 10 {
      DecLengthMonotone(a / 10, b / 10);
    }
  }

  lemma DecInjective(a: nat, b: nat)
    requires Dec(a) == Dec(b)
    ensures a == b
  {
    DecCanonical(a);
    DecCanonical(b);
  }

  lemma {:induction false} DecValueBound(s: string)
    requires AllNum(s)
    ensures DecValue(s) < Pow(10, |s|)
  {
    if s != "" {
      DecValueBound(s[..|s| - 1]);
    }
  }

  lemma {:induction false} HexValueBound(s: string)
    requires AllHex(s)
    ensures HexValue(s) < Pow(16, |s|)
  {
    if s != "" {
      HexValueBound(s[..|s| - 1]);
    }
  }

  /** The number of hexadecimal digits of `n`, at least one. */
  function HexLength(n: nat): (k: nat)
    ensures k >= 1
  {
    if n < 16 then 1 else HexLength(n / 16) + 1
  }

  /** A digit of the numerals that `HexPrint` spells. */
  function HexDigit(v: nat): (c: char)
    requires v < 16
    ensures IsHexDigit(c) && HexDigitValue(c) == v
  {
    if v < 10 then ('0' as int + v) as char else ('a' as int + v - 10) as char
  }

  /** The lower-case hexadecimal numeral of `n` without leading zeros. */
  function HexPrint(n: nat): (s: string)
    ensures s != "" && AllHex(s)
  {
    if n < 16 then [HexDigit(n)] else HexPrint(n / 16) + [HexDigit(n % 16)]
  }

  lemma {:induction false} HexPrintValue(n: nat)
    ensures HexValue(HexPrint(n)) == n && |HexPrint(n)| == HexLength(n)
  {
    var s := HexPrint(n);
    if n >= 16 {
      HexPrintValue(n / 16);
      assert s[..|s| - 1] == HexPrint(n / 16);
    } else {
      assert s[..0] == "";
    }
  }

  /** `s` spells the numeral `t` in any letter case, perhaps after zeros. */
  predicate Spelling(s: string, t: string)
  {
    && |t| <= |s| && (forall i | 0 <= i < |s| - |t| :: s[i] == '0')
    && forall i | 0 <= i < |t| :: Lower(s[|s| - |t| + i]) == t[i]
  }

  /** The value of a hexadecimal numeral is the number whose canonical numeral it spells, in any
      letter case and with any leading zeros. */
  lemma {:induction false} HexSpelling(s: string, n: nat)
    requires s != "" && AllHex(s)
    ensures HexValue(s) == n <==> Spelling(s, HexPrint(n))
  {
    SpellsItsValue(s);
    if Spelling(s, HexPrint(n)) {
      SpellingValue(s, HexPrint(n));
      HexPrintValue(n);
    }
  }

  lemma {:induction false} SpellsItsValue(s: string)
    requires s != "" && AllHex(s)
    ensures Spelling(s, HexPrint(HexValue(s)))
  {
    hide HexPrint, Spelling;
    var t, c := s[..|s| - 1], s[|s| - 1];
    assert s == t + [c];
    if t == "" {
      assert HexValue(t) == 0;
      FirstSpelled(t, c);
    } else {
      SpellsItsValue(t);
      NextSpelled(t, c, HexValue(t));
    }
  }

  lemma FirstSpelled(t: string, c: char)
    requires IsHexDigit(c) && forall i | 0 <= i < |t| :: t[i] == '0'
    ensures Spelling(t + [c], HexPrint(HexDigitValue(c)))
  {
    hide Spelling;
    DigitTable(c);
    PrintedDigit(HexDigitValue(c));
    SpellsDigit(t, c);
  }

  lemma NextSpelled(t: string, c: char, n: nat)
    requires IsHexDigit(c) && t != "" && Spelling(t, HexPrint(n))
    ensures Spelling(t + [c], HexPrint(16 * n + HexDigitValue(c)))
  {
    hide Spelling, HexPrint;
    PrintNext(n, HexDigitValue(c));
    if n == 0 {
      PrintedDigit(0);
      PrintNext(0, 0);
      assert HexPrint(0) == [DIGITS[0]] == "0";
      SpellsZero(t);
      FirstSpelled(t, c);
    } else {
      DigitTable(c);
      PrintedDigit(HexDigitValue(c));
      SpellsNext(t, HexPrint(n), c);
    }
  }

  lemma PrintNext(n: nat, d: nat)
    requires d < 16
    ensures HexPrint(16 * n + d) == if n == 0 then [HexDigit(d)] else HexPrint(n) + [HexDigit(d)]
  {
    assert (16 * n + d) / 16 == n && (16 * n + d) % 16 == d;
  }

  lemma SpellsDigit(t: string, c: char)
    requires forall i | 0 <= i < |t| :: t[i] == '0'
    ensures Spelling(t + [c], [Lower(c)])
  {
  }

  lemma SpellsZero(t: string)
    requires t != "" && Spelling(t, "0")
    ensures forall i | 0 <= i < |t| :: t[i] == '0'
  {
    assert Lower(t[|t| - 1 + 0]) == "0"[0];
  }

  lemma SpellsNext(t: string, p: string, c: char)
    requires Spelling(t, p)
    ensures Spelling(t + [c], p + [Lower(c)])
  {
    var s, q := t + [c], p + [Lower(c)];
    forall i | 0 <= i < |q| ensures Lower(s[|s| - |q| + i]) == q[i] {
      if i < |p| {
        assert s[|s| - |q| + i] == t[|t| - |p| + i];
      }
    }
  }

  lemma PrintedDigit(v: nat)
    requires v < 16
    ensures HexDigit(v) == DIGITS[v]
  {
    DigitTable(HexDigit(v));
  }

  lemma {:induction false} SpellingValue(s: string, p: string)
    requires AllHex(s) && AllHex(p) && Spelling(s, p)
    ensures HexValue(s) == HexValue(p)
  {
    if s != "" {
      var t, c := s[..|s| - 1], s[|s| - 1];
      if p == "" {
        SpellingValue(t, p);
      } else {
        var q := p[..|p| - 1];
        assert Lower(s[|s| - |p| + (|p| - 1)]) == p[|p| - 1];
        assert forall i | 0 <= i < |q| :: s[|s| - |p| + i] == t[|t| - |q| + i] && q[i] == p[i];
        SpellingValue(t, q);
      }
    }
  }

  lemma PowTable(i: nat)
    ensures i <= 3 ==> Pow(10, i) <= 1000
    ensures i <= 4 ==> Pow(16, i) <= 0x1_0000
  {
    assert Pow(10, 0) == 1 && Pow(10, 1) == 10 && Pow(10, 2) == 100 && Pow(10, 3) == 1000;
    assert Pow(16, 0) == 1 && Pow(16, 1) == 16 && Pow(16, 2) == 256;
    assert Pow(16, 3) == 0x1000 && Pow(16, 4) == 0x1_0000;
  }

  /** calculateDecimalDigits: divide by ten until nothing is left. */
  method CalculateDecimalDigits(value: nat) returns (digits: nat)
    ensures digits == |Dec(value)|
  {
    var i, v := 0, value;
    while v != 0
      invariant v == 0 ==> (i == 0 && value == 0) || i == |Dec(value)|
      invariant v != 0 ==> i + |Dec(v)| == |Dec(value)|
    {
      v := v / 10;
      i := i + 1;
    }
    digits := if i < 1 then 1 else i;
  }

  /** calculateHexadecimalDigits: shift right by four until nothing is left. */
  method CalculateHexadecimalDigits(value: nat) returns (digits: nat)
    ensures digits == HexLength(value)
  {
    var i, v := 0, value;
    while v != 0
      invariant v == 0 ==> (i == 0 && value == 0) || i == HexLength(value)
      invariant v != 0 ==> i + HexLength(v) == HexLength(value)
    {
      v := v / 16;
      i := i + 1;
    }
    digits := if i < 1 then 1 else i;
  }
}
