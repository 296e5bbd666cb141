/** The cursor shared by every recogniser: an unread suffix that is advanced in place. */
module Parsing {
  import opened Chars
  import opened Numerals

  /** `unsigned` of the source; every operation on it is checked not to wrap. */
  newtype uint32 = x: int | 0 <= x < 0x1_0000_0000

  /** The maximal digit run at the head of `s`. */
  function DigitRun(s: string): (t: string)
    ensures AllNum(t) && t <= s
  {
    s[..Span(IsNum, s)]
  }

  function HexRun(s: string): (t: string)
    ensures AllHex(t) && t <= s
  {
    s[..Span(IsHexDigit, s)]
  }

  /** The maximal digit run is a canonical numeral of at most `maxValue`. */
  ghost predicate DecimalAt(s: string, maxValue: nat)
  {
    exists v: nat :: v <= maxValue && DigitRun(s) == Dec(v)
  }

  predicate HexAt(s: string, maxValue: nat, minDigits: nat)
  {
    minDigits <= |HexRun(s)| <= HexLength(maxValue) && HexRun(s) != "" && HexValue(HexRun(s)) <= maxValue
  }

  lemma DecimalAtLeadingZero(s: string, maxValue: nat)
    requires |s| > 1 && s[0] == '0' && IsNum(s[1])
    ensures !DecimalAt(s, maxValue)
  {
    SpanAtLeast(IsNum, s, 2);
    forall v: nat ensures DigitRun(s) != Dec(v) {
      DecCanonical(v);
    }
  }

  /** What the scan of `i` leading digits of `s` decides once it stops: at a non-digit, or
      one digit past the longest numeral that can be in range. */
  lemma DecimalScan(s: string, i: nat, maxValue: nat)
    requires 1 <= i <= |s| && AllNum(s[..i]) && Canonical(s[..i])
    requires i > |Dec(maxValue)| || i == |s| || !IsNum(s[i])
    ensures DecimalAt(s, maxValue) <==> i <= |Dec(maxValue)| && DecValue(s[..i]) <= maxValue
    ensures i <= |Dec(maxValue)| ==> DigitRun(s) == s[..i] == Dec(DecValue(s[..i]))
  {
    assert forall k | 0 <= k < i :: s[..i][k] == s[k];
    if i > |Dec(maxValue)| {
      SpanAtLeast(IsNum, s, i);
      forall v: nat | v <= maxValue ensures DigitRun(s) != Dec(v) {
        DecLengthMonotone(v, maxValue);
      }
    } else {
      SpanUnique(IsNum, s, i);
      DecOfCanonical(s[..i]);
      forall v: nat | DigitRun(s) == Dec(v) ensures v == DecValue(s[..i]) {
        DecCanonical(v);
      }
    }
  }

  /** One more digit after at most three: the accumulator stays below 10000. */
  lemma DecStep(s: string, i: nat)
    requires i < |s| && i <= 3 && AllNum(s[..i]) && IsNum(s[i])
    ensures AllNum(s[..i + 1])
    ensures DecValue(s[..i + 1]) == 10 * DecValue(s[..i]) + DecimalDigitValue(s[i]) < 10000
  {
    assert s[..i + 1][..i] == s[..i];
    DecValueBound(s[..i]);
    PowTable(i);
  }

  lemma HexStep(s: string, i: nat)
    requires i < |s| && i <= 4 && AllHex(s[..i]) && IsHexDigit(s[i])
    ensures AllHex(s[..i + 1])
    ensures HexValue(s[..i + 1]) == 16 * HexValue(s[..i]) + HexDigitValue(s[i]) < 0x10_0000
  {
    assert s[..i + 1][..i] == s[..i];
    HexValueBound(s[..i]);
    PowTable(i);
  }

  lemma DecOfByteLength(n: nat)
    requires n <= 255
    ensures 1 <= |Dec(n)| <= 3
  {
    if n >= 10 && n / 10 >= 10 {
      assert n / 10 / 10 < 10;
      assert |Dec(n / 10 / 10)| == 1;
    }
  }

  lemma HexLengthAtMostFour(n: nat)
    requires n <= 0xffff
    ensures HexLength(n) <= 4
  {
    var m := n / 16;
    var k := m / 16;
    assert k / 16 < 16;
    assert HexLength(k) <= 2;
    assert HexLength(m) <= 3;
  }

  class ParserCommon {
    var str: string

    constructor (s: string)
      ensures str == s
    {
      str := s;
    }

    /** Consumes one character of the class `cls`. */
    method Consume(cls: char -> bool) returns (ok: bool)
      modifies this
      ensures ok == StartsWith(cls, old(str))
      ensures str == if ok then old(str)[1..] else old(str)
    {
      if str == "" || !cls(str[0]) {
        return false;
      }
      str := str[1..];
      return true;
    }

    method ConsumeChar(c: char) returns (ok: bool)
      modifies this
      ensures ok == ([c] <= old(str))
      ensures str == if ok then old(str)[1..] else old(str)
    {
      ok := Consume(x => x == c);
    }

    method ConsumeSequence(cs: string) returns (ok: bool)
      modifies this
      ensures ok == (cs <= old(str))
      ensures str == if ok then old(str)[|cs|..] else old(str)
    {
      if |str| < |cs| {
        return false;
      }
      for i := 0 to |cs|
        invariant forall k | 0 <= k < i :: str[k] == cs[k]
        invariant str == old(str)
      {
        if str[i] != cs[i] {
          return false;
        }
      }
      str := str[|cs|..];
      return true;
    }

    /** The inner loop of parseDecimalNumber, entered on a nonzero digit with another digit
        behind it. The early exit keeps the 32-bit accumulator from wrapping. */
    method ScanDecimal(maxDigits: nat) returns (i: nat, value: uint32)
      requires 1 <= maxDigits <= 3
      requires |str| > 1 && IsNum(str[0]) && IsNum(str[1])
      ensures 1 <= i <= |str| && AllNum(str[..i]) && value as nat == DecValue(str[..i])
      ensures i > maxDigits || i == |str| || !IsNum(str[i])
    {
      i, value := 1, DecimalDigitValue(str[0]) as uint32;
      assert str[..1][..0] == "";
      var more := true;
      while more
        invariant 1 <= i <= maxDigits + 1 && i <= |str|
        invariant more ==> i <= maxDigits && i < |str| && IsNum(str[i])
        invariant !more ==> i > maxDigits || i == |str| || !IsNum(str[i])
        invariant AllNum(str[..i]) && value as nat == DecValue(str[..i])
        decreases |str| - i, more
      {
        DecStep(str, i);
        var digitValue := DecimalDigitValue(str[i]) as uint32;
        i := i + 1;
        value := value * 10;
        value := value + digitValue;
        more := i <= maxDigits && |str| > i && IsNum(str[i]);
      }
    }

    /** parseDecimalNumber<uint8_t, maxValue>: no leading zero, at most `maxValue`. */
    method ParseDecimalNumber(maxValue: nat) returns (ok: bool, outputValue: nat)
      requires maxValue <= 255
      modifies this
      ensures ok <==> DecimalAt(old(str), maxValue)
      ensures ok ==> outputValue <= maxValue && DigitRun(old(str)) == Dec(outputValue)
      ensures ok ==> old(str) == Dec(outputValue) + str
      ensures !ok ==> str == old(str)
    {
      var maxDigits := CalculateDecimalDigits(maxValue);
      if str == "" || !IsNum(str[0]) {
        assert DigitRun(str) == "";
        return false, 0;
      }
      DecOfByteLength(maxValue);
      var i := 1;
      var value: uint32 := DecimalDigitValue(str[0]) as uint32;
      assert str[..1][..0] == "";
      if |str| > i && IsNum(str[i]) {
        if value == 0 {
          DecimalAtLeadingZero(str, maxValue);
          return false, 0;
        }
        i, value := ScanDecimal(maxDigits);
      }
      DecimalScan(str, i, maxValue);
      if i > maxDigits || value as nat > maxValue {
        return false, 0;
      }
      assert str == str[..i] + str[i..];
      str := str[i..];
      return true, value as nat;
    }

    /** parseHexadecimalNumber<T, maxValue, minDigits>: takes the maximal run of digits. */
    method ParseHexadecimalNumber(maxValue: nat, minDigits: nat) returns (ok: bool, outputValue: nat)
      requires maxValue <= 0xffff
      modifies this
      ensures ok <==> HexAt(old(str), maxValue, minDigits)
      ensures ok ==> outputValue == HexValue(HexRun(old(str)))
      ensures str == if ok then old(str)[|HexRun(old(str))|..] else old(str)
    {
      outputValue := 0;
      var maxDigits := CalculateHexadecimalDigits(maxValue);
      if str == "" || !IsHexDigit(str[0]) {
        return false, 0;
      }
      var i := 1;
      var value: uint32 := HexDigitValue(str[0]) as uint32;
      HexLengthAtMostFour(maxValue);
      assert str[..1][..0] == "";
      while i <= maxDigits && |str| > i && IsHexDigit(str[i])
        invariant 1 <= i <= maxDigits + 1 && i <= |str| && str == old(str)
        invariant AllHex(str[..i]) && value as nat == HexValue(str[..i])
        decreases |str| - i
      {
        HexStep(str, i);
        var digitValue := HexDigitValue(str[i]) as uint32;
        i := i + 1;
        value := value * 16;
        value := value + digitValue;
      }
      if i > maxDigits {
        SpanAtLeast(IsHexDigit, str, i);
        return false, 0;
      }
      SpanUnique(IsHexDigit, str, i);
      if value as nat > maxValue || i < minDigits {
        return false, 0;
      }
      str := str[i..];
      return true, value as nat;
    }
  }
}
