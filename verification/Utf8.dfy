/** Percent-encoded UTF-8: the code points the URI parser takes and how it reads them. */
module Utf8 {
  import opened Wrappers
  import opened Chars
  import opened Numerals
  import opened Parsing
  import opened Bits

  /** The largest value the check on a leading 0xf4 byte lets through; Unicode ends at
      0x10FFFF. */
  const MAX_TAKEN: nat := 0x110FFF

  /** The shortest-form encoding of section 3 of RFC 3629, continued past 0x10FFFF. */
  function Encode(cp: nat): seq<nat>
  {
    if cp < 0x80 then [cp]
    else if cp < 0x800 then [0xC0 + cp / 64, 0x80 + cp % 64]
    else if cp < 0x1_0000 then [0xE0 + cp / 64 / 64, 0x80 + cp / 64 % 64, 0x80 + cp % 64]
    else [0xF0 + cp / 64 / 64 / 64, 0x80 + cp / 64 / 64 % 64, 0x80 + cp / 64 % 64, 0x80 + cp % 64]
  }

  /** `t` spells the bytes `bs`, each as a percent sign and two hexadecimal digits. */
  predicate Spells(t: string, bs: seq<nat>)
  {
    if bs == [] then t == ""
    else
      && |t| >= 3 && t[0] == '%' && IsHexDigit(t[1]) && IsHexDigit(t[2])
      && 16 * HexDigitValue(t[1]) + HexDigitValue(t[2]) == bs[0]
      && Spells(t[3..], bs[1..])
  }

  /** One percent-encoded code point. */
  ghost predicate PctCodePoint(t: string)
  {
    exists cp: nat :: cp <= MAX_TAKEN && Spells(t, Encode(cp))
  }

  // ---------------------------------------------------------------- reading

  /** A percent-encoded byte. A third hexadecimal digit makes the run too long. */
  function ReadByte(s: string): Option<(nat, string)>
  {
    if |s| >= 3 && s[0] == '%' && IsHexDigit(s[1]) && IsHexDigit(s[2]) && !StartsWith(IsHexDigit, s[3..])
    then Some((16 * HexDigitValue(s[1]) + HexDigitValue(s[2]), s[3..]))
    else None
  }

  /** The number of bytes announced by the first one. */
  function SizeOf(b: nat): Option<nat>
  {
    if b <= 0x7f then Some(1)
    else if 0xc2 <= b <= 0xdf then Some(2)
    else if 0xe0 <= b <= 0xef then Some(3)
    else if 0xf0 <= b <= 0xf4 then Some(4)
    else None
  }

  predicate IsContinuation(b: nat) { And(b, 0xC0) == 0x80 }

  /** `n` continuation bytes. */
  function ReadTail(s: string, n: nat): Option<(seq<nat>, string)>
  {
    if n == 0 then Some(([], s))
    else
      match ReadByte(s)
      case None => None
      case Some((b, r)) =>
        if !IsContinuation(b) then None
        else
          match ReadTail(r, n - 1)
          case None => None
          case Some((bs, e)) => Some(([b] + bs, e))
  }

  predicate Refused(b0: nat, b1: nat)
  {
    (b0 == 0xe0 && b1 < 0xa0) || (b0 == 0xf0 && b1 < 0x90) || (b0 == 0xf4 && b1 > 0x90)
  }

  function ReadCodePoint(s: string): Option<string>
  {
    match ReadByte(s)
    case None => None
    case Some((b, r)) =>
      match SizeOf(b)
      case None => None
      case Some(n) =>
        match ReadTail(r, n - 1)
        case None => None
        case Some((bs, e)) => if n > 1 && Refused(b, bs[0]) then None else Some(e)
  }

  // ---------------------------------------------------------------- bytes of one code point

  /** What the checks of the parser demand of the bytes. */
  predicate Accepted(bs: seq<nat>)
  {
    && bs != [] && SizeOf(bs[0]) == Some(|bs|)
    && (forall i | 1 <= i < |bs| :: 0x80 <= bs[i] < 0xC0)
    && (|bs| > 1 ==> !Refused(bs[0], bs[1]))
  }

  function Decode(bs: seq<nat>): nat
    requires Accepted(bs)
  {
    if |bs| == 1 then bs[0]
    else if |bs| == 2 then (bs[0] - 0xC0) * 64 + (bs[1] - 0x80)
    else if |bs| == 3 then ((bs[0] - 0xE0) * 64 + (bs[1] - 0x80)) * 64 + (bs[2] - 0x80)
    else (((bs[0] - 0xF0) * 64 + (bs[1] - 0x80)) * 64 + (bs[2] - 0x80)) * 64 + (bs[3] - 0x80)
  }

  lemma Digits64(a: nat, b: nat)
    requires b < 64
    ensures (a * 64 + b) / 64 == a && (a * 64 + b) % 64 == b
  {
  }

  /** The accepted byte sequences are the encodings of 0..0x110FFF, each of exactly one. */
  lemma EncodeDecode(cp: nat)
    requires cp <= MAX_TAKEN
    ensures Accepted(Encode(cp)) && Decode(Encode(cp)) == cp
  {
  }

  lemma DecodeEncode(bs: seq<nat>)
    requires Accepted(bs)
    ensures Decode(bs) <= MAX_TAKEN && Encode(Decode(bs)) == bs
  {
    hide Encode, Decode;
    if |bs| <= 2 {
      DecodeEncodeShort(bs);
    } else if |bs| == 3 {
      DecodeEncodeThree(bs);
    } else {
      DecodeEncodeFour(bs);
    }
  }

  lemma DecodeEncodeShort(bs: seq<nat>)
    requires Accepted(bs) && |bs| <= 2
    ensures Decode(bs) <= MAX_TAKEN && Encode(Decode(bs)) == bs
  {
    if |bs| == 1 {
      assert bs == [bs[0]];
    } else {
      Digits64(bs[0] - 0xC0, bs[1] - 0x80);
      assert bs == [bs[0], bs[1]];
    }
  }

  lemma DecodeEncodeThree(bs: seq<nat>)
    requires Accepted(bs) && |bs| == 3
    ensures Decode(bs) <= MAX_TAKEN && Encode(Decode(bs)) == bs
  {
    var top := (bs[0] - 0xE0) * 64 + (bs[1] - 0x80);
    assert 0x20 <= top < 0x400;
    Digits64(bs[0] - 0xE0, bs[1] - 0x80);
    Digits64(top, bs[2] - 0x80);
    assert bs == [bs[0], bs[1], bs[2]];
  }

  lemma DecodeEncodeFour(bs: seq<nat>)
    requires Accepted(bs) && |bs| == 4
    ensures Decode(bs) <= MAX_TAKEN && Encode(Decode(bs)) == bs
  {
    var top := (bs[0] - 0xF0) * 64 + (bs[1] - 0x80);
    var mid := top * 64 + (bs[2] - 0x80);
    assert 0x10 <= top <= 0x110;
    Digits64(bs[0] - 0xF0, bs[1] - 0x80);
    Digits64(top, bs[2] - 0x80);
    Digits64(mid, bs[3] - 0x80);
    assert bs == [bs[0], bs[1], bs[2], bs[3]];
  }

  /** (b & 0b1100'0000) == 0b1000'0000 */
  lemma TopBits(b: nat)
    requires b < 256
    ensures IsContinuation(b) <==> 0x80 <= b < 0xC0
  {
    hide And;
    var q := b / 8;
    AndEighth(b, 24);
    AndEighth(q, 3);
    assert Ones(2) == 3 && Pow2(2) == 4;
    AndLowBits(q / 8, 2);
  }

  lemma AndEighth(a: nat, m: nat)
    ensures And(a, 8 * m) == 8 * And(a / 8, m)
  {
    hide And;
    AndEven(a, 4 * m);
    AndEven(a / 2, 2 * m);
    AndEven(a / 2 / 2, m);
    assert a / 2 / 2 / 2 == a / 8;
  }

  lemma AndEven(a: nat, m: nat)
    ensures And(a, 2 * m) == 2 * And(a / 2, m)
  {
    if a > 0 && m > 0 {
      hide And;
      AndUnfold(a, 2 * m);
    }
  }

  // ---------------------------------------------------------------- sound and complete

  lemma {:induction false} TailSound(s: string, n: nat) returns (t: string)
    requires ReadTail(s, n).Some?
    ensures var (bs, r) := ReadTail(s, n).value;
      && s == t + r && Spells(t, bs) && |bs| == n && (n > 0 ==> !StartsWith(IsHexDigit, r))
      && forall i | 0 <= i < n :: 0x80 <= bs[i] < 0xC0
  {
    if n == 0 {
      t := "";
    } else {
      var (b, r) := ReadByte(s).value;
      TopBits(b);
      var u := TailSound(r, n - 1);
      t := s[..3] + u;
      assert t[3..] == u;
      assert ([b] + ReadTail(r, n - 1).value.0)[1..] == ReadTail(r, n - 1).value.0;
    }
  }

  lemma {:induction false} TailComplete(t: string, bs: seq<nat>, r: string)
    requires Spells(t, bs) && !StartsWith(IsHexDigit, r)
    requires forall i | 0 <= i < |bs| :: 0x80 <= bs[i] < 0xC0
    ensures ReadTail(t + r, |bs|) == Some((bs, r))
  {
    if bs != [] {
      TailComplete(t[3..], bs[1..], r);
      ByteComplete(t, bs, r);
      TopBits(bs[0]);
      assert bs == [bs[0]] + bs[1..];
    } else {
      assert t + r == r;
    }
  }

  lemma ByteComplete(t: string, bs: seq<nat>, r: string)
    requires bs != [] && Spells(t, bs) && !StartsWith(IsHexDigit, r)
    ensures ReadByte(t + r) == Some((bs[0], t[3..] + r))
  {
    assert (t + r)[3..] == t[3..] + r;
    assert t[3..] != "" ==> t[3] == '%';
  }

  lemma CodePointSound(s: string) returns (t: string)
    requires ReadCodePoint(s).Some?
    ensures s == t + ReadCodePoint(s).value && t != "" && PctCodePoint(t)
    ensures !StartsWith(IsHexDigit, ReadCodePoint(s).value)
  {
    hide ReadTail, Encode, Decode;
    var (b, r) := ReadByte(s).value;
    var n := SizeOf(b).value;
    var u := TailSound(r, n - 1);
    var bs := ReadTail(r, n - 1).value.0;
    t := s[..3] + u;
    SpellsCons(t, b, bs);
    DecodeEncode([b] + bs);
    assert Spells(t, Encode(Decode([b] + bs)));
  }

  lemma SpellsCons(t: string, b: nat, bs: seq<nat>)
    requires |t| >= 3 && t[0] == '%' && IsHexDigit(t[1]) && IsHexDigit(t[2])
    requires 16 * HexDigitValue(t[1]) + HexDigitValue(t[2]) == b && Spells(t[3..], bs)
    ensures Spells(t, [b] + bs)
  {
    assert ([b] + bs)[1..] == bs;
  }

  lemma CodePointComplete(t: string, r: string)
    requires PctCodePoint(t) && !StartsWith(IsHexDigit, r)
    ensures ReadCodePoint(t + r) == Some(r) && |t| >= 3 && t[0] == '%'
  {
    hide Encode;
    var cp: nat :| cp <= MAX_TAKEN && Spells(t, Encode(cp));
    var bs := Encode(cp);
    EncodeDecode(cp);
    ByteComplete(t, bs, r);
    TailComplete(t[3..], bs[1..], r);
  }

  /** The code point of a percent-encoded group is unique. */
  lemma CodePointUnique(t: string, cp: nat, cp': nat)
    requires cp <= MAX_TAKEN && Spells(t, Encode(cp)) && cp' <= MAX_TAKEN && Spells(t, Encode(cp'))
    ensures cp == cp'
  {
    hide Encode, Decode, Accepted;
    SpellsUnique(t, Encode(cp), Encode(cp'));
    EncodeDecode(cp);
    EncodeDecode(cp');
  }

  lemma {:induction false} SpellsUnique(t: string, bs: seq<nat>, cs: seq<nat>)
    requires Spells(t, bs) && Spells(t, cs)
    ensures bs == cs
  {
    if bs != [] {
      SpellsUnique(t[3..], bs[1..], cs[1..]);
      assert bs == [bs[0]] + bs[1..] && cs == [cs[0]] + cs[1..];
    }
  }

  // ---------------------------------------------------------------- the parser's methods

  method ParsePercentEncoded(p: ParserCommon) returns (ok: bool, outputValue: nat)
    modifies p
    ensures ok == ReadByte(old(p.str)).Some?
    ensures ok ==> (outputValue, p.str) == ReadByte(old(p.str)).value && outputValue < 256
    ensures !ok ==> p.str == old(p.str)
  {
    outputValue := 0;
    var start := p.str;
    ok := p.ConsumeChar('%');
    if !ok {
      return;
    }
    PercentRun(start);
    ok, outputValue := p.ParseHexadecimalNumber(0xff, 2);
    if !ok {
      p.str := start;
    }
  }

  lemma PercentRun(s: string)
    requires "%" <= s
    ensures HexAt(s[1..], 0xff, 2) <==> ReadByte(s).Some?
    ensures ReadByte(s).Some? ==>
      ReadByte(s) == Some((HexValue(HexRun(s[1..])), s[1..][|HexRun(s[1..])|..])) && ReadByte(s).value.0 < 256
  {
    var u := s[1..];
    var t := HexRun(u);
    assert HexLength(0xff) == 2 by { assert HexLength(0xf) == 1; }
    if |t| == 2 {
      assert t[..1][..0] == "" && t == [u[0], u[1]];
      assert HexValue(t[..1]) == HexDigitValue(t[0]);
      assert u[2..] == s[3..];
      assert |u| > 2 ==> !IsHexDigit(u[2]);
    }
    if ReadByte(s).Some? {
      assert u[2..] == s[3..];
      SpanUnique(IsHexDigit, u, 2);
    }
  }

  method ConsumePercentEncodedUTF8CodePoint(p: ParserCommon) returns (ok: bool)
    modifies p
    ensures ok == ReadCodePoint(old(p.str)).Some?
    ensures p.str == if ok then ReadCodePoint(old(p.str)).value else old(p.str)
  {
    hide ReadByte, IsContinuation, And;
    var start := p.str;
    var b := new nat[4](_ => 0);
    var size;
    var b0;
    ok, b0 := ParsePercentEncoded(p);
    if !ok {
      return;
    }
    b[0] := b0;
    if b[0] <= 0x7f {
      assert ReadTail(p.str, 0) == Some(([], p.str));
      return true;
    } else if 0xc2 <= b[0] <= 0xdf {
      size := 2;
    } else if 0xe0 <= b[0] <= 0xef {
      size := 3;
    } else if 0xf0 <= b[0] <= 0xf4 {
      size := 4;
    } else {
      p.str := start;
      return false;
    }
    ghost var first, taken := p.str, [];
    NoneTaken(first, size - 1);
    for i := 1 to size
      invariant b[0] == b0 && |taken| == i - 1 && (i > 1 ==> taken[0] == b[1])
      invariant ReadTail(first, size - 1) == Continued(taken, p.str, size - i)
    {
      var value;
      ghost var s := p.str;
      ok, value := ParsePercentEncoded(p);
      if ok {
        b[i] := value;
      }
      if !ok || And(b[i], 0xC0) != 0x80 {
        NotContinuation(s, size - i);
        p.str := start;
        return false;
      }
      OneContinuation(taken, s, size - i);
      taken := taken + [value];
    }
    NoneLeft(taken, p.str);
    if (b[0] == 0xe0 && b[1] < 0xa0) || (b[0] == 0xf0 && b[1] < 0x90) || (b[0] == 0xf4 && b[1] > 0x90) {
      p.str := start;
      return false;
    }
    return true;
  }

  /** The continuation bytes `taken` and `n` more from `s`. */
  function Continued(taken: seq<nat>, s: string, n: nat): Option<(seq<nat>, string)>
  {
    match ReadTail(s, n)
    case None => None
    case Some((bs, r)) => Some((taken + bs, r))
  }

  lemma NoneTaken(s: string, n: nat)
    ensures ReadTail(s, n) == Continued([], s, n)
  {
    if ReadTail(s, n).Some? {
      assert [] + ReadTail(s, n).value.0 == ReadTail(s, n).value.0;
    }
  }

  lemma NoneLeft(taken: seq<nat>, s: string)
    ensures Continued(taken, s, 0) == Some((taken, s))
  {
    assert taken + [] == taken;
  }

  lemma NotContinuation(s: string, n: nat)
    requires n > 0 && (ReadByte(s).None? || And(ReadByte(s).value.0, 0xC0) != 0x80)
    ensures ReadTail(s, n) == None
  {
  }

  lemma OneContinuation(taken: seq<nat>, s: string, n: nat)
    requires n > 0 && ReadByte(s).Some? && And(ReadByte(s).value.0, 0xC0) == 0x80
    ensures var (b, r) := ReadByte(s).value;
      Continued(taken, s, n) == Continued(taken + [b], r, n - 1)
  {
    hide ReadByte, And;
    var (b, r) := ReadByte(s).value;
    if ReadTail(r, n - 1).Some? {
      var bs := ReadTail(r, n - 1).value.0;
      assert taken + ([b] + bs) == (taken + [b]) + bs;
    }
  }
}
