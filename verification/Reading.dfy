/** Reading numerals at the head of a string, and dotted quads of decimal octets. */
module Reading {
  import opened Wrappers
  import opened Chars
  import opened Numerals
  import opened Parsing

  /** A canonical numeral of at most `maxValue`, and what follows the digit run. */
  function ReadDecimal(s: string, maxValue: nat): Option<(nat, string)>
  {
    var t := DigitRun(s);
    if Canonical(t) && DecValue(t) <= maxValue then Some((DecValue(t), s[|t|..])) else None
  }

  lemma ReadDecimalSound(s: string, maxValue: nat)
    ensures ReadDecimal(s, maxValue).Some? <==> DecimalAt(s, maxValue)
    ensures match ReadDecimal(s, maxValue)
            case None => true
            case Some((v, r)) => v <= maxValue && s == Dec(v) + r && DigitRun(s) == Dec(v) && !StartsWith(IsNum, r)
  {
    var t := DigitRun(s);
    if Canonical(t) {
      DecOfCanonical(t);
      assert s == t + s[|t|..];
    }
    forall v: nat | DigitRun(s) == Dec(v) ensures Canonical(t) && DecValue(t) == v {
      DecCanonical(v);
    }
  }

  lemma ReadDecimalComplete(v: nat, r: string, maxValue: nat)
    requires v <= maxValue && !StartsWith(IsNum, r)
    ensures ReadDecimal(Dec(v) + r, maxValue) == Some((v, r))
  {
    DecCanonical(v);
    SpanConcat(IsNum, Dec(v), r);
  }

  /** One to four hexadecimal digits forming a maximal run, and what follows. */
  function ReadHex(s: string): Option<(string, string)>
  {
    var t := HexRun(s);
    if 1 <= |t| <= 4 then Some((t, s[|t|..])) else None
  }

  lemma HexAtGroup(s: string)
    ensures HexAt(s, 0xffff, 1) <==> ReadHex(s).Some?
    ensures ReadHex(s).Some? ==> HexValue(HexRun(s)) < 0x1_0000
  {
    assert HexLength(0xffff) == 4 by {
      assert HexLength(0xf) == 1 && HexLength(0xff) == 2 && HexLength(0xfff) == 3;
    }
    if |HexRun(s)| <= 4 {
      HexValueBound(HexRun(s));
      PowTable(|HexRun(s)|);
    }
  }

  datatype Quad = Quad(a: nat, b: nat, c: nat, d: nat) {
    predicate Valid() { a <= 255 && b <= 255 && c <= 255 && d <= 255 }

    function Text(): (s: string)
    {
      Dec(a) + "." + Dec(b) + "." + Dec(c) + "." + Dec(d)
    }

    function Value(): nat { ((a * 256 + b) * 256 + c) * 256 + d }
  }


  function ReadOctetDot(s: string): Option<(nat, string)>
  {
    match ReadDecimal(s, 255)
    case None => None
    case Some((v, r)) => if "." <= r then Some((v, r[1..])) else None
  }

  /** Four octets separated by dots, and what follows the last digit run. */
  function ReadQuad(s: string): Option<(Quad, string)>
  {
    match ReadOctetDot(s)
    case None => None
    case Some((a, s1)) =>
      match ReadOctetDot(s1)
      case None => None
      case Some((b, s2)) =>
        match ReadOctetDot(s2)
        case None => None
        case Some((c, s3)) =>
          match ReadDecimal(s3, 255)
          case None => None
          case Some((d, r)) => Some((Quad(a, b, c, d), r))
  }

  lemma ReadOctetDotSound(s: string)
    ensures match ReadOctetDot(s)
            case None => true
            case Some((v, r)) => v <= 255 && s == Dec(v) + "." + r
  {
    ReadDecimalSound(s, 255);
  }

  lemma ReadOctetDotComplete(v: nat, r: string)
    requires v <= 255
    ensures ReadOctetDot(Dec(v) + "." + r) == Some((v, r))
  {
    assert Dec(v) + "." + r == Dec(v) + ("." + r);
    ReadDecimalComplete(v, "." + r, 255);
  }

  lemma TextSplit(q: Quad, r: string)
    ensures q.Text() + r == Dec(q.a) + "." + (Dec(q.b) + "." + (Dec(q.c) + "." + (Dec(q.d) + r)))
  {
    var a, b, c, d := Dec(q.a), Dec(q.b), Dec(q.c), Dec(q.d);
    assert a + "." + b + "." + c + "." + d + r == a + "." + (b + "." + (c + "." + (d + r)));
  }

  lemma ReadQuadSound(s: string)
    ensures match ReadQuad(s)
            case None => true
            case Some((q, r)) => q.Valid() && s == q.Text() + r && !StartsWith(IsNum, r)
  {
    if ReadQuad(s).Some? {
      var Some((q, r)) := ReadQuad(s);
      ReadOctetDotSound(s);
      var s1 := ReadOctetDot(s).value.1;
      ReadOctetDotSound(s1);
      var s2 := ReadOctetDot(s1).value.1;
      ReadOctetDotSound(s2);
      var s3 := ReadOctetDot(s2).value.1;
      ReadDecimalSound(s3, 255);
      TextSplit(q, r);
    }
  }

  lemma ReadQuadComplete(q: Quad, r: string)
    requires q.Valid() && !StartsWith(IsNum, r)
    ensures ReadQuad(q.Text() + r) == Some((q, r))
  {
    var s3 := Dec(q.d) + r;
    var s2 := Dec(q.c) + "." + s3;
    var s1 := Dec(q.b) + "." + s2;
    TextSplit(q, r);
    ReadOctetDotComplete(q.a, s1);
    ReadOctetDotComplete(q.b, s2);
    ReadOctetDotComplete(q.c, s3);
    ReadDecimalComplete(q.d, r, 255);
  }

  /** The chain of octets and dots shared by the IPv4, IPv6 and URI parsers. */
  method ParseOctets(p: ParserCommon) returns (ok: bool, q: Quad)
    modifies p
    ensures ok == ReadQuad(old(p.str)).Some?
    ensures ok ==> (q, p.str) == ReadQuad(old(p.str)).value
  {
    q := Quad(0, 0, 0, 0);
    var a, b, c, d;
    ok, a := ParseOctetDot(p);
    if !ok { return; }
    ok, b := ParseOctetDot(p);
    if !ok { return; }
    ok, c := ParseOctetDot(p);
    if !ok { return; }
    ok, d := ParseOctet(p);
    if !ok { return; }
    q := Quad(a, b, c, d);
  }

  method ParseOctet(p: ParserCommon) returns (ok: bool, v: nat)
    modifies p
    ensures ok == ReadDecimal(old(p.str), 255).Some?
    ensures ok ==> (v, p.str) == ReadDecimal(old(p.str), 255).value
    ensures !ok ==> p.str == old(p.str)
  {
    ReadDecimalSound(p.str, 255);
    ok, v := p.ParseDecimalNumber(255);
    if ok {
      DecInjective(v, ReadDecimal(old(p.str), 255).value.0);
    }
  }

  method ParseOctetDot(p: ParserCommon) returns (ok: bool, v: nat)
    modifies p
    ensures ok == ReadOctetDot(old(p.str)).Some?
    ensures ok ==> (v, p.str) == ReadOctetDot(old(p.str)).value
  {
    ok, v := ParseOctet(p);
    if ok {
      ok := p.ConsumeChar('.');
    }
  }
}
