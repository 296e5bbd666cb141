/** IPv4 addresses and prefixes: the parser, and printing as its inverse. */
module IPv4 {
  import opened Wrappers
  import opened Chars
  import opened Numerals
  import opened Parsing
  import opened Reading
  import opened Bits

  datatype IPv4Prefix = IPv4Prefix(bits: nat, prefixLength: nat) {
    /** ~0UL << (32 - prefixLength), cut to 32 bits; zero for the empty prefix. */
    function Mask(): (m: nat)
      requires prefixLength <= 32
    {
      if prefixLength == 0 then 0
      else Shl(Ones(64), 32 - prefixLength, 64) % Pow2(32)
    }
  }

  /** The quad whose octets are the bytes of `v`. */
  function QuadOf(v: nat): Quad
  {
    Quad(v / 256 / 256 / 256, v / 256 / 256 % 256, v / 256 % 256, v % 256)
  }

  /** The canonical dotted quad of a 32-bit value. */
  function Print(v: nat): string { QuadOf(v).Text() }

  function PrintPrefix(p: IPv4Prefix): string { Print(p.bits) + "/" + Dec(p.prefixLength) }

  lemma QuadValueBijective(q: Quad)
    requires q.Valid()
    ensures q.Value() < 0x1_0000_0000 && QuadOf(q.Value()) == q
  {
    var ab := q.a * 256 + q.b;
    var abc := ab * 256 + q.c;
    assert (abc * 256 + q.d) / 256 == abc && (abc * 256 + q.d) % 256 == q.d;
    assert abc / 256 == ab && abc % 256 == q.c;
    assert ab / 256 == q.a && ab % 256 == q.b;
  }

  lemma QuadOfBijective(v: nat)
    requires v < 0x1_0000_0000
    ensures QuadOf(v).Valid() && QuadOf(v).Value() == v
  {
  }

  /** What the parsers compute, as a function of the text. */
  function Read(s: string): Option<nat>
  {
    match ReadQuad(s)
    case Some((q, r)) => if r == "" then Some(q.Value()) else None
    case None => None
  }

  function ReadPrefix(s: string): Option<IPv4Prefix>
  {
    match ReadQuad(s)
    case None => None
    case Some((q, r)) =>
      if !("/" <= r) then None
      else
        match ReadDecimal(r[1..], 32)
        case Some((n, e)) => if e == "" then Some(IPv4Prefix(q.Value(), n)) else None
        case None => None
  }

  /** Parsing and printing are inverse bijections between 32-bit values and accepted texts. */
  lemma AddressBijection(s: string, v: nat)
    ensures Read(s) == Some(v) <==> v < 0x1_0000_0000 && s == Print(v)
  {
    if Read(s).Some? {
      ReadQuadSound(s);
      var q := ReadQuad(s).value.0;
      assert q.Text() + "" == q.Text();
      QuadValueBijective(q);
    }
    if v < 0x1_0000_0000 {
      QuadOfBijective(v);
      ReadQuadComplete(QuadOf(v), "");
      assert Print(v) + "" == Print(v);
    }
  }

  lemma PrefixBijection(s: string, p: IPv4Prefix)
    ensures ReadPrefix(s) == Some(p)
      <==> p.bits < 0x1_0000_0000 && p.prefixLength <= 32 && s == PrintPrefix(p)
  {
    if ReadPrefix(s) == Some(p) {
      ReadPrefixSound(s);
    }
    if p.bits < 0x1_0000_0000 && p.prefixLength <= 32 {
      ReadPrefixComplete(p);
    }
  }

  lemma ReadPrefixSound(s: string)
    requires ReadPrefix(s).Some?
    ensures var p := ReadPrefix(s).value;
            p.bits < 0x1_0000_0000 && p.prefixLength <= 32 && s == PrintPrefix(p)
  {
    hide ReadQuad, ReadDecimal, Dec;
    ReadQuadSound(s);
    var (q, r) := ReadQuad(s).value;
    ReadDecimalSound(r[1..], 32);
    QuadValueBijective(q);
    var n := Dec(ReadPrefix(s).value.prefixLength);
    assert r[1..] == n + "" == n;
    assert r == "/" + n;
    assert q.Text() + r == q.Text() + "/" + n;
  }

  lemma ReadPrefixComplete(p: IPv4Prefix)
    requires p.bits < 0x1_0000_0000 && p.prefixLength <= 32
    ensures ReadPrefix(PrintPrefix(p)) == Some(p)
  {
    hide ReadQuad, ReadDecimal, Dec;
    QuadOfBijective(p.bits);
    var n := Dec(p.prefixLength);
    assert PrintPrefix(p) == QuadOf(p.bits).Text() + ("/" + n);
    ReadQuadComplete(QuadOf(p.bits), "/" + n);
    assert ("/" + n)[1..] == n + "";
    ReadDecimalComplete(p.prefixLength, "", 32);
  }

  class IPv4Parser {
    const input: ParserCommon
    var bits: nat
    var prefixLength: nat

    constructor (s: string)
      ensures fresh(input) && input.str == s && bits == 0 && prefixLength == 0
    {
      input := new ParserCommon(s);
      bits, prefixLength := 0, 0;
    }

    method ParsePrefixLength() returns (ok: bool)
      modifies this`prefixLength, input
      ensures ok == ReadDecimal(old(input.str), 32).Some?
      ensures ok ==> (prefixLength, input.str) == ReadDecimal(old(input.str), 32).value
    {
      ReadDecimalSound(input.str, 32);
      var n;
      ok, n := input.ParseDecimalNumber(32);
      if ok {
        DecInjective(n, ReadDecimal(old(input.str), 32).value.0);
        prefixLength := n;
      }
    }

    /** Shifts and ors the octets into `bits`; no two of them overlap. */
    method ParseAddressPart() returns (ok: bool)
      requires bits == 0
      modifies this`bits, input
      ensures ok == ReadQuad(old(input.str)).Some?
      ensures ok ==> ReadQuad(old(input.str)).value.1 == input.str
      ensures ok ==> ReadQuad(old(input.str)).value.0.Value() == bits
    {
      ReadQuadSound(input.str);
      var q;
      ok, q := ParseOctets(input);
      if !ok {
        return;
      }
      bits := OrOctets(bits, q);
      OrOctetsAdds(0, q);
    }

    method ParseAddress() returns (ok: bool)
      requires bits == 0
      modifies this`bits, input
      ensures Read(old(input.str)) == if ok then Some(bits) else None
    {
      ok := ParseAddressPart();
      ok := ok && input.str == "";
    }

    method ParsePrefix() returns (ok: bool)
      requires bits == 0
      modifies this, input
      ensures ReadPrefix(old(input.str)) == if ok then Some(IPv4Prefix(bits, prefixLength)) else None
    {
      hide ReadQuad, ReadDecimal;
      ok := ParseAddressPart();
      if !ok { return; }
      ok := input.ConsumeChar('/');
      if !ok { return; }
      ok := ParsePrefixLength();
      ok := ok && input.str == "";
    }
  }

  /** bits |= a << 24, bits |= b << 16, bits |= c << 8, bits |= d. */
  function OrOctets(bits: nat, q: Quad): nat
  {
    Or(Or(Or(Or(bits, Shl(q.a, 24, 32)), Shl(q.b, 16, 32)), Shl(q.c, 8, 32)), q.d)
  }

  /** Over a multiple of 2^32 every or is an addition. */
  lemma OrOctetsAdds(high: nat, q: Quad)
    requires q.Valid()
    ensures OrOctets(high * Pow2(32), q) == high * Pow2(32) + q.Value()
  {
    hide Shl, Pow2, Or;
    OrByte(high, q.a, 24, 32);
    OrByte(high * 256 + q.a, q.b, 16, 32);
    OrByte((high * 256 + q.a) * 256 + q.b, q.c, 8, 32);
    Pow2Table();
    OrDisjoint(((high * 256 + q.a) * 256 + q.b) * 256 + q.c, q.d, 8);
  }

  method ParseIPv4Address(str: string) returns (r: Option<nat>)
    ensures forall v: nat :: r == Some(v) <==> v < 0x1_0000_0000 && str == Print(v)
  {
    var address := new IPv4Parser(str);
    var ok := address.ParseAddress();
    r := if ok then Some(address.bits) else None;
    forall v: nat ensures r == Some(v) <==> v < 0x1_0000_0000 && str == Print(v) {
      AddressBijection(str, v);
    }
  }

  method ParseIPv4Prefix(str: string) returns (r: Option<IPv4Prefix>)
    ensures forall p: IPv4Prefix ::
      r == Some(p) <==> p.bits < 0x1_0000_0000 && p.prefixLength <= 32 && str == PrintPrefix(p)
  {
    var prefix := new IPv4Parser(str);
    var ok := prefix.ParsePrefix();
    r := if ok then Some(IPv4Prefix(prefix.bits, prefix.prefixLength)) else None;
    forall p: IPv4Prefix
      ensures r == Some(p) <==> p.bits < 0x1_0000_0000 && p.prefixLength <= 32 && str == PrintPrefix(p)
    {
      PrefixBijection(str, p);
    }
  }

  /** The mask has the n high bits set. */
  lemma MaskValue(p: IPv4Prefix)
    requires p.prefixLength <= 32
    ensures p.Mask() == Pow2(32) - Pow2(32 - p.prefixLength)
  {
    hide Shl, Pow2;
    if p.prefixLength > 0 {
      LowMask(32 - p.prefixLength, 32);
    }
  }

  /** The strict test of IsIpv4Prefix: no host bit is set. */
  lemma StrictIsDivisibility(p: IPv4Prefix)
    requires p.bits < Pow2(32) && p.prefixLength <= 32
    ensures p.Mask() < Pow2(32)
    ensures And(p.bits, Not(p.Mask(), 32)) == 0 <==> p.bits % Pow2(32 - p.prefixLength) == 0
  {
    hide Shl, Pow2, And, IPv4Prefix.Mask;
    MaskValue(p);
    HostBitsZero(p.bits, p.prefixLength, 32);
  }
}
