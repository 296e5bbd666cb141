/** The URI parser: methods over the shared cursor, each restoring it on failure as the
    original does, proved against the reading functions and so against the grammar. */
module Uri {
  import opened Wrappers
  import opened Chars
  import opened Numerals
  import opened Parsing
  import opened Reading
  import opened IPv6Grammar
  import opened Utf8
  import opened UriGrammar
  import opened UriReading

  /** The cursor after a reading: what is left over, or where it started. */
  function After(r: Option<string>, start: string): string { if r.Some? then r.value else start }

  method ConsumePercentEncoded(p: ParserCommon) returns (ok: bool)
    modifies p
    ensures ok == IsPct(old(p.str))
    ensures p.str == if ok then old(p.str)[3..] else old(p.str)
  {
    var start := p.str;
    ok := p.ConsumeChar('%');
    if ok {
      ok := p.Consume(IsHexDigit);
      if ok {
        ok := p.Consume(IsHexDigit);
        if ok {
          return true;
        }
      }
    }
    p.str := start;
    return false;
  }

  /** One character of the class or one percent-encoded triplet. */
  method ConsumeToken(p: ParserCommon, cls: char -> bool) returns (ok: bool)
    modifies p
    ensures ok == (StartsWith(cls, old(p.str)) || IsPct(old(p.str)))
    ensures ReadEncoded(cls, p.str) == ReadEncoded(cls, old(p.str))
    ensures if ok then |p.str| < |old(p.str)| else p.str == old(p.str)
    ensures !ok ==> ReadEncoded(cls, p.str) == p.str
  {
    ok := p.Consume(cls);
    if !ok {
      ok := ConsumePercentEncoded(p);
    }
  }

  /** while (consume<cls>() || consumePercentEncoded()) */
  method ConsumeEncoded(p: ParserCommon, cls: char -> bool)
    modifies p
    ensures p.str == ReadEncoded(cls, old(p.str))
  {
    var more := true;
    while more
      invariant ReadEncoded(cls, p.str) == ReadEncoded(cls, old(p.str))
      invariant !more ==> p.str == ReadEncoded(cls, p.str)
      decreases |p.str|, more
    {
      more := ConsumeToken(p, cls);
    }
  }

  /** while (consume<cls>() || consumePercentEncodedUTF8CodePoint()) */
  method ConsumeUtf8(p: ParserCommon, cls: char -> bool)
    modifies p
    ensures p.str == ReadUtf8(cls, old(p.str))
  {
    hide ReadCodePoint;
    var more := true;
    while more
      invariant ReadUtf8(cls, p.str) == ReadUtf8(cls, old(p.str))
      invariant !more ==> p.str == ReadUtf8(cls, p.str)
      decreases |p.str|, more
    {
      more := p.Consume(cls);
      if !more {
        CodePointShorter(p.str);
        more := ConsumePercentEncodedUTF8CodePoint(p);
      }
    }
  }

  /** while (consume<cls>()) */
  method ConsumeWhile(p: ParserCommon, cls: char -> bool) returns (n: nat)
    modifies p
    ensures p.str == ReadWhile(cls, old(p.str))
    ensures n == Span(cls, old(p.str))
  {
    n := 0;
    ghost var start := p.str;
    var more := true;
    while more
      invariant n <= |start| && p.str == start[n..]
      invariant forall i | 0 <= i < n :: cls(start[i])
      invariant !more ==> !StartsWith(cls, p.str)
      decreases |p.str|, more
    {
      more := p.Consume(cls);
      if more {
        n := n + 1;
      }
    }
    SpanUnique(cls, start, n);
  }

  method ConsumeScheme(p: ParserCommon) returns (ok: bool)
    modifies p
    ensures ok == ReadScheme(old(p.str)).Some? && p.str == After(ReadScheme(old(p.str)), old(p.str))
  {
    var start := p.str;
    ok := p.Consume(IsAlpha);
    if ok {
      var n := ConsumeWhile(p, IsSchemeChar);
      if p.str != "" && p.str[0] == ':' {
        return true;
      }
    }
    p.str := start;
    return false;
  }

  method ConsumeUserInfo(p: ParserCommon) returns (ok: bool)
    modifies p
    ensures ok == ReadUserInfo(old(p.str)).Some? && p.str == After(ReadUserInfo(old(p.str)), old(p.str))
  {
    var start := p.str;
    ConsumeEncoded(p, IsUserInfoChar);
    if p.str != "" && p.str[0] == '@' {
      return true;
    }
    p.str := start;
    return false;
  }

  method ConsumeRegName(p: ParserCommon) returns (ok: bool)
    modifies p
    ensures ok == ReadRegName(old(p.str)).Some? && p.str == After(ReadRegName(old(p.str)), old(p.str))
  {
    var start := p.str;
    ConsumeUtf8(p, IsRegNameChar);
    if p.str != "" && p.str[0] == ':' {
      return true;
    }
    if AuthorityEnd(p.str) {
      return true;
    }
    p.str := start;
    return false;
  }

  method ConsumePort(p: ParserCommon) returns (ok: bool)
    modifies p
    ensures ok == ReadPort(old(p.str)).Some? && p.str == After(ReadPort(old(p.str)), old(p.str))
  {
    var start := p.str;
    var n := ConsumeWhile(p, IsNum);
    if AuthorityEnd(p.str) {
      return true;
    }
    p.str := start;
    return false;
  }

  method ConsumeZoneId(p: ParserCommon) returns (ok: bool)
    modifies p
    ensures ok == (ReadUtf8(IsUnreserved, old(p.str)) != old(p.str))
    ensures p.str == ReadUtf8(IsUnreserved, old(p.str))
  {
    var start := p.str;
    ConsumeUtf8(p, IsUnreserved);
    ok := start != p.str;
  }

  lemma FinishIs(s: string, l: seq<string>, r: seq<string>, dc: bool, colon: bool)
    ensures Finish(s, l, r, dc, colon).Some? <==> dc || |l| == 8
    ensures dc || |l| == 8 ==>
      var (d, rest) := Finish(s, l, r, dc, colon).value; rest == s && !d.FullQuad? && !d.CompressedQuad?
  {
  }

  lemma HexFacts(s: string)
    ensures ReadHex(s).Some? ==> ReadHex(s).value.1 == s[|HexRun(s)|..] && |ReadHex(s).value.1| < |s|
  {
  }

  /** The simplified IPv6 loop, which keeps only the count of groups and the `::` flag. It
      reads what the address parser reads, before any zone. */
  method ConsumeIPv6Address(p: ParserCommon) returns (ok: bool)
    modifies p
    ensures ok == ReadIPv6(old(p.str)).Some?
    ensures ok ==> p.str == ReadIPv6(old(p.str)).value
  {
    hide ReadQuad, ReadHex, ReadUtf8, Run, Finish, HexRun, HexAt;
    ghost var whole := p.str;
    ghost var l: seq<string>, r: seq<string>, colon := [], [], false;
    ghost var ended := false;
    var index, doubleColonFound := 0, false;
    while index < 8
      invariant !ended && (!doubleColonFound ==> r == []) && index == Index(l, r, doubleColonFound) <= 8
      invariant ReadAddress(whole) == Run(p.str, l, r, doubleColonFound, colon)
      decreases |p.str|
    {
      RunUnfolds(p.str, l, r, doubleColonFound, colon);
      if (doubleColonFound || index == 6) && |p.str| >= 7 && p.str[0] != ':'
         && (p.str[1] == '.' || p.str[2] == '.' || p.str[3] == '.') {
        var q;
        ok, q := ParseOctets(p);
        return;
      }
      HexAtGroup(p.str);
      HexFacts(p.str);
      ghost var group := ReadHex(p.str);
      var value;
      ok, value := p.ParseHexadecimalNumber(0xffff, 1);
      if ok {
        index := index + 1;
        l := if doubleColonFound then l else l + [group.value.0];
        r := if doubleColonFound then r + [group.value.0] else r;
        colon := false;
        continue;
      }
      ok := p.ConsumeSequence("::");
      if ok {
        ok := p.ConsumeChar(':');
        if ok {
          return false;
        }
        index := index + 1;
        if index - 1 > 7 || doubleColonFound {
          return false;
        }
        doubleColonFound := true;
        colon := false;
        continue;
      }
      ok := p.ConsumeChar(':');
      if ok {
        if index == 0 || p.str == "" {
          return false;
        }
        colon := true;
        continue;
      }
      ended := true;
      break;
    }
    RunUnfolds(p.str, l, r, doubleColonFound, colon);
    assert ReadAddress(whole) == Finish(p.str, l, r, doubleColonFound, colon);
    FinishIs(p.str, l, r, doubleColonFound, colon);
    if !(doubleColonFound || index == 8) {
      return false;
    }
    ok := p.ConsumeSequence("%25");
    if !ok {
      return true;
    }
    ok := ConsumeZoneId(p);
  }

  method ConsumeIPvFuture(p: ParserCommon) returns (ok: bool)
    modifies p
    ensures ok == ReadIPvFuture(old(p.str)).Some? && p.str == After(ReadIPvFuture(old(p.str)), old(p.str))
  {
    hide IsHexDigit, IsUserInfoChar;
    var start := p.str;
    ok := p.ConsumeChar('v');
    if ok {
      ok := p.Consume(IsHexDigit);
      if ok {
        var n := ConsumeWhile(p, IsHexDigit);
        ok := p.ConsumeChar('.');
        if ok {
          var j := ConsumeWhile(p, IsUserInfoChar);
          if j >= 1 {
            return true;
          }
        }
      }
    }
    p.str := start;
    return false;
  }

  method ConsumeIPLiteral(p: ParserCommon) returns (ok: bool)
    modifies p
    ensures ok == ReadIPLiteral(old(p.str)).Some? && p.str == After(ReadIPLiteral(old(p.str)), old(p.str))
  {
    hide ReadIPv6, ReadIPvFuture;
    var start := p.str;
    ok := p.ConsumeChar('[');
    if ok {
      var j := p.str;
      ok := ConsumeIPv6Address(p);
      if ok {
        ok := p.ConsumeChar(']');
        if ok {
          return true;
        }
      }
      p.str := j;
      ok := ConsumeIPvFuture(p);
      if ok {
        ok := p.ConsumeChar(']');
        if ok {
          return true;
        }
      }
    }
    p.str := start;
    return false;
  }

  method ConsumeHost(p: ParserCommon) returns (ok: bool)
    modifies p
    ensures ok == ReadHost(old(p.str)).Some? && p.str == After(ReadHost(old(p.str)), old(p.str))
  {
    if p.str != "" && p.str[0] == '[' {
      ok := ConsumeIPLiteral(p);
      if ok {
        return true;
      }
    }
    ok := ConsumeRegName(p);
  }

  method ConsumeAuthority(p: ParserCommon) returns (ok: bool)
    modifies p
    ensures ok == ReadAuthority(old(p.str)).Some? && p.str == After(ReadAuthority(old(p.str)), old(p.str))
  {
    hide ReadHost, ReadPort, ReadEncoded;
    var start, failed := p.str, false;
    ok := ConsumeUserInfo(p);
    if ok {
      ok := p.ConsumeChar('@');
      failed := !ok;
    }
    if !failed {
      ok := ConsumeHost(p);
      failed := !ok;
    }
    if !failed {
      ok := p.ConsumeChar(':');
      if ok {
        PortEnds(p.str);
        ok := ConsumePort(p);
        failed := !ok;
      }
    }
    if failed || !AuthorityEnd(p.str) {
      p.str := start;
      return false;
    }
    return true;
  }

  lemma PortEnds(s: string)
    ensures ReadPort(s).Some? ==> AuthorityEnd(ReadPort(s).value)
  {
  }

  method ConsumeSegment(p: ParserCommon) returns (ok: bool)
    modifies p
    ensures ok && p.str == ReadEncoded(IsPChar, old(p.str))
  {
    ConsumeEncoded(p, IsPChar);
    ok := true;
  }

  method ConsumeSegmentNz(p: ParserCommon) returns (ok: bool)
    modifies p
    ensures ok == (ReadEncoded(IsPChar, old(p.str)) != old(p.str))
    ensures p.str == ReadEncoded(IsPChar, old(p.str))
  {
    ok := ConsumeToken(p, IsPChar);
    if ok {
      ok := ConsumeSegment(p);
    }
  }

  method ConsumeSegmentNzNc(p: ParserCommon) returns (ok: bool)
    modifies p
    ensures ok == (ReadEncoded(IsNcChar, old(p.str)) != old(p.str))
    ensures p.str == ReadEncoded(IsNcChar, old(p.str))
  {
    var start := p.str;
    ConsumeEncoded(p, IsNcChar);
    ok := p.str != start;
  }

  /** while (consume<'/'>() && consumeSegment()) */
  method ConsumeSegments(p: ParserCommon)
    modifies p
    ensures p.str == ReadSegments(old(p.str))
  {
    hide ReadEncoded;
    var more := true;
    while more
      invariant ReadSegments(p.str) == ReadSegments(old(p.str))
      invariant !more ==> p.str == ReadSegments(p.str)
      decreases |p.str|, more
    {
      more := p.ConsumeChar('/');
      if more {
        SegmentShorter(p.str);
        more := ConsumeSegment(p);
      }
    }
  }

  lemma SegmentShorter(s: string)
    ensures |ReadEncoded(IsPChar, s)| <= |s|
  {
  }

  method ConsumePathAbempty(p: ParserCommon) returns (ok: bool)
    modifies p
    ensures ok == ReadPathAbempty(old(p.str)).Some? && p.str == After(ReadPathAbempty(old(p.str)), old(p.str))
  {
    var start := p.str;
    ConsumeSegments(p);
    if PathEnd(p.str) {
      return true;
    }
    p.str := start;
    return false;
  }

  method ConsumePathAbsolute(p: ParserCommon) returns (ok: bool)
    modifies p
    ensures ok == ReadPathAbsolute(old(p.str)).Some? && p.str == After(ReadPathAbsolute(old(p.str)), old(p.str))
  {
    var start := p.str;
    ok := p.ConsumeChar('/');
    if ok {
      ok := ConsumeSegmentNz(p);
      if ok {
        ConsumeSegments(p);
      }
      if PathEnd(p.str) {
        return true;
      }
    }
    p.str := start;
    return false;
  }

  method ConsumePathNoscheme(p: ParserCommon) returns (ok: bool)
    modifies p
    ensures ok == ReadRootless(IsNcChar, old(p.str)).Some?
    ensures p.str == After(ReadRootless(IsNcChar, old(p.str)), old(p.str))
  {
    var start := p.str;
    ok := ConsumeSegmentNzNc(p);
    if ok {
      ConsumeSegments(p);
      if PathEnd(p.str) {
        return true;
      }
    }
    p.str := start;
    return false;
  }

  method ConsumePathRootless(p: ParserCommon) returns (ok: bool)
    modifies p
    ensures ok == ReadRootless(IsPChar, old(p.str)).Some?
    ensures p.str == After(ReadRootless(IsPChar, old(p.str)), old(p.str))
  {
    var start := p.str;
    ok := ConsumeSegmentNz(p);
    if ok {
      ConsumeSegments(p);
      if PathEnd(p.str) {
        return true;
      }
    }
    p.str := start;
    return false;
  }

  /** The alternative "//" authority path-abempty, taken back when it fails. */
  method ConsumeNetPath(p: ParserCommon) returns (ok: bool)
    modifies p
    ensures ok == ReadNetPath(old(p.str)).Some? && p.str == After(ReadNetPath(old(p.str)), old(p.str))
  {
    hide ReadAuthority, ReadSegments;
    var start := p.str;
    ok := p.ConsumeSequence("//");
    if ok {
      ok := ConsumeAuthority(p);
      if ok {
        ok := ConsumePathAbempty(p);
        if ok {
          return true;
        }
      }
    }
    p.str := start;
    return false;
  }

  method ConsumeHierPart(p: ParserCommon) returns (ok: bool)
    modifies p
    ensures ok == ReadPart(IsPChar, old(p.str)).Some? && p.str == After(ReadPart(IsPChar, old(p.str)), old(p.str))
  {
    hide ReadNetPath, ReadPathAbsolute, ReadRootless;
    ok := ConsumeNetPath(p);
    if ok { return; }
    ok := ConsumePathAbsolute(p);
    if ok { return; }
    ok := ConsumePathRootless(p);
    if ok { return; }
    ok := PathEnd(p.str);
  }

  method ConsumeRelativePart(p: ParserCommon) returns (ok: bool)
    modifies p
    ensures ok == ReadPart(IsNcChar, old(p.str)).Some? && p.str == After(ReadPart(IsNcChar, old(p.str)), old(p.str))
  {
    hide ReadNetPath, ReadPathAbsolute, ReadRootless;
    ok := ConsumeNetPath(p);
    if ok { return; }
    ok := ConsumePathAbsolute(p);
    if ok { return; }
    ok := ConsumePathNoscheme(p);
    if ok { return; }
    ok := PathEnd(p.str);
  }

  method ConsumeQuery(p: ParserCommon) returns (ok: bool)
    modifies p
    ensures ok == ReadQuery(old(p.str)).Some? && p.str == After(ReadQuery(old(p.str)), old(p.str))
  {
    var start := p.str;
    ConsumeEncoded(p, IsQueryChar);
    if p.str == "" || p.str[0] == '#' {
      return true;
    }
    p.str := start;
    return false;
  }

  method ConsumeFragment(p: ParserCommon) returns (ok: bool)
    modifies p
    ensures ok == ReadFragment(old(p.str)).Some? && p.str == After(ReadFragment(old(p.str)), old(p.str))
  {
    var start := p.str;
    ConsumeEncoded(p, IsQueryChar);
    if p.str == "" {
      return true;
    }
    p.str := start;
    return false;
  }

  /** [ "?" query ] [ "#" fragment ], as at the end of consumeUri and consumeRelativeRef. */
  method ConsumeTail(p: ParserCommon) returns (ok: bool)
    modifies p
    ensures ok == UriReading.ReadTail(old(p.str)).Some?
    ensures ok ==> p.str == UriReading.ReadTail(old(p.str)).value
  {
    hide ReadEncoded;
    ok := p.ConsumeChar('?');
    if ok {
      ok := ConsumeQuery(p);
      if !ok {
        return false;
      }
    }
    ok := p.ConsumeChar('#');
    if ok {
      ok := ConsumeFragment(p);
      if !ok {
        return false;
      }
    }
    return true;
  }

  method ConsumeUri(p: ParserCommon) returns (ok: bool)
    modifies p
    ensures ok == ReadUri(old(p.str)).Some? && p.str == After(ReadUri(old(p.str)), old(p.str))
  {
    hide ReadScheme, ReadPart, UriReading.ReadTail;
    SchemeThenColon(p.str);
    var start := p.str;
    ok := ConsumeScheme(p);
    if ok {
      ok := p.ConsumeChar(':');
      if ok {
        ok := ConsumeHierPart(p);
      }
    }
    if !ok {
      p.str := start;
      return false;
    }
    ok := ConsumeTail(p);
    if !ok {
      p.str := start;
    }
  }

  lemma SchemeThenColon(s: string)
    ensures ReadScheme(s).Some? ==> ":" <= ReadScheme(s).value
  {
  }

  method ConsumeRelativeRef(p: ParserCommon) returns (ok: bool)
    modifies p
    ensures ok == ReadRelativeRef(old(p.str)).Some? && p.str == After(ReadRelativeRef(old(p.str)), old(p.str))
  {
    hide ReadPart, UriReading.ReadTail;
    var start := p.str;
    ok := ConsumeRelativePart(p);
    if !ok {
      return false;
    }
    ok := ConsumeTail(p);
    if !ok {
      p.str := start;
    }
  }

  /** Every text: accepted exactly when it derives from URI. */
  method ValidateUri(str: string) returns (ok: bool)
    ensures ok <==> UriGrammar.Uri(str)
  {
    hide *;
    UriIff(str);
    var p := new ParserCommon(str);
    ok := ConsumeUri(p);
    if ok {
      AfterSome(ReadUri(str), str);
      ok := p.str == "";
    }
  }

  lemma AfterSome(r: Option<string>, start: string)
    requires r.Some?
    ensures After(r, start) == r.value
  {
  }

  lemma AfterNone(r: Option<string>, start: string)
    requires r.None?
    ensures After(r, start) == start
  {
  }

  /** Every text: accepted exactly when it derives from URI-reference. */
  method ValidateUriReference(str: string) returns (ok: bool)
    ensures ok <==> UriReference(str)
  {
    hide *;
    UriIff(str);
    RelativeRefIff(str);
    ReferenceIs(str);
    var p := new ParserCommon(str);
    ok := ConsumeUri(p);
    if ok {
      AfterSome(ReadUri(str), str);
    } else {
      AfterNone(ReadUri(str), str);
      ok := ConsumeRelativeRef(p);
      if ok {
        AfterSome(ReadRelativeRef(str), str);
      }
    }
    ok := ok && p.str == "";
  }

  lemma ReferenceIs(s: string)
    ensures UriReference(s) <==> UriGrammar.Uri(s) || RelativeRef(s)
  {
  }

  // ---------------------------------------------------------------- consequences

  /** No text is both a URI and a relative reference: the ordered choice loses nothing. */
  lemma UriOrRelative(s: string)
    ensures !(UriGrammar.Uri(s) && RelativeRef(s))
  {
    hide ReadPart, UriReading.ReadTail, RelativeRef, UriGrammar.Uri;
    UriIff(s);
    RelativeRefIff(s);
    if ReadUri(s).Some? && ReadPart(IsNcChar, s).Some? {
      SchemeBlocksRelative(s);
    }
  }

  /** After a scheme and its colon no relative part can be read. */
  lemma SchemeBlocksRelative(s: string)
    requires ReadScheme(s).Some?
    ensures ReadPart(IsNcChar, s) == None
  {
    var sch := SchemeSound(s);
    assert s[0] == sch[0] && s[|sch|] == ':';
    hide ReadScheme;
    SchemeNc(sch, s[|sch|..]);
    assert ReadPart(IsNcChar, s) == None by {
      assert !("/" <= s) && !PathEnd(s);
      assert ReadSegments(s[|sch|..]) == s[|sch|..];
    }
  }

  /** A first segment without colon stops at the colon behind a scheme. */
  lemma {:induction false} SchemeNc(t: string, r: string)
    requires (forall i | 0 <= i < |t| :: IsSchemeChar(t[i])) && ":" <= r
    ensures ReadEncoded(IsNcChar, t + r) == r
  {
    if t == "" {
      assert t + r == r && !IsNcChar(':');
    } else {
      assert (t + r)[1..] == t[1..] + r;
      assert IsNcChar(t[0]);
      SchemeNc(t[1..], r);
    }
  }
}
