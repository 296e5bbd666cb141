/** The deterministic, greedy reading of the URI parser as functions from the unread text to
    the text left over, and the proof that it takes exactly the texts of the grammar. */
module UriReading {
  import opened Wrappers
  import opened Chars
  import opened Parsing
  import opened Reading
  import opened IPv6Grammar
  import opened Utf8
  import opened UriGrammar

  // ---------------------------------------------------------------- functions

  function ReadEncoded(cls: char -> bool, s: string): (r: string)
    ensures |r| <= |s|
    decreases |s|
  {
    if StartsWith(cls, s) then ReadEncoded(cls, s[1..])
    else if IsPct(s) then ReadEncoded(cls, s[3..])
    else s
  }

  lemma CodePointShorter(s: string)
    ensures ReadCodePoint(s).Some? ==> |ReadCodePoint(s).value| < |s|
  {
    if ReadCodePoint(s).Some? {
      var t := CodePointSound(s);
    }
  }

  function ReadUtf8(cls: char -> bool, s: string): (r: string)
    ensures |r| <= |s|
    decreases |s|
  {
    if StartsWith(cls, s) then ReadUtf8(cls, s[1..])
    else
      CodePointShorter(s);
      match ReadCodePoint(s)
      case Some(r) => ReadUtf8(cls, r)
      case None => s
  }

  function ReadWhile(cls: char -> bool, s: string): string { s[Span(cls, s)..] }

  function ReadScheme(s: string): Option<string>
  {
    if StartsWith(IsAlpha, s) && ":" <= ReadWhile(IsSchemeChar, s[1..])
    then Some(ReadWhile(IsSchemeChar, s[1..]))
    else None
  }

  predicate AuthorityEnd(s: string) { s == "" || s[0] == '?' || s[0] == '#' || s[0] == '/' }

  predicate PathEnd(s: string) { s == "" || s[0] == '?' || s[0] == '#' }

  function ReadUserInfo(s: string): Option<string>
  {
    var r := ReadEncoded(IsUserInfoChar, s);
    if "@" <= r then Some(r) else None
  }

  function ReadRegName(s: string): Option<string>
  {
    var r := ReadUtf8(IsRegNameChar, s);
    if ":" <= r || AuthorityEnd(r) then Some(r) else None
  }

  function ReadPort(s: string): Option<string>
  {
    var r := ReadWhile(IsNum, s);
    if AuthorityEnd(r) then Some(r) else None
  }

  /** consumeIPv6Address: the value-free loop, then a zone unless a quad came last. */
  function ReadIPv6(s: string): Option<string>
  {
    match ReadAddress(s)
    case None => None
    case Some((d, r)) =>
      if d.FullQuad? || d.CompressedQuad? || !("%25" <= r) then Some(r)
      else
        var e := ReadUtf8(IsUnreserved, r[3..]);
        if e == r[3..] then None else Some(e)
  }

  function ReadIPvFuture(s: string): Option<string>
  {
    if !("v" <= s) || !StartsWith(IsHexDigit, s[1..]) then None
    else
      var r := ReadWhile(IsHexDigit, s[1..]);
      if !("." <= r) || !StartsWith(IsUserInfoChar, r[1..]) then None
      else Some(ReadWhile(IsUserInfoChar, r[1..]))
  }

  function ThenBracket(r: Option<string>): Option<string>
  {
    if r.Some? && "]" <= r.value then Some(r.value[1..]) else None
  }

  function ReadIPLiteral(s: string): Option<string>
  {
    if !("[" <= s) then None
    else if ThenBracket(ReadIPv6(s[1..])).Some? then ThenBracket(ReadIPv6(s[1..]))
    else ThenBracket(ReadIPvFuture(s[1..]))
  }

  function ReadHost(s: string): Option<string>
  {
    if ReadIPLiteral(s).Some? then ReadIPLiteral(s) else ReadRegName(s)
  }

  function ReadAfterUserInfo(s: string): Option<string>
  {
    match ReadHost(s)
    case None => None
    case Some(r) =>
      if ":" <= r then ReadPort(r[1..])
      else if AuthorityEnd(r) then Some(r)
      else None
  }

  function ReadAuthority(s: string): Option<string>
  {
    match ReadUserInfo(s)
    case Some(r) => ReadAfterUserInfo(r[1..])
    case None => ReadAfterUserInfo(s)
  }

  function ReadSegments(s: string): (r: string)
    ensures |r| <= |s|
    decreases |s|
  {
    if "/" <= s then ReadSegments(ReadEncoded(IsPChar, s[1..])) else s
  }

  function AtPathEnd(r: string): Option<string>
  {
    if PathEnd(r) then Some(r) else None
  }

  function ReadPathAbempty(s: string): Option<string> { AtPathEnd(ReadSegments(s)) }

  /** segment-nz or segment-nz-nc, then further segments. */
  function ReadRootless(cls: char -> bool, s: string): Option<string>
  {
    var r := ReadEncoded(cls, s);
    if r == s then None else AtPathEnd(ReadSegments(r))
  }

  function ReadPathAbsolute(s: string): Option<string>
  {
    if !("/" <= s) then None
    else
      var u := s[1..];
      var r := ReadEncoded(IsPChar, u);
      AtPathEnd(if r == u then u else ReadSegments(r))
  }

  function ReadNetPath(s: string): Option<string>
  {
    if !("//" <= s) then None
    else
      match ReadAuthority(s[2..])
      case Some(r) => ReadPathAbempty(r)
      case None => None
  }

  /** consumeHierPart and consumeRelativePart, which differ in the class of a first segment. */
  function ReadPart(cls: char -> bool, s: string): Option<string>
  {
    if ReadNetPath(s).Some? then ReadNetPath(s)
    else if ReadPathAbsolute(s).Some? then ReadPathAbsolute(s)
    else if ReadRootless(cls, s).Some? then ReadRootless(cls, s)
    else AtPathEnd(s)
  }

  function ReadQuery(s: string): Option<string>
  {
    var r := ReadEncoded(IsQueryChar, s);
    if r == "" || r[0] == '#' then Some(r) else None
  }

  function ReadFragment(s: string): Option<string>
  {
    var r := ReadEncoded(IsQueryChar, s);
    if r == "" then Some(r) else None
  }

  function ReadFragmentPart(s: string): Option<string>
  {
    if "#" <= s then ReadFragment(s[1..]) else Some(s)
  }

  function ReadTail(s: string): Option<string>
  {
    if "?" <= s then
      match ReadQuery(s[1..])
      case Some(r) => ReadFragmentPart(r)
      case None => None
    else ReadFragmentPart(s)
  }

  function ReadUri(s: string): Option<string>
  {
    match ReadScheme(s)
    case None => None
    case Some(r) =>
      match ReadPart(IsPChar, r[1..])
      case None => None
      case Some(e) => ReadTail(e)
  }

  function ReadRelativeRef(s: string): Option<string>
  {
    match ReadPart(IsNcChar, s)
    case None => None
    case Some(r) => ReadTail(r)
  }

  // ---------------------------------------------------------------- encoded runs

  /** Classes of plain characters: none contains the percent sign. */
  predicate Stops(cls: char -> bool, r: string)
  {
    r == "" || (!cls(r[0]) && r[0] != '%')
  }

  lemma RegNameStops(r: string)
    requires ":" <= r || AuthorityEnd(r)
    ensures !IsRegNameChar('%') && Stops(IsRegNameChar, r) && !StartsWith(IsHexDigit, r) && !("[" <= r)
  {
    assert r != "" ==> !IsRegNameChar(r[0]) && !IsHexDigit(r[0]);
    assert !IsRegNameChar('%');
  }

  lemma PCharStops(r: string)
    requires "/" <= r || PathEnd(r)
    ensures !IsPChar('%') && Stops(IsPChar, r)
  {
    assert r != "" ==> !IsPChar(r[0]);
    assert !IsPChar('%');
  }

  lemma {:induction false} EncodedSound(cls: char -> bool, s: string) returns (t: string)
    ensures s == t + ReadEncoded(cls, s) && Encoded(cls, t)
    ensures t == "" <==> ReadEncoded(cls, s) == s
    decreases |s|
  {
    if StartsWith(cls, s) {
      var u := EncodedSound(cls, s[1..]);
      t := [s[0]] + u;
      assert t[1..] == u;
    } else if IsPct(s) {
      var u := EncodedSound(cls, s[3..]);
      t := s[..3] + u;
      assert t[3..] == u;
    } else {
      t := "";
    }
    assert |t| + |ReadEncoded(cls, s)| == |s|;
  }

  lemma {:induction false} EncodedComplete(cls: char -> bool, t: string, r: string)
    requires !cls('%') && Encoded(cls, t) && Stops(cls, r)
    ensures ReadEncoded(cls, t + r) == r
    decreases |t|
  {
    if t == "" {
      assert t + r == r;
    } else if cls(t[0]) {
      assert (t + r)[1..] == t[1..] + r;
      EncodedComplete(cls, t[1..], r);
    } else {
      assert (t + r)[3..] == t[3..] + r;
      EncodedComplete(cls, t[3..], r);
    }
  }

  /** Every character of an encoded text is of the class, a percent sign or a hex digit. */
  lemma {:induction false} EncodedChars(cls: char -> bool, t: string)
    requires Encoded(cls, t)
    ensures forall i | 0 <= i < |t| :: cls(t[i]) || t[i] == '%' || IsHexDigit(t[i])
    decreases |t|
  {
    if t == "" {
    } else if cls(t[0]) && Encoded(cls, t[1..]) {
      EncodedChars(cls, t[1..]);
      assert forall i | 1 <= i < |t| :: t[i] == t[1..][i - 1];
    } else {
      EncodedChars(cls, t[3..]);
      assert forall i | 3 <= i < |t| :: t[i] == t[3..][i - 3];
    }
  }

  lemma {:induction false} Utf8Sound(cls: char -> bool, s: string) returns (t: string)
    ensures s == t + ReadUtf8(cls, s) && Utf8Encoded(cls, t)
    ensures t == "" <==> ReadUtf8(cls, s) == s
    decreases |s|
  {
    hide ReadCodePoint, PctCodePoint;
    if StartsWith(cls, s) {
      var u := Utf8Sound(cls, s[1..]);
      t := [s[0]] + u;
      assert t[1..] == u;
    } else if ReadCodePoint(s).Some? {
      CodePointShorter(s);
      var g := CodePointSound(s);
      var r := ReadCodePoint(s).value;
      var u := Utf8Sound(cls, r);
      t := g + u;
      assert t[..|g|] == g && t[|g|..] == u;
      assert u != "" ==> r[0] == u[0];
    } else {
      t := "";
    }
    assert |t| + |ReadUtf8(cls, s)| == |s|;
  }

  /** The first token of a nonempty text: a plain character or a code point. */
  lemma Utf8Token(cls: char -> bool, t: string) returns (n: nat)
    requires Utf8Encoded(cls, t) && t != ""
    ensures 0 < n <= |t| && Utf8Encoded(cls, t[n..])
    ensures (cls(t[0]) && n == 1) || (PctCodePoint(t[..n]) && !StartsWith(IsHexDigit, t[n..]))
  {
    if cls(t[0]) && Utf8Encoded(cls, t[1..]) {
      n := 1;
    } else {
      n :| 0 < n <= |t| && PctCodePoint(t[..n]) && !StartsWith(IsHexDigit, t[n..]) && Utf8Encoded(cls, t[n..]);
    }
  }

  lemma {:induction false} Utf8Complete(cls: char -> bool, t: string, r: string)
    requires !cls('%') && Utf8Encoded(cls, t) && Stops(cls, r) && !StartsWith(IsHexDigit, r)
    ensures ReadUtf8(cls, t + r) == r
    decreases |t|
  {
    hide ReadCodePoint, PctCodePoint, Utf8Encoded, IsHexDigit;
    if t == "" {
      assert t + r == r;
      NoCodePoint(r);
    } else {
      var n := Utf8Token(cls, t);
      Utf8Complete(cls, t[n..], r);
      assert t + r == t[..n] + (t[n..] + r);
      if cls(t[0]) && n == 1 {
        assert (t + r)[1..] == t[1..] + r;
      } else {
        assert t[n..] + r != "" ==> (t[n..] + r)[0] == if n < |t| then t[n] else r[0];
        CodePointComplete(t[..n], t[n..] + r);
      }
    }
  }

  lemma NoCodePoint(r: string)
    requires r == "" || r[0] != '%'
    ensures ReadCodePoint(r) == None
  {
  }

  lemma {:induction false} Utf8Chars(cls: char -> bool, t: string)
    requires Utf8Encoded(cls, t)
    ensures forall i | 0 <= i < |t| :: cls(t[i]) || t[i] == '%' || IsHexDigit(t[i])
    decreases |t|
  {
    hide Utf8Encoded, IsHexDigit, Spells, Encode;
    if t != "" {
      var n := Utf8Token(cls, t);
      Utf8Chars(cls, t[n..]);
      assert forall i | n <= i < |t| :: t[i] == t[n..][i - n];
      if !(cls(t[0]) && n == 1) {
        var cp: nat :| cp <= MAX_TAKEN && Spells(t[..n], Encode(cp));
        SpellsChars(t[..n], Encode(cp));
        assert forall i | 0 <= i < n :: t[i] == t[..n][i];
      }
    }
  }

  lemma {:induction false} SpellsChars(t: string, bs: seq<nat>)
    requires Spells(t, bs)
    ensures forall i | 0 <= i < |t| :: t[i] == '%' || IsHexDigit(t[i])
  {
    if bs != [] {
      SpellsChars(t[3..], bs[1..]);
      assert forall i | 3 <= i < |t| :: t[i] == t[3..][i - 3];
    }
  }

  // ---------------------------------------------------------------- scheme, port

  lemma WhileComplete(cls: char -> bool, t: string, r: string)
    requires forall i | 0 <= i < |t| :: cls(t[i])
    requires !StartsWith(cls, r)
    ensures ReadWhile(cls, t + r) == r
  {
    SpanConcat(cls, t, r);
  }

  lemma SchemeSound(s: string) returns (t: string)
    requires ReadScheme(s).Some?
    ensures s == t + ReadScheme(s).value && Scheme(t) && ":" <= ReadScheme(s).value
  {
    var n := Span(IsSchemeChar, s[1..]) + 1;
    t := s[..n];
    assert forall i | 1 <= i < n :: t[i] == s[1..][i - 1];
  }

  lemma SchemeComplete(t: string, r: string)
    requires Scheme(t) && ":" <= r
    ensures ReadScheme(t + r) == Some(r)
  {
    assert (t + r)[1..] == t[1..] + r;
    WhileComplete(IsSchemeChar, t[1..], r);
  }

  lemma PortSound(s: string) returns (t: string)
    requires ReadPort(s).Some?
    ensures s == t + ReadPort(s).value && IsPort(t) && AuthorityEnd(ReadPort(s).value)
  {
    t := s[..Span(IsNum, s)];
  }

  lemma PortComplete(t: string, r: string)
    requires IsPort(t) && AuthorityEnd(r)
    ensures ReadPort(t + r) == Some(r)
  {
    WhileComplete(IsNum, t, r);
  }

  // ---------------------------------------------------------------- hosts

  lemma IPv6Sound(s: string) returns (t: string, d: Form, zone: string)
    requires ThenBracket(ReadIPv6(s)).Some?
    ensures s == t + "]" + ThenBracket(ReadIPv6(s)).value
    ensures IPv6Literal(t, d, zone, ThenBracket(ReadIPv6(s)).value)
  {
    hide ReadAddress, Form.Text, Form.WellFormed, Form.Unblocked, Utf8Encoded, ReadUtf8;
    ReadAddressSound(s);
    d := ReadAddress(s).value.0;
    var r := ReadAddress(s).value.1;
    var e := ReadIPv6(s).value;
    var after := e[1..];
    assert e == "]" + after;
    if d.FullQuad? || d.CompressedQuad? || !("%25" <= r) {
      zone := "";
      t := d.Text();
      assert zone + "]" + after == r;
      assert t + zone == t;
    } else {
      var z := Utf8Sound(IsUnreserved, r[3..]);
      zone := "%25" + z;
      t := d.Text() + zone;
      assert zone[3..] == z;
      assert r == "%25" + r[3..];
      assert zone + "]" + after == "%25" + (z + e) == r;
      assert t + "]" + after == d.Text() + (zone + "]" + after);
    }
  }

  lemma IPv6Complete(t: string, d: Form, zone: string, after: string)
    requires IPv6Literal(t, d, zone, after)
    ensures ReadIPv6(t + "]" + after) == Some("]" + after)
  {
    hide ReadAddress, Form.Text, Form.WellFormed, Form.Unblocked, Utf8Encoded;
    var e := "]" + after;
    var r := zone + "]" + after;
    assert t + "]" + after == d.Text() + r;
    assert IPv6Grammar.Stops(r);
    ReadAddressComplete(d, r);
    if zone == "" {
      assert r == e;
    } else {
      assert r[3..] == zone[3..] + e && zone == "%25" + zone[3..];
      Utf8Complete(IsUnreserved, zone[3..], e);
    }
  }

  lemma IPvFutureSound(s: string) returns (t: string, n: nat)
    requires ReadIPvFuture(s).Some?
    ensures s == t + ReadIPvFuture(s).value && IPvFutureAt(t, n)
  {
    var k := Span(IsHexDigit, s[1..]);
    n := k + 1;
    var r := s[1..][k..];
    assert r == s[n..];
    var j := Span(IsUserInfoChar, r[1..]);
    assert r[1..] == s[n + 1..];
    t := s[..n + 1 + j];
    assert ReadIPvFuture(s).value == r[1..][j..] == s[n + 1 + j..];
    assert forall i | 1 <= i < n :: t[i] == s[1..][i - 1];
    assert forall i | n < i < |t| :: t[i] == r[1..][i - n - 1];
    assert StartsWith(IsHexDigit, s[1..]) ==> k > 0;
    assert StartsWith(IsUserInfoChar, r[1..]) ==> j > 0;
  }

  lemma IPvFutureComplete(t: string, n: nat, e: string)
    requires IPvFutureAt(t, n) && "]" <= e
    ensures ReadIPvFuture(t + e) == Some(e) && ReadAddress(t + e) == None
  {
    var s := t + e;
    var h, u := t[1..n], t[n + 1..];
    assert s[1..] == h + ("." + u + e);
    WhileComplete(IsHexDigit, h, "." + u + e);
    assert ("." + u + e)[1..] == u + e;
    WhileComplete(IsUserInfoChar, u, e);
    assert s[0] == 'v' && s[1] == h[0] && (u + e)[0] == u[0];
    ReadHexNone(s);
  }

  lemma IPLiteralSound(s: string) returns (t: string)
    requires ReadIPLiteral(s).Some?
    ensures s == t + ReadIPLiteral(s).value && IPLiteral(t, ReadIPLiteral(s).value)
  {
    hide ReadIPv6, ReadIPvFuture, IPv6Literal, IPvFutureAt;
    var after := ReadIPLiteral(s).value;
    var x;
    if ThenBracket(ReadIPv6(s[1..])).Some? {
      var d, zone;
      x, d, zone := IPv6Sound(s[1..]);
      assert IPv6Literal(x, d, zone, after);
    } else {
      var n;
      x, n := IPvFutureSound(s[1..]);
      assert x + ReadIPvFuture(s[1..]).value == x + "]" + after;
    }
    t := "[" + x + "]";
    assert t[1..|t| - 1] == x;
    assert s == "[" + s[1..];
  }

  lemma IPLiteralComplete(t: string, after: string)
    requires IPLiteral(t, after)
    ensures ReadIPLiteral(t + after) == Some(after)
  {
    hide ReadAddress, ReadIPvFuture, IPv6Literal, IPvFutureAt;
    var x := t[1..|t| - 1];
    var e := "]" + after;
    assert t + after == "[" + (x + e);
    assert (t + after)[1..] == x + e == x + "]" + after;
    assert e[1..] == after;
    if exists d, zone :: IPv6Literal(x, d, zone, after) {
      var d, zone :| IPv6Literal(x, d, zone, after);
      IPv6Complete(x, d, zone, after);
    } else {
      var n: nat :| IPvFutureAt(x, n);
      IPvFutureComplete(x, n, e);
    }
  }

  /** A reg-name with what follows it never opens a bracket. */
  lemma NoBracket(t: string, r: string)
    requires Utf8Encoded(IsRegNameChar, t) && (":" <= r || AuthorityEnd(r))
    ensures !("[" <= t + r)
  {
    RegNameStops(r);
    Utf8Chars(IsRegNameChar, t);
    if t == "" {
      assert t + r == r;
    } else {
      assert !IsRegNameChar('[');
      assert (t + r)[0] == t[0] != '[';
    }
  }

  lemma HostSound(s: string) returns (t: string)
    requires ReadHost(s).Some?
    ensures s == t + ReadHost(s).value && Host(t, ReadHost(s).value)
  {
    hide ReadIPLiteral, ReadUtf8, IPLiteral;
    if ReadIPLiteral(s).Some? {
      t := IPLiteralSound(s);
    } else {
      t := Utf8Sound(IsRegNameChar, s);
    }
  }

  lemma HostComplete(t: string, r: string)
    requires Host(t, r) && (":" <= r || AuthorityEnd(r))
    ensures ReadHost(t + r) == Some(r)
  {
    hide ReadIPv6, ReadIPvFuture, ReadUtf8, IPLiteral, Utf8Encoded;
    if IPLiteral(t, r) {
      IPLiteralComplete(t, r);
    } else {
      NoBracket(t, r);
      RegNameStops(r);
      Utf8Complete(IsRegNameChar, t, r);
    }
  }

  // ---------------------------------------------------------------- authority

  lemma AfterUserInfoSound(s: string) returns (h: string, p: Option<string>)
    requires ReadAfterUserInfo(s).Some?
    ensures var r := ReadAfterUserInfo(s).value;
      s == h + PortPart(p) + r && Host(h, PortPart(p) + r) && (p.Some? ==> IsPort(p.value)) && AuthorityEnd(r)
  {
    hide ReadHost, Host, ReadPort, IsPort, AuthorityEnd;
    h := HostSound(s);
    var r := ReadHost(s).value;
    if ":" <= r {
      var t := PortSound(r[1..]);
      p := Some(t);
      var e := ReadPort(r[1..]).value;
      assert r == ":" + r[1..] == PortPart(p) + e;
      assert h + PortPart(p) + e == h + (PortPart(p) + e);
    } else {
      p := None;
      assert PortPart(p) + r == r && h + PortPart(p) == h;
    }
  }

  lemma AfterUserInfoComplete(h: string, p: Option<string>, r: string)
    requires Host(h, PortPart(p) + r) && (p.Some? ==> IsPort(p.value)) && AuthorityEnd(r)
    ensures ReadAfterUserInfo(h + PortPart(p) + r) == Some(r)
  {
    hide ReadHost, Host;
    var u := PortPart(p) + r;
    assert h + PortPart(p) + r == h + u;
    if p.Some? {
      assert u[1..] == p.value + r;
      PortComplete(p.value, r);
    } else {
      assert u == r;
    }
    HostComplete(h, u);
  }

  lemma AuthoritySound(s: string) returns (t: string)
    requires ReadAuthority(s).Some?
    ensures s == t + ReadAuthority(s).value && Authority(t, ReadAuthority(s).value)
    ensures AuthorityEnd(ReadAuthority(s).value)
  {
    hide ReadAfterUserInfo, Host, ReadEncoded, Encoded, PortPart, IsPort, IsUserInfoChar;
    var after := ReadAuthority(s).value;
    if ReadUserInfo(s).Some? {
      var r := ReadUserInfo(s).value;
      var u := EncodedSound(IsUserInfoChar, s);
      var h, p := AfterUserInfoSound(r[1..]);
      t := UserPart(Some(u)) + h + PortPart(p);
      assert r == "@" + r[1..];
      assert s == u + ("@" + (h + PortPart(p) + after)) == t + after;
      assert AuthorityOf(t, Some(u), h, p, after);
    } else {
      var h, p := AfterUserInfoSound(s);
      t := UserPart(None) + h + PortPart(p);
      assert t == h + PortPart(p);
      assert AuthorityOf(t, None, h, p, after);
    }
  }

  /** The scan for user information stops before `r`, and so at no `@` of `a + r`. */
  lemma NoAt(a: string, r: string)
    requires (forall i | 0 <= i < |a| :: a[i] != '@') && AuthorityEnd(r)
    ensures ReadUserInfo(a + r) == None
  {
    hide ReadEncoded, Encoded;
    var s := a + r;
    var u := EncodedSound(IsUserInfoChar, s);
    var e := ReadEncoded(IsUserInfoChar, s);
    EncodedChars(IsUserInfoChar, u);
    assert !IsUserInfoChar('/') && !IsUserInfoChar('?') && !IsUserInfoChar('#');
    assert forall i | 0 <= i < |u| :: u[i] == s[i];
    assert |s| > |a| ==> s[|a|] == r[0];
    assert forall i | 0 <= i < |a| :: s[i] == a[i];
    assert e != "" ==> |u| < |s| && e[0] == s[|u|];
  }

  lemma NoUserInfoBracket(s: string)
    requires "[" <= s
    ensures ReadUserInfo(s) == None
  {
    assert !IsUserInfoChar('[');
    assert ReadEncoded(IsUserInfoChar, s) == s;
  }

  lemma RegNameNoAt(h: string, p: Option<string>)
    requires Utf8Encoded(IsRegNameChar, h) && (p.Some? ==> IsPort(p.value))
    ensures forall i | 0 <= i < |h + PortPart(p)| :: (h + PortPart(p))[i] != '@'
  {
    hide Utf8Encoded;
    Utf8Chars(IsRegNameChar, h);
    assert !IsRegNameChar('@');
    assert forall i | 0 <= i < |PortPart(p)| :: PortPart(p)[i] != '@';
  }

  /** Without user information the scan for it finds no `@`. */
  lemma NoUserInfo(h: string, p: Option<string>, r: string)
    requires Host(h, PortPart(p) + r) && (p.Some? ==> IsPort(p.value)) && AuthorityEnd(r)
    ensures ReadUserInfo(h + PortPart(p) + r) == None
  {
    hide ReadUserInfo, IPLiteral, Utf8Encoded, IsPort, PortPart;
    var s := h + PortPart(p) + r;
    if IPLiteral(h, PortPart(p) + r) {
      BracketFirst(h, PortPart(p) + r);
      NoUserInfoBracket(s);
    } else {
      RegNameNoAt(h, p);
      NoAt(h + PortPart(p), r);
    }
  }

  lemma BracketFirst(t: string, after: string)
    requires IPLiteral(t, after)
    ensures t != "" && t[0] == '['
  {
  }

  lemma AuthorityComplete(t: string, r: string)
    requires Authority(t, r) && AuthorityEnd(r)
    ensures ReadAuthority(t + r) == Some(r)
  {
    hide ReadAfterUserInfo, Host, ReadEncoded, Encoded, PortPart, IsPort;
    var u, h, p :| AuthorityOf(t, u, h, p, r);
    AfterUserInfoComplete(h, p, r);
    var s := h + PortPart(p) + r;
    match u
    case Some(v) =>
      assert t + r == v + ("@" + s);
      assert ("@" + s)[1..] == s;
      EncodedComplete(IsUserInfoChar, v, "@" + s);
    case None =>
      assert t + r == s;
      NoUserInfo(h, p, r);
  }

  // ---------------------------------------------------------------- paths

  lemma {:induction false} SegmentsSound(s: string) returns (t: string)
    ensures s == t + ReadSegments(s) && Segments(t)
    decreases |s|
  {
    hide ReadEncoded, Encoded;
    if "/" <= s {
      var g := EncodedSound(IsPChar, s[1..]);
      var r := ReadEncoded(IsPChar, s[1..]);
      var u := SegmentsSound(r);
      t := "/" + g + u;
      var n := |g| + 1;
      assert t[1..n] == g && t[n..] == u;
      assert s == "/" + s[1..];
    } else {
      t := "";
    }
  }

  /** What may follow a path: its end, so no slash and nothing a segment goes on with. */
  lemma {:induction false} SegmentsComplete(t: string, r: string)
    requires Segments(t) && PathEnd(r)
    ensures ReadSegments(t + r) == r
    decreases |t|
  {
    hide ReadEncoded, Encoded;
    if t == "" {
      assert t + r == r;
    } else {
      var n :| 1 <= n <= |t| && Segment(t[1..n]) && Segments(t[n..]);
      SegmentsComplete(t[n..], r);
      assert (t + r)[1..] == t[1..n] + (t[n..] + r);
      SegmentsHead(t[n..]);
      assert t[n..] != "" ==> (t[n..] + r)[0] == '/';
      assert t[n..] == "" ==> t[n..] + r == r;
      PCharStops(t[n..] + r);
      EncodedComplete(IsPChar, t[1..n], t[n..] + r);
    }
  }

  lemma SegmentsHead(t: string)
    requires Segments(t)
    ensures t == "" || t[0] == '/'
  {
  }

  lemma RootlessSound(cls: char -> bool, s: string) returns (t: string)
    requires ReadRootless(cls, s).Some?
    ensures s == t + ReadRootless(cls, s).value && Rootless(cls, t) && PathEnd(ReadRootless(cls, s).value)
  {
    hide ReadEncoded, ReadSegments, Segments;
    var g := EncodedSound(cls, s);
    var u := SegmentsSound(ReadEncoded(cls, s));
    t := g + u;
    assert t[..|g|] == g && t[|g|..] == u;
  }

  lemma RootlessComplete(cls: char -> bool, t: string, r: string)
    requires Rootless(cls, t) && PathEnd(r)
    requires !cls('%') && !cls('/') && !cls('?') && !cls('#')
    ensures ReadRootless(cls, t + r) == Some(r)
    ensures ReadEncoded(cls, t + r) != t + r && ReadSegments(ReadEncoded(cls, t + r)) == r
    ensures t != "" && (cls(t[0]) || t[0] == '%')
  {
    hide ReadSegments, Segments;
    var n :| 1 <= n <= |t| && Encoded(cls, t[..n]) && Segments(t[n..]);
    var e := t[n..] + r;
    assert t + r == t[..n] + e;
    SegmentsHead(t[n..]);
    assert t[n..] == "" ==> e == r;
    EncodedComplete(cls, t[..n], e);
    SegmentsComplete(t[n..], r);
    assert t[..n][0] == t[0];
  }

  lemma AbsoluteSound(s: string) returns (t: string)
    requires ReadPathAbsolute(s).Some?
    ensures s == t + ReadPathAbsolute(s).value && PathAbsolute(t) && PathEnd(ReadPathAbsolute(s).value)
  {
    hide ReadEncoded, ReadSegments, Segments;
    var u := s[1..];
    assert s == "/" + u;
    if ReadEncoded(IsPChar, u) == u {
      t := "/";
    } else {
      var v := RootlessSound(IsPChar, u);
      t := "/" + v;
      assert t[1..] == v;
    }
  }

  lemma AbsoluteComplete(t: string, r: string)
    requires PathAbsolute(t) && PathEnd(r)
    ensures ReadPathAbsolute(t + r) == Some(r) && !("//" <= t + r)
  {
    hide ReadSegments, Rootless;
    assert (t + r)[1..] == t[1..] + r;
    if t == "/" {
      assert t[1..] + r == r;
      EncodedComplete(IsPChar, "", r);
      assert "" + r == r;
    } else {
      RootlessComplete(IsPChar, t[1..], r);
      assert (t + r)[1] == t[1..][0];
    }
  }

  lemma NetPathSound(s: string) returns (t: string)
    requires ReadNetPath(s).Some?
    ensures s == t + ReadNetPath(s).value && NetPath(t, ReadNetPath(s).value) && PathEnd(ReadNetPath(s).value)
  {
    hide ReadAuthority, Authority, ReadSegments, Segments;
    var a := AuthoritySound(s[2..]);
    var r := ReadAuthority(s[2..]).value;
    var path := SegmentsSound(r);
    var after := ReadNetPath(s).value;
    t := "//" + a + path;
    assert s == "//" + s[2..];
    assert r == path + after;
  }

  lemma NetPathComplete(t: string, r: string)
    requires NetPath(t, r) && PathEnd(r)
    ensures ReadNetPath(t + r) == Some(r)
  {
    hide ReadAuthority, Authority, ReadSegments, Segments;
    var a, path :| t == "//" + a + path && Authority(a, path + r) && Segments(path);
    var e := path + r;
    assert t + r == "//" + (a + e);
    assert (t + r)[2..] == a + e;
    SegmentsHead(path);
    assert path == "" ==> e == r;
    AuthorityComplete(a, e);
    SegmentsComplete(path, r);
  }

  // ---------------------------------------------------------------- whole references

  ghost predicate Part(cls: char -> bool, t: string, after: string)
  {
    NetPath(t, after) || PathAbsolute(t) || Rootless(cls, t) || t == ""
  }

  lemma PartSound(cls: char -> bool, s: string) returns (t: string)
    requires ReadPart(cls, s).Some?
    ensures s == t + ReadPart(cls, s).value && Part(cls, t, ReadPart(cls, s).value) && PathEnd(ReadPart(cls, s).value)
  {
    hide ReadNetPath, ReadPathAbsolute, ReadRootless, NetPath, PathAbsolute, Rootless;
    if ReadNetPath(s).Some? {
      t := NetPathSound(s);
    } else if ReadPathAbsolute(s).Some? {
      t := AbsoluteSound(s);
    } else if ReadRootless(cls, s).Some? {
      t := RootlessSound(cls, s);
    } else {
      t := "";
    }
  }

  lemma PartComplete(cls: char -> bool, t: string, r: string)
    requires Part(cls, t, r) && PathEnd(r)
    requires !cls('%') && !cls('/') && !cls('?') && !cls('#')
    ensures ReadPart(cls, t + r) == Some(r)
  {
    hide ReadAuthority, ReadSegments, NetPath, PathAbsolute, Rootless;
    if NetPath(t, r) {
      NetPathComplete(t, r);
    } else if PathAbsolute(t) {
      AbsoluteComplete(t, r);
    } else if Rootless(cls, t) {
      RootlessComplete(cls, t, r);
      assert (t + r)[0] == t[0];
    } else {
      assert t + r == r;
      EncodedComplete(cls, "", r);
      assert "" + r == r;
    }
  }

  lemma TailSound(s: string)
    requires ReadTail(s).Some? && PathEnd(s)
    ensures ReadTail(s) == Some("") && Tail(s)
  {
    hide ReadEncoded, Encoded;
    var q: Option<string>, r := None, s;
    if "?" <= s {
      var t := EncodedSound(IsQueryChar, s[1..]);
      q, r := Some(t), ReadEncoded(IsQueryChar, s[1..]);
      assert s == "?" + s[1..] == QueryPart(q) + r;
    } else {
      assert QueryPart(q) + r == s;
    }
    var f: Option<string> := None;
    if "#" <= r {
      var t := EncodedSound(IsQueryChar, r[1..]);
      f := Some(t);
      assert t + "" == t;
      assert r == "#" + r[1..] == FragmentPart(f);
    } else {
      assert r == "" == FragmentPart(f);
    }
    assert TailOf(s, q, f);
  }

  lemma TailComplete(s: string)
    requires Tail(s)
    ensures ReadTail(s) == Some("") && PathEnd(s)
  {
    hide ReadEncoded, Encoded;
    var q, f :| TailOf(s, q, f);
    var r := FragmentPart(f);
    if f.Some? {
      assert r[1..] == f.value + "";
      EncodedComplete(IsQueryChar, f.value, "");
    }
    if q.Some? {
      assert s[1..] == q.value + r;
      EncodedComplete(IsQueryChar, q.value, r);
    } else {
      assert s == r;
    }
  }

  lemma UriSound(s: string)
    requires ReadUri(s).Some?
    ensures ReadUri(s) == Some("") && Uri(s)
  {
    hide ReadScheme, ReadPart, ReadTail, Tail, Scheme, NetPath, PathAbsolute, Rootless;
    var sch := SchemeSound(s);
    var r := ReadScheme(s).value;
    var h := PartSound(IsPChar, r[1..]);
    var tail := ReadPart(IsPChar, r[1..]).value;
    TailSound(tail);
    assert r == ":" + r[1..];
    assert s == sch + ":" + h + tail;
    assert HierPart(h, tail);
  }

  lemma UriComplete(sch: string, h: string, tail: string)
    requires Scheme(sch) && HierPart(h, tail) && Tail(tail)
    ensures ReadUri(sch + ":" + h + tail) == Some("")
  {
    hide ReadScheme, ReadPart, ReadTail, Tail, Scheme, NetPath, PathAbsolute, Rootless;
    var r := ":" + (h + tail);
    assert sch + ":" + h + tail == sch + r && r[1..] == h + tail;
    SchemeComplete(sch, r);
    TailComplete(tail);
    PartComplete(IsPChar, h, tail);
  }

  /** The greedy descent accepts exactly the texts of the grammar, and always to the end. */
  lemma UriIff(s: string)
    ensures ReadUri(s).Some? <==> Uri(s)
    ensures ReadUri(s).Some? ==> ReadUri(s) == Some("")
  {
    hide ReadUri, HierPart, Scheme, Tail;
    if ReadUri(s).Some? {
      UriSound(s);
    }
    if Uri(s) {
      var sch, h, tail :| s == sch + ":" + h + tail && Scheme(sch) && HierPart(h, tail) && Tail(tail);
      UriComplete(sch, h, tail);
    }
  }

  lemma RelativeRefIff(s: string)
    ensures ReadRelativeRef(s).Some? <==> RelativeRef(s)
    ensures ReadRelativeRef(s).Some? ==> ReadRelativeRef(s) == Some("")
  {
    hide ReadPart, ReadTail, Tail;
    if ReadRelativeRef(s).Some? {
      var h := PartSound(IsNcChar, s);
      var tail := ReadPart(IsNcChar, s).value;
      TailSound(tail);
      assert RelativePart(h, tail);
    }
    if RelativeRef(s) {
      var h, tail :| s == h + tail && RelativePart(h, tail) && Tail(tail);
      TailComplete(tail);
      PartComplete(IsNcChar, h, tail);
    }
  }
}
