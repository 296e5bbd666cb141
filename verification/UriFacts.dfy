/** How the accepted texts relate to RFC 3986: where the code is stricter, where looser. */
module UriFacts {
  import opened Wrappers
  import opened Chars
  import Numerals
  import opened Parsing
  import opened Reading
  import opened IPv6Grammar
  import opened IPv6
  import opened Utf8
  import opened UriGrammar
  import opened UriReading

  lemma {:induction false} EncodedAppend(cls: char -> bool, a: string, b: string)
    requires Encoded(cls, a) && Encoded(cls, b)
    ensures Encoded(cls, a + b)
    decreases |a|
  {
    if a == "" {
      assert a + b == b;
    } else if cls(a[0]) && Encoded(cls, a[1..]) {
      EncodedAppend(cls, a[1..], b);
      assert (a + b)[1..] == a[1..] + b;
    } else {
      EncodedAppend(cls, a[3..], b);
      assert (a + b)[3..] == a[3..] + b;
    }
  }

  lemma {:induction false} SpellsEncoded(cls: char -> bool, t: string, bs: seq<nat>)
    requires Spells(t, bs)
    ensures Encoded(cls, t)
  {
    if bs != [] {
      SpellsEncoded(cls, t[3..], bs[1..]);
    }
  }

  /** Every reg-name and zone the code takes is one of RFC 3986: *( cls / pct-encoded ). */
  lemma {:induction false} Utf8IsEncoded(cls: char -> bool, t: string)
    requires Utf8Encoded(cls, t)
    ensures Encoded(cls, t)
    decreases |t|
  {
    hide Utf8Encoded, Spells, Encode, IsPct;
    if t != "" {
      var n := Utf8Token(cls, t);
      Utf8IsEncoded(cls, t[n..]);
      if !(cls(t[0]) && n == 1) {
        var cp: nat :| cp <= MAX_TAKEN && Spells(t[..n], Encode(cp));
        SpellsEncoded(cls, t[..n], Encode(cp));
        EncodedAppend(cls, t[..n], t[n..]);
        assert t[..n] + t[n..] == t;
      }
    }
  }

  /** The converse fails: a triplet followed by a hexadecimal digit is refused, because the
      number parser takes the maximal run. */
  lemma HexAfterTripletRefused()
    ensures Encoded(IsRegNameChar, "%61b") && !Utf8Encoded(IsRegNameChar, "%61b")
  {
    var t := "%61b";
    assert t[3..] == "b" && "b"[1..] == "";
    assert IsRegNameChar('b') && Encoded(IsRegNameChar, "b");
    assert IsPct(t);
    assert ReadCodePoint(t) == None;
    assert !IsRegNameChar('%');
    assert ReadUtf8(IsRegNameChar, t) == t;
    assert t + "" == t;
    if Utf8Encoded(IsRegNameChar, t) {
      Utf8Complete(IsRegNameChar, t, "");
    }
  }

  /** A percent-encoded code point is taken exactly where one stands without a hexadecimal
      digit behind it. */
  lemma CodePointIff(s: string)
    ensures ReadCodePoint(s).Some? <==>
      exists n :: 0 < n <= |s| && PctCodePoint(s[..n]) && !StartsWith(IsHexDigit, s[n..])
  {
    hide ReadCodePoint, PctCodePoint;
    if ReadCodePoint(s).Some? {
      var t := CodePointSound(s);
      assert s[..|t|] == t && s[|t|..] == ReadCodePoint(s).value;
    }
    if n :| 0 < n <= |s| && PctCodePoint(s[..n]) && !StartsWith(IsHexDigit, s[n..]) {
      CodePointComplete(s[..n], s[n..]);
      assert s[..n] + s[n..] == s;
    }
  }

  // ---------------------------------------------------------------- bracketed hosts

  /** What the code asks of a standard form in brackets: the look-ahead for a quad, which sees
      past the bracket into `after`, does not misfire, and no zone follows a quad. */
  predicate LiteralAccepted(d: Form, zone: string, after: string)
  {
    d.Unblocked(zone + "]" + after) && (zone == "" || (!d.FullQuad? && !d.CompressedQuad?))
  }

  ghost predicate StandardHost(d: Form, zone: string) { Standard(d) && (zone == "" || IsUriZone(zone)) }

  function Bracket(d: Form, zone: string): string { "[" + (d.Text() + zone) + "]" }

  /** A bracketed standard form is taken as an IP literal exactly when the code accepts it. */
  lemma LiteralIff(d: Form, zone: string, after: string)
    requires StandardHost(d, zone)
    ensures ReadIPLiteral(Bracket(d, zone) + after).Some? <==> LiteralAccepted(d, zone, after)
    ensures LiteralAccepted(d, zone, after) ==> IPLiteral(Bracket(d, zone), after)
  {
    hide ReadAddress, ReadIPLiteral, ReadIPvFuture, Form.Text, Form.Unblocked, Utf8Encoded;
    var t, rest := d.Text() + zone, zone + "]" + after;
    assert Bracket(d, zone)[1..|Bracket(d, zone)| - 1] == t;
    if LiteralAccepted(d, zone, after) {
      assert IPv6Literal(t, d, zone, after);
      IPLiteralComplete(Bracket(d, zone), after);
    } else {
      var x := d.Text() + rest;
      assert Bracket(d, zone) + after == "[" + x;
      assert IPv6Grammar.Stops(rest);
      StandardRead(d, rest);
      FormHead(d, rest);
      NotIPvFuture(x);
      NoLiteral("[" + x, x);
    }
  }

  lemma FormHead(d: Form, rest: string)
    requires d.WellFormed() && rest != ""
    ensures IsHexDigit((d.Text() + rest)[0]) || (d.Text() + rest)[0] == ':'
  {
    hide Join, Numerals.Dec, Quad.Text;
    match d
    case Full(gs) => JoinHead(gs, rest);
    case FullQuad(gs, q) =>
      JoinHead(gs, ":" + q.Text() + rest);
      assert d.Text() + rest == Join(gs) + (":" + q.Text() + rest);
    case Compressed(l, r, c) => LeftHead(l, Join(r) + Colon(c) + rest, d.Text() + rest);
    case CompressedQuad(l, r, q) => LeftHead(l, Join(r) + Colon(r != []) + q.Text() + rest, d.Text() + rest);
  }

  lemma LeftHead(l: seq<string>, w: string, s: string)
    requires AllGroups(l) && s == Join(l) + "::" + w
    ensures s != "" && (IsHexDigit(s[0]) || s[0] == ':')
  {
    hide Join;
    if l == [] {
      JoinNil();
    } else {
      JoinHead(l, "::" + w);
      assert s == Join(l) + ("::" + w);
    }
  }

  lemma NotIPvFuture(x: string)
    requires x != "" && (IsHexDigit(x[0]) || x[0] == ':')
    ensures ReadIPvFuture(x) == None
  {
  }

  lemma NoLiteral(s: string, x: string)
    requires s == "[" + x && ReadIPvFuture(x) == None && ThenBracket(ReadIPv6(x)) == None
    ensures ReadIPLiteral(s) == None
  {
    hide ReadIPv6, ReadIPvFuture;
    assert s[1..] == x;
  }

  /** An authority of the grammar in every part but, perhaps, its bracketed host. */
  ghost predicate BracketAuthority(a: string, u: Option<string>, d: Form, zone: string, p: Option<string>)
  {
    && a == UserPart(u) + Bracket(d, zone) + PortPart(p) && StandardHost(d, zone)
    && (u.Some? ==> Encoded(IsUserInfoChar, u.value)) && (p.Some? ==> IsPort(p.value))
  }

  lemma BracketAuthorityIff(a: string, u: Option<string>, d: Form, zone: string, p: Option<string>, after: string)
    requires BracketAuthority(a, u, d, zone, p)
    ensures LiteralAccepted(d, zone, PortPart(p) + after) ==> Authority(a, after)
    ensures !LiteralAccepted(d, zone, PortPart(p) + after) ==> ReadAuthority(a + after) == None
  {
    hide ReadIPLiteral, IPLiteral, LiteralAccepted, StandardHost, Encoded, Utf8Encoded, ReadEncoded, IsPort, PortPart,
         Bracket, ReadRegName;
    var h := Bracket(d, zone);
    LiteralIff(d, zone, PortPart(p) + after);
    if LiteralAccepted(d, zone, PortPart(p) + after) {
      assert AuthorityOf(a, u, h, p, after);
    } else {
      var s := h + (PortPart(p) + after);
      BracketIsBracket(d, zone, PortPart(p) + after);
      NoRegName(s);
      assert ReadAfterUserInfo(s) == None;
      match u
      case Some(v) =>
        assert a + after == v + ("@" + s);
        assert ("@" + s)[1..] == s && !IsUserInfoChar('@') && !IsUserInfoChar('%');
        EncodedComplete(IsUserInfoChar, v, "@" + s);
      case None =>
        assert a + after == s;
        NoUserInfoBracket(s);
    }
  }

  lemma BracketIsBracket(d: Form, zone: string, after: string)
    ensures "[" <= Bracket(d, zone) + after
  {
  }

  lemma NoRegName(s: string)
    requires "[" <= s
    ensures ReadRegName(s) == None
  {
    hide ReadUtf8;
    assert !IsRegNameChar('[');
    NoCodePoint(s);
    assert ReadUtf8(IsRegNameChar, s) == s by {
      assert !StartsWith(IsRegNameChar, s);
      Utf8Stuck(IsRegNameChar, s);
    }
  }

  /** A text that is a URI in every part but, perhaps, its bracketed host is a URI exactly when
      the code accepts that host before what follows it. The same holds of relative
      references. */
  lemma BracketUriIff(
    sch: string, a: string, u: Option<string>, d: Form, zone: string, p: Option<string>, path: string, tail: string)
    requires Scheme(sch) && BracketAuthority(a, u, d, zone, p) && Segments(path) && Tail(tail)
    ensures UriGrammar.Uri(sch + ":" + ("//" + a + path) + tail)
        <==> LiteralAccepted(d, zone, PortPart(p) + (path + tail))
    ensures RelativeRef("//" + a + path + tail) <==> LiteralAccepted(d, zone, PortPart(p) + (path + tail))
  {
    hide Scheme, BracketAuthority, Segments, Tail, LiteralAccepted, PortPart, Authority, ReadAuthority;
    BracketAuthorityIff(a, u, d, zone, p, path + tail);
    var h := "//" + a + path;
    if LiteralAccepted(d, zone, PortPart(p) + (path + tail)) {
      assert NetPath(h, tail);
      assert HierPart(h, tail) && RelativePart(h, tail);
    } else {
      assert "//" + (a + (path + tail)) == h + tail;
      BadAuthority(sch, a + (path + tail));
      assert sch + ":" + ("//" + (a + (path + tail))) == sch + ":" + h + tail;
    }
  }

  /** The look-ahead for a quad sees past the bracket: this text has the scheme `a`, the
      IPv6 address `::1` and the path `/.well`, and is refused. */
  lemma WellKnownPathRefused()
    ensures Scheme("a") && Segments("/.well")
    ensures exists d :: Standard(d) && d.Text() == "::1"
    ensures !UriGrammar.Uri("a:" + "//[" + "::1" + "]" + "/.well")
  {
    hide UriGrammar.Uri, Scheme, Segments, Tail, BracketAuthority, LiteralAccepted, Bracket, Form.Text;
    var d := Loopback();
    LoopbackText();
    DotPath();
    NoTail();
    WellKnownText("a", "[::1]", "/.well");
    BracketUriIff("a", "[::1]", None, d, "", None, "/.well", "");
    assert "a" + ":" + ("//" + "[::1]" + "/.well") == "a:" + "//[" + "::1" + "]" + "/.well";
  }

  lemma WellKnownText(sch: string, a: string, path: string)
    ensures PortPart(None) + (path + "") == path
    ensures sch + ":" + ("//" + a + path) + "" == sch + ":" + ("//" + a + path)
  {
  }

  function Loopback(): Form { Compressed([], ["1"], false) }

  lemma LoopbackText()
    ensures Standard(Loopback()) && Loopback().Text() == "::1"
    ensures BracketAuthority("[::1]", None, Loopback(), "", None)
    ensures !LiteralAccepted(Loopback(), "", "/.well")
  {
    JoinOne("1");
    JoinNil();
    assert "::1" + "" == "::1";
    assert "1" + Colon(false) + ("" + "]" + "/.well") == "1]/.well";
  }

  lemma NoTail()
    ensures Tail("")
  {
    assert TailOf("", None, None);
  }

  lemma DotPath()
    ensures Scheme("a") && Segments("/.well")
  {
    hide Encoded;
    AllInClass(IsPChar, ".well");
    OneSegment(".well");
    assert "/" + ".well" == "/.well";
  }

  lemma OneSegment(t: string)
    requires Segment(t)
    ensures Segments("/" + t)
  {
    var u := "/" + t;
    assert u[1..|u|] == t && u[|u|..] == "" && Segments("");
  }

  lemma {:induction false} AllInClass(cls: char -> bool, t: string)
    requires forall i | 0 <= i < |t| :: cls(t[i])
    ensures Encoded(cls, t)
  {
    if t != "" {
      AllInClass(cls, t[1..]);
    }
  }

  lemma Utf8Stuck(cls: char -> bool, s: string)
    requires !StartsWith(cls, s) && ReadCodePoint(s) == None
    ensures ReadUtf8(cls, s) == s
  {
  }

  lemma EncodedStuck(cls: char -> bool, s: string)
    requires s != "" && !cls(s[0]) && s[0] != '%'
    ensures ReadEncoded(cls, s) == s
  {
  }

  /** No other alternative of a hierarchical or relative part takes a text that starts with
      `//`. */
  lemma NetPathOnly(cls: char -> bool, u: string)
    requires "//" <= u && ReadNetPath(u) == None && !cls('/')
    ensures ReadPart(cls, u) == None
  {
    hide ReadNetPath, ReadEncoded, IsPChar;
    assert !IsPChar('/') by { SlashIsNoPChar(); }
    assert u[1..][0] == '/';
    EncodedStuck(cls, u);
    EncodedStuck(IsPChar, u[1..]);
  }

  lemma SlashIsNoPChar()
    ensures !IsPChar('/') && !IsNcChar('/')
  {
  }

  /** A URI or relative reference whose authority cannot be read is refused. */
  lemma BadAuthority(sch: string, rest: string)
    requires Scheme(sch) && ReadAuthority(rest) == None
    ensures !UriGrammar.Uri(sch + ":" + ("//" + rest))
    ensures !RelativeRef("//" + rest)
  {
    hide ReadAuthority, ReadEncoded, UriGrammar.Uri, RelativeRef, ReadScheme, Scheme, ReadPart;
    var u := "//" + rest;
    var s := sch + ":" + u;
    assert s == sch + (":" + u) && (":" + u)[1..] == u && u[2..] == rest;
    SchemeComplete(sch, ":" + u);
    SlashIsNoPChar();
    NetPathOnly(IsPChar, u);
    NetPathOnly(IsNcChar, u);
    UriIff(s);
    RelativeRefIff(u);
  }

  /** A single colon before the bracket is accepted although no form of RFC 4291 ends so. */
  lemma TrailingColonAccepted()
    ensures IPLiteral("[::1:]", "")
  {
    var d := Compressed([], ["1"], true);
    JoinOne("1");
    JoinNil();
    var x := "::1:";
    assert d.Text() == x;
    assert "]" + "" == "]" && "" + "]" + "" == "]";
    assert d.Unblocked("" + "]" + "");
    assert x + "" == x;
    assert IPv6Literal(x, d, "", "");
    assert "[::1:]"[1..5] == x;
  }

  // ---------------------------------------------------------------- without a bracket

  /** The productions of Appendix A of RFC 3986 with a reg-name of percent-encoded UTF-8 for
      the host. */
  ghost predicate PlainAuthority(a: string)
  {
    exists u, h, p :: PlainAuthorityOf(a, u, h, p)
  }

  ghost predicate PlainAuthorityOf(a: string, u: Option<string>, h: string, p: Option<string>)
  {
    && a == UserPart(u) + h + PortPart(p)
    && (u.Some? ==> Encoded(IsUserInfoChar, u.value))
    && Utf8Encoded(IsRegNameChar, h)
    && (p.Some? ==> IsPort(p.value))
  }

  ghost predicate PlainNetPath(t: string)
  {
    exists a, path :: t == "//" + a + path && PlainAuthority(a) && Segments(path)
  }

  ghost predicate PlainPart(cls: char -> bool, t: string)
  {
    PlainNetPath(t) || PathAbsolute(t) || Rootless(cls, t) || t == ""
  }

  ghost predicate PlainUri(s: string)
  {
    exists sch, h, tail :: s == sch + ":" + h + tail && Scheme(sch) && PlainPart(IsPChar, h) && Tail(tail)
  }

  ghost predicate PlainRelativeRef(s: string)
  {
    exists h, tail :: s == h + tail && PlainPart(IsNcChar, h) && Tail(tail)
  }

  /** Without `[` what may stand for an authority does not depend on what follows it. */
  lemma AuthorityIsPlain(a: string, after: string)
    requires '[' !in a
    ensures Authority(a, after) <==> PlainAuthority(a)
  {
    hide Encoded, Utf8Encoded, IPLiteral, IsPort, PortPart, UserPart;
    if u, h, p :| AuthorityOf(a, u, h, p, after) {
      assert '[' !in h;
      if IPLiteral(h, PortPart(p) + after) {
        BracketFirst(h, PortPart(p) + after);
      }
      assert PlainAuthorityOf(a, u, h, p);
    }
    if u, h, p :| PlainAuthorityOf(a, u, h, p) {
      assert AuthorityOf(a, u, h, p, after);
    }
  }

  lemma NetPathIsPlain(t: string, after: string)
    requires '[' !in t
    ensures NetPath(t, after) <==> PlainNetPath(t)
  {
    hide Authority, PlainAuthority, Segments;
    if a, path :| t == "//" + a + path && Authority(a, path + after) && Segments(path) {
      AuthorityIsPlain(a, path + after);
    }
    if a, path :| t == "//" + a + path && PlainAuthority(a) && Segments(path) {
      AuthorityIsPlain(a, path + after);
    }
  }

  /** A text without `[` is a URI, or a relative reference, exactly when it derives from the
      productions of Appendix A of RFC 3986 with a reg-name for the host, limited to
      percent-encoded UTF-8 without a third hexadecimal digit behind a triplet. */
  lemma WithoutBracket(s: string)
    requires '[' !in s
    ensures UriGrammar.Uri(s) <==> PlainUri(s)
    ensures RelativeRef(s) <==> PlainRelativeRef(s)
  {
    hide NetPath, PlainNetPath, PathAbsolute, Rootless, Tail, Scheme;
    if sch, h, tail :| s == sch + ":" + h + tail && Scheme(sch) && HierPart(h, tail) && Tail(tail) {
      NetPathIsPlain(h, tail);
      assert PlainPart(IsPChar, h);
    }
    if sch, h, tail :| s == sch + ":" + h + tail && Scheme(sch) && PlainPart(IsPChar, h) && Tail(tail) {
      NetPathIsPlain(h, tail);
      assert HierPart(h, tail);
    }
    if h, tail :| s == h + tail && RelativePart(h, tail) && Tail(tail) {
      NetPathIsPlain(h, tail);
    }
    if h, tail :| s == h + tail && PlainPart(IsNcChar, h) && Tail(tail) {
      NetPathIsPlain(h, tail);
    }
  }
}
