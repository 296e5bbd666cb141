/** The string checks built on the parsers: hostnames, ports, host-and-port, IP prefixes. */
module ExtraFunc {
  import opened Wrappers
  import opened Chars
  import opened Numerals
  import opened Reading
  import opened Bits
  import opened IPv6Grammar
  import opened IPv6Value
  import IPv4
  import IPv6

  // ---------------------------------------------------------------- hostnames

  predicate IsLabelChar(c: char) { IsAlphaNum(c) || c == '-' }

  /** 1 to 63 letters, digits and hyphens, no hyphen at either end. */
  predicate IsLabel(l: string)
  {
    && 1 <= |l| <= 63 && (forall i | 0 <= i < |l| :: IsLabelChar(l[i]))
    && l[0] != '-' && l[|l| - 1] != '-'
  }

  function JoinDots(ls: seq<string>): string
  {
    if ls == [] then "" else if |ls| == 1 then ls[0] else ls[0] + "." + JoinDots(ls[1..])
  }

  /** At least one label, the last not a number. */
  predicate GoodLabels(ls: seq<string>)
  {
    ls != [] && (forall i | 0 <= i < |ls| :: IsLabel(ls[i])) && !AllNum(ls[|ls| - 1])
  }

  /** Labels separated by dots, perhaps a final dot. */
  ghost predicate HostnameOf(s: string, ls: seq<string>)
  {
    GoodLabels(ls) && (s == JoinDots(ls) || s == JoinDots(ls) + ".")
  }

  ghost predicate Hostname(s: string)
  {
    |s| <= 253 && exists ls :: HostnameOf(s, ls)
  }

  predicate NotDot(c: char) { c != '.' }

  /** absl::StrSplit(s, '.') */
  function Split(s: string): (ls: seq<string>)
    ensures ls != []
    decreases |s|
  {
    var n := Span(NotDot, s);
    if n == |s| then [s] else [s[..n]] + Split(s[n + 1..])
  }

  lemma {:induction false} SplitJoin(s: string)
    ensures JoinDots(Split(s)) == s
    decreases |s|
  {
    hide JoinDots;
    var n := Span(NotDot, s);
    if n < |s| {
      var rest := s[n + 1..];
      SplitJoin(rest);
      JoinMore(s[..n], Split(rest));
      assert s == s[..n] + "." + rest;
    } else {
      JoinOneLabel(s);
    }
  }

  lemma JoinMore(l: string, ls: seq<string>)
    requires ls != []
    ensures JoinDots([l] + ls) == l + "." + JoinDots(ls)
  {
    assert ([l] + ls)[1..] == ls;
  }

  lemma JoinOneLabel(l: string)
    ensures JoinDots([l]) == l
  {
  }

  lemma {:induction false} JoinSplit(ls: seq<string>)
    requires ls != [] && forall i | 0 <= i < |ls| :: '.' !in ls[i]
    ensures Split(JoinDots(ls)) == ls
  {
    var l := ls[0];
    assert forall i | 0 <= i < |l| :: NotDot(l[i]);
    if |ls| == 1 {
      SpanUnique(NotDot, l, |l|);
    } else {
      JoinSplit(ls[1..]);
      var rest := "." + JoinDots(ls[1..]);
      SpanConcat(NotDot, l, rest);
      assert JoinDots(ls) == l + rest;
      assert JoinDots(ls)[|l| + 1..] == JoinDots(ls[1..]);
      assert ls == [l] + ls[1..];
    }
  }

  lemma LabelHasNoDot(l: string)
    requires IsLabel(l)
    ensures '.' !in l
  {
  }

  function StripDot(s: string): string
  {
    if s != "" && s[|s| - 1] == '.' then s[..|s| - 1] else s
  }

  lemma {:induction false} JoinLast(ls: seq<string>)
    requires ls != [] && forall i | 0 <= i < |ls| :: IsLabel(ls[i])
    ensures JoinDots(ls) != "" && JoinDots(ls)[|JoinDots(ls)| - 1] != '.'
  {
    if |ls| > 1 {
      JoinLast(ls[1..]);
    }
  }

  /** The labels of a hostname are the split of the text without its final dot. */
  lemma HostnameIsSplit(s: string, ls: seq<string>)
    requires HostnameOf(s, ls)
    ensures s != "" && Split(StripDot(s)) == ls && GoodLabels(ls)
  {
    JoinLast(ls);
    forall i | 0 <= i < |ls| ensures '.' !in ls[i] {
      LabelHasNoDot(ls[i]);
    }
    JoinSplit(ls);
    if s == JoinDots(ls) + "." {
      assert StripDot(s) == JoinDots(ls);
    }
  }

  lemma SplitIsHostname(s: string)
    requires s != "" && GoodLabels(Split(StripDot(s)))
    ensures HostnameOf(s, Split(StripDot(s)))
  {
    SplitJoin(StripDot(s));
    assert s == StripDot(s) || s == StripDot(s) + ".";
  }

  method IsHostname(toValidate: string) returns (ok: bool)
    ensures ok <==> Hostname(toValidate)
  {
    hide Split, JoinDots, StripDot, HostnameOf;
    var str := toValidate;
    forall ls | HostnameOf(toValidate, ls)
      ensures toValidate != "" && Split(StripDot(toValidate)) == ls && GoodLabels(ls)
    {
      HostnameIsSplit(toValidate, ls);
    }
    if str == "" || |str| > 253 {
      return false;
    }
    str := StripDot(str);
    var allDigits := false;
    var parts := Split(str);
    for k := 0 to |parts|
      invariant forall i | 0 <= i < k :: IsLabel(parts[i])
      invariant k > 0 ==> allDigits == AllNum(parts[k - 1])
    {
      allDigits := true;
      var part := parts[k];
      if part == "" || |part| > 63 || part[0] == '-' || part[|part| - 1] == '-' {
        return false;
      }
      for j := 0 to |part|
        invariant forall i | 0 <= i < j :: IsLabelChar(part[i])
        invariant allDigits <==> forall i | 0 <= i < j :: IsNum(part[i])
      {
        var ch := part[j];
        if (ch < 'a' || ch > 'z') && (ch < 'A' || ch > 'Z') && (ch < '0' || ch > '9') && ch != '-' {
          assert !IsLabelChar(part[j]);
          return false;
        }
        allDigits := allDigits && ch >= '0' && ch <= '9';
      }
    }
    if !allDigits {
      SplitIsHostname(toValidate);
    }
    ok := !allDigits;
  }

  // ---------------------------------------------------------------- ports

  ghost predicate PortText(s: string)
  {
    exists v: nat :: v <= 65535 && s == Dec(v)
  }

  /** absl::SimpleAtoi on a digit string: fails when the value does not fit in 32 bits. */
  function SimpleAtoi(s: string): Option<nat>
    requires AllNum(s)
  {
    if DecValue(s) < 0x1_0000_0000 then Some(DecValue(s)) else None
  }

  method IsPort(str: string) returns (ok: bool)
    ensures ok <==> PortText(str)
  {
    forall v: nat | str == Dec(v) ensures Canonical(str) && DecValue(str) == v {
      DecCanonical(v);
    }
    if str == "" {
      return false;
    }
    if |str| > 1 && str[0] == '0' {
      return false;
    }
    for i := 0 to |str|
      invariant forall k | 0 <= k < i :: IsNum(str[k])
    {
      if !('0' <= str[i] <= '9') {
        assert !IsNum(str[i]);
        return false;
      }
    }
    DecOfCanonical(str);
    var port := SimpleAtoi(str);
    if port.None? {
      return false;
    }
    ok := port.value <= 65535;
  }

  // ---------------------------------------------------------------- host and port

  ghost predicate V6Text(s: string) { exists d, z :: IPv6.AddressText(s, d, z) }

  ghost predicate V4Text(s: string) { exists v: nat :: v < 0x1_0000_0000 && s == IPv4.Print(v) }

  /** A hostname or an IPv4 address. */
  ghost predicate NameText(s: string) { Hostname(s) || V4Text(s) }

  method IsIpv4(toValidate: string) returns (ok: bool)
    ensures ok <==> V4Text(toValidate)
  {
    var r := IPv4.ParseIPv4Address(toValidate);
    if r.Some? {
      assert r == Some(r.value);
    }
    ok := r.Some?;
  }

  method IsIpv6(toValidate: string) returns (ok: bool)
    ensures ok <==> V6Text(toValidate)
  {
    hide IPv6.AddressText;
    var r := IPv6.ParseIPv6Address(toValidate);
    ok := r.Some?;
  }

  method IsIp(toValidate: string) returns (ok: bool)
    ensures ok <==> V4Text(toValidate) || V6Text(toValidate)
  {
    ok := IsIpv4(toValidate);
    if !ok {
      ok := IsIpv6(toValidate);
    }
  }

  /** std::string_view::rfind: the last position of `c`, or -1. */
  function RFind(s: string, c: char): (i: int)
    ensures -1 <= i < |s| && (i >= 0 ==> s[i] == c)
    ensures forall k | i < k < |s| :: s[k] != c
  {
    if s == "" then -1
    else if s[|s| - 1] == c then |s| - 1
    else RFind(s[..|s| - 1], c)
  }

  lemma RFindUnique(s: string, c: char, n: nat)
    requires n < |s| && s[n] == c
    requires forall k | n < k < |s| :: s[k] != c
    ensures RFind(s, c) == n
  {
  }

  lemma RFindLast(a: string, c: char, b: string)
    requires c !in b
    ensures RFind(a + [c] + b, c) == |a|
  {
    var s := a + [c] + b;
    forall k | |a| < k < |s| ensures s[k] != c {
      BehindMark(a, c, b, k);
    }
    RFindUnique(s, c, |a|);
  }

  lemma BehindMark(a: string, c: char, b: string, k: nat)
    requires c !in b && |a| < k < |a| + 1 + |b|
    ensures (a + [c] + b)[k] != c
  {
    assert b[k - |a| - 1] in b;
  }

  lemma RFindNone(s: string, c: char)
    requires c !in s
    ensures RFind(s, c) == -1
  {
  }

  /** The four shapes: `[v6]`, `[v6]:port`, `name`, `name:port`. */
  ghost predicate Bracketed(s: string, h: string) { s == "[" + h + "]" && V6Text(h) }

  ghost predicate BracketedPort(s: string, h: string, p: string)
  {
    s == "[" + h + "]:" + p && V6Text(h) && PortText(p)
  }

  ghost predicate NamedPort(s: string, g: string, p: string)
  {
    s == g + ":" + p && NameText(g) && PortText(p)
  }

  ghost predicate WithPort(s: string)
  {
    (exists h, p :: BracketedPort(s, h, p)) || exists g, p :: NamedPort(s, g, p)
  }

  ghost predicate WithoutPort(s: string)
  {
    (exists h :: Bracketed(s, h)) || NameText(s)
  }

  lemma {:induction false} JoinChars(ls: seq<string>)
    requires ls != [] && forall i | 0 <= i < |ls| :: IsLabel(ls[i])
    ensures forall i | 0 <= i < |JoinDots(ls)| :: IsLabelChar(JoinDots(ls)[i]) || JoinDots(ls)[i] == '.'
  {
    if |ls| > 1 {
      JoinChars(ls[1..]);
    }
  }

  /** Names hold letters, digits, hyphens and dots only. */
  lemma NameChars(s: string)
    requires NameText(s)
    ensures s != "" && s[0] != '[' && ':' !in s
  {
    if Hostname(s) {
      HostnameChars(s);
    } else {
      V4Chars(s);
    }
    assert forall i | 0 <= i < |s| :: s[i] != ':' && s[i] != '[';
  }

  lemma HostnameChars(s: string)
    requires Hostname(s)
    ensures s != "" && forall i | 0 <= i < |s| :: IsLabelChar(s[i]) || s[i] == '.'
  {
    hide IsLabelChar, JoinDots, Split;
    var ls :| HostnameOf(s, ls);
    HostnameIsSplit(s, ls);
    JoinChars(ls);
  }

  lemma V4Chars(s: string)
    requires V4Text(s)
    ensures s != "" && forall i | 0 <= i < |s| :: IsLabelChar(s[i]) || s[i] == '.'
  {
    hide Quad.Text, IPv4.QuadOf;
    var v: nat :| v < 0x1_0000_0000 && s == IPv4.Print(v);
    QuadChars(IPv4.QuadOf(v));
  }

  lemma QuadChars(q: Quad)
    ensures q.Text() != ""
    ensures forall i | 0 <= i < |q.Text()| :: IsNum(q.Text()[i]) || q.Text()[i] == '.'
  {
    hide Dec;
  }

  lemma PortChars(p: string)
    requires PortText(p)
    ensures p != "" && ':' !in p && ']' !in p
  {
    hide Dec;
  }

  /** Where the searches end up on each of the shapes. */
  lemma BracketedSplit(s: string, h: string)
    requires Bracketed(s, h)
    ensures s != "" && s[0] == '[' && RFind(s, ']') == |s| - 1 && s[1..|s| - 1] == h
  {
    RFindLast("[" + h, ']', "");
    assert "[" + h + [']'] + "" == s;
  }

  lemma BracketedPortSplit(s: string, h: string, p: string)
    requires BracketedPort(s, h, p)
    ensures s != "" && s[0] == '['
    ensures var e := RFind(s, ']'); 1 <= e < |s| - 1 && RFind(s, ':') == e + 1 && s[1..e] == h && s[e + 2..] == p
  {
    hide V6Text, PortText, RFind;
    PortChars(p);
    BracketPositions(h, p);
  }

  lemma BracketPositions(h: string, p: string)
    requires ':' !in p && ']' !in p
    ensures var s := "[" + h + "]:" + p;
      RFind(s, ']') == |h| + 1 && RFind(s, ':') == |h| + 2
  {
    hide RFind;
    var s := "[" + h + "]:" + p;
    NotInColon(p);
    assert "[" + h + [']'] + (":" + p) == s;
    RFindLast("[" + h, ']', ":" + p);
    assert "[" + h + "]" + [':'] + p == s;
    RFindLast("[" + h + "]", ':', p);
  }

  lemma NotInColon(p: string)
    requires ']' !in p
    ensures ']' !in ":" + p
  {
  }

  lemma NamedPortSplit(s: string, g: string, p: string)
    requires NamedPort(s, g, p)
    ensures s != "" && s[0] != '['
    ensures var e := RFind(s, ':'); 0 <= e && s[..e] == g && s[e + 1..] == p
  {
    NameChars(g);
    PortChars(p);
    RFindLast(g, ':', p);
    assert g + [':'] + p == s;
  }

  /** The searches find the parts of a text of any of the shapes. */
  ghost predicate FoundBracketed(s: string, h: string)
  {
    s != "" && s[0] == '[' && RFind(s, ']') == |s| - 1 && s[1..|s| - 1] == h
  }

  ghost predicate FoundBracketedPort(s: string, h: string, p: string)
  {
    && s != "" && s[0] == '['
    && var e := RFind(s, ']');
       1 <= e < |s| - 1 && RFind(s, ':') == e + 1 && s[1..e] == h && s[e + 2..] == p
  }

  ghost predicate FoundNamedPort(s: string, g: string, p: string)
  {
    && s != "" && s[0] != '['
    && var e := RFind(s, ':');
       0 <= e && s[..e] == g && s[e + 1..] == p
  }

  lemma Decompose(s: string)
    ensures forall h | Bracketed(s, h) :: FoundBracketed(s, h)
    ensures forall h, p | BracketedPort(s, h, p) :: FoundBracketedPort(s, h, p)
    ensures forall g, p | NamedPort(s, g, p) :: FoundNamedPort(s, g, p)
    ensures NameText(s) ==> s != "" && s[0] != '[' && RFind(s, ':') == -1
  {
    hide Bracketed, BracketedPort, NamedPort, NameText, RFind;
    forall h | Bracketed(s, h) ensures FoundBracketed(s, h) {
      BracketedSplit(s, h);
    }
    forall h, p | BracketedPort(s, h, p) ensures FoundBracketedPort(s, h, p) {
      BracketedPortSplit(s, h, p);
    }
    forall g, p | NamedPort(s, g, p) ensures FoundNamedPort(s, g, p) {
      NamedPortSplit(s, g, p);
    }
    if NameText(s) {
      NameChars(s);
      RFindNone(s, ':');
    }
  }

  method IsName(s: string) returns (ok: bool)
    ensures ok <==> NameText(s)
  {
    ok := IsHostname(s);
    if !ok {
      ok := IsIpv4(s);
    }
  }

  /** The text decomposes into one of the shapes, and the searches find the decomposition. */
  method IsHostAndPort(str: string, portRequired: bool) returns (ok: bool)
    ensures ok <==> WithPort(str) || (!portRequired && WithoutPort(str))
  {
    hide V6Text, NameText, PortText, RFind;
    Decompose(str);
    if str == "" {
      return false;
    }
    var splitIdx := RFind(str, ':');
    if str[0] == '[' {
      assert !NameText(str) && forall g, p :: !NamedPort(str, g, p);
      var end := RFind(str, ']');
      var afterEnd := end + 1;
      if afterEnd == |str| {
        var host := str[1..end];
        assert str == "[" + host + "]";
        ok := IsIpv6(host);
        assert ok ==> Bracketed(str, host);
        ok := !portRequired && ok;
        return;
      }
      if afterEnd == splitIdx {
        var host := str[1..end];
        var port := str[splitIdx + 1..];
        assert str == "[" + host + "]:" + port;
        ok := IsIpv6(host);
        if ok {
          ok := IsPort(port);
          assert ok ==> BracketedPort(str, host, port);
        }
        return;
      }
      return false;
    }
    if splitIdx == -1 {
      ok := IsName(str);
      ok := !portRequired && ok;
      return;
    }
    var host := str[..splitIdx];
    var port := str[splitIdx + 1..];
    assert str == host + ":" + port;
    ok := IsName(host);
    if ok {
      ok := IsPort(port);
      assert ok ==> NamedPort(str, host, port);
    }
  }

  // ---------------------------------------------------------------- IP prefixes

  ghost predicate V4Prefix(s: string, p: IPv4.IPv4Prefix, strict: bool)
  {
    && p.bits < 0x1_0000_0000 && p.prefixLength <= 32 && s == IPv4.PrintPrefix(p)
    && (strict ==> p.bits % Pow2(32 - p.prefixLength) == 0)
  }

  ghost predicate V6Prefix(s: string, d: Form, n: nat, strict: bool)
  {
    && IPv6.PrefixText(s, d, n)
    && (strict ==> FromWords(d.Words()) % Pow2(128 - n) == 0)
  }

  method IsIpv4Prefix(toValidate: string, strict: bool) returns (ok: bool)
    ensures ok <==> exists p :: V4Prefix(toValidate, p, strict)
  {
    hide Pow2, And, Not, IPv4.PrintPrefix, IPv4.IPv4Prefix.Mask;
    var prefix := IPv4.ParseIPv4Prefix(toValidate);
    if prefix.None? {
      return false;
    }
    assert prefix == Some(prefix.value);
    if !strict {
      assert V4Prefix(toValidate, prefix.value, strict);
      return true;
    }
    Pow2Table();
    IPv4.StrictIsDivisibility(prefix.value);
    ok := And(prefix.value.bits, Not(prefix.value.Mask(), 32)) == 0;
    assert ok ==> V4Prefix(toValidate, prefix.value, strict);
  }

  method IsIpv6Prefix(toValidate: string, strict: bool) returns (ok: bool)
    ensures ok <==> exists d, n: nat :: V6Prefix(toValidate, d, n, strict)
  {
    hide Pow2, And, Not, FromWords, Form.Words, Form.Text, IPv6.Tolerated;
    var prefix := IPv6.ParseIPv6Prefix(toValidate);
    if prefix.None? {
      return false;
    }
    var p := prefix.value;
    ghost var d :| IPv6.PrefixText(toValidate, d, p.prefixLength) && p.bits == FromWords(d.Words());
    forall d', n': nat | IPv6.PrefixText(toValidate, d', n') ensures d' == d && n' == p.prefixLength {
      IPv6.PrefixTextUnique(toValidate, d', n', d, p.prefixLength);
    }
    if !strict {
      assert V6Prefix(toValidate, d, p.prefixLength, strict);
      return true;
    }
    IPv6.ValueBound(d);
    IPv6.StrictIsDivisibility(p);
    ok := And(p.bits, Not(p.Mask(), 128)) == 0;
    assert ok ==> V6Prefix(toValidate, d, p.prefixLength, strict);
  }

  method IsIpPrefix(toValidate: string, strict: bool) returns (ok: bool)
    ensures ok <==>
      (exists p :: V4Prefix(toValidate, p, strict)) || exists d, n: nat :: V6Prefix(toValidate, d, n, strict)
  {
    ok := IsIpv4Prefix(toValidate, strict);
    if !ok {
      ok := IsIpv6Prefix(toValidate, strict);
    }
  }
}
