/** The grammar of Appendix A of RFC 3986, as predicates over texts. A host may also be an
    IPv6 form with a zone (RFC 6874); reg-names and zones take percent-encoded UTF-8 only. */
module UriGrammar {
  import opened Wrappers
  import opened Chars
  import opened IPv6Grammar
  import opened Utf8

  predicate IsUnreserved(c: char) { IsAlphaNum(c) || c == '-' || c == '_' || c == '.' || c == '~' }
  predicate IsSubDelim(c: char)
  {
    || c == '!' || c == '$' || c == '&' || c == '\'' || c == '(' || c == ')'
    || c == '*' || c == '+' || c == ',' || c == ';' || c == '='
  }
  predicate IsSchemeChar(c: char) { IsAlphaNum(c) || c == '+' || c == '-' || c == '.' }
  predicate IsUserInfoChar(c: char) { IsUnreserved(c) || IsSubDelim(c) || c == ':' }
  predicate IsRegNameChar(c: char) { IsUnreserved(c) || IsSubDelim(c) }
  predicate IsPChar(c: char) { IsUnreserved(c) || IsSubDelim(c) || c == ':' || c == '@' }
  predicate IsNcChar(c: char) { IsUnreserved(c) || IsSubDelim(c) || c == '@' }
  predicate IsQueryChar(c: char) { IsPChar(c) || c == '/' || c == '?' }

  predicate IsPct(t: string)
  {
    |t| >= 3 && t[0] == '%' && IsHexDigit(t[1]) && IsHexDigit(t[2])
  }

  /** *( cls / pct-encoded ) */
  predicate Encoded(cls: char -> bool, t: string)
  {
    || t == ""
    || (cls(t[0]) && Encoded(cls, t[1..]))
    || (IsPct(t) && Encoded(cls, t[3..]))
  }

  /** *( cls / percent-encoded code point ), no code point followed by a hexadecimal digit. */
  ghost predicate Utf8Encoded(cls: char -> bool, t: string)
  {
    || t == ""
    || (cls(t[0]) && Utf8Encoded(cls, t[1..]))
    || exists n ::
         && 0 < n <= |t| && PctCodePoint(t[..n]) && !StartsWith(IsHexDigit, t[n..])
         && Utf8Encoded(cls, t[n..])
  }

  predicate Scheme(t: string)
  {
    t != "" && IsAlpha(t[0]) && forall i | 1 <= i < |t| :: IsSchemeChar(t[i])
  }

  predicate Segment(t: string) { Encoded(IsPChar, t) }

  /** *( "/" segment ), which is also path-abempty */
  ghost predicate Segments(t: string)
  {
    t == "" || (t[0] == '/' && exists n :: 1 <= n <= |t| && Segment(t[1..n]) && Segments(t[n..]))
  }

  /** One nonempty segment over `cls` and further segments. */
  ghost predicate Rootless(cls: char -> bool, t: string)
  {
    exists n :: 1 <= n <= |t| && Encoded(cls, t[..n]) && Segments(t[n..])
  }

  ghost predicate PathAbsolute(t: string)
  {
    t != "" && t[0] == '/' && (t == "/" || Rootless(IsPChar, t[1..]))
  }

  predicate IsPort(t: string) { forall i | 0 <= i < |t| :: IsNum(t[i]) }

  predicate IPvFutureAt(t: string, n: nat)
  {
    && 2 <= n < |t| - 1 && t[0] == 'v' && t[n] == '.'
    && (forall i | 1 <= i < n :: IsHexDigit(t[i]))
    && (forall i | n < i < |t| :: IsUserInfoChar(t[i]))
  }

  /** An IPv6 form or one with a zone. `after` is the text behind the closing bracket: the
      look-ahead for a quad can see it. A quad is never followed by a zone. */
  ghost predicate IPv6Literal(t: string, d: Form, zone: string, after: string)
  {
    && d.WellFormed() && t == d.Text() + zone && d.Unblocked(zone + "]" + after)
    && (zone == "" || (!d.FullQuad? && !d.CompressedQuad? && IsUriZone(zone)))
  }

  ghost predicate IsUriZone(z: string)
  {
    "%25" < z && Utf8Encoded(IsUnreserved, z[3..])
  }

  ghost predicate IPLiteral(t: string, after: string)
  {
    && |t| >= 2 && t[0] == '[' && t[|t| - 1] == ']'
    && var x := t[1..|t| - 1];
       (exists d, zone :: IPv6Literal(x, d, zone, after)) || exists n: nat :: IPvFutureAt(x, n)
  }

  ghost predicate Host(t: string, after: string)
  {
    IPLiteral(t, after) || Utf8Encoded(IsRegNameChar, t)
  }

  function UserPart(u: Option<string>): string { if u.Some? then u.value + "@" else "" }

  function PortPart(p: Option<string>): string { if p.Some? then ":" + p.value else "" }

  function QueryPart(q: Option<string>): string { if q.Some? then "?" + q.value else "" }

  function FragmentPart(f: Option<string>): string { if f.Some? then "#" + f.value else "" }

  /** [ userinfo "@" ] host [ ":" port ] */
  ghost predicate AuthorityOf(t: string, u: Option<string>, h: string, p: Option<string>, after: string)
  {
    && t == UserPart(u) + h + PortPart(p)
    && (u.Some? ==> Encoded(IsUserInfoChar, u.value))
    && Host(h, PortPart(p) + after)
    && (p.Some? ==> IsPort(p.value))
  }

  ghost predicate Authority(t: string, after: string)
  {
    exists u, h, p :: AuthorityOf(t, u, h, p, after)
  }

  /** "//" authority path-abempty */
  ghost predicate NetPath(t: string, after: string)
  {
    exists a, path :: t == "//" + a + path && Authority(a, path + after) && Segments(path)
  }

  ghost predicate HierPart(t: string, after: string)
  {
    NetPath(t, after) || PathAbsolute(t) || Rootless(IsPChar, t) || t == ""
  }

  ghost predicate RelativePart(t: string, after: string)
  {
    NetPath(t, after) || PathAbsolute(t) || Rootless(IsNcChar, t) || t == ""
  }

  /** [ "?" query ] [ "#" fragment ] */
  predicate TailOf(t: string, q: Option<string>, f: Option<string>)
  {
    && t == QueryPart(q) + FragmentPart(f)
    && (q.Some? ==> Encoded(IsQueryChar, q.value))
    && (f.Some? ==> Encoded(IsQueryChar, f.value))
  }

  ghost predicate Tail(t: string) { exists q, f :: TailOf(t, q, f) }

  /** URI = scheme ":" hier-part [ "?" query ] [ "#" fragment ] */
  ghost predicate Uri(t: string)
  {
    exists sch, h, tail :: t == sch + ":" + h + tail && Scheme(sch) && HierPart(h, tail) && Tail(tail)
  }

  ghost predicate RelativeRef(t: string)
  {
    exists h, tail :: t == h + tail && RelativePart(h, tail) && Tail(tail)
  }

  ghost predicate UriReference(t: string) { Uri(t) || RelativeRef(t) }
}
