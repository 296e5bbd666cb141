/** The IPv6 address and prefix parsers. */
module IPv6 {
  import opened Wrappers
  import opened Chars
  import opened Numerals
  import opened Parsing
  import opened Reading
  import opened Bits
  import opened IPv6Grammar
  import opened IPv6Value
  import IPv4

  datatype IPv6Prefix = IPv6Prefix(bits: nat, prefixLength: nat) {
    /** bitset{}.set() << (128 - prefixLength) */
    function Mask(): (m: nat)
      requires prefixLength <= 128
      ensures m < Pow2(128)
    {
      Shl(Ones(128), 128 - prefixLength, 128)
    }
  }

  /** A zone: `%` and at least one character, none of them NUL. */
  predicate IsZone(z: string)
  {
    |z| >= 2 && z[0] == '%' && forall i | 1 <= i < |z| :: z[i] != '\0'
  }

  /** `s` is the text of the form `d` followed by nothing or by a zone. */
  ghost predicate AddressText(s: string, d: Form, zone: string)
  {
    d.WellFormed() && d.Unblocked(zone) && s == d.Text() + zone && (zone == "" || IsZone(zone))
  }

  /** Forms a prefix length can follow. */
  predicate Tolerated(d: Form)
  {
    match d
    case Compressed(l, r, c) => c ==> r != [] && |l| + |r| < 7
    case CompressedQuad(l, r, q) => !(r != [] && |r[|r| - 1]| == 1 && |Dec(q.a)| == 1)
    case _ => true
  }

  ghost predicate PrefixText(s: string, d: Form, n: nat)
  {
    d.WellFormed() && Tolerated(d) && n <= 128 && s == d.Text() + ("/" + Dec(n))
  }

  class IPv6Parser {
    const input: ParserCommon
    var bits: nat
    var prefixLength: nat

    constructor (s: string)
      ensures fresh(input) && input.str == s && bits == 0 && prefixLength == 0
    {
      input := new ParserCommon(s);
      bits, prefixLength := 0, 0;
    }

    /** Takes everything up to the end of input, unless there is nothing or a NUL. */
    method ConsumeZoneId() returns (ok: bool)
      modifies input
      ensures ok <==> IsZone("%" + old(input.str))
      ensures ok ==> input.str == ""
    {
      if input.str == "" {
        return false;
      }
      ghost var all := "%" + input.str;
      var n := 1;
      while input.str != ""
        invariant 1 <= n <= |all| && input.str == all[n..]
        invariant forall i | 1 <= i < n :: all[i] != '\0'
        decreases |input.str|
      {
        assert input.str[0] == all[n];
        if input.str[0] == '\0' {
          return false;
        }
        input.str := input.str[1..];
        n := n + 1;
      }
      return true;
    }

    method CheckDottedAhead() returns (dotted: bool)
      ensures dotted == CheckDotted(input.str)
    {
      if |input.str| < 7 {
        return false;
      }
      return input.str[0] != ':' && (input.str[1] == '.' || input.str[2] == '.' || input.str[3] == '.');
    }

    /** Reads the quad straight into the low 32 bits, which are still free. */
    method ParseDotted(ghost high: nat) returns (ok: bool)
      requires bits == high * Pow2(32)
      modifies this`bits, input
      ensures ok == ReadQuad(old(input.str)).Some?
      ensures ok ==> input.str == ReadQuad(old(input.str)).value.1
      ensures ok ==> bits == old(bits) + ReadQuad(old(input.str)).value.0.Value()
    {
      hide *;
      ReadQuadSound(input.str);
      var q;
      ok, q := ParseOctets(input);
      if ok {
        bits := IPv4.OrOctets(bits, q);
        IPv4.OrOctetsAdds(high, q);
      }
    }

    method ParseGroup() returns (ok: bool, value: nat)
      modifies input
      ensures ok == ReadHex(old(input.str)).Some?
      ensures ok ==> input.str == ReadHex(old(input.str)).value.1
      ensures ok ==> IsGroup(ReadHex(old(input.str)).value.0) && value == HexValue(ReadHex(old(input.str)).value.0)
      ensures !ok ==> input.str == old(input.str)
    {
      HexAtGroup(input.str);
      ok, value := input.ParseHexadecimalNumber(0xffff, 1);
    }

    method ConsumePrefixLength() returns (ok: bool)
      modifies this`prefixLength, input
      ensures ok == ReadDecimal(old(input.str), 128).Some?
      ensures ok ==> (prefixLength, input.str) == ReadDecimal(old(input.str), 128).value
    {
      ReadDecimalSound(input.str, 128);
      var n;
      ok, n := input.ParseDecimalNumber(128);
      if ok {
        DecInjective(n, ReadDecimal(old(input.str), 128).value.0);
        prefixLength := n;
      }
    }

    /** The loop over groups, `::`, colons and a dotted quad, assembling 128 bits. */
    method ParseAddressPart() returns (ok: bool, ghost form: Form)
      requires bits == 0
      modifies this`bits, input
      ensures ok == ReadAddress(old(input.str)).Some?
      ensures ok ==> ReadAddress(old(input.str)) == Some((form, input.str))
      ensures ok ==> form.WellFormed() && bits == FromWords(form.Words())
    {
      hide *;
      ghost var whole := input.str;
      ghost var st := State([], [], false, false, 0, 0);
      var b, index, doubleColonFound := 0, 0, false;
      StartState(whole);
      ghost var ended := false;
      form := Full([]);
      while index < 8
        invariant !ended && Tracks(st, whole, input.str)
        invariant st.b == b && st.bits == bits && st.dc == doubleColonFound && st.Index() == index
        decreases |input.str|
      {
        StateBounds(st, whole, input.str);
        ghost var s := input.str;
        var dotted := false;
        if doubleColonFound || index == 6 {
          dotted := CheckDottedAhead();
        }
        if dotted {
          ghost var high := QuadBranch(st, whole, s);
          ok := ParseDotted(high);
          if !ok {
            return false, form;
          }
          b := Shl(b, 32, 128);
          index := index + 2;
          form := st.QuadForm(ReadQuad(s).value.0);
          ended := true;
          break;
        }
        var value;
        ok, value := ParseGroup();
        if ok {
          st := GroupBranch(st, whole, s);
          b := Shl(b, 16, 128);
          b := Or(b, value);
          index := index + 1;
          continue;
        }
        SeparatorBranch(st, whole, s);
        ok := input.ConsumeSequence("::");
        if ok {
          ok := input.ConsumeChar(':');
          if ok || index > 7 || doubleColonFound {
            return false, form;
          }
          st := DoubleBranch(st, whole, s);
          bits := Or(bits, Shl(b, 16 * (8 - index), 128));
          b := 0;
          doubleColonFound := true;
          index := index + 1;
          continue;
        }
        ok := input.ConsumeChar(':');
        if ok {
          if index == 0 || input.str == "" {
            return false, form;
          }
          st := ColonBranch(st, whole, s);
          continue;
        }
        form := EndBranch(st, whole, s);
        ended := true;
        break;
      }
      if !ended {
        form := EndBranch(st, whole, input.str);
      }
      bits := Or(bits, b);
      ok := doubleColonFound || index == 8;
    }

    method ParseAddress() returns (ok: bool, ghost form: Form, ghost zone: string)
      requires bits == 0
      modifies this`bits, input
      ensures ok ==> AddressText(old(input.str), form, zone) && bits == FromWords(form.Words())
      ensures !ok ==> forall d, z :: !AddressText(old(input.str), d, z)
    {
      hide *;
      ghost var whole := input.str;
      forall d, z | AddressText(whole, d, z) ensures ReadAddress(whole) == Some((d, z)) && (z == "" || IsZone(z)) {
        AddressTextRead(whole, d, z);
      }
      ok, form := ParseAddressPart();
      zone := input.str;
      if !ok {
        return;
      }
      var percent := input.ConsumeChar('%');
      if percent {
        assert "%" + input.str == zone;
        ok := ConsumeZoneId();
        ok := ok && input.str == "";
      } else {
        if IsZone(zone) {
          ZoneStart(zone);
        }
        ok := input.str == "";
      }
      if ok {
        AddressTextFrom(whole, form, zone);
      }
    }

    method ParsePrefix() returns (ok: bool, ghost form: Form)
      requires bits == 0
      modifies this, input
      ensures ok ==> PrefixText(old(input.str), form, prefixLength) && bits == FromWords(form.Words())
      ensures !ok ==> forall d, n: nat :: !PrefixText(old(input.str), d, n)
    {
      hide *;
      ghost var whole := input.str;
      forall d, n: nat | PrefixText(whole, d, n)
        ensures ReadAddress(whole) == Some((d, "/" + Dec(n))) && ReadDecimal(Dec(n), 128) == Some((n, ""))
      {
        PrefixTextRead(whole, d, n);
      }
      ok, form := ParseAddressPart();
      if !ok {
        return;
      }
      ghost var rest := input.str;
      ok := input.ConsumeChar('/');
      if !ok {
        return;
      }
      assert rest == "/" + input.str;
      ghost var digits := input.str;
      ok := ConsumePrefixLength();
      if !ok {
        return;
      }
      ok := input.str == "";
      if ok {
        ReadDecimalSound(digits, 128);
        assert digits == Dec(prefixLength) + "" == Dec(prefixLength);
        PrefixTextFrom(whole, form, prefixLength);
      } 
    }
  }

  /** The variables of the loop: groups read before and behind `::`, whether `::` was seen,
      a pending colon, the word being shifted and the bits already placed. */
  datatype State = State(p: seq<string>, q: seq<string>, dc: bool, colon: bool, b: nat, bits: nat) {
    function Index(): nat { IPv6Grammar.Index(p, q, dc) }

    function Current(): seq<string> { if dc then q else p }

    function QuadForm(quad: Quad): Form
    {
      if dc then CompressedQuad(p, q, quad) else FullQuad(p, quad)
    }

    function EndForm(): Form
    {
      if dc then Compressed(p, q, colon) else Full(p)
    }
  }

  /** The loop invariant: the rest of the run from here gives the reading of the whole text,
      and the two words hold the values of the groups read so far. */
  ghost predicate Tracks(st: State, whole: string, s: string)
  {
    && AllGroups(st.p) && AllGroups(st.q) && (!st.dc ==> st.q == []) && st.Index() <= 8
    && ReadAddress(whole) == Run(s, st.p, st.q, st.dc, st.colon)
    && st.b == GroupsValue(st.Current())
    && st.bits == if st.dc then GroupsValue(st.p) * Pow2(16 * (8 - |st.p|)) else 0
  }

  lemma StartState(whole: string)
    ensures Tracks(State([], [], false, false, 0, 0), whole, whole)
    ensures State([], [], false, false, 0, 0).Index() == 0
  {
    NoGroups();
  }

  lemma StateBounds(st: State, whole: string, s: string)
    requires Tracks(st, whole, s)
    ensures st.Index() <= 8
  {
  }

  /** At a quad the low 32 bits of `bits` are free, and the parts add up to the form's value. */
  lemma QuadBranch(st: State, whole: string, s: string) returns (high: nat)
    requires Tracks(st, whole, s) && st.Index() < 8
    requires (st.dc || st.Index() == 6) && CheckDotted(s)
    ensures st.bits == high * Pow2(32)
    ensures ReadQuad(s).None? ==> ReadAddress(whole) == None
    ensures ReadQuad(s).Some? ==>
      var form := st.QuadForm(ReadQuad(s).value.0);
      && ReadAddress(whole) == Some((form, ReadQuad(s).value.1)) && form.WellFormed()
      && Or(st.bits + ReadQuad(s).value.0.Value(), Shl(st.b, 32, 128)) == FromWords(form.Words())
      && (st.dc || st.Index() + 2 == 8)
  {
    hide ReadQuad, ReadHex, CheckDotted, Pow2, Shl, Or, GroupsValue, FromWords, Form.Words, Quad.Value;
    if st.dc {
      high := GroupsValue(st.p) * Pow2(16 * (6 - |st.p|));
      SplitShift(GroupsValue(st.p), 16 * (6 - |st.p|));
      assert 16 * (6 - |st.p|) + 32 == 16 * (8 - |st.p|);
    } else {
      high := 0;
    }
    ReadQuadSound(s);
    if ReadQuad(s).Some? {
      var quad := ReadQuad(s).value.0;
      if st.dc {
        AssembleQuad(st.p, st.q, quad);
      } else {
        AssembleFullQuad(st.p, quad);
      }
    }
  }

  lemma GroupBranch(st: State, whole: string, s: string) returns (st': State)
    requires Tracks(st, whole, s) && st.Index() < 8 && ReadHex(s).Some?
    requires !((st.dc || st.Index() == 6) && CheckDotted(s))
    requires IsGroup(ReadHex(s).value.0)
    ensures Tracks(st', whole, ReadHex(s).value.1) && |ReadHex(s).value.1| < |s|
    ensures st'.Index() == st.Index() + 1 && st'.dc == st.dc && st'.bits == st.bits
    ensures st'.b == Or(Shl(st.b, 16, 128), HexValue(ReadHex(s).value.0))
  {
    hide ReadQuad, ReadHex, CheckDotted, Pow2, Shl, Or, GroupsValue, HexValue;
    ReadHexSound(s);
    var g := ReadHex(s).value.0;
    PushGroup(st.Current(), g);
    var b' := Or(Shl(st.b, 16, 128), HexValue(g));
    st' := if st.dc then st.(q := st.q + [g], b := b', colon := false)
        else st.(p := st.p + [g], b := b', colon := false);
  }

  /** Neither a quad nor a group: what a separator or the end decides. */
  lemma SeparatorBranch(st: State, whole: string, s: string)
    requires Tracks(st, whole, s) && st.Index() < 8 && ReadHex(s).None?
    requires !((st.dc || st.Index() == 6) && CheckDotted(s))
    ensures "::" <= s && (":" <= s[2..] || st.dc) ==> ReadAddress(whole) == None
    ensures !("::" <= s) && ":" <= s && (st.Index() == 0 || s[1..] == "") ==> ReadAddress(whole) == None
    ensures "::" <= s ==> |s[2..]| < |s|
    ensures ":" <= s ==> |s[1..]| < |s|
  {
    hide ReadQuad, ReadHex, CheckDotted, Pow2, GroupsValue;
    assert ":" <= s && s[1..] == "" ==> s == ":";
  }

  lemma DoubleBranch(st: State, whole: string, s: string) returns (st': State)
    requires Tracks(st, whole, s) && st.Index() < 8 && ReadHex(s).None?
    requires !((st.dc || st.Index() == 6) && CheckDotted(s))
    requires "::" <= s && !(":" <= s[2..]) && !st.dc
    ensures Tracks(st', whole, s[2..])
    ensures st'.Index() == st.Index() + 1 && st'.dc && st'.b == 0
    ensures st'.bits == Or(st.bits, Shl(st.b, 16 * (8 - st.Index()), 128))
  {
    hide ReadQuad, ReadHex, CheckDotted, Pow2, Shl, GroupsValue;
    NoGroups();
    var n := |st.p|;
    GroupsBound(st.p);
    Room(st.b, 16 * n, 16 * (8 - n), 128);
    ShlSmall(st.b, 16 * (8 - n), 128);
    st' := State(st.p, [], true, false, 0, st.b * Pow2(16 * (8 - n)));
  }

  lemma ColonBranch(st: State, whole: string, s: string) returns (st': State)
    requires Tracks(st, whole, s) && 0 < st.Index() < 8 && ReadHex(s).None?
    requires !((st.dc || st.Index() == 6) && CheckDotted(s))
    requires ":" <= s && !("::" <= s) && s[1..] != ""
    ensures Tracks(st', whole, s[1..])
    ensures st'.Index() == st.Index() && st'.dc == st.dc && st'.b == st.b && st'.bits == st.bits
  {
    hide ReadQuad, ReadHex, CheckDotted, Pow2, GroupsValue;
    st' := st.(colon := true);
  }

  lemma EndBranch(st: State, whole: string, s: string) returns (form: Form)
    requires Tracks(st, whole, s)
    requires st.Index() >= 8 || (ReadHex(s).None? && !(":" <= s) && !((st.dc || st.Index() == 6) && CheckDotted(s)))
    ensures ReadAddress(whole).Some? <==> st.dc || st.Index() == 8
    ensures ReadAddress(whole).Some? ==> ReadAddress(whole) == Some((form, s)) && form.WellFormed()
    ensures ReadAddress(whole).Some? ==> Or(st.bits, st.b) == FromWords(form.Words())
  {
    hide ReadQuad, ReadHex, CheckDotted, Pow2, Or, GroupsValue, FromWords, Form.Words;
    form := st.EndForm();
    if form.WellFormed() {
      AssembleGroups(form);
    }
  }

  // ------------------------------------------------ whole texts

  lemma ZoneStart(z: string)
    requires IsZone(z)
    ensures z != "" && "%" <= z && Stops(z)
  {
  }

  lemma AddressTextRead(s: string, d: Form, z: string)
    requires AddressText(s, d, z)
    ensures ReadAddress(s) == Some((d, z)) && (z == "" || IsZone(z))
  {
    hide ReadAddress, Form.Unblocked, Form.Text;
    ReadAddressComplete(d, z);
  }

  lemma AddressTextFrom(s: string, d: Form, z: string)
    requires ReadAddress(s) == Some((d, z)) && (z == "" || IsZone(z))
    ensures AddressText(s, d, z)
  {
    hide ReadAddress, Form.Unblocked, Form.Text;
    ReadAddressSound(s);
  }

  lemma NoDotNoPeek(s: string)
    requires forall i | 0 <= i < |s| :: s[i] != '.'
    ensures !CheckDotted(s)
  {
  }

  /** A prefix length holds no dot, so the look-ahead only ever sees a tolerated form. */
  lemma SlashUnblocked(d: Form, n: nat)
    requires d.WellFormed()
    ensures d.Unblocked("/" + Dec(n)) <==> Tolerated(d)
  {
    hide CheckDotted, Dec;
    var r := "/" + Dec(n);
    NoDotNoPeek(r);
    if d.Compressed? && d.right != [] {
      var g := d.right[|d.right| - 1];
      assert IsGroup(g);
      NoDotNoPeek(g + Colon(d.colon) + r);
    }
  }

  lemma PrefixTextRead(s: string, d: Form, n: nat)
    requires PrefixText(s, d, n)
    ensures ReadAddress(s) == Some((d, "/" + Dec(n))) && ReadDecimal(Dec(n), 128) == Some((n, ""))
  {
    hide ReadAddress, Form.Unblocked, Form.Text, Tolerated, Dec, ReadDecimal;
    SlashUnblocked(d, n);
    ReadAddressComplete(d, "/" + Dec(n));
    ReadDecimalComplete(n, "", 128);
    assert Dec(n) + "" == Dec(n);
  }

  lemma PrefixTextFrom(s: string, d: Form, n: nat)
    requires ReadAddress(s) == Some((d, "/" + Dec(n))) && n <= 128
    ensures PrefixText(s, d, n)
  {
    hide ReadAddress, Form.Unblocked, Form.Text, Tolerated, Dec;
    ReadAddressSound(s);
    SlashUnblocked(d, n);
  }

  lemma AddressTextUnique(s: string, d: Form, z: string, d': Form, z': string)
    requires AddressText(s, d, z) && AddressText(s, d', z')
    ensures d == d' && z == z'
  {
    AddressTextRead(s, d, z);
    AddressTextRead(s, d', z');
  }

  lemma PrefixTextUnique(s: string, d: Form, n: nat, d': Form, n': nat)
    requires PrefixText(s, d, n) && PrefixText(s, d', n')
    ensures d == d' && n == n'
  {
    PrefixTextRead(s, d, n);
    PrefixTextRead(s, d', n');
    assert ("/" + Dec(n))[1..] == Dec(n) && ("/" + Dec(n'))[1..] == Dec(n');
    DecInjective(n, n');
  }

  method ParseIPv6Address(str: string) returns (r: Option<nat>)
    ensures r.Some? ==> exists d, z :: AddressText(str, d, z) && r.value == FromWords(d.Words())
    ensures r.None? ==> forall d, z :: !AddressText(str, d, z)
  {
    hide AddressText, FromWords, Form.Words;
    var address := new IPv6Parser(str);
    var ok;
    ghost var d, z;
    ok, d, z := address.ParseAddress();
    r := if ok then Some(address.bits) else None;
  }

  method ParseIPv6Prefix(str: string) returns (r: Option<IPv6Prefix>)
    ensures r.Some? ==> r.value.prefixLength <= 128
    ensures r.Some? ==>
      exists d :: PrefixText(str, d, r.value.prefixLength) && r.value.bits == FromWords(d.Words())
    ensures r.None? ==> forall d, n: nat :: !PrefixText(str, d, n)
  {
    hide FromWords, Form.Words;
    var prefix := new IPv6Parser(str);
    var ok;
    ghost var d;
    ok, d := prefix.ParsePrefix();
    r := if ok then Some(IPv6Prefix(prefix.bits, prefix.prefixLength)) else None;
  }

  // ------------------------------------------------ what is accepted without a zone

  /** The forms of section 2.2 of RFC 4291, with `::` allowed to stand for no group when a
      quad follows. */
  predicate Standard(d: Form)
  {
    d.WellFormed() && (d.Compressed? ==> !d.colon)
  }

  /** The one family of forms the look-ahead for a quad turns down: a one-digit last group
      behind `::` followed by a quad whose first octet has one digit. */
  predicate Misread(d: Form)
  {
    d.CompressedQuad? && d.right != [] && |d.right[|d.right| - 1]| == 1 && |Dec(d.quad.a)| == 1
  }

  /** The last group behind `::` is taken for the start of a quad. */
  lemma RunLastBlocked(l: seq<string>, r: seq<string>, u: string)
    requires AllGroups(l) && AllGroups(r) && r != [] && |l| + |r| <= 7
    requires u != "" && !IsHexDigit(u[0]) && u[0] != '.' && CheckDotted(r[|r| - 1] + u)
    ensures Run(Join(r) + u, l, [], true, false) == None
  {
    hide Run, CheckDotted, Join, ReadQuad, IsHexDigit;
    var g, init := r[|r| - 1], r[..|r| - 1];
    assert init + [g] == r;
    NotAQuad(g, u);
    if init == [] {
      JoinOne(g);
      assert r == [g];
      RunBlocked(g + u, l, [], false);
    } else {
      RunToLast(l, init, g, u);
      RunBlocked(g + u, l, init, true);
    }
  }

  /** The groups behind `::` up to the last one. */
  lemma RunToLast(l: seq<string>, init: seq<string>, g: string, u: string)
    requires AllGroups(init) && init != [] && IsGroup(g) && |l| + |init| <= 6 && u != "" && u[0] != '.'
    ensures Run(Join(init + [g]) + u, l, [], true, false) == Run(g + u, l, init, true, true)
  {
    hide Run, CheckDotted, Join, AllGroups, IsGroup, IsHexDigit;
    LastText(init, g, u);
    RunGroups(init, ":" + (g + u), l, true);
    RunColon(g + u, l, init, true, false);
  }

  lemma LastText(init: seq<string>, g: string, u: string)
    requires AllGroups(init) && init != [] && IsGroup(g) && u != "" && u[0] != '.'
    ensures Join(init + [g]) + u == Join(init) + (":" + (g + u))
    ensures !CheckDotted(init[|init| - 1] + (":" + (g + u)))
    ensures !IsHexDigit(':') && g + u != "" && (g + u)[0] != ':'
  {
    hide CheckDotted, Join, AllHex;
    JoinSnoc(init, g);
    NextGroupPeek(init[|init| - 1], g, u);
    Regroup(init[|init| - 1], ":", g, u);
    Regroup(Join(init), ":", g, u);
    GroupStart(g, u);
  }

  lemma Regroup(a: string, b: string, g: string, u: string)
    ensures a + b + g + u == a + (b + (g + u))
  {
  }

  lemma GroupStart(g: string, u: string)
    requires IsGroup(g)
    ensures !IsHexDigit(':') && g + u != "" && (g + u)[0] != ':'
  {
    assert (g + u)[0] == g[0];
  }

  lemma BlockedCompressed(d: Form, rest: string)
    requires Standard(d) && d.Compressed? && Stops(rest) && !d.Unblocked(rest)
    ensures ReadAddress(d.Text() + rest) == None
  {
    hide Run, CheckDotted, Join, ReadQuad;
    var l, r := d.left, d.right;
    var w := Join(r) + rest;
    assert d.Text() + rest == Join(l) + "::" + w;
    if r == [] {
      assert Join(r) == "" by { JoinNil(); }
      assert w == rest;
      RunLeft(l, w);
      NoQuadAhead(rest);
      RunBlocked(rest, l, [], false);
    } else {
      JoinHead(r, rest);
      RunLeft(l, w);
      var g := r[|r| - 1];
      assert g + Colon(false) + rest == g + rest;
      if CheckDotted(g + rest) {
        LongerThanGroup(g, rest);
        RunLastBlocked(l, r, rest);
      } else {
        RunGroups(r, rest, l, true);
        NoQuadAhead(rest);
        RunBlocked(rest, l, r, false);
      }
    }
  }

  lemma LongerThanGroup(g: string, u: string)
    requires IsGroup(g) && CheckDotted(g + u)
    ensures u != ""
  {
  }

  lemma BlockedQuad(d: Form, rest: string)
    requires Standard(d) && Misread(d)
    ensures ReadAddress(d.Text() + rest) == None
  {
    hide Run, CheckDotted, Join, Dec, Quad.Text, ReadQuad;
    var l, r, t := d.left, d.right, d.quad.Text() + rest;
    var g, u := r[|r| - 1], ":" + t;
    QuadPeek(g, d.quad, rest);
    assert g + u == g + ":" + t;
    var w := Join(r) + u;
    assert d.Text() + rest == Join(l) + "::" + w by {
      assert Join(l) + "::" + Join(r) + Colon(true) + d.quad.Text() + rest == Join(l) + "::" + (Join(r) + u);
    }
    JoinHead(r, u);
    RunLeft(l, w);
    RunLastBlocked(l, r, u);
  }

  /** A standard form, whatever stops it, is read whole or refused: the look-ahead decides. */
  lemma StandardRead(d: Form, rest: string)
    requires Standard(d) && Stops(rest)
    ensures ReadAddress(d.Text() + rest) == if d.Unblocked(rest) then Some((d, rest)) else None
  {
    hide ReadAddress, Form.Text, CheckDotted, Dec;
    if d.Unblocked(rest) {
      ReadAddressComplete(d, rest);
    } else if d.Compressed? {
      BlockedCompressed(d, rest);
    } else {
      BlockedQuad(d, rest);
    }
  }

  /** A form alone or with a zone is accepted exactly when the look-ahead does not misfire on
      it: on its own, when it is not misread. */
  lemma StandardAccepted(d: Form, zone: string)
    requires Standard(d) && (zone == "" || IsZone(zone))
    ensures AddressText(d.Text() + zone, d, zone) <==> d.Unblocked(zone)
    ensures (exists e, z :: AddressText(d.Text() + zone, e, z)) <==> d.Unblocked(zone)
    ensures zone == "" ==> (d.Unblocked(zone) <==> !Misread(d))
  {
    hide Form.Text, ReadAddress, CheckDotted, Dec;
    var s := d.Text() + zone;
    assert Stops(zone);
    StandardRead(d, zone);
    if e, z :| AddressText(s, e, z) {
      AddressTextRead(s, e, z);
    }
    if d.Unblocked(zone) {
      assert AddressText(s, d, zone);
    }
    NothingAhead(d);
  }

  /** With nothing behind the form the look-ahead sees too little to misfire on a group. */
  lemma NothingAhead(d: Form)
    requires Standard(d)
    ensures d.Unblocked("") <==> !Misread(d)
  {
    hide Dec;
    if d.Compressed? && d.right != [] {
      assert IsGroup(d.right[|d.right| - 1]);
    }
  }

  /** In front of a prefix length exactly the misread forms are refused. */
  lemma StandardPrefixAccepted(d: Form, n: nat)
    requires Standard(d) && n <= 128
    ensures (exists e, k: nat :: PrefixText(d.Text() + ("/" + Dec(n)), e, k)) <==> !Misread(d)
  {
    hide Form.Text, Form.Unblocked, ReadAddress, Dec, PrefixText;
    var rest := "/" + Dec(n);
    var s := d.Text() + rest;
    StandardRead(d, rest);
    SlashUnblocked(d, n);
    if e, k: nat :| PrefixText(s, e, k) {
      PrefixTextRead(s, e, k);
    }
    if !Misread(d) {
      PrefixTextFrom(s, d, n);
    }
  }

  lemma JoinOne(g: string)
    ensures Join([g]) == g
  {
  }

  /** A group without a dot behind it does not start a quad. */
  lemma NotAQuad(g: string, u: string)
    requires IsGroup(g) && u != "" && !IsHexDigit(u[0]) && u[0] != '.'
    ensures ReadQuad(g + u) == None
  {
    var n := Span(IsNum, g + u);
    assert (g + u)[|g|] == u[0];
    assert !IsNum((g + u)[|g|]);
    assert n <= |g| < |g + u| && (g + u)[n..][0] == (g + u)[n] != '.';
  }

  lemma NoQuadAhead(rest: string)
    requires Stops(rest)
    ensures ReadQuad(rest) == None
  {
    SpanUnique(IsNum, rest, 0);
  }

  lemma RunBlocked(s: string, p: seq<string>, q: seq<string>, colon: bool)
    requires |p| + |q| < 7 && CheckDotted(s) && ReadQuad(s) == None
    ensures Run(s, p, q, true, colon) == None
  {
  }

  lemma ZoneHasPercent(s: string, d: Form, z: string)
    requires AddressText(s, d, z)
    ensures z == "" || '%' in s
  {
    if z != "" {
      assert s[|d.Text()|] == '%';
    }
  }

  /** An address of RFC 4291 that the code refuses. */
  lemma MisreadExample()
    ensures exists d :: Standard(d) && d.Text() == "::6:1.2.3.4" && forall e, z :: !AddressText("::6:1.2.3.4", e, z)
  {
    var d := CompressedQuad([], ["6"], Quad(1, 2, 3, 4));
    assert Dec(1) == "1" && Dec(2) == "2" && Dec(3) == "3" && Dec(4) == "4";
    JoinOne("6");
    assert d.Text() == "::6:1.2.3.4" && d.Text() + "" == d.Text();
    StandardAccepted(d, "");
  }

  /** A standard address with a zone that the code refuses: `%br.` is taken for a quad. */
  lemma ZoneMisreadExample()
    ensures exists d, zone ::
      && Standard(d) && IsZone(zone) && d.Text() + zone == "fe80::1%br.100"
      && forall e, z :: !AddressText("fe80::1%br.100", e, z)
  {
    var d, zone := Compressed(["fe80"], ["1"], false), "%br.100";
    JoinOne("fe80");
    JoinOne("1");
    assert d.Text() == "fe80::1" && d.Text() + zone == "fe80::1%br.100";
    assert Standard(d) && IsZone(zone) && CheckDotted(zone);
    StandardAccepted(d, zone);
  }

  /** Without `%` the accepted texts are the standard forms that are not misread. */
  lemma AcceptedWithoutZone(s: string)
    requires '%' !in s
    ensures (exists d, z :: AddressText(s, d, z)) <==> exists d :: Standard(d) && !Misread(d) && s == d.Text()
  {
    hide Form.Text;
    forall d, z | AddressText(s, d, z) ensures Standard(d) && !Misread(d) && s == d.Text() {
      ZoneHasPercent(s, d, z);
      assert d.Text() + "" == d.Text();
    }
    forall d | Standard(d) && !Misread(d) && s == d.Text() ensures AddressText(s, d, "") {
      StandardAccepted(d, "");
      assert d.Text() + "" == d.Text();
    }
  }

  // ------------------------------------------------ printing

  /** The n 16-bit words of `v`, most significant first. */
  function WordsOf(v: nat, n: nat): (ws: seq<nat>)
    ensures |ws| == n && forall i | 0 <= i < n :: ws[i] < 0x1_0000
  {
    if n == 0 then [] else WordsOf(v / 0x1_0000, n - 1) + [v % 0x1_0000]
  }

  lemma {:induction false} FromWordsOf(v: nat, n: nat)
    requires v < Pow2(16 * n)
    ensures FromWords(WordsOf(v, n)) == v
  {
    hide Pow2;
    if n == 0 {
      Pow2Unfold(0);
    } else {
      Pow2Sum(16 * (n - 1), 16);
      Pow2Table();
      Quotient(v, Pow2(16 * (n - 1)));
      FromWordsOf(v / 0x1_0000, n - 1);
      assert WordsOf(v, n)[..n - 1] == WordsOf(v / 0x1_0000, n - 1);
    }
  }

  lemma Quotient(v: nat, p: nat)
    requires v < p * 0x1_0000
    ensures v / 0x1_0000 < p
  {
  }

  function PrintForm(v: nat): Form
  {
    Full(seq(8, i requires 0 <= i < 8 => HexPrint(WordsOf(v, 8)[i])))
  }

  /** `d` spells the printed groups of `v` in any letter case and with leading zeros. */
  predicate SpellsForm(d: Form, v: nat)
  {
    d.Full? && |d.groups| == 8
    && forall i | 0 <= i < 8 :: IsGroup(d.groups[i]) && Spelling(d.groups[i], HexPrint(WordsOf(v, 8)[i]))
  }

  lemma PrintSpells(v: nat)
    ensures SpellsForm(PrintForm(v), v)
  {
    hide HexPrint, HexValue, WordsOf, Spelling;
    var ws := WordsOf(v, 8);
    forall i | 0 <= i < 8 ensures IsGroup(HexPrint(ws[i])) && Spelling(HexPrint(ws[i]), HexPrint(ws[i])) {
      HexPrintValue(ws[i]);
      HexLengthAtMostFour(ws[i]);
      HexSpelling(HexPrint(ws[i]), ws[i]);
    }
  }

  /** Eight groups: printing any 128-bit value is undone by parsing, in every spelling of the
      groups. */
  lemma PrintRoundTrip(v: nat)
    requires v < Pow2(128)
    ensures SpellsForm(PrintForm(v), v)
    ensures forall d | SpellsForm(d, v) ::
      d.WellFormed() && AddressText(d.Text(), d, "") && FromWords(d.Words()) == v
  {
    hide SpellsForm, AddressText, Pow2, FromWords, WordsOf;
    PrintSpells(v);
    forall d | SpellsForm(d, v) ensures d.WellFormed() && AddressText(d.Text(), d, "") && FromWords(d.Words()) == v {
      SpellingRead(d, v);
    }
  }

  lemma SpellingRead(d: Form, v: nat)
    requires v < Pow2(128) && SpellsForm(d, v)
    ensures d.WellFormed() && AddressText(d.Text(), d, "") && FromWords(d.Words()) == v
  {
    hide Form.Text, Pow2, FromWords, HexPrint, HexValue, WordsOf, Spelling;
    var ws := WordsOf(v, 8);
    forall i | 0 <= i < 8 ensures HexValue(d.groups[i]) == ws[i] {
      HexSpelling(d.groups[i], ws[i]);
    }
    assert GroupWords(d.groups) == ws;
    FromWordsOf(v, 8);
    StandardAccepted(d, "");
    assert d.Text() + "" == d.Text();
  }

  // ------------------------------------------------ strict prefixes

  /** The strict test of IsIpv6Prefix: no host bit is set. */
  lemma StrictIsDivisibility(p: IPv6Prefix)
    requires p.bits < Pow2(128) && p.prefixLength <= 128
    ensures And(p.bits, Not(p.Mask(), 128)) == 0 <==> p.bits % Pow2(128 - p.prefixLength) == 0
  {
    hide Pow2, And, Shl, Not;
    HostBitsZero(p.bits, p.prefixLength, 128);
  }

  lemma ValueBound(d: Form)
    requires d.WellFormed()
    ensures |d.Words()| == 8 && FromWords(d.Words()) < Pow2(128)
  {
    hide Pow2, FromWords, HexValue;
    forall g | IsGroup(g) ensures HexValue(g) < 0x1_0000 {
      GroupBound(g);
    }
    FromWordsBound(d.Words());
  }
}
