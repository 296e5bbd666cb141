/** The text forms of IPv6 addresses, the deterministic reading of the code, and the proof
    that the reading accepts exactly the forms. */
module IPv6Grammar {
  import opened Wrappers
  import opened Chars
  import opened Numerals
  import opened Parsing
  import opened Reading

  /** One derivation of an address text: hexadecimal groups, an optional `::`, an optional
      dotted quad, and the stray `:` that the code tolerates after a group behind `::`. */
  datatype Form =
    | Full(groups: seq<string>)
    | FullQuad(groups: seq<string>, quad: Quad)
    | Compressed(left: seq<string>, right: seq<string>, colon: bool)
    | CompressedQuad(left: seq<string>, right: seq<string>, quad: Quad)
  {
    predicate WellFormed()
    {
      match this
      case Full(gs) => AllGroups(gs) && |gs| == 8
      case FullQuad(gs, q) => AllGroups(gs) && |gs| == 6 && q.Valid()
      case Compressed(l, r, c) => AllGroups(l) && AllGroups(r) && |l| + |r| <= 7
      case CompressedQuad(l, r, q) => AllGroups(l) && AllGroups(r) && |l| + |r| <= 6 && q.Valid()
    }

    function Text(): string
    {
      match this
      case Full(gs) => Join(gs)
      case FullQuad(gs, q) => Join(gs) + ":" + q.Text()
      case Compressed(l, r, c) => Join(l) + "::" + Join(r) + Colon(c)
      case CompressedQuad(l, r, q) => Join(l) + "::" + Join(r) + Colon(r != []) + q.Text()
    }

    /** The eight 16-bit words the form stands for: `::` is filled up with zeros. */
    function Words(): seq<nat>
      requires WellFormed()
    {
      match this
      case Full(gs) => GroupWords(gs)
      case FullQuad(gs, q) => GroupWords(gs) + QuadWords(q)
      case Compressed(l, r, c) => GroupWords(l) + Zeros(8 - |l| - |r|) + GroupWords(r)
      case CompressedQuad(l, r, q) => GroupWords(l) + Zeros(6 - |l| - |r|) + GroupWords(r) + QuadWords(q)
    }

    /** The fixed look-ahead for a dotted quad does not misfire when the form is followed by
        `rest`: neither on the last group behind `::`, nor on what follows it. */
    predicate Unblocked(rest: string)
    {
      match this
      case Full(gs) => true
      case FullQuad(gs, q) => true
      case Compressed(l, r, c) =>
        && (r != [] ==> !CheckDotted(r[|r| - 1] + Colon(c) + rest))
        && (|l| + |r| < 7 ==> !CheckDotted(rest))
        && (c ==> r != [] && |l| + |r| < 7 && rest != "")
      case CompressedQuad(l, r, q) =>
        !(r != [] && |r[|r| - 1]| == 1 && |Dec(q.a)| == 1)
    }
  }

  predicate IsGroup(g: string) { 1 <= |g| <= 4 && AllHex(g) }

  predicate AllGroups(gs: seq<string>) { forall i | 0 <= i < |gs| :: IsGroup(gs[i]) }

  function Colon(c: bool): string { if c then ":" else "" }

  /** Groups separated by single colons. */
  function Join(gs: seq<string>): string
  {
    if |gs| == 0 then ""
    else if |gs| == 1 then gs[0]
    else Join(gs[..|gs| - 1]) + ":" + gs[|gs| - 1]
  }

  function GroupWords(gs: seq<string>): (ws: seq<nat>)
    requires AllGroups(gs)
    ensures |ws| == |gs|
  {
    seq(|gs|, i requires 0 <= i < |gs| => HexValue(gs[i]))
  }

  function QuadWords(q: Quad): seq<nat> { [q.a * 256 + q.b, q.c * 256 + q.d] }

  function Zeros(n: nat): seq<nat> { seq(n, _ => 0) }

  /** The look-ahead of the parsers: something at least as long as the shortest quad, with a
      dot at the second, third or fourth character. */
  predicate CheckDotted(s: string)
  {
    |s| >= 7 && s[0] != ':' && (s[1] == '.' || s[2] == '.' || s[3] == '.')
  }

  lemma PeekIs(s: string)
    ensures CheckDotted(s) <==> |s| >= |"0.0.0.0"| && !(":" <= s) && '.' in s[1..4]
  {
    if |s| >= 7 {
      assert s[1..4] == [s[1], s[2], s[3]];
    }
  }

  function Index(p: seq<string>, q: seq<string>, dc: bool): nat
  {
    |p| + |q| + if dc then 1 else 0
  }

  function Finish(s: string, p: seq<string>, q: seq<string>, dc: bool, colon: bool): Option<(Form, string)>
  {
    if dc then Some((Compressed(p, q, colon), s))
    else if |p| == 8 then Some((Full(p), s))
    else None
  }

  /** What the recognising loop does with the unread text `s` after the groups `p`, and, once
      `dc` is set, after `::` and the groups `q`; `colon` records a pending single colon. */
  function Run(s: string, p: seq<string>, q: seq<string>, dc: bool, colon: bool): Option<(Form, string)>
    requires !dc ==> q == []
    decreases |s|
  {
    var index := Index(p, q, dc);
    if index >= 8 then Finish(s, p, q, dc, colon)
    else if (dc || index == 6) && CheckDotted(s) then
      match ReadQuad(s)
      case None => None
      case Some((quad, r)) => Some((if dc then CompressedQuad(p, q, quad) else FullQuad(p, quad), r))
    else
      match ReadHex(s)
      case Some((g, r)) =>
        if dc then Run(r, p, q + [g], dc, false) else Run(r, p + [g], q, dc, false)
      case None =>
        if "::" <= s then
          if ":" <= s[2..] || dc then None else Run(s[2..], p, [], true, false)
        else if ":" <= s then
          if index == 0 || s == ":" then None else Run(s[1..], p, q, dc, true)
        else Finish(s, p, q, dc, colon)
  }

  /** One iteration of the loop. */
  lemma RunUnfolds(s: string, p: seq<string>, q: seq<string>, dc: bool, colon: bool)
    requires !dc ==> q == []
    ensures var index := Index(p, q, dc);
      && (index >= 8 ==> Run(s, p, q, dc, colon) == Finish(s, p, q, dc, colon))
      && (index < 8 ==>
            if (dc || index == 6) && CheckDotted(s) then
              Run(s, p, q, dc, colon)
              == match ReadQuad(s)
                 case None => None
                 case Some((quad, r)) => Some((if dc then CompressedQuad(p, q, quad) else FullQuad(p, quad), r))
            else if ReadHex(s).Some? then
              var (g, r) := ReadHex(s).value;
              Run(s, p, q, dc, colon) == if dc then Run(r, p, q + [g], dc, false) else Run(r, p + [g], q, dc, false)
            else if "::" <= s then
              Run(s, p, q, dc, colon) == if ":" <= s[2..] || dc then None else Run(s[2..], p, [], true, false)
            else if ":" <= s then
              Run(s, p, q, dc, colon) == if index == 0 || s == ":" then None else Run(s[1..], p, q, dc, true)
            else Run(s, p, q, dc, colon) == Finish(s, p, q, dc, colon))
  {
    hide ReadQuad, ReadHex, CheckDotted, Finish;
  }

  /** The address part of the text `s`: the form read and the unread rest. */
  function ReadAddress(s: string): Option<(Form, string)> { Run(s, [], [], false, false) }

  // ---------------------------------------------------------------- soundness

  function Consumed(p: seq<string>, q: seq<string>, dc: bool, colon: bool): string
  {
    (if dc then Join(p) + "::" + Join(q) else Join(p)) + Colon(colon)
  }

  /** What holds between two iterations of the loop. */
  predicate StateOk(s: string, p: seq<string>, q: seq<string>, dc: bool, colon: bool)
  {
    var cur := if dc then q else p;
    && AllGroups(p) && AllGroups(q) && (!dc ==> q == []) && Index(p, q, dc) <= 8
    && (colon ==> cur != [] && s != "" && s[0] != ':' && Index(p, q, dc) < 8)
    && (!colon && cur != [] ==> !StartsWith(IsHexDigit, s))
    && (dc && q != [] ==> !CheckDotted(q[|q| - 1] + Colon(colon) + s))
    && (!colon && dc && q == [] ==> !(":" <= s))
  }

  lemma ReadHexSound(s: string)
    ensures match ReadHex(s)
            case None => true
            case Some((g, r)) => IsGroup(g) && s == g + r && !StartsWith(IsHexDigit, r)
  {
  }

  lemma JoinSnoc(gs: seq<string>, g: string)
    requires gs != []
    ensures Join(gs + [g]) == Join(gs) + ":" + g
  {
    assert (gs + [g])[..|gs|] == gs;
  }

  lemma QuadHead(q: Quad, r: string)
    requires q.Valid()
    ensures |q.Text()| >= 7 && IsNum(q.Text()[0]) && IsNum((q.Text() + r)[0])
    ensures |Dec(q.a)| == 1 ==> (q.Text() + r)[1] == '.'
    ensures |Dec(q.a)| != 1 ==> IsNum((q.Text() + r)[1])
    ensures CheckDotted(q.Text() + r)
  {
    DecOfByteLength(q.a);
    var a, t := Dec(q.a), q.Text();
    TextSplit(q, "");
    assert t + "" == t;
    var u := "." + (Dec(q.b) + "." + (Dec(q.c) + "." + (Dec(q.d) + "")));
    assert |u| >= 6 && t == a + u;
    assert t[|a|] == '.';
    assert (t + r)[0] == a[0] && (t + r)[|a|] == '.';
    assert |a| > 1 ==> (t + r)[1] == a[1];
  }

  /** Reading one more group keeps the state and extends the consumed text. */
  lemma GroupStep(s: string, g: string, r: string, p: seq<string>, q: seq<string>, dc: bool, colon: bool)
    requires StateOk(s, p, q, dc, colon) && Index(p, q, dc) < 8
    requires !((dc || Index(p, q, dc) == 6) && CheckDotted(s))
    requires ReadHex(s) == Some((g, r))
    ensures var (p', q') := if dc then (p, q + [g]) else (p + [g], q);
            StateOk(r, p', q', dc, false) && Consumed(p', q', dc, false) + r == Consumed(p, q, dc, colon) + s
  {
    hide ReadHex, Join, CheckDotted;
    ReadHexSound(s);
    var cur := if dc then q else p;
    assert cur == [] || colon;
    JoinGroup(cur, colon, g);
    if dc {
      assert (q + [g])[|q|] == g && g + Colon(false) + r == s;
      assert Join(p) + "::" + (Join(q) + Colon(colon) + g) + r == Join(p) + "::" + Join(q) + Colon(colon) + (g + r);
      assert Join(p) + "::" + Join(q + [g]) + Colon(false) + r == Join(p) + "::" + Join(q + [g]) + r;
    } else {
      assert (Join(p) + Colon(colon) + g) + r == Join(p) + Colon(colon) + (g + r);
      assert Join(p + [g]) + Colon(false) + r == Join(p + [g]) + r;
    }
  }

  lemma JoinGroup(gs: seq<string>, colon: bool, g: string)
    requires gs == [] <==> !colon
    ensures Join(gs) + Colon(colon) + g == Join(gs + [g])
  {
    if gs != [] {
      JoinSnoc(gs, g);
    } else {
      assert [] + [g] == [g];
    }
  }

  lemma DoubleStep(s: string, p: seq<string>, colon: bool)
    requires StateOk(s, p, [], false, colon) && Index(p, [], false) < 8
    requires "::" <= s && !(":" <= s[2..])
    ensures StateOk(s[2..], p, [], true, false)
    ensures Consumed(p, [], true, false) + s[2..] == Consumed(p, [], false, colon) + s
  {
    assert s == "::" + s[2..];
    assert !colon;
    assert Consumed(p, [], true, false) + s[2..] == Join(p) + ("::" + s[2..]);
  }

  lemma ColonStep(s: string, p: seq<string>, q: seq<string>, dc: bool, colon: bool)
    requires StateOk(s, p, q, dc, colon) && 0 < Index(p, q, dc) < 8
    requires ":" <= s && !("::" <= s) && s != ":"
    ensures StateOk(s[1..], p, q, dc, true)
    ensures Consumed(p, q, dc, true) + s[1..] == Consumed(p, q, dc, colon) + s
  {
    assert s == ":" + s[1..];
    assert !colon;
    if dc && q != [] {
      var g := q[|q| - 1];
      assert g + Colon(true) + s[1..] == g + Colon(false) + s;
    }
    var c := if dc then Join(p) + "::" + Join(q) else Join(p);
    assert c + ":" + s[1..] == c + (":" + s[1..]);
  }

  lemma QuadStep(s: string, p: seq<string>, q: seq<string>, dc: bool, colon: bool)
    requires StateOk(s, p, q, dc, colon)
    requires if dc then Index(p, q, dc) < 8 else |p| == 6
    requires ReadQuad(s).Some?
    ensures var (quad, r) := ReadQuad(s).value;
            var d := if dc then CompressedQuad(p, q, quad) else FullQuad(p, quad);
            d.WellFormed() && d.Unblocked(r) && d.Text() + r == Consumed(p, q, dc, colon) + s
  {
    hide ReadQuad, Join, CheckDotted, Dec, Quad.Text;
    ReadQuadSound(s);
    var (quad, r) := ReadQuad(s).value;
    QuadHead(quad, r);
    var t := quad.Text();
    assert s[0] == t[0] && IsHexDigit(s[0]);
    var cur := if dc then q else p;
    assert cur == [] <==> !colon;
    if dc {
      if q != [] {
        assert q[|q| - 1] + Colon(true) + s == q[|q| - 1] + ":" + s;
        QuadPeek(q[|q| - 1], quad, r);
      }
      assert Join(p) + "::" + Join(q) + Colon(colon) + t + r == Join(p) + "::" + Join(q) + Colon(colon) + s;
    } else {
      assert Join(p) + ":" + t + r == Join(p) + ":" + s;
    }
  }

  /** Between a group and a quad the look-ahead fires exactly for one digit and one digit. */
  lemma QuadPeek(g: string, q: Quad, r: string)
    requires IsGroup(g) && q.Valid()
    ensures CheckDotted(g + ":" + (q.Text() + r)) <==> |g| == 1 && |Dec(q.a)| == 1
  {
    hide Dec, Quad.Text;
    QuadHead(q, r);
    var s := q.Text() + r;
    var look := g + ":" + s;
    assert |look| >= 7 && look[0] == g[0];
    assert look[|g|] == ':' && look[|g| + 1] == s[0] && look[|g| + 2] == s[1];
    assert |g| > 1 ==> look[1] == g[1];
    assert |g| > 2 ==> look[2] == g[2];
    assert |g| > 3 ==> look[3] == g[3];
  }

  lemma FinishStep(s: string, p: seq<string>, q: seq<string>, dc: bool, colon: bool)
    requires StateOk(s, p, q, dc, colon)
    requires Index(p, q, dc) == 8 || !(dc && CheckDotted(s))
    ensures match Finish(s, p, q, dc, colon)
            case None => true
            case Some((d, r)) => d.WellFormed() && d.Unblocked(r) && d.Text() + r == Consumed(p, q, dc, colon) + s
  {
  }

  /** Whatever the loop accepts is the text of a form that the look-ahead does not block. */
  lemma {:induction false} RunSound(s: string, p: seq<string>, q: seq<string>, dc: bool, colon: bool)
    requires StateOk(s, p, q, dc, colon)
    ensures match Run(s, p, q, dc, colon)
            case None => true
            case Some((d, r)) => d.WellFormed() && d.Unblocked(r) && d.Text() + r == Consumed(p, q, dc, colon) + s
    decreases |s|
  {
    hide ReadQuad, ReadHex, Form.Text, Form.WellFormed, Form.Unblocked, Consumed, StateOk, Finish;
    var index := Index(p, q, dc);
    assert index <= 8 && (!dc ==> q == []) by { StateIndex(s, p, q, dc, colon); }
    if index >= 8 {
      FinishStep(s, p, q, dc, colon);
    } else if (dc || index == 6) && CheckDotted(s) {
      if ReadQuad(s).Some? {
        QuadStep(s, p, q, dc, colon);
      }
    } else if ReadHex(s).Some? {
      var (g, r) := ReadHex(s).value;
      ReadHexSound(s);
      GroupStep(s, g, r, p, q, dc, colon);
      if dc {
        RunSound(r, p, q + [g], dc, false);
      } else {
        RunSound(r, p + [g], q, dc, false);
      }
    } else if "::" <= s {
      if !(":" <= s[2..]) && !dc {
        DoubleStep(s, p, colon);
        RunSound(s[2..], p, [], true, false);
      }
    } else if ":" <= s {
      if index != 0 && s != ":" {
        ColonStep(s, p, q, dc, colon);
        RunSound(s[1..], p, q, dc, true);
      }
    } else {
      FinishStep(s, p, q, dc, colon);
    }
  }

  lemma StateIndex(s: string, p: seq<string>, q: seq<string>, dc: bool, colon: bool)
    requires StateOk(s, p, q, dc, colon)
    ensures Index(p, q, dc) <= 8 && (!dc ==> q == [])
  {
  }

  lemma ReadAddressSound(s: string)
    ensures match ReadAddress(s)
            case None => true
            case Some((d, r)) => d.WellFormed() && d.Unblocked(r) && s == d.Text() + r
  {
    RunSound(s, [], [], false, false);
    assert Consumed([], [], false, false) + s == s;
  }

  // ------------------------------------------------------------- completeness

  /** Text that can follow an address: nothing, or a character no form goes on with. */
  predicate Stops(r: string)
  {
    r == "" || (!IsHexDigit(r[0]) && r[0] != ':' && r[0] != '.')
  }

  /** Groups each preceded by a colon. */
  function Rest(gs: seq<string>): string
  {
    if gs == [] then "" else ":" + gs[0] + Rest(gs[1..])
  }

  lemma {:induction false} RestSnoc(gs: seq<string>, g: string)
    ensures Rest(gs + [g]) == Rest(gs) + ":" + g
  {
    if gs == [] {
      assert Rest([g]) == ":" + g + Rest([g][1..]);
      assert Rest([]) + ":" + g == ":" + g;
    } else {
      RestSnoc(gs[1..], g);
      assert (gs + [g])[1..] == gs[1..] + [g];
      assert ":" + gs[0] + (Rest(gs[1..]) + ":" + g) == Rest(gs) + ":" + g;
    }
  }

  lemma {:induction false} JoinCons(gs: seq<string>)
    requires gs != []
    ensures Join(gs) == gs[0] + Rest(gs[1..])
  {
    if |gs| > 1 {
      var front, g := gs[..|gs| - 1], gs[|gs| - 1];
      JoinCons(front);
      assert front[1..] + [g] == gs[1..];
      RestSnoc(front[1..], g);
      assert front[0] + Rest(front[1..]) + ":" + g == gs[0] + (Rest(front[1..]) + ":" + g);
    } else {
      assert gs[0] + "" == gs[0];
    }
  }

  function Step(p: seq<string>, q: seq<string>, dc: bool, gs: seq<string>): (r: (seq<string>, seq<string>))
    ensures Index(r.0, r.1, dc) == Index(p, q, dc) + |gs|
    ensures !dc && q == [] ==> r.1 == []
  {
    if dc then (p, q + gs) else (p + gs, q)
  }

  lemma ReadHexComplete(g: string, w: string)
    requires IsGroup(g) && !StartsWith(IsHexDigit, w)
    ensures ReadHex(g + w) == Some((g, w))
  {
    SpanConcat(IsHexDigit, g, w);
  }

  lemma ReadHexNone(w: string)
    requires !StartsWith(IsHexDigit, w)
    ensures ReadHex(w) == None
  {
    SpanUnique(IsHexDigit, w, 0);
  }

  lemma RunGroup(g: string, w: string, p: seq<string>, q: seq<string>, dc: bool, colon: bool)
    requires (!dc ==> q == []) && IsGroup(g) && !StartsWith(IsHexDigit, w) && Index(p, q, dc) < 8
    requires !((dc || Index(p, q, dc) == 6) && CheckDotted(g + w))
    ensures Run(g + w, p, q, dc, colon)
         == Run(w, Step(p, q, dc, [g]).0, Step(p, q, dc, [g]).1, dc, false)
  {
    hide ReadHex, ReadQuad, CheckDotted;
    ReadHexComplete(g, w);
  }

  lemma RunColon(w: string, p: seq<string>, q: seq<string>, dc: bool, colon: bool)
    requires (!dc ==> q == []) && 0 < Index(p, q, dc) < 8 && w != "" && w[0] != ':'
    ensures Run(":" + w, p, q, dc, colon) == Run(w, p, q, dc, true)
  {
    hide ReadHex, ReadQuad;
    var s := ":" + w;
    ReadHexNone(s);
    assert s[1] == w[0] && s[1..] == w;
    assert !("::" <= s) && ":" <= s && s != ":";
    assert !CheckDotted(s);
  }

  lemma RunDouble(w: string, p: seq<string>)
    requires |p| < 8 && !(":" <= w)
    ensures Run("::" + w, p, [], false, false) == Run(w, p, [], true, false)
  {
    hide ReadHex, ReadQuad;
    var s := "::" + w;
    ReadHexNone(s);
    assert s[2..] == w && "::" <= s;
    assert !CheckDotted(s);
  }

  lemma RunEnd(r: string, p: seq<string>, q: seq<string>, dc: bool, colon: bool)
    requires (!dc ==> q == []) && Stops(r)
    requires Index(p, q, dc) >= 8 || !((dc || Index(p, q, dc) == 6) && CheckDotted(r))
    ensures Run(r, p, q, dc, colon) == Finish(r, p, q, dc, colon)
  {
    hide ReadHex, ReadQuad, CheckDotted;
    ReadHexNone(r);
  }

  lemma RunQuad(quad: Quad, r: string, p: seq<string>, q: seq<string>, dc: bool, colon: bool)
    requires (!dc ==> q == []) && quad.Valid() && Stops(r)
    requires if dc then Index(p, q, dc) < 8 else |p| == 6
    ensures Run(quad.Text() + r, p, q, dc, colon)
         == Some((if dc then CompressedQuad(p, q, quad) else FullQuad(p, quad), r))
  {
    hide ReadHex, ReadQuad, CheckDotted;
    QuadHead(quad, r);
    ReadQuadComplete(quad, r);
  }

  /** The look-ahead never fires on a group that another group follows. */
  lemma NextGroupPeek(g: string, h: string, w: string)
    requires IsGroup(g) && IsGroup(h) && !(w != "" && w[0] == '.')
    ensures !CheckDotted(g + ":" + h + w)
  {
    var look := g + ":" + h + w;
    assert look[|g|] == ':' && look[|g| + 1] == h[0];
    assert |g| > 1 ==> look[1] == g[1];
    assert |g| > 2 ==> look[2] == g[2];
    assert |g| > 3 ==> look[3] == g[3];
    assert |h| > 1 ==> look[|g| + 2] == h[1];
    assert |h| == 1 && w != "" ==> look[|g| + 2] == w[0];
  }

  lemma RestNil() ensures Rest([]) == "" {}

  lemma RestCons(gs: seq<string>)
    requires gs != []
    ensures Rest(gs) == ":" + gs[0] + Rest(gs[1..])
  {}

  /** What follows the first of the groups `gs` when `u` follows the last. */
  lemma FirstGroup(gs: seq<string>, u: string)
    requires AllGroups(gs) && gs != []
    requires !StartsWith(IsHexDigit, u) && !(u != "" && u[0] == '.')
    ensures var w := Rest(gs[1..]) + u;
      && !StartsWith(IsHexDigit, w)
      && (if |gs| == 1 then w == u else !CheckDotted(gs[0] + w))
  {
    hide CheckDotted, Rest;
    var g, tail := gs[0], gs[1..];
    if tail == [] {
      RestNil();
      assert "" + u == u;
    } else {
      RestCons(tail);
      var v := Rest(tail[1..]) + u;
      assert Rest(tail) + u == ":" + tail[0] + v;
      if tail[1..] != [] {
        RestCons(tail[1..]);
      } else {
        RestNil();
      }
      NextGroupPeek(g, tail[0], v);
      assert g + (":" + tail[0] + v) == g + ":" + tail[0] + v;
    }
  }

  lemma StepTwice(p: seq<string>, q: seq<string>, dc: bool, gs: seq<string>)
    requires gs != []
    ensures var (p', q') := Step(p, q, dc, [gs[0]]); Step(p', q', dc, gs[1..]) == Step(p, q, dc, gs)
  {
    assert [gs[0]] + gs[1..] == gs;
    assert p + [gs[0]] + gs[1..] == p + gs && q + [gs[0]] + gs[1..] == q + gs;
  }

  /** The groups after the first one of a part, up to the text `u` behind the part. */
  lemma {:induction false} RunRest(gs: seq<string>, u: string, p: seq<string>, q: seq<string>, dc: bool)
    requires !dc ==> q == []
    requires AllGroups(gs) && 0 < Index(p, q, dc) && Index(p, q, dc) + |gs| <= 8
    requires !StartsWith(IsHexDigit, u) && !(u != "" && u[0] == '.')
    requires gs != [] && (dc || Index(p, q, dc) + |gs| == 7) ==> !CheckDotted(gs[|gs| - 1] + u)
    ensures Run(Rest(gs) + u, p, q, dc, false)
         == Run(u, Step(p, q, dc, gs).0, Step(p, q, dc, gs).1, dc, false)
    decreases |gs|
  {
    hide Run, CheckDotted, Rest;
    if gs == [] {
      RestNil();
      assert "" + u == u;
      assert p + [] == p && q + [] == q;
    } else {
      var g, tail := gs[0], gs[1..];
      var w := Rest(tail) + u;
      RestCons(gs);
      assert Rest(gs) + u == ":" + (g + w);
      FirstGroup(gs, u);
      RunColon(g + w, p, q, dc, false);
      RunGroup(g, w, p, q, dc, true);
      var (p', q') := Step(p, q, dc, [g]);
      RunRest(tail, u, p', q', dc);
      StepTwice(p, q, dc, gs);
    }
  }

  /** A whole part of groups, entered at its first group. */
  lemma RunGroups(gs: seq<string>, u: string, p: seq<string>, dc: bool)
    requires AllGroups(gs) && gs != [] && (!dc ==> p == []) && Index(p, [], dc) + |gs| <= 8
    requires !StartsWith(IsHexDigit, u) && !(u != "" && u[0] == '.')
    requires dc || |gs| == 7 ==> !CheckDotted(gs[|gs| - 1] + u)
    ensures Run(Join(gs) + u, p, [], dc, false)
         == if dc then Run(u, p, gs, dc, false) else Run(u, gs, [], dc, false)
  {
    hide Run, CheckDotted, Rest, Join, IsHexDigit;
    var g, tail := gs[0], gs[1..];
    var w := Rest(tail) + u;
    JoinCons(gs);
    assert Join(gs) + u == g + w;
    FirstGroup(gs, u);
    RunGroup(g, w, p, [], dc, false);
    var (p', q') := Step(p, [], dc, [g]);
    RunRest(tail, u, p', q', dc);
    StepTwice(p, [], dc, gs);
    assert [] + gs == gs;
  }

  /** The text behind `::` of a compressed form without a quad. */
  lemma RunRight(l: seq<string>, r: seq<string>, c: bool, rest: string)
    requires Compressed(l, r, c).WellFormed() && Compressed(l, r, c).Unblocked(rest) && Stops(rest)
    ensures Run(Join(r) + Colon(c) + rest, l, [], true, false) == Some((Compressed(l, r, c), rest))
  {
    hide Run, CheckDotted, Join;
    var u := Colon(c) + rest;
    assert Colon(c) + rest == if c then ":" + rest else rest;
    if r == [] {
      assert Join(r) == "" by { JoinNil(); }
      assert Join(r) + Colon(c) + rest == rest;
      RunEnd(rest, l, [], true, false);
    } else {
      assert Join(r) + Colon(c) + rest == Join(r) + u;
      assert r[|r| - 1] + u == r[|r| - 1] + Colon(c) + rest;
      RunGroups(r, u, l, true);
      if c {
        RunColon(rest, l, r, true, false);
      }
      RunEnd(rest, l, r, true, c);
    }
  }

  lemma JoinNil() ensures Join([]) == "" {}

  lemma RunRightQuad(l: seq<string>, r: seq<string>, q: Quad, rest: string)
    requires CompressedQuad(l, r, q).WellFormed() && CompressedQuad(l, r, q).Unblocked(rest) && Stops(rest)
    ensures Run(Join(r) + Colon(r != []) + q.Text() + rest, l, [], true, false) == Some((CompressedQuad(l, r, q), rest))
  {
    hide Run, CheckDotted, Join, Dec, Quad.Text;
    var t := q.Text() + rest;
    QuadHead(q, rest);
    if r == [] {
      assert Join(r) == "" by { JoinNil(); }
      assert Join(r) + Colon(r != []) + q.Text() + rest == t;
    } else {
      var u := ":" + t;
      assert Join(r) + Colon(r != []) + q.Text() + rest == Join(r) + u;
      QuadPeek(r[|r| - 1], q, rest);
      assert r[|r| - 1] + u == r[|r| - 1] + ":" + t;
      RunGroups(r, u, l, true);
      RunColon(t, l, r, true, false);
    }
    RunQuad(q, rest, l, r, true, r != []);
  }

  /** The groups before `::`. */
  lemma RunLeft(l: seq<string>, w: string)
    requires AllGroups(l) && |l| <= 7 && !(":" <= w) && (|l| == 7 ==> !(w != "" && w[0] == '.'))
    ensures Run(Join(l) + "::" + w, [], [], false, false) == Run(w, l, [], true, false)
  {
    hide Run, CheckDotted, Join;
    if l == [] {
      assert Join(l) == "" by { JoinNil(); }
      assert Join(l) + "::" + w == "::" + w;
    } else {
      assert Join(l) + "::" + w == Join(l) + ("::" + w);
      if |l| == 7 {
        DoubleColonPeek(l[6], w);
      }
      RunGroups(l, "::" + w, [], false);
    }
    RunDouble(w, l);
  }

  lemma DoubleColonPeek(g: string, w: string)
    requires IsGroup(g) && !(w != "" && w[0] == '.')
    ensures !CheckDotted(g + ("::" + w))
  {
    var look := g + ("::" + w);
    assert look[|g|] == ':' && look[|g| + 1] == ':';
    assert w != "" ==> look[|g| + 2] == w[0];
    assert |g| > 1 ==> look[1] == g[1];
    assert |g| > 2 ==> look[2] == g[2];
    assert |g| > 3 ==> look[3] == g[3];
  }

  lemma JoinHead(gs: seq<string>, u: string)
    requires AllGroups(gs) && gs != []
    ensures IsHexDigit((Join(gs) + u)[0])
  {
    JoinCons(gs);
  }

  lemma ReadFull(d: Form, r: string)
    requires d.WellFormed() && Stops(r) && (d.Full? || d.FullQuad?)
    ensures ReadAddress(d.Text() + r) == Some((d, r))
  {
    hide Run, CheckDotted, Join, Dec, Quad.Text;
    if d.Full? {
      RunGroups(d.groups, r, [], false);
      RunEnd(r, d.groups, [], false, false);
    } else {
      var t := d.quad.Text() + r;
      QuadHead(d.quad, r);
      assert d.Text() + r == Join(d.groups) + (":" + t);
      RunGroups(d.groups, ":" + t, [], false);
      RunColon(t, d.groups, [], false, false);
      RunQuad(d.quad, r, d.groups, [], false, true);
    }
  }

  lemma ReadCompressed(d: Form, r: string)
    requires d.WellFormed() && d.Unblocked(r) && Stops(r) && d.Compressed?
    ensures ReadAddress(d.Text() + r) == Some((d, r))
  {
    hide Run, CheckDotted, Join;
    var c := Colon(d.colon);
    var w := Join(d.right) + c + r;
    assert d.Text() + r == Join(d.left) + "::" + w;
    if d.right == [] {
      JoinNil();
      assert w == r;
    } else {
      JoinHead(d.right, c + r);
      assert w == Join(d.right) + (c + r);
    }
    RunLeft(d.left, w);
    RunRight(d.left, d.right, d.colon, r);
  }

  lemma ReadCompressedQuad(d: Form, r: string)
    requires d.WellFormed() && d.Unblocked(r) && Stops(r) && d.CompressedQuad?
    ensures ReadAddress(d.Text() + r) == Some((d, r))
  {
    hide Run, CheckDotted, Join, Dec, Quad.Text;
    var c, t := Colon(d.right != []), d.quad.Text();
    var w := Join(d.right) + c + t + r;
    assert d.Text() + r == Join(d.left) + "::" + w;
    QuadHead(d.quad, r);
    if d.right == [] {
      JoinNil();
      assert w == t + r;
    } else {
      JoinHead(d.right, c + t + r);
      assert w == Join(d.right) + (c + t + r);
    }
    RunLeft(d.left, w);
    RunRightQuad(d.left, d.right, d.quad, r);
  }

  /** Every unblocked form is read back whole, whatever stops it. */
  lemma ReadAddressComplete(d: Form, r: string)
    requires d.WellFormed() && d.Unblocked(r) && Stops(r)
    ensures ReadAddress(d.Text() + r) == Some((d, r))
  {
    hide ReadAddress, Form.Text, Form.Unblocked;
    match d
    case Full(_) => ReadFull(d, r);
    case FullQuad(_, _) => ReadFull(d, r);
    case Compressed(_, _, _) => ReadCompressed(d, r);
    case CompressedQuad(_, _, _) => ReadCompressedQuad(d, r);
  }

  /** No text followed by the same rest has two forms. */
  lemma FormUnique(d: Form, e: Form, r: string)
    requires d.WellFormed() && d.Unblocked(r) && e.WellFormed() && e.Unblocked(r) && Stops(r)
    requires d.Text() == e.Text()
    ensures d == e
  {
    ReadAddressComplete(d, r);
    ReadAddressComplete(e, r);
  }
}
