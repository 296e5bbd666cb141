/** The fail-fast run compared with the full run. */
module FailFast {
  import opened Wrappers
  import opened Proto
  import opened Violations
  import opened RuleSpec
  import opened WalkSpec

  /** A violation without its field value, which a later value violation of the same map entry
      may overwrite. */
  function Bare(v: Violation): Violation { v.(fieldValue := None) }

  /** The same violation; for a map key only up to its field value. */
  predicate Alike(v: Violation, w: Violation) { v == w || (v.forKey && w.forKey && Bare(v) == Bare(w)) }

  /** `a` is `b` with some elements left out. */
  predicate Sub(a: seq<Violation>, b: seq<Violation>)
  {
    || a == []
    || (b != [] && ((Alike(a[0], b[0]) && Sub(a[1..], b[1..])) || Sub(a, b[1..])))
  }

  lemma {:induction false} SubConcat(a: seq<Violation>, b: seq<Violation>, c: seq<Violation>, d: seq<Violation>)
    requires Sub(a, b) && Sub(c, d)
    ensures Sub(a + c, b + d)
    decreases |b|
  {
    if b == [] {
      assert a + c == c && b + d == d;
    } else {
      assert (b + d)[1..] == b[1..] + d;
      if a == [] {
        SubConcat(a, b[1..], c, d);
      } else if Alike(a[0], b[0]) && Sub(a[1..], b[1..]) {
        SubConcat(a[1..], b[1..], c, d);
        assert (a + c)[1..] == a[1..] + c;
      } else {
        SubConcat(a, b[1..], c, d);
      }
    }
  }

  lemma {:induction false} SubSelf(a: seq<Violation>)
    ensures Sub(a, a)
  {
    if a != [] {
      SubSelf(a[1..]);
    }
  }

  lemma SubPrefix(a: seq<Violation>, b: seq<Violation>, d: seq<Violation>)
    requires Sub(a, b)
    ensures Sub(a, b + d)
  {
    SubConcat(a, b, [], d);
    assert a + [] == a;
  }

  /** Updates that make alike violations alike keep subsequences. */
  lemma {:induction false} SubMap(f: Violation -> Violation, g: Violation -> Violation, a: seq<Violation>,
      b: seq<Violation>)
    requires Sub(a, b)
    requires forall v, w | Alike(v, w) :: Alike(f(v), g(w))
    ensures Sub(MapAll(f, a), MapAll(g, b))
    decreases |b|
  {
    if a != [] {
      var fa, gb := MapAll(f, a), MapAll(g, b);
      assert gb[1..] == MapAll(g, b[1..]);
      if Alike(a[0], b[0]) && Sub(a[1..], b[1..]) {
        SubMap(f, g, a[1..], b[1..]);
        assert fa[1..] == MapAll(f, a[1..]);
        assert Alike(fa[0], gb[0]);
      } else {
        SubMap(f, g, a, b[1..]);
      }
    }
  }

  /** If the full outcome is good, so is the fast one: a subsequence of the violations, and,
      unless violations were there before, the same first one and empty for empty. */
  ghost predicate Fast(full: Outcome, fast: Outcome, had: bool)
  {
    full.status == Ok ==>
      && fast.status == Ok && Sub(fast.violations, full.violations)
      && (!had ==> SameFirst(full.violations, fast.violations))
  }

  predicate SameFirst(full: seq<Violation>, fast: seq<Violation>)
  {
    (full == [] <==> fast == []) && (full != [] ==> Alike(fast[0], full[0]))
  }

  lemma FastSelf(o: Outcome, had: bool)
    ensures Fast(o, o, had)
  {
    SubSelf(o.violations);
  }

  /** One step of both runs, then the rest unless the fast run stops. */
  lemma FastThen(o: Outcome, f: Outcome, rest: Outcome, frest: Outcome, had: bool)
    requires Fast(o, f, had) && Fast(rest, frest, had) && o.status == Ok
    ensures Fast(Then(o, rest), if Mode(true, had).Stops(f) then f else Then(f, frest), had)
  {
    if rest.status == Ok {
      if Mode(true, had).Stops(f) {
        SubPrefix(f.violations, o.violations, rest.violations);
      } else {
        SubConcat(f.violations, o.violations, frest.violations, rest.violations);
      }
    }
  }

  /** Two parts that the fast run both does, the second knowing about the first. */
  lemma FastBoth(o: Outcome, f: Outcome, rest: Outcome, frest: Outcome, had: bool)
    requires Fast(o, f, had) && Fast(rest, frest, had || f.violations != []) && o.status == Ok
    ensures Fast(Then(o, rest), Then(f, frest), had)
  {
    if rest.status == Ok {
      SubConcat(f.violations, o.violations, frest.violations, rest.violations);
    }
  }

  lemma FastMap(o: Outcome, f: Outcome, g: Violation -> Violation, had: bool)
    requires Fast(o, f, had)
    requires forall v, w | Alike(v, w) :: Alike(g(v), g(w))
    ensures Fast(Outcome(o.status, MapAll(g, o.violations)), Outcome(f.status, MapAll(g, f.violations)), had)
  {
    if o.status == Ok {
      SubMap(g, g, f.violations, o.violations);
    }
  }

  // ---------------------------------------------------------------- rules

  lemma {:induction false} FastExprs(c: CelRules, exprs: seq<CompiledRule>, t: CelThis, had: bool)
    ensures Fast(RunExprs(c, exprs, t, FULL), RunExprs(c, exprs, t, Mode(true, had)), had)
  {
    hide RunExpr, Fast;
    if exprs == [] {
      FastSelf(NOTHING, had);
    } else {
      var o := RunExpr(c, exprs[0], t);
      FastSelf(o, had);
      if o.status != Ok {
        FastError(o, RunExprs(c, exprs, t, Mode(true, had)), had);
      } else {
        FastExprs(c, exprs[1..], t, had);
        FastThen(o, o, RunExprs(c, exprs[1..], t, FULL), RunExprs(c, exprs[1..], t, Mode(true, had)), had);
      }
    }
  }

  lemma FastError(o: Outcome, f: Outcome, had: bool)
    requires o.status != Ok
    ensures Fast(o, f, had)
  {
  }

  lemma FastUnderField(f: FieldRules, m: Message, o: Outcome, g: Outcome, had: bool)
    requires Fast(o, g, had)
    ensures Fast(UnderField(f, m, o), UnderField(f, m, g), had)
  {
    if o.status == Ok {
      var at := ProtoField(m, f.field, -1);
      FastMap(o, g, ValueSet(at), had);
      FastMap(Outcome(Ok, At(at, o.violations)), Outcome(Ok, At(at, g.violations)), Prefixed(FieldElement(f.field)),
          had);
    }
  }

  lemma FastFieldCel(f: FieldRules, m: Message, t: CelThis, had: bool)
    ensures Fast(RunFieldCel(f, m, t, FULL), RunFieldCel(f, m, t, Mode(true, had)), had)
  {
    FastExprs(f.cel, f.cel.exprs, t, had);
    FastUnderField(f, m, RunCel(f.cel, t, FULL), RunCel(f.cel, t, Mode(true, had)), had);
  }

  lemma FastField(f: FieldRules, m: Message, had: bool)
    ensures Fast(RunField(f, m, FULL), RunField(f, m, Mode(true, had)), had)
  {
    hide RunFieldCel, RequiredViolation, RunAny, Fast;
    var mode := Mode(true, had);
    FastSelf(NOTHING, had);
    FastSelf(Outcome(Ok, [RequiredViolation(f, m)]), had);
    match f.field.shape
    case MapOf(_, _) => FastFieldCel(f, m, MapThis(EntriesOf(m, f.field)), had);
    case Repeated => FastFieldCel(f, m, ListThis(ItemsOf(m, f.field)), had);
    case Single =>
      var v := SingleOf(m, f.field);
      var any := if f.anyRules.Some? && f.field.IsMessage()
                 then RunAny(f, f.anyRules.value, ProtoField(m, f.field, -1), v) else NOTHING;
      FastSelf(any, had);
      if RunField(f, m, FULL).status != Ok {
        FastError(RunField(f, m, FULL), RunField(f, m, mode), had);
      } else if any.status == Ok {
        FastFieldCel(f, m, ValueThis(v), mode.After(any).had);
        FastBoth(any, any, RunFieldCel(f, m, ValueThis(v), FULL.After(any)),
            RunFieldCel(f, m, ValueThis(v), mode.After(any)), had);
      }
  }

  lemma FastEnum(f: FieldRules, definedOnly: bool, m: Message, had: bool)
    ensures Fast(RunEnum(f, definedOnly, m, FULL), RunEnum(f, definedOnly, m, Mode(true, had)), had)
  {
    hide RunField, Fast;
    var o, g := RunField(f, m, FULL), RunField(f, m, Mode(true, had));
    FastField(f, m, had);
    if o.status != Ok {
      FastError(RunEnum(f, definedOnly, m, FULL), RunEnum(f, definedOnly, m, Mode(true, had)), had);
    } else {
      var v := SingleOf(m, f.field);
      var n := if v.IntValue? then v.i else 0;
      var last := if definedOnly && n !in f.field.enumValues then
        Outcome(Ok, [Violation("enum.defined_only", "value must be one of the defined enum values",
                               [FieldElement(f.field)], [RuleElement("enum"), RuleElement("defined_only")],
                               false, Some(ProtoField(m, f.field, -1)),
                               Some(ProtoField(f.source, f.refs.definedOnly, -1)))])
        else NOTHING;
      FastSelf(last, had);
      FastThen(o, g, last, last, had);
    }
  }

  lemma FastItem(f: FieldRules, item: FieldRules, m: Message, v: Value, i: nat, had: bool)
    ensures Fast(RunItem(f, item, m, v, i, FULL), RunItem(f, item, m, v, i, Mode(true, had)), had)
  {
    hide RunAny;
    var at := ProtoField(m, f.field, i);
    var o, g := RunCel(item.cel, ValueThis(v), FULL), RunCel(item.cel, ValueThis(v), Mode(true, had));
    FastExprs(item.cel, item.cel.exprs, ValueThis(v), had);
    if item.anyRules.Some? {
      var any := RunAny(item, item.anyRules.value, at, v);
      FastItemAny(item, v, any, had);
      o, g := Then(o, any), Then(g, any);
    }
    FastMap(o, g, ValueSet(at), had);
    FastMap(Outcome(o.status, At(at, o.violations)), Outcome(g.status, At(at, g.violations)), RulePrefixed(ITEMS), had);
    FastMap(Outcome(o.status, InRule(ITEMS, At(at, o.violations))),
        Outcome(g.status, InRule(ITEMS, At(at, g.violations))),
            Prefixed(FieldElement(f.field).(subscript := Index(i))), had);
  }

  /** The Any status hides a failed expression, so the violations matter whatever the status. */
  lemma FastItemAny(item: FieldRules, v: Value, any: Outcome, had: bool)
    ensures Fast(Then(RunCel(item.cel, ValueThis(v), FULL), any),
        Then(RunCel(item.cel, ValueThis(v), Mode(true, had)), any), had)
  {
    var o, g := RunCel(item.cel, ValueThis(v), FULL), RunCel(item.cel, ValueThis(v), Mode(true, had));
    ExprsSub(item.cel, item.cel.exprs, ValueThis(v), had);
    SubSelf(any.violations);
    SubConcat(g.violations, o.violations, any.violations, any.violations);
  }

  lemma {:induction false} ExprsSub(c: CelRules, exprs: seq<CompiledRule>, t: CelThis, had: bool)
    ensures var o, g := RunExprs(c, exprs, t, FULL), RunExprs(c, exprs, t, Mode(true, had));
      Sub(g.violations, o.violations) && (!had ==> SameFirst(o.violations, g.violations))
  {
    hide RunExpr;
    if exprs != [] {
      var o := RunExpr(c, exprs[0], t);
      var rest := RunExprs(c, exprs[1..], t, FULL).violations;
      ExprsSub(c, exprs[1..], t, had);
      SubSelf(o.violations);
      SubPrefix(o.violations, o.violations, rest);
      SubConcat(o.violations, o.violations, RunExprs(c, exprs[1..], t, Mode(true, had)).violations, rest);
    }
  }

  lemma {:induction false} FastItems(f: FieldRules, item: FieldRules, m: Message, items: seq<Value>, i: nat, had: bool)
    requires i <= |items|
    ensures Fast(RunItems(f, item, m, items, i, FULL), RunItems(f, item, m, items, i, Mode(true, had)), had)
    decreases |items| - i
  {
    hide RunItem, Fast, IsEmptyItem;
    if i == |items| {
      FastSelf(NOTHING, had);
    } else {
      FastItems(f, item, m, items, i + 1, had);
      if !(item.IgnoreEmpty() && IsEmptyItem(items[i])) {
        var o, g := RunItem(f, item, m, items[i], i, FULL), RunItem(f, item, m, items[i], i, Mode(true, had));
        FastItem(f, item, m, items[i], i, had);
        if o.status != Ok {
          FastError(RunItems(f, item, m, items, i, FULL), RunItems(f, item, m, items, i, Mode(true, had)), had);
        } else {
          FastThen(o, g, RunItems(f, item, m, items, i + 1, FULL),
              RunItems(f, item, m, items, i + 1, Mode(true, had)), had);
        }
      }
    }
  }

  lemma FastRepeated(f: FieldRules, item: Option<FieldRules>, m: Message, had: bool)
    ensures Fast(RunRepeated(f, item, m, FULL), RunRepeated(f, item, m, Mode(true, had)), had)
  {
    hide RunField, RunItems, Fast;
    var o, g := RunField(f, m, FULL), RunField(f, m, Mode(true, had));
    var mode := Mode(true, had);
    FastField(f, m, had);
    if o.status != Ok {
      FastError(RunRepeated(f, item, m, FULL), RunRepeated(f, item, m, mode), had);
    } else if item.Some? {
      var items := ItemsOf(m, f.field);
      FastItems(f, item.value, m, items, 0, had);
      FastThen(o, g, RunItems(f, item.value, m, items, 0, FULL), RunItems(f, item.value, m, items, 0, mode), had);
    }
  }

  lemma FastSide(side: Option<FieldRules>, v: Value, had: bool)
    ensures Fast(RunSide(side, v, FULL), RunSide(side, v, Mode(true, had)), had)
  {
    FastSelf(NOTHING, had);
    if side.Some? {
      FastExprs(side.value.cel, side.value.cel.exprs, ValueThis(v), had);
    }
  }

  /** Key violations before value violations, whatever their field values. */
  lemma FastEntryViolations(f: FieldRules, e: Entry, k: Outcome, v: Outcome, fk: Outcome, fv: Outcome, had: bool)
    requires f.field.shape.MapOf? && k.status == Ok && v.status == Ok
    requires Fast(k, fk, had) && Fast(v, fv, had || fk.violations != [])
    ensures Fast(Outcome(Ok, EntryViolations(f, e, k.violations, v.violations)),
                 Outcome(Ok, EntryViolations(f, e, fk.violations, fv.violations)), had)
  {
    var em := EntryMessage(f, e);
    var atKey, atValue := ProtoField(em, f.field.shape.key, -1), ProtoField(em, f.field.shape.value, -1);
    FastMap(k, fk, ValueSet(atKey), had);
    FastMap(Outcome(Ok, At(atKey, k.violations)), Outcome(Ok, At(atKey, fk.violations)), RulePrefixed(KEYS), had);
    FastMap(Outcome(Ok, InRule(KEYS, At(atKey, k.violations))), Outcome(Ok, InRule(KEYS, At(atKey, fk.violations))),
        KeySet(), had);
    var ks, fks := EntryViolations(f, e, k.violations, []), EntryViolations(f, e, fk.violations, []);
    FastMap(v, fv, RulePrefixed(VALUES), had || fk.violations != []);
    var vs, fvs := InRule(VALUES, v.violations), InRule(VALUES, fv.violations);
    FastBoth(Outcome(Ok, ks), Outcome(Ok, fks), Outcome(Ok, vs), Outcome(Ok, fvs), had);
    FastSameValue(ks, vs, fks, fvs, atValue, had);
  }

  /** Overwriting the field value of the keys changes nothing that is compared. */
  lemma FastSameValue(ks: seq<Violation>, vs: seq<Violation>, fks: seq<Violation>, fvs: seq<Violation>,
      at: ProtoField, had: bool)
    requires Fast(Outcome(Ok, ks + vs), Outcome(Ok, fks + fvs), had)
    requires (forall v | v in fks :: v.forKey) && (vs == [] ==> fvs == [])
    ensures Fast(Outcome(Ok, if vs == [] then ks else At(at, ks + vs)),
        Outcome(Ok, if fvs == [] then fks else At(at, fks + fvs)), had)
  {
    hide Sub;
    assert vs == [] ==> ks + vs == ks;
    assert fvs == [] ==> fks + fvs == fks;
    if fvs != [] {
      SubMap(ValueSet(at), ValueSet(at), fks + fvs, ks + vs);
    } else if vs != [] {
      assert forall i | 0 <= i < |fks| :: fks[i] in fks;
      SubKeys(fks, ks + vs, at);
    }
  }

  /** Violations of keys are found again whatever the field values are set to. */
  lemma {:induction false} SubKeys(a: seq<Violation>, b: seq<Violation>, at: ProtoField)
    requires Sub(a, b) && forall i | 0 <= i < |a| :: a[i].forKey
    ensures Sub(a, At(at, b))
    decreases |b|
  {
    if a != [] {
      assert At(at, b)[1..] == At(at, b[1..]);
      if Alike(a[0], b[0]) && Sub(a[1..], b[1..]) {
        SubKeys(a[1..], b[1..], at);
        assert Alike(a[0], At(at, b)[0]);
      } else {
        SubKeys(a, b[1..], at);
      }
    }
  }

  lemma FastEntry(f: FieldRules, key: Option<FieldRules>, value: Option<FieldRules>, e: Entry, had: bool)
    requires f.field.shape.MapOf?
    ensures Fast(RunEntry(f, key, value, e, FULL), RunEntry(f, key, value, e, Mode(true, had)), had)
  {
    hide RunSide, EntryViolations, WithMapKey;
    var mode := Mode(true, had);
    var k, fk := RunSide(key, e.key, FULL), RunSide(key, e.key, mode);
    FastSide(key, e.key, had);
    if k.status == Ok {
      var v, fv := RunSide(value, e.found, FULL.After(k)), RunSide(value, e.found, mode.After(fk));
      FastSide(value, e.found, mode.After(fk).had);
      if v.status == Ok {
        FastEntryViolations(f, e, k, v, fk, fv, had);
        var all, fall := EntryViolations(f, e, k.violations, v.violations),
            EntryViolations(f, e, fk.violations, fv.violations);
        var element := WithMapKey(FieldElement(f.field), f.field.shape.key, f.field.shape.value, e.key);
        if element.Some? {
          FastMap(Outcome(Ok, all), Outcome(Ok, fall), Prefixed(element.value), had);
        }
      }
    }
  }

  lemma {:induction false} FastEntries(f: FieldRules, key: Option<FieldRules>, value: Option<FieldRules>,
      es: seq<Entry>, had: bool)
    requires f.field.shape.MapOf?
    ensures Fast(RunEntries(f, key, value, es, FULL), RunEntries(f, key, value, es, Mode(true, had)), had)
  {
    hide RunEntry;
    if es == [] {
      FastSelf(NOTHING, had);
    } else {
      var o, g := RunEntry(f, key, value, es[0], FULL), RunEntry(f, key, value, es[0], Mode(true, had));
      FastEntry(f, key, value, es[0], had);
      if o.status == Ok {
        FastEntries(f, key, value, es[1..], had);
        var rest, frest := RunEntries(f, key, value, es[1..], FULL),
            RunEntries(f, key, value, es[1..], Mode(true, had));
        if rest.status == Ok {
          SubPrefix(g.violations, o.violations, rest.violations);
          SubConcat(g.violations, o.violations, frest.violations, rest.violations);
        }
      }
    }
  }

  lemma FastMapRule(f: FieldRules, key: Option<FieldRules>, value: Option<FieldRules>, m: Message, had: bool)
    ensures Fast(RunMap(f, key, value, m, FULL), RunMap(f, key, value, m, Mode(true, had)), had)
  {
    hide RunField, RunEntries;
    var mode := Mode(true, had);
    var o, g := RunField(f, m, FULL), RunField(f, m, mode);
    FastField(f, m, had);
    if o.status == Ok && f.field.shape.MapOf? {
      var es := EntriesOf(m, f.field);
      FastEntries(f, key, value, es, mode.After(g).had);
      FastBoth(o, g, RunEntries(f, key, value, es, FULL.After(o)), RunEntries(f, key, value, es, mode.After(g)), had);
    }
  }

  lemma FastRule(rule: Rule, m: Message, had: bool)
    ensures Fast(RunRule(rule, m, FULL), RunRule(rule, m, Mode(true, had)), had)
  {
    hide Fast, RunField, RunEnum, RunRepeated, RunMap, RunOneof, RunMessageOneof;
    match rule
    case MessageRule(cel) => FastExprs(cel, cel.exprs, MessageThis(m), had);
    case FieldRule(f) => FastField(f, m, had);
    case EnumRule(f, definedOnly) => FastEnum(f, definedOnly, m, had);
    case RepeatedRule(f, item) => FastRepeated(f, item, m, had);
    case MapRule(f, key, value) => FastMapRule(f, key, value, m, had);
    case OneofRule(oneof, members, required) => FastSelf(RunOneof(oneof, members, required, m), had);
    case MessageOneofRule(members, required) => FastSelf(RunMessageOneof(members, required, m), had);
  }

  // ---------------------------------------------------------------- the walk

  lemma FastAttach(e: Option<PathElement>, o: Outcome, g: Outcome, had: bool)
    requires Fast(o, g, had) && (had ==> o.status == Ok ==> g.violations == [] || o.violations != [])
    ensures Fast(Attach(e, o), Attach(e, g), had)
  {
    if e.Some? {
      FastMap(o, g, Prefixed(e.value), had);
    }
  }

  lemma {:induction false} FastWalk(lookup: Lookup, m: Message)
    ensures Fast(Walk(lookup, m, FULL), Walk(lookup, m, FAST), false)
    decreases m, 2, 0
  {
    hide WalkRules;
    match lookup(m.desc.fullName)
    case Some(RuleList(rules)) => FastWalkRules(lookup, m, rules);
    case _ =>
  }

  lemma {:induction false} FastWalkRules(lookup: Lookup, m: Message, rules: seq<Rule>)
    ensures Fast(WalkRules(lookup, m, rules, FULL), WalkRules(lookup, m, rules, FAST), false)
    decreases m, 1, |rules|
  {
    hide RunRule, Fast, WalkChildren;
    if rules == [] {
      FieldsBelow(m.fields, m);
      FastWalkChildren(lookup, m, Children(m));
    } else {
      var o, g := RunRule(rules[0], m, FULL), RunRule(rules[0], m, FAST);
      FastRule(rules[0], m, false);
      if o.status != Ok {
        FastError(WalkRules(lookup, m, rules, FULL), WalkRules(lookup, m, rules, FAST), false);
      } else {
        FastWalkRules(lookup, m, rules[1..]);
        FastThen(o, g, WalkRules(lookup, m, rules[1..], FULL), WalkRules(lookup, m, rules[1..], FAST), false);
      }
    }
  }

  lemma {:induction false} FastWalkChildren(lookup: Lookup, m: Message, cs: seq<Child>)
    requires Below(cs, m)
    ensures Fast(WalkChildren(lookup, m, cs, FULL), WalkChildren(lookup, m, cs, FAST), false)
    decreases m, 0, |cs|
  {
    hide Walk, Fast, Attach;
    if cs == [] {
      FastSelf(NOTHING, false);
    } else {
      var x := cs[0].message;
      FastWalk(lookup, x);
      FastAttach(cs[0].element, Walk(lookup, x, FULL), Walk(lookup, x, FAST), false);
      var o, g := Attach(cs[0].element, Walk(lookup, x, FULL)), Attach(cs[0].element, Walk(lookup, x, FAST));
      if o.status != Ok {
        FastError(WalkChildren(lookup, m, cs, FULL), WalkChildren(lookup, m, cs, FAST), false);
      } else {
        FastWalkChildren(lookup, m, cs[1..]);
        FastThen(o, g, WalkChildren(lookup, m, cs[1..], FULL), WalkChildren(lookup, m, cs[1..], FAST), false);
      }
    }
  }

  /** When the full run succeeds, the fail-fast run succeeds with a subsequence of the full
      run's violations, the same first one, and none exactly when the full run has none. */
  lemma FailFastAgrees(lookup: Lookup, m: Message)
    requires Walk(lookup, m, FULL).status == Ok
    ensures var full, fast := Walk(lookup, m, FULL), Walk(lookup, m, FAST);
      && fast.status == Ok && Sub(fast.violations, full.violations)
      && (fast.violations == [] <==> full.violations == [])
      && (full.violations != [] ==> Alike(fast.violations[0], full.violations[0]))
  {
    hide Walk;
    FastWalk(lookup, m);
  }
}
