/** Validation succeeds without violations exactly when every constraint holds everywhere. */
module Validity {
  import opened Wrappers
  import opened Proto
  import opened Violations
  import opened RuleSpec
  import opened WalkSpec
  import opened Traversal

  predicate Passes(r: CelResult) { r == BoolResult(true) || r == StringResult("") }

  predicate Errs(r: CelResult) { r.EvalFailed? || r.ErrorResult? || r.OtherResult? }

  ghost predicate AllPass(exprs: seq<CompiledRule>, t: CelThis)
  {
    forall i | 0 <= i < |exprs| :: Passes(exprs[i].eval(t))
  }

  /** The first `n` expressions pass and the next one, if any, errs. */
  ghost predicate PassUpTo(exprs: seq<CompiledRule>, t: CelThis, n: nat)
  {
    && n <= |exprs| && (forall i | 0 <= i < n :: Passes(exprs[i].eval(t)))
    && (n < |exprs| ==> Errs(exprs[n].eval(t)))
  }

  /** The first expression that does not pass, if any, errs. */
  ghost predicate NoneViolated(exprs: seq<CompiledRule>, t: CelThis)
  {
    exists n: nat :: PassUpTo(exprs, t, n)
  }

  predicate AnyHolds(any: AnyRules, v: Value)
  {
    var uf := TypeUrlField(v);
    && uf.Some? && uf.value.fieldType == TypeString
    && var url := TypeUrl(v.m, uf.value);
       (any.allowed == [] || url in any.allowed) && url !in any.blocked
  }

  /** An empty collection passes when empty is ignored and fails when a value is required. */
  ghost predicate CollectionHolds(f: FieldRules, empty: bool, t: CelThis)
  {
    (empty && PassesOver(f)) || (!(empty && f.required) && AllPass(f.cel.exprs, t))
  }

  ghost predicate FieldHolds(f: FieldRules, m: Message)
  {
    match f.field.shape
    case MapOf(_, _) => CollectionHolds(f, EntriesOf(m, f.field) == [], MapThis(EntriesOf(m, f.field)))
    case Repeated => CollectionHolds(f, ItemsOf(m, f.field) == [], ListThis(ItemsOf(m, f.field)))
    case Single =>
      var unset, v := !HasField(m, f.field), SingleOf(m, f.field);
      && !(unset && f.required)
      && ((unset && PassesOver(f))
          || ((f.anyRules.Some? && f.field.IsMessage() ==> AnyHolds(f.anyRules.value, v))
              && f.readFailure(m).None? && AllPass(f.cel.exprs, ValueThis(v))))
  }

  /** The values of scalar fields that count as empty. */
  predicate Zero(v: Value)
  {
    || v == BoolValue(false) || v == IntValue(0) || v == UIntValue(0) || v == DoubleValue(0.0)
    || v == StringValue("") || v == BytesValue([])
  }

  /** Unset fields and empty values are passed over: on request, and where the field tracks
      presence without being part of a map entry. */
  predicate PassesOver(f: FieldRules)
  {
    f.ignoreIfZero || !(f.mapEntry || !f.field.hasPresence)
  }

  predicate IgnoredItem(f: FieldRules, v: Value) { PassesOver(f) && Zero(v) }

  /** The rules skip an item, key or value exactly if it is an ignored zero. */
  lemma IgnoredIff(f: FieldRules, v: Value)
    ensures f.IgnoreEmpty() <==> PassesOver(f)
    ensures IsEmptyItem(v) <==> Zero(v)
    ensures f.IgnoreEmpty() && IsEmptyItem(v) <==> IgnoredItem(f, v)
  {
  }

  /** An item with Any rules: a failed expression goes unnoticed. */
  ghost predicate ItemHolds(item: FieldRules, v: Value)
  {
    if item.anyRules.Some? then NoneViolated(item.cel.exprs, ValueThis(v)) && AnyHolds(item.anyRules.value, v)
    else AllPass(item.cel.exprs, ValueThis(v))
  }

  ghost predicate SideHolds(side: Option<FieldRules>, v: Value)
  {
    side.None? || IgnoredItem(side.value, v) || AllPass(side.value.cel.exprs, ValueThis(v))
  }

  ghost predicate RuleHolds(rule: Rule, m: Message)
  {
    match rule
    case MessageRule(cel) => AllPass(cel.exprs, MessageThis(m))
    case FieldRule(f) => FieldHolds(f, m)
    case EnumRule(f, definedOnly) =>
      var v := SingleOf(m, f.field);
      FieldHolds(f, m) && (definedOnly ==> (if v.IntValue? then v.i else 0) in f.field.enumValues)
    case RepeatedRule(f, item) =>
      && FieldHolds(f, m)
      && (item.Some? ==> forall v | v in ItemsOf(m, f.field) :: IgnoredItem(item.value, v) || ItemHolds(item.value, v))
    case MapRule(f, key, value) =>
      && FieldHolds(f, m)
      && (f.field.shape.MapOf? && (key.Some? || value.Some?) ==>
            f.readFailure(m).None?
            && forall e | e in EntriesOf(m, f.field) :: SideHolds(key, e.key) && SideHolds(value, e.found))
    case OneofRule(_, members, required) =>
      required ==> exists i :: 0 <= i < |members| && HasField(m, members[i])
    case MessageOneofRule(members, required) =>
      && (forall i, j | 0 <= i < j < |members| :: !(HasField(m, members[i]) && HasField(m, members[j])))
      && (required ==> exists i :: 0 <= i < |members| && HasField(m, members[i]))
  }

  /** Every message of the tree has its rules loaded and satisfies them. */
  ghost predicate Valid(lookup: Lookup, m: Message)
    decreases m
  {
    ChildOfBelow(m);
    && lookup(m.desc.fullName).Some? && lookup(m.desc.fullName).value.RuleList?
    && (forall r | r in lookup(m.desc.fullName).value.rules :: RuleHolds(r, m))
    && forall e, x | ChildOf(m, e, x) :: Valid(lookup, x)
  }

  // ---------------------------------------------------------------- rule by rule

  lemma ThenClean(o: Outcome, rest: Outcome)
    ensures Then(o, rest) == NOTHING <==> o.violations == [] && rest == NOTHING
  {
  }

  lemma ExprClean(c: CelRules, expr: CompiledRule, t: CelThis)
    ensures RunExpr(c, expr, t) == NOTHING <==> Passes(expr.eval(t))
    ensures RunExpr(c, expr, t).violations == [] <==> Passes(expr.eval(t)) || Errs(expr.eval(t))
    ensures RunExpr(c, expr, t).status == Ok <==> !Errs(expr.eval(t))
  {
  }

  lemma {:induction false} ExprsClean(c: CelRules, exprs: seq<CompiledRule>, t: CelThis, mode: Mode)
    ensures !mode.had ==> (RunExprs(c, exprs, t, mode) == NOTHING <==> AllPass(exprs, t))
  {
    hide RunExpr, Passes;
    if exprs != [] {
      ExprClean(c, exprs[0], t);
      ExprsClean(c, exprs[1..], t, mode);
      ThenClean(RunExpr(c, exprs[0], t), RunExprs(c, exprs[1..], t, mode));
      assert AllPass(exprs, t) <==> Passes(exprs[0].eval(t)) && AllPass(exprs[1..], t) by {
        assert forall i | 1 <= i < |exprs| :: exprs[i] == exprs[1..][i - 1];
        assert forall i | 0 <= i < |exprs| - 1 :: exprs[1..][i] == exprs[i + 1];
      }
    }
  }

  lemma {:induction false} ExprsSilent(c: CelRules, exprs: seq<CompiledRule>, t: CelThis, mode: Mode)
    requires !mode.had
    ensures RunExprs(c, exprs, t, mode).violations == [] <==> NoneViolated(exprs, t)
  {
    hide RunExpr, Passes, Errs;
    if exprs == [] {
      assert PassUpTo(exprs, t, 0);
    } else {
      ExprClean(c, exprs[0], t);
      ExprsSilent(c, exprs[1..], t, mode);
      SilentCons(exprs, t);
    }
  }

  lemma SilentCons(exprs: seq<CompiledRule>, t: CelThis)
    requires exprs != []
    ensures NoneViolated(exprs, t)
      <==> Errs(exprs[0].eval(t)) || (Passes(exprs[0].eval(t)) && NoneViolated(exprs[1..], t))
  {
    hide Passes, Errs;
    var tail := exprs[1..];
    ExprCases(exprs[0].eval(t));
    if NoneViolated(exprs, t) {
      var n: nat :| PassUpTo(exprs, t, n);
      if n > 0 {
        assert forall i | 0 <= i < n - 1 :: tail[i] == exprs[i + 1];
        assert PassUpTo(tail, t, n - 1);
      }
    }
    if Errs(exprs[0].eval(t)) {
      assert PassUpTo(exprs, t, 0);
    } else if Passes(exprs[0].eval(t)) && NoneViolated(tail, t) {
      var n: nat :| PassUpTo(tail, t, n);
      assert forall i | 1 <= i < n + 1 :: exprs[i] == tail[i - 1];
      assert PassUpTo(exprs, t, n + 1);
    }
  }

  lemma ExprCases(r: CelResult)
    ensures !(Passes(r) && Errs(r))
  {
  }

  lemma AnyClean(f: FieldRules, any: AnyRules, at: ProtoField, v: Value)
    ensures RunAny(f, any, at, v) == NOTHING <==> AnyHolds(any, v)
    ensures RunAny(f, any, at, v).violations == [] && RunAny(f, any, at, v).status == Ok <==> AnyHolds(any, v)
  {
  }

  lemma FieldCelClean(f: FieldRules, m: Message, t: CelThis, mode: Mode)
    requires !mode.had
    ensures RunFieldCel(f, m, t, mode) == NOTHING <==> AllPass(f.cel.exprs, t)
  {
    hide RunExprs, AllPass;
    ExprsClean(f.cel, f.cel.exprs, t, mode);
  }

  lemma FieldClean(f: FieldRules, m: Message, mode: Mode)
    requires !mode.had
    ensures RunField(f, m, mode) == NOTHING <==> FieldHolds(f, m)
  {
    hide RunFieldCel, RequiredViolation, RunAny, AllPass, AnyHolds;
    match f.field.shape
    case MapOf(_, _) => FieldCelClean(f, m, MapThis(EntriesOf(m, f.field)), mode);
    case Repeated => FieldCelClean(f, m, ListThis(ItemsOf(m, f.field)), mode);
    case Single =>
      var v, at := SingleOf(m, f.field), ProtoField(m, f.field, -1);
      FieldCelClean(f, m, ValueThis(v), mode);
      if f.anyRules.Some? {
        AnyClean(f, f.anyRules.value, at, v);
      }
      var any := if f.anyRules.Some? && f.field.IsMessage() then RunAny(f, f.anyRules.value, at, v) else NOTHING;
      ThenClean(any, RunFieldCel(f, m, ValueThis(v), mode.After(any)));
  }

  lemma ItemClean(f: FieldRules, item: FieldRules, m: Message, v: Value, i: nat, mode: Mode)
    requires !mode.had
    ensures RunItem(f, item, m, v, i, mode) == NOTHING <==> ItemHolds(item, v)
  {
    hide RunExprs, RunAny, AllPass, NoneViolated, AnyHolds, InRule, InField, At;
    var t, at := ValueThis(v), ProtoField(m, f.field, i);
    var e := FieldElement(f.field).(subscript := Index(i));
    ExprsClean(item.cel, item.cel.exprs, t, mode);
    ExprsSilent(item.cel, item.cel.exprs, t, mode);
    var cel := RunCel(item.cel, t, mode);
    var o := cel;
    if item.anyRules.Some? {
      AnyClean(item, item.anyRules.value, at, v);
      o := Then(cel, RunAny(item, item.anyRules.value, at, v));
    }
    EditedEmpty(e, at, o.violations);
  }

  lemma EditedEmpty(e: PathElement, at: ProtoField, vs: seq<Violation>)
    ensures InField(e, InRule(ITEMS, At(at, vs))) == [] <==> vs == []
  {
    assert |InField(e, InRule(ITEMS, At(at, vs)))| == |vs|;
  }

  lemma {:induction false} ItemsClean(f: FieldRules, item: FieldRules, m: Message, items: seq<Value>, i: nat,
      mode: Mode)
    requires !mode.had && i <= |items|
    ensures RunItems(f, item, m, items, i, mode) == NOTHING
      <==> forall k | i <= k < |items| :: IgnoredItem(item, items[k]) || ItemHolds(item, items[k])
    decreases |items| - i
  {
    hide RunItem, ItemHolds, IsEmptyItem, IgnoredItem;
    if i < |items| {
      IgnoredIff(item, items[i]);
      ItemsClean(f, item, m, items, i + 1, mode);
      ItemClean(f, item, m, items[i], i, mode);
      ThenClean(RunItem(f, item, m, items[i], i, mode), RunItems(f, item, m, items, i + 1, mode));
    }
  }

  lemma SideClean(side: Option<FieldRules>, v: Value, mode: Mode)
    requires !mode.had
    ensures RunSide(side, v, mode) == NOTHING <==> SideHolds(side, v)
  {
    if side.Some? {
      IgnoredIff(side.value, v);
      ExprsClean(side.value.cel, side.value.cel.exprs, ValueThis(v), mode);
    }
  }

  lemma EntryClean(f: FieldRules, key: Option<FieldRules>, value: Option<FieldRules>, e: Entry, mode: Mode)
    requires !mode.had && f.field.shape.MapOf?
    ensures RunEntry(f, key, value, e, mode) == NOTHING <==> SideHolds(key, e.key) && SideHolds(value, e.found)
  {
    hide RunSide, SideHolds, WithMapKey, EntryViolations;
    var k := RunSide(key, e.key, mode);
    SideClean(key, e.key, mode);
    if k == NOTHING {
      SideClean(value, e.found, mode.After(k));
    }
    EntrySizes(f, e, k.violations, RunSide(value, e.found, mode.After(k)).violations);
    EntrySizes(f, e, k.violations, []);
  }

  lemma EntrySizes(f: FieldRules, e: Entry, ks: seq<Violation>, vs: seq<Violation>)
    requires f.field.shape.MapOf?
    ensures |EntryViolations(f, e, ks, vs)| == |ks| + |vs|
    ensures forall x: PathElement :: |InField(x, EntryViolations(f, e, ks, vs))| == |ks| + |vs|
  {
  }

  lemma {:induction false} EntriesClean(f: FieldRules, key: Option<FieldRules>, value: Option<FieldRules>,
      es: seq<Entry>, mode: Mode)
    requires !mode.had && f.field.shape.MapOf?
    ensures RunEntries(f, key, value, es, mode) == NOTHING
      <==> forall e | e in es :: SideHolds(key, e.key) && SideHolds(value, e.found)
  {
    hide RunEntry, SideHolds;
    if es != [] {
      EntriesClean(f, key, value, es[1..], mode);
      EntryClean(f, key, value, es[0], mode);
      ThenClean(RunEntry(f, key, value, es[0], mode), RunEntries(f, key, value, es[1..], mode));
      assert es == [es[0]] + es[1..];
    }
  }

  lemma {:induction false} CountPositive(m: Message, fs: seq<FieldDescriptor>)
    ensures CountSet(m, fs) > 0 <==> exists i :: 0 <= i < |fs| && HasField(m, fs[i])
  {
    if fs != [] {
      CountPositive(m, fs[1..]);
      assert forall i | 1 <= i < |fs| :: fs[i] == fs[1..][i - 1];
      assert forall i | 0 <= i < |fs| - 1 :: fs[1..][i] == fs[i + 1];
    }
  }

  lemma {:induction false} CountAtMostOne(m: Message, fs: seq<FieldDescriptor>)
    ensures CountSet(m, fs) <= 1
      <==> forall i, j | 0 <= i < j < |fs| :: !(HasField(m, fs[i]) && HasField(m, fs[j]))
  {
    if fs != [] {
      CountAtMostOne(m, fs[1..]);
      CountPositive(m, fs[1..]);
      assert forall i | 1 <= i < |fs| :: fs[i] == fs[1..][i - 1];
      assert forall i | 0 <= i < |fs| - 1 :: fs[1..][i] == fs[i + 1];
    }
  }

  lemma RuleClean(rule: Rule, m: Message, mode: Mode)
    requires !mode.had
    ensures RunRule(rule, m, mode) == NOTHING <==> RuleHolds(rule, m)
  {
    hide RunField, RunItems, RunEntries, RunExprs, AllPass, FieldHolds, ItemHolds, SideHolds, IgnoredItem;
    match rule
    case MessageRule(cel) => ExprsClean(cel, cel.exprs, MessageThis(m), mode);
    case FieldRule(f) => FieldClean(f, m, mode);
    case EnumRule(f, definedOnly) => FieldClean(f, m, mode);
    case RepeatedRule(f, item) =>
      FieldClean(f, m, mode);
      if item.Some? {
        ItemsClean(f, item.value, m, ItemsOf(m, f.field), 0, mode);
      }
    case MapRule(f, key, value) =>
      FieldClean(f, m, mode);
      if f.field.shape.MapOf? {
        EntriesClean(f, key, value, EntriesOf(m, f.field), mode);
      }
    case OneofRule(_, members, _) => CountPositive(m, members);
    case MessageOneofRule(members, _) =>
      CountPositive(m, members);
      CountAtMostOne(m, members);
  }

  // ---------------------------------------------------------------- the walk

  lemma AttachClean(e: Option<PathElement>, o: Outcome)
    ensures Attach(e, o) == NOTHING <==> o == NOTHING
  {
  }

  /** A message passes, in either mode, exactly when it is valid at every depth. */
  lemma {:induction false} CleanIffValid(lookup: Lookup, m: Message, mode: Mode)
    requires !mode.had
    ensures Walk(lookup, m, mode) == NOTHING <==> Valid(lookup, m)
    decreases m, 2, 0
  {
    hide RuleHolds, Children, ChildOf;
    ChildOfBelow(m);
    ChildrenValid(lookup, m);
    match lookup(m.desc.fullName)
    case Some(RuleList(rules)) => RulesClean(lookup, m, rules, mode);
    case _ =>
  }

  lemma ChildrenValid(lookup: Lookup, m: Message)
    ensures (forall i | 0 <= i < |Children(m)| :: Valid(lookup, Children(m)[i].message))
       <==> (forall e, x | ChildOf(m, e, x) :: Valid(lookup, x))
  {
    hide Children, ChildOf, Valid;
    ChildIff(m);
    var cs := Children(m);
    forall i | 0 <= i < |cs| ensures ChildOf(m, cs[i].element, cs[i].message) {
      assert Child(cs[i].element, cs[i].message) in cs;
    }
    forall e, x | ChildOf(m, e, x) ensures exists i :: 0 <= i < |cs| && cs[i].message == x {
      assert Child(e, x) in cs;
    }
  }

  lemma {:induction false} RulesClean(lookup: Lookup, m: Message, rules: seq<Rule>, mode: Mode)
    requires !mode.had
    ensures WalkRules(lookup, m, rules, mode) == NOTHING
      <==> ((forall r | r in rules :: RuleHolds(r, m))
            && forall i | 0 <= i < |Children(m)| :: Valid(lookup, Children(m)[i].message))
    decreases m, 1, |rules|
  {
    hide RunRule, RuleHolds, WalkChildren, Valid;
    if rules == [] {
      FieldsBelow(m.fields, m);
      ChildrenClean(lookup, m, Children(m), mode);
    } else {
      RuleClean(rules[0], m, mode);
      RulesClean(lookup, m, rules[1..], mode);
      ThenClean(RunRule(rules[0], m, mode), WalkRules(lookup, m, rules[1..], mode));
      assert rules == [rules[0]] + rules[1..];
    }
  }

  lemma {:induction false} ChildrenClean(lookup: Lookup, m: Message, cs: seq<Child>, mode: Mode)
    requires !mode.had && Below(cs, m)
    ensures WalkChildren(lookup, m, cs, mode) == NOTHING <==> forall i | 0 <= i < |cs| :: Valid(lookup, cs[i].message)
    decreases m, 0, |cs|
  {
    hide Walk, Valid, Attach;
    if cs != [] {
      var x := cs[0].message;
      CleanIffValid(lookup, x, mode);
      AttachClean(cs[0].element, Walk(lookup, x, mode));
      ChildrenClean(lookup, m, cs[1..], mode);
      ThenClean(Attach(cs[0].element, Walk(lookup, x, mode)), WalkChildren(lookup, m, cs[1..], mode));
      assert forall i | 1 <= i < |cs| :: cs[i] == cs[1..][i - 1];
      assert forall i | 0 <= i < |cs| - 1 :: cs[1..][i] == cs[i + 1];
    }
  }

  // ---------------------------------------------------------------- surprises

  /** The Any status replaces the CEL status: an item passes although an expression errs. */
  lemma ItemErrorUnnoticed(f: FieldRules, item: FieldRules, m: Message, v: Value, i: nat, mode: Mode)
    requires item.anyRules.Some? && item.cel.exprs != [] && Errs(item.cel.exprs[0].eval(ValueThis(v)))
    requires AnyHolds(item.anyRules.value, v)
    ensures RunCel(item.cel, ValueThis(v), mode).status != Ok
    ensures RunItem(f, item, m, v, i, mode) == NOTHING
  {
    ExprClean(item.cel, item.cel.exprs[0], ValueThis(v));
    AnyClean(item, item.anyRules.value, ProtoField(m, f.field, i), v);
  }

  /** A key violation keeps pointing at the key exactly when the value of the same entry has
      no violation. */
  lemma KeyFieldValue(f: FieldRules, e: Entry, ks: seq<Violation>, vs: seq<Violation>, i: nat)
    requires f.field.shape.MapOf? && f.field.shape.key != f.field.shape.value && i < |ks|
    ensures i < |EntryViolations(f, e, ks, vs)| && EntryViolations(f, e, ks, vs)[i].forKey
    ensures EntryViolations(f, e, ks, vs)[i].fieldValue == Some(ProtoField(EntryMessage(f, e), f.field.shape.key, -1))
      <==> vs == []
  {
  }
}
