/** The paths of a single rule's violations: one field element, and for items, keys and values
    the rule path of the enclosing rule in front. */
module RulePaths {
  import opened Wrappers
  import opened Proto
  import opened Violations
  import opened RuleSpec

  /** The element names the field, perhaps with a subscript. */
  predicate Names(f: FieldDescriptor, e: PathElement)
  {
    e.number == Some(f.number) && e.name == FieldElement(f).name && e.fieldType == Some(f.fieldType)
  }

  /** The field path is the one element of the field. */
  predicate OnField(f: FieldDescriptor, v: Violation) { |v.field| == 1 && Names(f, v.field[0]) }

  predicate Bare(v: Violation) { v.field == [] && !v.forKey }

  lemma {:induction false} ExprsBare(c: CelRules, exprs: seq<CompiledRule>, t: CelThis, mode: Mode)
    ensures forall v | v in RunExprs(c, exprs, t, mode).violations :: Bare(v)
  {
    if exprs != [] {
      ExprsBare(c, exprs[1..], t, mode);
    }
  }

  lemma AnyPaths(f: FieldRules, any: AnyRules, at: ProtoField, v: Value)
    ensures forall x | x in RunAny(f, any, at, v).violations ::
      !x.forKey && x.field == (if at.index == -1 then [FieldElement(at.field)] else [])
      && |x.rule| == 2 && x.rule[0] == RuleElement("any")
  {
  }

  lemma FieldCelPaths(f: FieldRules, m: Message, t: CelThis, mode: Mode)
    requires RunFieldCel(f, m, t, mode).status == Ok
    ensures forall v | v in RunFieldCel(f, m, t, mode).violations :: OnField(f.field, v)
  {
    hide RunExprs;
    ExprsBare(f.cel, f.cel.exprs, t, mode);
    var vs := RunCel(f.cel, t, mode).violations;
    assert forall i | 0 <= i < |vs| :: vs[i] in vs;
  }

  lemma FieldPaths(f: FieldRules, m: Message, mode: Mode)
    requires RunField(f, m, mode).status == Ok
    ensures forall v | v in RunField(f, m, mode).violations :: OnField(f.field, v)
  {
    hide RunFieldCel, RunAny;
    match f.field.shape
    case MapOf(_, _) =>
      if RunFieldCel(f, m, MapThis(EntriesOf(m, f.field)), mode).status == Ok {
        FieldCelPaths(f, m, MapThis(EntriesOf(m, f.field)), mode);
      }
    case Repeated =>
      if RunFieldCel(f, m, ListThis(ItemsOf(m, f.field)), mode).status == Ok {
        FieldCelPaths(f, m, ListThis(ItemsOf(m, f.field)), mode);
      }
    case Single =>
      var v, at := SingleOf(m, f.field), ProtoField(m, f.field, -1);
      var any := if f.anyRules.Some? && f.field.IsMessage() then RunAny(f, f.anyRules.value, at, v) else NOTHING;
      if f.anyRules.Some? {
        AnyPaths(f, f.anyRules.value, at, v);
      }
      if RunFieldCel(f, m, ValueThis(v), mode.After(any)).status == Ok {
        FieldCelPaths(f, m, ValueThis(v), mode.After(any));
      }
  }

  /** What the item's own expressions and Any rules report. */
  function ItemOwn(f: FieldRules, item: FieldRules, m: Message, v: Value, i: nat, mode: Mode): seq<Violation>
  {
    RunCel(item.cel, ValueThis(v), mode).violations
    + if item.anyRules.Some? then RunAny(item, item.anyRules.value, ProtoField(m, f.field, i), v).violations else []
  }

  /** `v` is `own` placed under the rule path `es` of the enclosing rule. */
  predicate PlacedUnder(es: seq<PathElement>, own: Violation, v: Violation)
  {
    v.rule == es + own.rule && v.ruleId == own.ruleId && v.message == own.message
  }

  /** The item's violations, one for one: the field with the index as the path, the rule path
      behind `repeated.items`. */
  lemma ItemPaths(f: FieldRules, item: FieldRules, m: Message, v: Value, i: nat, mode: Mode)
    ensures var vs, own := RunItem(f, item, m, v, i, mode).violations, ItemOwn(f, item, m, v, i, mode);
      && |vs| == |own|
      && forall k | 0 <= k < |vs| ::
           vs[k].field == [FieldElement(f.field).(subscript := Index(i))] && PlacedUnder(ITEMS, own[k], vs[k])
  {
    hide RunExprs, RunAny;
    var at := ProtoField(m, f.field, i);
    var cel := RunCel(item.cel, ValueThis(v), mode).violations;
    ExprsBare(item.cel, item.cel.exprs, ValueThis(v), mode);
    assert forall k | 0 <= k < |cel| :: cel[k] in cel;
    if item.anyRules.Some? {
      var any := RunAny(item, item.anyRules.value, at, v).violations;
      AnyPaths(item, item.anyRules.value, at, v);
      assert forall k | 0 <= k < |any| :: any[k] in any;
    }
  }

  lemma ItemOnField(f: FieldRules, item: FieldRules, m: Message, v: Value, i: nat, mode: Mode)
    ensures forall x | x in RunItem(f, item, m, v, i, mode).violations :: OnField(f.field, x) && ITEMS <= x.rule
  {
    hide RunItem, ItemOwn;
    ItemPaths(f, item, m, v, i, mode);
  }

  lemma {:induction false} ItemsPaths(f: FieldRules, item: FieldRules, m: Message, items: seq<Value>, i: nat,
      mode: Mode)
    requires i <= |items|
    ensures forall x | x in RunItems(f, item, m, items, i, mode).violations :: OnField(f.field, x) && ITEMS <= x.rule
    decreases |items| - i
  {
    hide RunItem, OnField, IsEmptyItem;
    if i < |items| {
      ItemOnField(f, item, m, items[i], i, mode);
      ItemsPaths(f, item, m, items, i + 1, mode);
    }
  }

  /** A key or value violation carries the rule path of its side. */
  predicate OnSide(v: Violation) { if v.forKey then KEYS <= v.rule else VALUES <= v.rule }

  lemma SideBare(side: Option<FieldRules>, v: Value, mode: Mode)
    ensures forall x | x in RunSide(side, v, mode).violations :: Bare(x)
  {
    if side.Some? {
      ExprsBare(side.value.cel, side.value.cel.exprs, ValueThis(v), mode);
    }
  }

  /** The entry's violations, one for one: the key's, marked, behind `map.keys`, then the
      value's behind `map.values`. */
  lemma EntryViolationPaths(f: FieldRules, e: Entry, ks: seq<Violation>, vs: seq<Violation>)
    requires f.field.shape.MapOf? && (forall x | x in ks :: Bare(x)) && (forall x | x in vs :: Bare(x))
    ensures var all := EntryViolations(f, e, ks, vs);
      && |all| == |ks| + |vs|
      && forall i | 0 <= i < |all| ::
           && all[i].field == [] && (all[i].forKey <==> i < |ks|)
           && (if i < |ks| then PlacedUnder(KEYS, ks[i], all[i]) else PlacedUnder(VALUES, vs[i - |ks|], all[i]))
  {
    assert forall i | 0 <= i < |ks| :: ks[i] in ks;
    assert forall i | 0 <= i < |vs| :: vs[i] in vs;
  }

  lemma EntryPaths(f: FieldRules, key: Option<FieldRules>, value: Option<FieldRules>, e: Entry, mode: Mode)
    requires f.field.shape.MapOf? && RunEntry(f, key, value, e, mode).status == Ok
    ensures forall x | x in RunEntry(f, key, value, e, mode).violations :: OnField(f.field, x) && OnSide(x)
  {
    hide RunSide, EntryViolations;
    var k := RunSide(key, e.key, mode);
    var v := RunSide(value, e.found, mode.After(k));
    SideBare(key, e.key, mode);
    SideBare(value, e.found, mode.After(k));
    EntryViolationPaths(f, e, k.violations, v.violations);
  }

  lemma {:induction false} EntriesPaths(f: FieldRules, key: Option<FieldRules>, value: Option<FieldRules>,
      es: seq<Entry>, mode: Mode)
    requires f.field.shape.MapOf? && RunEntries(f, key, value, es, mode).status == Ok
    ensures forall x | x in RunEntries(f, key, value, es, mode).violations :: OnField(f.field, x) && OnSide(x)
  {
    hide RunEntry, OnField, OnSide;
    if es != [] {
      EntryPaths(f, key, value, es[0], mode);
      if RunEntries(f, key, value, es[1..], mode).status == Ok {
        EntriesPaths(f, key, value, es[1..], mode);
      }
    }
  }

  function BaseOf(rule: Rule): Option<FieldRules>
  {
    match rule
    case FieldRule(f) => Some(f)
    case EnumRule(f, _) => Some(f)
    case RepeatedRule(f, _) => Some(f)
    case MapRule(f, _, _) => Some(f)
    case _ => None
  }

  /** Every violation a field's rule reports has exactly the field's element as its own path:
      through items, keys, values, Any rules and required checks alike. */
  lemma OneElementPerRule(rule: Rule, m: Message, mode: Mode)
    requires BaseOf(rule).Some? && RunRule(rule, m, mode).status == Ok
    ensures forall v | v in RunRule(rule, m, mode).violations :: OnField(BaseOf(rule).value.field, v)
  {
    hide RunField, RunItems, RunEntries;
    var f := BaseOf(rule).value;
    FieldPaths(f, m, mode);
    match rule
    case FieldRule(_) =>
    case EnumRule(_, _) =>
    case RepeatedRule(_, item) =>
      if item.Some? {
        ItemsPaths(f, item.value, m, ItemsOf(m, f.field), 0, mode.After(RunField(f, m, mode)));
      }
    case MapRule(_, key, value) =>
      if f.field.shape.MapOf? && (key.Some? || value.Some?) {
        EntriesPaths(f, key, value, EntriesOf(m, f.field), mode.After(RunField(f, m, mode)));
      }
  }
}
