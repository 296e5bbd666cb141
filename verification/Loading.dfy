/** With a closed cache and no lazy loading, validation never misses rules. */
module Loading {
  import opened Wrappers
  import opened Proto
  import opened Violations
  import opened RuleSpec
  import opened WalkSpec
  import opened Traversal
  import opened Factory
  import opened Validation

  /** Statuses that evaluating rules can give, as opposed to looking them up. */
  predicate FromRules(s: Status) { s == Ok || (s.code != NotFound && s.code != BuildFailed) }

  /** A value type of one of `a`'s message fields: the field's own type, or through a map entry
      type the type of its values. */
  ghost predicate Linked(schema: Schema, a: string, b: string)
  {
    a in schema && (b in schema[a] || exists e :: e in schema[a] && e in schema && b in schema[e])
  }

  /** Every child message, at any depth, has the type its field declares. Messages in
      extension fields would not be linked. */
  ghost predicate Typed(schema: Schema, m: Message)
    decreases m
  {
    ChildOfBelow(m);
    forall e, x | ChildOf(m, e, x) :: Linked(schema, m.desc.fullName, x.desc.fullName) && Typed(schema, x)
  }

  lemma LinkedLoaded(rules: map<string, Loaded>, schema: Schema, a: string, b: string)
    requires Closed(rules, schema) && a in rules && IsOk(rules[a]) && Linked(schema, a, b)
    ensures b in rules && IsOk(rules[b])
  {
    assert ClosedAt(rules, schema, a);
    if b !in schema[a] {
      var e :| e in schema[a] && e in schema && b in schema[e];
      assert ClosedAt(rules, schema, e);
    }
  }

  lemma {:induction false} ExprsStatus(c: CelRules, exprs: seq<CompiledRule>, t: CelThis, mode: Mode)
    ensures FromRules(RunExprs(c, exprs, t, mode).status)
  {
    if exprs != [] {
      ExprsStatus(c, exprs[1..], t, mode);
    }
  }

  lemma FieldStatus(f: FieldRules, m: Message, mode: Mode)
    ensures FromRules(RunField(f, m, mode).status)
  {
    hide RunExprs;
    forall t, md: Mode ensures FromRules(RunExprs(f.cel, f.cel.exprs, t, md).status) {
      ExprsStatus(f.cel, f.cel.exprs, t, md);
    }
  }

  lemma {:induction false} ItemsStatus(f: FieldRules, item: FieldRules, m: Message, items: seq<Value>, i: nat,
      mode: Mode)
    requires i <= |items|
    ensures FromRules(RunItems(f, item, m, items, i, mode).status)
    decreases |items| - i
  {
    if i < |items| {
      ExprsStatus(item.cel, item.cel.exprs, ValueThis(items[i]), mode);
      ItemsStatus(f, item, m, items, i + 1, mode);
    }
  }

  lemma SideStatus(side: Option<FieldRules>, v: Value, mode: Mode)
    ensures FromRules(RunSide(side, v, mode).status)
  {
    if side.Some? {
      ExprsStatus(side.value.cel, side.value.cel.exprs, ValueThis(v), mode);
    }
  }

  lemma {:induction false} EntriesStatus(f: FieldRules, key: Option<FieldRules>, value: Option<FieldRules>,
      es: seq<Entry>, mode: Mode)
    requires f.field.shape.MapOf?
    ensures FromRules(RunEntries(f, key, value, es, mode).status)
  {
    hide RunSide, EntryViolations, WithMapKey;
    if es != [] {
      SideStatus(key, es[0].key, mode);
      SideStatus(value, es[0].found, mode.After(RunSide(key, es[0].key, mode)));
      EntriesStatus(f, key, value, es[1..], mode);
    }
  }

  lemma RuleStatus(rule: Rule, m: Message, mode: Mode)
    ensures FromRules(RunRule(rule, m, mode).status)
  {
    hide RunField, RunItems, RunEntries, RunExprs;
    match rule
    case MessageRule(cel) => ExprsStatus(cel, cel.exprs, MessageThis(m), mode);
    case FieldRule(f) => FieldStatus(f, m, mode);
    case EnumRule(f, _) => FieldStatus(f, m, mode);
    case RepeatedRule(f, item) =>
      FieldStatus(f, m, mode);
      if item.Some? {
        ItemsStatus(f, item.value, m, ItemsOf(m, f.field), 0, mode.After(RunField(f, m, mode)));
      }
    case MapRule(f, key, value) =>
      FieldStatus(f, m, mode);
      if f.field.shape.MapOf? {
        EntriesStatus(f, key, value, EntriesOf(m, f.field), mode.After(RunField(f, m, mode)));
      }
    case OneofRule(_, _, _) =>
    case MessageOneofRule(_, _) =>
  }

  /** What the cache alone answers, as with lazy loading disabled. */
  ghost predicate FromCache(lookup: Lookup, rules: map<string, Loaded>)
  {
    forall d :: lookup(d) == if d in rules then Some(rules[d]) else None
  }

  /** Every message of the tree has rules that were found and built. */
  ghost predicate AllBuilt(lookup: Lookup, m: Message)
    decreases m
  {
    ChildOfBelow(m);
    && lookup(m.desc.fullName).Some? && lookup(m.desc.fullName).value.RuleList?
    && forall e, x | ChildOf(m, e, x) :: AllBuilt(lookup, x)
  }

  /** Without lookups that fail every status comes from a rule. */
  lemma {:induction false} BuiltWalk(lookup: Lookup, m: Message, mode: Mode)
    requires AllBuilt(lookup, m)
    ensures FromRules(Walk(lookup, m, mode).status)
    decreases m, 2, 0
  {
    hide WalkRules, ChildOf;
    BuiltRules(lookup, m, lookup(m.desc.fullName).value.rules, mode);
  }

  lemma {:induction false} BuiltRules(lookup: Lookup, m: Message, rest: seq<Rule>, mode: Mode)
    requires AllBuilt(lookup, m)
    ensures FromRules(WalkRules(lookup, m, rest, mode).status)
    decreases m, 1, |rest|
  {
    hide RunRule, WalkChildren, Children, ChildOf;
    if rest == [] {
      ChildrenBelow(m);
      ChildIff(m);
      forall c | c in Children(m) ensures AllBuilt(lookup, c.message) {
        assert ChildOf(m, c.element, c.message);
      }
      BuiltChildren(lookup, m, Children(m), mode);
    } else {
      RuleStatus(rest[0], m, mode);
      BuiltRules(lookup, m, rest[1..], mode);
    }
  }

  lemma {:induction false} BuiltChildren(lookup: Lookup, m: Message, cs: seq<Child>, mode: Mode)
    requires Below(cs, m) && forall c | c in cs :: AllBuilt(lookup, c.message)
    ensures FromRules(WalkChildren(lookup, m, cs, mode).status)
    decreases m, 0, |cs|
  {
    hide Walk, AllBuilt;
    if cs != [] {
      BuiltWalk(lookup, cs[0].message, mode);
      BuiltChildren(lookup, m, cs[1..], mode);
    }
  }

  lemma {:induction false} LoadedBuilt(rules: map<string, Loaded>, schema: Schema, lookup: Lookup, m: Message)
    requires Closed(rules, schema) && FromCache(lookup, rules) && Typed(schema, m)
    requires m.desc.fullName in rules && IsOk(rules[m.desc.fullName])
    ensures AllBuilt(lookup, m)
    decreases m
  {
    hide ChildOf, Linked;
    ChildOfBelow(m);
    forall e, x | ChildOf(m, e, x) ensures AllBuilt(lookup, x) {
      LinkedLoaded(rules, schema, m.desc.fullName, x.desc.fullName);
      LoadedBuilt(rules, schema, lookup, x);
    }
  }

  /** A typed message of a loaded type in a closed cache: every status comes from a rule,
      never from a missing or broken type, at any depth. */
  lemma LoadedWalk(rules: map<string, Loaded>, schema: Schema, lookup: Lookup, m: Message, mode: Mode)
    requires Closed(rules, schema) && FromCache(lookup, rules) && Typed(schema, m)
    requires m.desc.fullName in rules && IsOk(rules[m.desc.fullName])
    ensures FromRules(Walk(lookup, m, mode).status)
  {
    LoadedBuilt(rules, schema, lookup, m);
    BuiltWalk(lookup, m, mode);
  }

  // ---------------------------------------------------------------- lazy loading

  predicate NotMissing(s: Status) { s == Ok || s.code != NotFound }

  lemma StatusNotMissing(s: Status)
    requires FromRules(s)
    ensures NotMissing(s)
  {
  }

  /** If every type has an answer, no message of any type ends with missing rules. */
  lemma {:induction false} NeverMissing(lookup: Lookup, m: Message, mode: Mode)
    requires forall d :: lookup(d).Some?
    ensures NotMissing(Walk(lookup, m, mode).status)
    decreases m, 2, 0
  {
    hide WalkRules;
    match lookup(m.desc.fullName)
    case Some(RuleList(rules)) => NoRuleMissing(lookup, m, rules, mode);
    case _ =>
  }

  lemma {:induction false} NoRuleMissing(lookup: Lookup, m: Message, rest: seq<Rule>, mode: Mode)
    requires forall d :: lookup(d).Some?
    ensures NotMissing(WalkRules(lookup, m, rest, mode).status)
    decreases m, 1, |rest|
  {
    hide RunRule, WalkChildren, Children, FromRules;
    if rest == [] {
      ChildrenBelow(m);
      NoChildMissing(lookup, m, Children(m), mode);
    } else {
      RuleStatus(rest[0], m, mode);
      StatusNotMissing(RunRule(rest[0], m, mode).status);
      NoRuleMissing(lookup, m, rest[1..], mode);
    }
  }

  lemma {:induction false} NoChildMissing(lookup: Lookup, m: Message, cs: seq<Child>, mode: Mode)
    requires Below(cs, m) && forall d :: lookup(d).Some?
    ensures NotMissing(WalkChildren(lookup, m, cs, mode).status)
    decreases m, 0, |cs|
  {
    hide Walk;
    if cs != [] {
      NeverMissing(lookup, cs[0].message, mode);
      NoChildMissing(lookup, m, cs[1..], mode);
    }
  }

  /** If every type can be built, all rules are found at any depth. */
  lemma {:induction false} LazyBuilt(lookup: Lookup, m: Message)
    requires forall d :: lookup(d).Some? && lookup(d).value.RuleList?
    ensures AllBuilt(lookup, m)
    decreases m
  {
    hide ChildOf;
    ChildOfBelow(m);
    forall e, x | ChildOf(m, e, x) ensures AllBuilt(lookup, x) {
      LazyBuilt(lookup, x);
    }
  }

  /** With lazy loading any message can be validated from any cache: rules are never missing,
      and if all types can be built, only rules make validation fail. */
  method ValidateLazily(factory: ValidatorFactory, m: Message, failFast: bool) returns (r: ValidationResult)
    requires !factory.disableLazyLoading && Coherent(factory.rules, factory.build)
    modifies factory`rules
    ensures r.Failed? ==> NotMissing(r.status)
    ensures r.Failed? && (forall d :: IsOk(factory.build(d))) ==> FromRules(r.status)
  {
    hide Walk, FromRules, NotMissing, AllBuilt;
    ghost var lookup: Lookup := d => Some(factory.build(d));
    assert factory.Answers(lookup);
    var validator := new Validator(factory, failFast);
    r := validator.Validate(m, lookup);
    NeverMissing(lookup, m, Mode(failFast, false));
    if forall d :: IsOk(factory.build(d)) {
      LazyBuilt(lookup, m);
      BuiltWalk(lookup, m, Mode(failFast, false));
    }
  }

  /** A type without rules ends the walk at once; one whose rules cannot be built gives the
      error of building them. */
  lemma UnusableType(lookup: Lookup, m: Message, mode: Mode)
    ensures lookup(m.desc.fullName) == None ==>
      Walk(lookup, m, mode) == Outcome(Error(NotFound, "rules not loaded for message: " + m.desc.fullName), [])
    ensures forall reason | lookup(m.desc.fullName) == Some(BuildError(reason)) ::
      Walk(lookup, m, mode) == Outcome(Error(BuildFailed, reason), [])
  {
  }

  lemma AddedClosed(schema: Schema, build: string -> Loaded, before: map<string, Loaded>, d: string,
      after: map<string, Loaded>, status: Status)
    requires AddPromise(schema, build, before, d, after, status) && Closed(before, schema) && d in schema
    ensures Coherent(after, build)
    ensures status == Ok ==> Closed(after, schema) && d in after && IsOk(after[d])
  {
    hide Visited, Reachable;
    VisitedSelf(schema, before.Keys, d);
  }

  /** Adding a type from a closed cache is enough to validate its messages without lazy
      loading. */
  method AddThenValidate(factory: ValidatorFactory, m: Message, failFast: bool)
    returns (added: Status, r: ValidationResult)
    requires factory.disableLazyLoading && Coherent(factory.rules, factory.build)
    requires Factory.WellFormed(factory.schema) && m.desc.fullName in factory.schema
    requires Closed(factory.rules, factory.schema) && Typed(factory.schema, m)
    modifies factory`rules
    ensures added == Ok && r.Failed? ==> FromRules(r.status)
  {
    hide Reachable, AddPromise, AddType, ClosedExcept, Coherent, Typed, Walk, FromRules, Factory.WellFormed;
    ghost var before := factory.rules;
    added := factory.Add(m.desc.fullName);
    AddedClosed(factory.schema, factory.build, before, m.desc.fullName, factory.rules, added);
    var validator := new Validator(factory, failFast);
    ghost var rules := factory.rules;
    ghost var after: Lookup := d => if d in rules then Some(rules[d]) else None;
    r := validator.Validate(m, after);
    if added == Ok {
      LoadedWalk(rules, factory.schema, after, m, Mode(failFast, false));
    }
  }
}
