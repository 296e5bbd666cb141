/** Where a fail-fast run stops: at the first check, in the order of the traversal, that does
    not hold. */
module FastStops {
  import opened Wrappers
  import opened Proto
  import opened Violations
  import opened RuleSpec
  import opened WalkSpec
  import opened Validity
  import opened Reports
  import opened WalkFacts

  // ---------------------------------------------------------------- one rule

  lemma CelAtMostOne(c: CelRules, t: CelThis, had: bool)
    ensures |RunCel(c, t, Mode(true, had)).violations| <= 1
  {
    FastExprsOne(c, c.exprs, t, had);
  }

  lemma AnyAtMostTwo(f: FieldRules, any: AnyRules, at: ProtoField, v: Value)
    ensures |RunAny(f, any, at, v).violations| <= 2
  {
  }

  lemma FieldAtMost(f: FieldRules, m: Message, had: bool)
    ensures |RunField(f, m, Mode(true, had)).violations| <= if f.field.shape.Single? then 3 else 1
  {
    hide RunExprs, RunAny;
    forall t, h ensures |RunCel(f.cel, t, Mode(true, h)).violations| <= 1 {
      CelAtMostOne(f.cel, t, h);
    }
    if f.anyRules.Some? {
      AnyAtMostTwo(f, f.anyRules.value, ProtoField(m, f.field, -1), SingleOf(m, f.field));
    }
  }

  lemma ItemAtMost(f: FieldRules, item: FieldRules, m: Message, v: Value, i: nat, had: bool)
    ensures |RunItem(f, item, m, v, i, Mode(true, had)).violations| <= 3
  {
    hide RunExprs, RunAny;
    CelAtMostOne(item.cel, ValueThis(v), had);
    if item.anyRules.Some? {
      AnyAtMostTwo(item, item.anyRules.value, ProtoField(m, f.field, i), v);
    }
  }

  lemma {:induction false} ItemsAtMost(f: FieldRules, item: FieldRules, m: Message, items: seq<Value>, i: nat,
      had: bool)
    requires i <= |items|
    ensures |RunItems(f, item, m, items, i, Mode(true, had)).violations| <= 3
    decreases |items| - i
  {
    hide RunItem, IsEmptyItem;
    if i < |items| {
      ItemAtMost(f, item, m, items[i], i, had);
      ItemsAtMost(f, item, m, items, i + 1, had);
    }
  }

  lemma EntryAtMost(f: FieldRules, key: Option<FieldRules>, value: Option<FieldRules>, e: Entry, had: bool)
    requires f.field.shape.MapOf?
    ensures |RunEntry(f, key, value, e, Mode(true, had)).violations| <= 2
  {
    hide RunExprs, EntryViolations, WithMapKey, IsEmptyItem;
    forall side: Option<FieldRules>, v, h ensures |RunSide(side, v, Mode(true, h)).violations| <= 1 {
      if side.Some? {
        CelAtMostOne(side.value.cel, ValueThis(v), h);
      }
    }
    forall ks, vs ensures |EntryViolations(f, e, ks, vs)| == |ks| + |vs| {
      EntrySizes(f, e, ks, vs);
    }
  }

  lemma {:induction false} EntriesAtMost(f: FieldRules, key: Option<FieldRules>, value: Option<FieldRules>,
      es: seq<Entry>, had: bool)
    requires f.field.shape.MapOf?
    ensures |RunEntries(f, key, value, es, Mode(true, had)).violations| <= 2
  {
    hide RunEntry;
    if es != [] {
      EntryAtMost(f, key, value, es[0], had);
      EntriesAtMost(f, key, value, es[1..], had);
    }
  }

  /** In fail-fast mode a rule reports at most three violations: one of an expression behind
      two of Any rules, or one of a map field, a key and a value each. */
  lemma RuleAtMost(rule: Rule, m: Message, had: bool)
    ensures |RunRule(rule, m, Mode(true, had)).violations| <= 3
  {
    hide RunField, RunExprs, RunItems, RunEntries;
    var mode := Mode(true, had);
    match rule
    case MessageRule(cel) => CelAtMostOne(cel, MessageThis(m), had);
    case FieldRule(f) => FieldAtMost(f, m, had);
    case EnumRule(f, _) => FieldAtMost(f, m, had);
    case RepeatedRule(f, item) =>
      FieldAtMost(f, m, had);
      if item.Some? {
        ItemsAtMost(f, item.value, m, ItemsOf(m, f.field), 0, mode.After(RunField(f, m, mode)).had);
      }
    case MapRule(f, key, value) =>
      FieldAtMost(f, m, had);
      if f.field.shape.MapOf? {
        EntriesAtMost(f, key, value, EntriesOf(m, f.field), mode.After(RunField(f, m, mode)).had);
      }
    case OneofRule(_, _, _) =>
    case MessageOneofRule(members, required) => MessageOneofReports(members, required, m);
  }

  /** Items are checked up to the first that does not hold, and only that one is reported. */
  lemma {:induction false} FirstItem(f: FieldRules, item: FieldRules, m: Message, items: seq<Value>, i: nat)
    returns (k: nat)
    requires i <= |items| && RunItems(f, item, m, items, i, FAST).status == Ok
    ensures i <= k <= |items|
    ensures forall j | i <= j < k :: IgnoredItem(item, items[j]) || ItemHolds(item, items[j])
    ensures k < |items| ==> !IgnoredItem(item, items[k]) && !ItemHolds(item, items[k])
    ensures RunItems(f, item, m, items, i, FAST).violations
         == if k < |items| then RunItem(f, item, m, items[k], k, FAST).violations else []
    decreases |items| - i
  {
    hide RunItem, ItemHolds, IsEmptyItem, IgnoredItem;
    k := i;
    if i < |items| {
      IgnoredIff(item, items[i]);
      ItemClean(f, item, m, items[i], i, FAST);
      if IgnoredItem(item, items[i]) || ItemHolds(item, items[i]) {
        k := FirstItem(f, item, m, items, i + 1);
      }
    }
  }

  /** The same for the entries of a map. */
  lemma {:induction false} FirstEntry(f: FieldRules, key: Option<FieldRules>, value: Option<FieldRules>,
      es: seq<Entry>, i: nat)
    returns (k: nat)
    requires f.field.shape.MapOf? && i <= |es| && RunEntries(f, key, value, es[i..], FAST).status == Ok
    ensures i <= k <= |es|
    ensures forall j | i <= j < k :: SideHolds(key, es[j].key) && SideHolds(value, es[j].found)
    ensures k < |es| ==> !(SideHolds(key, es[k].key) && SideHolds(value, es[k].found))
    ensures RunEntries(f, key, value, es[i..], FAST).violations
         == if k < |es| then RunEntry(f, key, value, es[k], FAST).violations else []
    decreases |es| - i
  {
    hide RunEntry, SideHolds;
    k := i;
    if i < |es| {
      assert es[i..][0] == es[i] && es[i..][1..] == es[i + 1..];
      EntryClean(f, key, value, es[i], FAST);
      if SideHolds(key, es[i].key) && SideHolds(value, es[i].found) {
        k := FirstEntry(f, key, value, es, i + 1);
      }
    }
  }

  // ---------------------------------------------------------------- the whole run

  /** A rule to be checked on a message, and the route to the message; none behind a map entry
      whose key has no path element. */
  datatype Check = Check(route: Option<seq<PathElement>>, rule: Rule, message: Message)

  function Behind(e: Option<PathElement>, c: Check): Check
  {
    c.(route := if e.Some? && c.route.Some? then Some([e.value] + c.route.value) else None)
  }

  function OwnChecks(m: Message, rules: seq<Rule>): (cs: seq<Check>)
    ensures |cs| == |rules|
  {
    seq(|rules|, i requires 0 <= i < |rules| => Check(Some([]), rules[i], m))
  }

  /** All checks of a message tree in the order of the traversal: a message's own rules, then
      its children's. */
  ghost function Checks(lookup: Lookup, m: Message): seq<Check>
    decreases m, 1, 0
  {
    FieldsBelow(m.fields, m);
    OwnChecks(m, RulesOf(lookup, m)) + ChildChecks(lookup, m, Children(m))
  }

  ghost function ChildChecks(lookup: Lookup, m: Message, cs: seq<Child>): seq<Check>
    requires Below(cs, m)
    decreases m, 0, |cs|
  {
    if cs == [] then []
    else MapAll(c => Behind(cs[0].element, c), Checks(lookup, cs[0].message)) + ChildChecks(lookup, m, cs[1..])
  }

  /** Check `k` is the first of `cs` that does not hold, if any, and `vs` are its violations
      alone, under its route. */
  ghost predicate StopsAtCheck(cs: seq<Check>, k: nat, vs: seq<Violation>)
  {
    && k <= |cs| && (forall j | 0 <= j < k :: RuleHolds(cs[j].rule, cs[j].message))
    && if k == |cs| then vs == []
       else
         && !RuleHolds(cs[k].rule, cs[k].message) && cs[k].route.Some? && vs != []
         && vs == MapAll((v: Violation) => Routed(cs[k].route.value, v),
             RunRule(cs[k].rule, cs[k].message, FAST).violations)
  }

  lemma Passed(head: seq<Check>, cs: seq<Check>, k: nat, vs: seq<Violation>)
    requires StopsAtCheck(head, |head|, []) && StopsAtCheck(cs, k, vs)
    ensures StopsAtCheck(head + cs, |head| + k, vs)
  {
    hide RuleHolds, RunRule;
    var all := head + cs;
    forall j | 0 <= j < |head| + k ensures RuleHolds(all[j].rule, all[j].message) {
      assert all[j] == if j < |head| then head[j] else cs[j - |head|];
    }
    assert k < |cs| ==> all[|head| + k] == cs[k];
  }

  lemma StoppedInFront(head: seq<Check>, tail: seq<Check>, k: nat, vs: seq<Violation>)
    requires StopsAtCheck(head, k, vs) && k < |head|
    ensures StopsAtCheck(head + tail, k, vs)
  {
    hide RuleHolds, RunRule;
    assert forall j | 0 <= j < |head| :: (head + tail)[j] == head[j];
  }

  lemma StopsBehind(e: Option<PathElement>, cs: seq<Check>, k: nat, o: Outcome)
    requires StopsAtCheck(cs, k, o.violations) && Attach(e, o).status == Ok
    ensures StopsAtCheck(MapAll(c => Behind(e, c), cs), k, Attach(e, o).violations)
  {
    hide RuleHolds, RunRule;
    var all := MapAll(c => Behind(e, c), cs);
    assert forall j | 0 <= j < |cs| :: all[j].rule == cs[j].rule && all[j].message == cs[j].message;
    if k < |cs| {
      var own := RunRule(cs[k].rule, cs[k].message, FAST).violations;
      RoutedTwice(e.value, cs[k].route.value, own);
    }
  }

  lemma RoutedTwice(e: PathElement, route: seq<PathElement>, own: seq<Violation>)
    ensures InField(e, MapAll((v: Violation) => Routed(route, v), own))
         == MapAll((v: Violation) => Routed([e] + route, v), own)
  {
    forall i | 0 <= i < |own| ensures [e] + (route + own[i].field) == [e] + route + own[i].field {
    }
  }

  /** A fail-fast run that succeeds reports the first check in the order of the traversal that
      does not hold, and nothing else. */
  lemma {:induction false} FastStopsFirst(lookup: Lookup, m: Message) returns (k: nat)
    requires Walk(lookup, m, FAST).status == Ok
    ensures StopsAtCheck(Checks(lookup, m), k, Walk(lookup, m, FAST).violations)
    decreases m, 2, 0
  {
    hide WalkRules, StopsAtCheck, Children;
    FieldsBelow(m.fields, m);
    var rules := RulesOf(lookup, m);
    assert rules[0..] == rules;
    ChildrenBelow(m);
    k := StopsInRules(lookup, m, rules, 0);
  }

  lemma {:induction false} StopsInRules(lookup: Lookup, m: Message, rules: seq<Rule>, i: nat) returns (k: nat)
    requires i <= |rules| && WalkRules(lookup, m, rules[i..], FAST).status == Ok
    ensures Below(Children(m), m)
    ensures StopsAtCheck(OwnChecks(m, rules[i..]) + ChildChecks(lookup, m, Children(m)), k,
                         WalkRules(lookup, m, rules[i..], FAST).violations)
    decreases m, 1, |rules| - i
  {
    hide RunRule, RuleHolds, WalkChildren, StopsAtCheck, Children, ChildChecks;
    ChildrenBelow(m);
    var later := ChildChecks(lookup, m, Children(m));
    if i == |rules| {
      k := StopsInChildren(lookup, m, Children(m));
      assert OwnChecks(m, rules[i..]) + later == later;
      assert rules[i..] == [];
    } else {
      var head := [Check(Some([]), rules[i], m)];
      assert rules[i..][0] == rules[i] && rules[i..][1..] == rules[i + 1..];
      assert OwnChecks(m, rules[i..]) + later == head + (OwnChecks(m, rules[i + 1..]) + later);
      OneCheck(rules[i], m);
      if RunRule(rules[i], m, FAST).violations != [] {
        k := 0;
        assert WalkRules(lookup, m, rules[i..], FAST) == RunRule(rules[i], m, FAST);
        StoppedInFront(head, OwnChecks(m, rules[i + 1..]) + later, 0, RunRule(rules[i], m, FAST).violations);
      } else {
        var rest := WalkRules(lookup, m, rules[i + 1..], FAST);
        assert [] + rest.violations == rest.violations;
        assert WalkRules(lookup, m, rules[i..], FAST).violations == rest.violations;
        var n := StopsInRules(lookup, m, rules, i + 1);
        Passed(head, OwnChecks(m, rules[i + 1..]) + later, n, WalkRules(lookup, m, rules[i + 1..], FAST).violations);
        k := 1 + n;
      }
    }
  }

  lemma OneCheck(rule: Rule, m: Message)
    requires RunRule(rule, m, FAST).status == Ok
    ensures var vs := RunRule(rule, m, FAST).violations;
      StopsAtCheck([Check(Some([]), rule, m)], if vs == [] then 1 else 0, vs)
  {
    hide RunRule, RuleHolds;
    RuleClean(rule, m, FAST);
    var vs := RunRule(rule, m, FAST).violations;
    forall i | 0 <= i < |vs| ensures Routed([], vs[i]) == vs[i] {
      assert [] + vs[i].field == vs[i].field;
    }
    assert MapAll((v: Violation) => Routed([], v), vs) == vs;
  }

  lemma {:induction false} StopsInChildren(lookup: Lookup, m: Message, cs: seq<Child>) returns (k: nat)
    requires Below(cs, m) && WalkChildren(lookup, m, cs, FAST).status == Ok
    ensures StopsAtCheck(ChildChecks(lookup, m, cs), k, WalkChildren(lookup, m, cs, FAST).violations)
    decreases m, 0, |cs|
  {
    hide Walk, Checks, RuleHolds, RunRule, Attach;
    if cs == [] {
      k := 0;
    } else {
      var e, x := cs[0].element, cs[0].message;
      var o := Walk(lookup, x, FAST);
      AttachStatus(e, o);
      var n := FastStopsFirst(lookup, x);
      StopsBehind(e, Checks(lookup, x), n, o);
      var head, tail := MapAll(c => Behind(e, c), Checks(lookup, x)), ChildChecks(lookup, m, cs[1..]);
      if Attach(e, o).violations != [] {
        StoppedInFront(head, tail, n, Attach(e, o).violations);
        k := n;
      } else {
        assert n == |head|;
        var later := StopsInChildren(lookup, m, cs[1..]);
        Passed(head, tail, later, WalkChildren(lookup, m, cs[1..], FAST).violations);
        k := n + later;
      }
    }
  }

  lemma AttachStatus(e: Option<PathElement>, o: Outcome)
    requires Attach(e, o).status == Ok
    ensures o.status == Ok
  {
  }

  /** A fail-fast run reports at most three violations. */
  lemma FastAtMostThree(lookup: Lookup, m: Message)
    requires Walk(lookup, m, FAST).status == Ok
    ensures |Walk(lookup, m, FAST).violations| <= 3
  {
    hide RuleHolds, RunRule, Walk, Checks;
    var k := FastStopsFirst(lookup, m);
    var cs := Checks(lookup, m);
    if k < |cs| {
      RuleAtMost(cs[k].rule, cs[k].message, false);
    }
  }
}
