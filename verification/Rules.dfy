/** The rule objects' Validate methods, which append to the shared context and edit it from an
    index on, proved against the root-first specification. */
module Rules {
  import opened Wrappers
  import opened Proto
  import opened Violations
  import opened RuleSpec

  /** The call returned the status of `o` and added its violations, leaf first, leaving the
      earlier ones alone. */
  ghost predicate Adds(was: seq<Violation>, now: seq<Violation>, status: Status, o: Outcome)
  {
    status == o.status && now == was + TurnAll(o.violations)
  }

  function ModeOf(failFast: bool, was: seq<Violation>): Mode { Mode(failFast, failFast && was != []) }

  lemma ThenAssociative(a: Outcome, b: Outcome, c: Outcome)
    ensures Then(Then(a, b), c) == Then(a, Then(b, c))
    ensures Then(NOTHING, a) == a
  {
    assert a.violations + b.violations + c.violations == a.violations + (b.violations + c.violations);
    assert [] + a.violations == a.violations;
  }

  lemma AddsNothing(was: seq<Violation>)
    ensures Adds(was, was, Ok, NOTHING)
  {
    assert was + [] == was;
  }

  /** Two calls in a row add the violations of both. */
  lemma AddsThen(was: seq<Violation>, mid: seq<Violation>, now: seq<Violation>, s1: Status, s2: Status, a: Outcome,
      b: Outcome)
    requires Adds(was, mid, s1, a) && Adds(mid, now, s2, b)
    ensures Adds(was, now, s2, Then(a, b))
  {
    TurnConcat(a.violations, b.violations);
  }

  lemma AddsOne(was: seq<Violation>, v: Violation, o: Outcome)
    requires o == Outcome(Ok, [Turn(v)])
    ensures Adds(was, was + [v], Ok, o)
  {
    TurnTwice([v]);
  }

  /** Whether to stop is the same question asked of the context and of the outcome. */
  lemma StopsAgree(was: seq<Violation>, now: seq<Violation>, status: Status, o: Outcome, failFast: bool)
    requires Adds(was, now, status, o)
    ensures ModeOf(failFast, was).Stops(o) <==> status != Ok || (failFast && now != [])
    ensures ModeOf(failFast, was).After(o) == ModeOf(failFast, now)
    ensures was <= now && |now| - |was| == |o.violations|
  {
  }

  /** Editing the added violations from their first index on. */
  lemma AddsEdited(was: seq<Violation>, vs: seq<Violation>, f: Violation -> Violation, g: Violation -> Violation)
    requires MapAll(f, TurnAll(vs)) == TurnAll(MapAll(g, vs))
    ensures From(was + TurnAll(vs), |was|, f) == was + TurnAll(MapAll(g, vs))
  {
    assert (was + TurnAll(vs))[|was|..] == TurnAll(vs);
    assert (was + TurnAll(vs))[..|was|] == was;
  }

  // ---------------------------------------------------------------- CEL rules

  /** Appends the violation of one expression, its rule path as stored. */
  method ProcessRule(ctx: RuleContext, expr: CompiledRule, t: CelThis) returns (status: Status)
    modifies ctx
    ensures Adds(old(ctx.violations), ctx.violations, status, RunProcess(expr, t))
  {
    AddsNothing(ctx.violations);
    var path := if expr.rulePath.Some? then expr.rulePath.value else [];
    ReverseTwice(path);
    match expr.eval(t) {
      case BoolResult(b) =>
        if !b {
          var v := Violation(expr.id, DefaultMessage(expr), [], path, false, None, None);
          AddsOne(ctx.violations, v, RunProcess(expr, t));
          ctx.violations := ctx.violations + [v];
        }
        return Ok;
      case StringResult(s) =>
        if s != "" {
          var v := Violation(expr.id, s, [], path, false, None, None);
          AddsOne(ctx.violations, v, RunProcess(expr, t));
          ctx.violations := ctx.violations + [v];
        }
        return Ok;
      case EvalFailed(failure) => return failure.AsStatus();
      case ErrorResult(reason) => return Error(InvalidArgument, reason);
      case OtherResult => return Error(InvalidArgument, "invalid result type");
    }
  }

  method ValidateCel(ctx: RuleContext, c: CelRules, t: CelThis) returns (status: Status)
    modifies ctx
    ensures Adds(old(ctx.violations), ctx.violations, status, RunCel(c, t, ModeOf(ctx.failFast, old(ctx.violations))))
  {
    hide RunExpr, RunProcess, Adds;
    ghost var was, done := ctx.violations, NOTHING;
    ghost var mode := ModeOf(ctx.failFast, was);
    status := Ok;
    AddsNothing(was);
    ThenAssociative(RunCel(c, t, mode), NOTHING, NOTHING);
    for i := 0 to |c.exprs|
      invariant status == Ok && Adds(was, ctx.violations, Ok, done) && done.status == Ok
      invariant ctx.failFast ==> done.violations == []
      invariant RunCel(c, t, mode) == Then(done, RunExprs(c, c.exprs[i..], t, mode))
    {
      ghost var mid := ctx.violations;
      ghost var o := RunExpr(c, c.exprs[i], t);
      assert c.exprs[i..][1..] == c.exprs[i + 1..];
      var pos := |ctx.violations|;
      var rule := RuleField(c, c.exprs[i]);
      status := ProcessRule(ctx, c.exprs[i], t);
      RuleValueEdit(c, c.exprs[i], t, mid, ctx.violations, status);
      if rule.Some? && |ctx.violations| > pos {
        ctx.SetRuleValue(rule.value, pos);
      }
      StopsAgree(was, mid, Ok, done, ctx.failFast);
      StopsAgree(mid, ctx.violations, status, o, ctx.failFast);
      AddsThen(was, mid, ctx.violations, Ok, status, done, o);
      AddsStatus(mid, ctx.violations, status, o);
      if ctx.ShouldReturn(status) {
        break;
      }
      ThenAssociative(done, o, RunExprs(c, c.exprs[i + 1..], t, mode));
      done := Then(done, o);
    }
    EndOfExprs(c, t, mode, done);
  }

  /** What setting the rule value from `mid` on makes of an expression's violations. */
  lemma RuleValueEdit(c: CelRules, expr: CompiledRule, t: CelThis, mid: seq<Violation>, now: seq<Violation>,
      status: Status)
    requires Adds(mid, now, status, RunProcess(expr, t))
    ensures |mid| <= |now|
    ensures Adds(mid,
                 if RuleField(c, expr).Some? && |now| > |mid|
                 then From(now, |mid|, RuleValueSet(RuleField(c, expr).value)) else now,
                 status, RunExpr(c, expr, t))
  {
    hide RunProcess;
    var vs := RunProcess(expr, t).violations;
    if RuleField(c, expr).Some? {
      var edit := RuleValueSet(RuleField(c, expr).value);
      TurnKept(edit, vs);
      AddsEdited(mid, vs, edit, edit);
      if vs == [] {
        assert MapAll(edit, vs) == [];
      }
    }
  }

  lemma AddsStatus(was: seq<Violation>, now: seq<Violation>, status: Status, o: Outcome)
    requires Adds(was, now, status, o)
    ensures status == o.status
  {
  }

  lemma EndOfExprs(c: CelRules, t: CelThis, mode: Mode, done: Outcome)
    ensures done.status == Ok ==> Then(done, RunExprs(c, [], t, mode)) == done
  {
    assert done.violations + [] == done.violations;
  }

  // ---------------------------------------------------------------- field rules

  method EmitRequired(ctx: RuleContext, f: FieldRules, m: Message)
    modifies ctx
    ensures Adds(old(ctx.violations), ctx.violations, Ok, Outcome(Ok, [RequiredViolation(f, m)]))
  {
    var violation := Violation("required", "value is required", [FieldElement(f.field)], [RuleElement("required")],
                               false, Some(ProtoField(m, f.field, -1)),
                               Some(ProtoField(f.source, f.refs.required, -1)));
    TurnShort(violation);
    AddsOne(ctx.violations, violation, Outcome(Ok, [RequiredViolation(f, m)]));
    ctx.violations := ctx.violations + [violation];
  }

  lemma ReverseShort<T>(s: seq<T>)
    ensures |s| <= 1 ==> Reverse(s) == s
    ensures |s| == 2 ==> Reverse(s) == [s[1], s[0]]
  {
    if |s| == 1 {
      assert s[1..] == [];
    } else if |s| == 2 {
      assert s[1..] == [s[1]] && s[1..][1..] == [];
      assert Reverse(s[1..]) == [s[1]];
    }
  }

  lemma TurnShort(v: Violation)
    requires |v.field| <= 1 && |v.rule| <= 1
    ensures Turn(v) == v
  {
    ReverseShort(v.field);
    ReverseShort(v.rule);
  }

  method EmitAny(ctx: RuleContext, f: FieldRules, at: ProtoField, id: string, message: string, rule: string,
      ref: FieldDescriptor)
    modifies ctx
    ensures Adds(old(ctx.violations), ctx.violations, Ok, Outcome(Ok, [AnyViolation(f, at, id, message, rule, ref)]))
  {
    var violation := Violation(id, message, if at.index == -1 then [FieldElement(at.field)] else [],
                               [RuleElement(rule), RuleElement("any")], false, Some(at),
                               Some(ProtoField(f.source, ref, -1)));
    ReverseShort(violation.field);
    ReverseShort(violation.rule);
    AddsOne(ctx.violations, violation, Outcome(Ok, [AnyViolation(f, at, id, message, rule, ref)]));
    ctx.violations := ctx.violations + [violation];
  }

  method ValidateAny(ctx: RuleContext, f: FieldRules, any: AnyRules, at: ProtoField, anyMsg: Value)
      returns (status: Status)
    modifies ctx
    ensures Adds(old(ctx.violations), ctx.violations, status, RunAny(f, any, at, anyMsg))
  {
    hide AnyViolation, Adds;
    ghost var was, done := ctx.violations, NOTHING;
    AddsNothing(was);
    NoOutcome(was);
    var typeUriField := TypeUrlField(anyMsg);
    if typeUriField.None? || typeUriField.value.fieldType != TypeString {
      return Error(InvalidArgument, "expected Any");
    }
    var typeUri := TypeUrl(anyMsg.m, typeUriField.value);
    if |any.allowed| > 0 {
      var found := false;
      for i := 0 to |any.allowed|
        invariant !found && forall k | 0 <= k < i :: any.allowed[k] != typeUri
      {
        if any.allowed[i] == typeUri {
          found := true;
          break;
        }
      }
      if !found {
        EmitAny(ctx, f, at, "any.in", "type URL must be in the allow list", "in", f.refs.anyIn);
        done := Outcome(Ok, [AnyViolation(f, at, "any.in", "type URL must be in the allow list", "in", f.refs.anyIn)]);
      }
    }
    ghost var mid, blocked := ctx.violations, NOTHING;
    AddsNothing(mid);
    for i := 0 to |any.blocked|
      invariant ctx.violations == mid && blocked == NOTHING && forall k | 0 <= k < i :: any.blocked[k] != typeUri
    {
      if any.blocked[i] == typeUri {
        EmitAny(ctx, f, at, "any.not_in", "type URL must not be in the block list", "not_in", f.refs.anyNotIn);
        blocked := Outcome(Ok, [AnyViolation(f, at, "any.not_in", "type URL must not be in the block list", "not_in",
            f.refs.anyNotIn)]);
        break;
      }
    }
    AddsThen(was, mid, ctx.violations, Ok, Ok, done, blocked);
    return Ok;
  }

  lemma NoOutcome(was: seq<Violation>)
    ensures forall s: Status :: Adds(was, was, s, Outcome(s, []))
  {
    assert was + [] == was;
  }

  /** Validates the value of a field and places its violations under the field. */
  method ValidateFieldCel(ctx: RuleContext, f: FieldRules, m: Message, t: CelThis) returns (status: Status)
    modifies ctx
    ensures Adds(old(ctx.violations), ctx.violations, status,
        RunFieldCel(f, m, t, ModeOf(ctx.failFast, old(ctx.violations))))
  {
    hide RunCel;
    ghost var was := ctx.violations;
    ghost var o := RunCel(f.cel, t, ModeOf(ctx.failFast, was));
    var pos := |ctx.violations|;
    status := ValidateCel(ctx, f.cel, t);
    if status != Ok {
      return;
    }
    ghost var at := ProtoField(m, f.field, -1);
    if |ctx.violations| > pos {
      // The path is appended first and the value set second; neither sees the other.
      var element := FieldElement(f.field);
      TurnPrefixed(element, o.violations);
      AddsEdited(was, o.violations, Appended(element), Prefixed(element));
      ctx.AppendFieldPathElement(element, pos);
      TurnKept(ValueSet(at), InField(element, o.violations));
      AddsEdited(was, InField(element, o.violations), ValueSet(at), ValueSet(at));
      ctx.SetFieldValue(ProtoField(m, f.field, -1), pos);
      FieldThenValue(element, at, o.violations);
    } else {
      assert o.violations == [];
    }
  }

  lemma FieldThenValue(e: PathElement, at: ProtoField, vs: seq<Violation>)
    ensures At(at, InField(e, vs)) == InField(e, At(at, vs))
  {
  }

  method ValidateField(ctx: RuleContext, f: FieldRules, m: Message) returns (status: Status)
    modifies ctx
    ensures Adds(old(ctx.violations), ctx.violations, status, RunField(f, m, ModeOf(ctx.failFast, old(ctx.violations))))
  {
    hide RunFieldCel, RequiredViolation, RunAny, Adds;
    ghost var was := ctx.violations;
    AddsNothing(was);
    if f.field.shape.MapOf? {
      var entries := EntriesOf(m, f.field);
      if |entries| == 0 {
        if f.IgnoreEmpty() {
          return Ok;
        } else if f.required {
          EmitRequired(ctx, f, m);
          return Ok;
        }
      }
      status := ValidateFieldCel(ctx, f, m, MapThis(entries));
    } else if f.field.shape.Repeated? {
      var items := ItemsOf(m, f.field);
      if |items| == 0 {
        if f.IgnoreEmpty() {
          return Ok;
        } else if f.required {
          EmitRequired(ctx, f, m);
          return Ok;
        }
      }
      status := ValidateFieldCel(ctx, f, m, ListThis(items));
    } else {
      if !HasField(m, f.field) {
        if f.required {
          EmitRequired(ctx, f, m);
          return Ok;
        } else if f.IgnoreEmpty() {
          return Ok;
        }
      }
      var v := SingleOf(m, f.field);
      ghost var any := NOTHING;
      if f.anyRules.Some? && f.field.IsMessage() {
        status := ValidateAny(ctx, f, f.anyRules.value, ProtoField(m, f.field, -1), v);
        any := RunAny(f, f.anyRules.value, ProtoField(m, f.field, -1), v);
        AddsStatus(was, ctx.violations, status, any);
        if status != Ok {
          return;
        }
      }
      ghost var mid := ctx.violations;
      StopsAgree(was, mid, Ok, any, ctx.failFast);
      if f.readFailure(m).Some? {
        status := f.readFailure(m).value.AsStatus();
        NoOutcome(mid);
        AddsThen(was, mid, ctx.violations, Ok, status, any, Outcome(status, []));
        return;
      }
      status := ValidateFieldCel(ctx, f, m, ValueThis(v));
      AddsThen(was, mid, ctx.violations, Ok, status, any,
               RunFieldCel(f, m, ValueThis(v), ModeOf(ctx.failFast, was).After(any)));
    }
  }

  method ValidateEnum(ctx: RuleContext, f: FieldRules, definedOnly: bool, m: Message) returns (status: Status)
    modifies ctx
    ensures Adds(old(ctx.violations), ctx.violations, status,
        RunEnum(f, definedOnly, m, ModeOf(ctx.failFast, old(ctx.violations))))
  {
    hide RunField, Adds;
    ghost var was, mode := ctx.violations, ModeOf(ctx.failFast, ctx.violations);
    ghost var base := RunField(f, m, mode);
    status := ValidateField(ctx, f, m);
    StopsAgree(was, ctx.violations, status, base, ctx.failFast);
    AddsStatus(was, ctx.violations, status, base);
    if ctx.ShouldReturn(status) {
      return;
    }
    ghost var mid := ctx.violations;
    AddsNothing(mid);
    AddsThen(was, mid, mid, Ok, Ok, base, NOTHING);
    var value := SingleOf(m, f.field);
    var n := if value.IntValue? then value.i else 0;
    if definedOnly && n !in f.field.enumValues {
      var violation := Violation("enum.defined_only", "value must be one of the defined enum values",
                                 [FieldElement(f.field)], [RuleElement("defined_only"), RuleElement("enum")], false,
                                 Some(ProtoField(m, f.field, -1)), Some(ProtoField(f.source, f.refs.definedOnly, -1)));
      ReverseShort(violation.field);
      ReverseShort(violation.rule);
      ghost var o := Outcome(Ok, [Turn(violation)]);
      AddsOne(mid, violation, o);
      ctx.violations := ctx.violations + [violation];
      AddsThen(was, mid, ctx.violations, Ok, Ok, base, o);
    }
    return Ok;
  }

  // ---------------------------------------------------------------- repeated fields

  /** The edits of one item: field path, rule path, field value, all from `pos` on. */
  lemma ItemEdits(was: seq<Violation>, vs: seq<Violation>, e: PathElement, es: seq<PathElement>, at: ProtoField)
    ensures |From(was + TurnAll(vs), |was|, Appended(e))| == |was| + |vs|
    ensures |From(From(was + TurnAll(vs), |was|, Appended(e)), |was|, RuleAppended(Reverse(es)))| == |was| + |vs|
    ensures From(From(From(was + TurnAll(vs), |was|, Appended(e)), |was|, RuleAppended(Reverse(es))), |was|,
        ValueSet(at))
         == was + TurnAll(InField(e, InRule(es, At(at, vs))))
  {
    TurnPrefixed(e, vs);
    AddsEdited(was, vs, Appended(e), Prefixed(e));
    var v1 := InField(e, vs);
    TurnRulePrefixed(es, v1);
    AddsEdited(was, v1, RuleAppended(Reverse(es)), RulePrefixed(es));
    var v2 := InRule(es, v1);
    TurnKept(ValueSet(at), v2);
    AddsEdited(was, v2, ValueSet(at), ValueSet(at));
    assert At(at, v2) == InField(e, InRule(es, At(at, vs)));
  }

  method ValidateItem(ctx: RuleContext, f: FieldRules, item: FieldRules, m: Message, v: Value, i: nat)
    returns (status: Status)
    modifies ctx
    ensures Adds(old(ctx.violations), ctx.violations, status,
        RunItem(f, item, m, v, i, ModeOf(ctx.failFast, old(ctx.violations))))
  {
    hide RunCel, RunAny, InField, InRule, At, Appended, RuleAppended, ValueSet, From, TurnAll;
    ghost var was := ctx.violations;
    ghost var o := RunCel(item.cel, ValueThis(v), ModeOf(ctx.failFast, was));
    var pos := |ctx.violations|;
    status := ValidateCel(ctx, item.cel, ValueThis(v));
    if item.anyRules.Some? {
      ghost var mid, any := ctx.violations, RunAny(item, item.anyRules.value, ProtoField(m, f.field, i), v);
      ghost var celStatus := status;
      status := ValidateAny(ctx, item, item.anyRules.value, ProtoField(m, f.field, i), v);
      AddsThen(was, mid, ctx.violations, celStatus, status, o, any);
      o := Then(o, any);
    }
    var element := FieldElement(f.field).(subscript := Index(i));
    ghost var at := ProtoField(m, f.field, i);
    ItemEdits(was, o.violations, element, ITEMS, at);
    if |ctx.violations| > pos {
      ReverseShort(ITEMS);
      ctx.AppendFieldPathElement(element, pos);
      ctx.AppendRulePathElement([RuleElement("items"), RuleElement("repeated")], pos);
      ctx.SetFieldValue(ProtoField(m, f.field, i), pos);
    } else {
      NoItemViolations(element, ITEMS, at, o.violations, was);
    }
  }

  lemma NoItemViolations(e: PathElement, es: seq<PathElement>, at: ProtoField, vs: seq<Violation>, was: seq<Violation>)
    requires |was + TurnAll(vs)| <= |was|
    ensures vs == [] && InField(e, InRule(es, At(at, vs))) == []
  {
  }

  method ValidateRepeated(ctx: RuleContext, f: FieldRules, item: Option<FieldRules>, m: Message)
      returns (status: Status)
    modifies ctx
    ensures Adds(old(ctx.violations), ctx.violations, status,
        RunRepeated(f, item, m, ModeOf(ctx.failFast, old(ctx.violations))))
  {
    hide RunField, RunItem, Adds, ItemsOf, IsEmptyItem;
    ghost var was, mode := ctx.violations, ModeOf(ctx.failFast, ctx.violations);
    ghost var base := RunField(f, m, mode);
    status := ValidateField(ctx, f, m);
    StopsAgree(was, ctx.violations, status, base, ctx.failFast);
    AddsStatus(was, ctx.violations, status, base);
    if ctx.ShouldReturn(status) || item.None? {
      return;
    }
    var list := ItemsOf(m, f.field);
    ghost var done, first := NOTHING, ctx.violations;
    ghost var inner := mode.After(base);
    ghost var all := RunItems(f, item.value, m, list, 0, inner);
    AddsNothing(first);
    ThenAssociative(all, NOTHING, NOTHING);
    for i := 0 to |list|
      invariant Adds(first, ctx.violations, Ok, done) && done.status == Ok
      invariant ctx.failFast ==> done.violations == []
      invariant all == Then(done, RunItems(f, item.value, m, list, i, inner))
    {
      if item.value.IgnoreEmpty() && IsEmptyItem(list[i]) {
        continue;
      }
      ghost var mid := ctx.violations;
      ghost var o := RunItem(f, item.value, m, list[i], i, inner);
      StopsAgree(first, mid, Ok, done, ctx.failFast);
      status := ValidateItem(ctx, f, item.value, m, list[i], i);
      StopsAgree(mid, ctx.violations, status, o, ctx.failFast);
      AddsStatus(mid, ctx.violations, status, o);
      AddsThen(first, mid, ctx.violations, Ok, status, done, o);
      if ctx.ShouldReturn(status) {
        AddsThen(was, first, ctx.violations, Ok, status, base, Then(done, o));
        return;
      }
      ThenAssociative(done, o, RunItems(f, item.value, m, list, i + 1, inner));
      done := Then(done, o);
    }
    EndOfRun(done);
    AddsThen(was, first, ctx.violations, Ok, Ok, base, done);
    return Ok;
  }

  lemma EndOfRun(done: Outcome)
    requires done.status == Ok
    ensures Then(done, NOTHING) == done
  {
    assert done.violations + [] == done.violations;
  }

  // ---------------------------------------------------------------- map fields

  /** Key violations: rule path, field value and key flag from `pos` on. */
  lemma KeyEdits(was: seq<Violation>, ks: seq<Violation>, at: ProtoField)
    ensures |From(was + TurnAll(ks), |was|, RuleAppended(Reverse(KEYS)))| == |was| + |ks|
    ensures |From(From(was + TurnAll(ks), |was|, RuleAppended(Reverse(KEYS))), |was|, ValueSet(at))| == |was| + |ks|
    ensures From(From(From(was + TurnAll(ks), |was|, RuleAppended(Reverse(KEYS))), |was|, ValueSet(at)), |was|,
        KeySet())
         == was + TurnAll(MapAll(KeySet(), InRule(KEYS, At(at, ks))))
  {
    TurnRulePrefixed(KEYS, ks);
    AddsEdited(was, ks, RuleAppended(Reverse(KEYS)), RulePrefixed(KEYS));
    var v1 := InRule(KEYS, ks);
    TurnKept(ValueSet(at), v1);
    AddsEdited(was, v1, ValueSet(at), ValueSet(at));
    var v2 := At(at, v1);
    TurnKept(KeySet(), v2);
    AddsEdited(was, v2, KeySet(), KeySet());
    assert v2 == InRule(KEYS, At(at, ks));
  }

  /** Value violations: rule path from their first index, field value from the entry's. */
  lemma ValueEdits(was: seq<Violation>, keyed: seq<Violation>, vs: seq<Violation>, at: ProtoField)
    ensures var mid := was + TurnAll(keyed);
      && |From(mid + TurnAll(vs), |mid|, RuleAppended(Reverse(VALUES)))| == |was| + |keyed| + |vs|
      && From(From(mid + TurnAll(vs), |mid|, RuleAppended(Reverse(VALUES))), |was|, ValueSet(at))
         == was + TurnAll(At(at, keyed + InRule(VALUES, vs)))
  {
    hide TurnAll, Turn, From;
    var mid := was + TurnAll(keyed);
    TurnRulePrefixed(VALUES, vs);
    AddsEdited(mid, vs, RuleAppended(Reverse(VALUES)), RulePrefixed(VALUES));
    var all := keyed + InRule(VALUES, vs);
    TurnConcat(keyed, InRule(VALUES, vs));
    ValueSetKept(at);
    assert mid + TurnAll(InRule(VALUES, vs)) == was + TurnAll(all);
    TurnKept(ValueSet(at), all);
    AddsEdited(was, all, ValueSet(at), ValueSet(at));
  }

  lemma ValueSetKept(at: ProtoField)
    ensures forall v: Violation :: ValueSet(at)(Turn(v)) == Turn(ValueSet(at)(v))
  {
  }

  /** activation.InsertValue("this", v) and ValidateCel, unless the side is skipped. */
  method ValidateSide(ctx: RuleContext, side: Option<FieldRules>, v: Value) returns (status: Status)
    modifies ctx
    ensures Adds(old(ctx.violations), ctx.violations, status,
        RunSide(side, v, ModeOf(ctx.failFast, old(ctx.violations))))
  {
    hide RunCel;
    AddsNothing(ctx.violations);
    status := Ok;
    if side.Some? {
      if !side.value.IgnoreEmpty() || !IsEmptyItem(v) {
        status := ValidateCel(ctx, side.value.cel, ValueThis(v));
      }
    }
  }

  method ValidateEntry(ctx: RuleContext, f: FieldRules, key: Option<FieldRules>, value: Option<FieldRules>, e: Entry)
    returns (status: Status)
    requires f.field.shape.MapOf?
    modifies ctx
    ensures Adds(old(ctx.violations), ctx.violations, status,
        RunEntry(f, key, value, e, ModeOf(ctx.failFast, old(ctx.violations))))
  {
    hide RunSide, InField, InRule, At, Appended, RuleAppended, ValueSet, KeySet, From, TurnAll, WithMapKey,
        EntryMessage;
    ghost var was, mode := ctx.violations, ModeOf(ctx.failFast, ctx.violations);
    var pos := |ctx.violations|;
    var elemMsg := EntryMessage(f, e);
    var keyField, valueField := f.field.shape.key, f.field.shape.value;
    ghost var k := RunSide(key, e.key, mode);
    status := ValidateSide(ctx, key, e.key);
    StopsAgree(was, ctx.violations, status, k, ctx.failFast);
    if status != Ok {
      return;
    }
    ghost var keyed := EntryViolations(f, e, k.violations, []);
    KeyEdits(was, k.violations, ProtoField(elemMsg, keyField, -1));
    if |ctx.violations| > pos {
      ReverseShort(KEYS);
      ctx.AppendRulePathElement([RuleElement("keys"), RuleElement("map")], pos);
      ctx.SetFieldValue(ProtoField(elemMsg, keyField, -1), pos);
      ctx.SetForKey(pos);
    } else {
      NoKeyViolations(ProtoField(elemMsg, keyField, -1), k.violations, was);
    }
    ghost var mid := ctx.violations;
    KeyedMode(f, e, k, was, mid, ctx.failFast);
    ghost var v := RunSide(value, e.found, mode.After(k));
    var valuePos := |ctx.violations|;
    status := ValidateSide(ctx, value, e.found);
    if status != Ok {
      AddsThen(was, mid, ctx.violations, Ok, status, Outcome(Ok, keyed), v);
      return;
    }
    ghost var all := EntryViolations(f, e, k.violations, v.violations);
    ValueEdits(was, keyed, v.violations, ProtoField(elemMsg, valueField, -1));
    StopsAgree(mid, ctx.violations, status, v, ctx.failFast);
    if |ctx.violations| > valuePos {
      ReverseShort(VALUES);
      ctx.AppendRulePathElement([RuleElement("values"), RuleElement("map")], valuePos);
      ctx.SetFieldValue(ProtoField(elemMsg, valueField, -1), pos);
    }
    assert ctx.violations == was + TurnAll(all);
    EntrySize(was, all);
    if |ctx.violations| > pos {
      var element := WithMapKey(FieldElement(f.field), keyField, valueField, e.key);
      if element.None? {
        return Error(Internal, "unexpected map key type");
      }
      TurnPrefixed(element.value, all);
      PrefixEdit(was, element.value, all);
      ctx.AppendFieldPathElement(element.value, pos);
    }
    return Ok;
  }

  lemma PrefixEdit(was: seq<Violation>, e: PathElement, vs: seq<Violation>)
    ensures |was| <= |was + TurnAll(vs)|
    ensures From(was + TurnAll(vs), |was|, Appended(e)) == was + TurnAll(InField(e, vs))
  {
    TurnPrefixed(e, vs);
    AddsEdited(was, vs, Appended(e), Prefixed(e));
  }

  lemma EntrySize(was: seq<Violation>, vs: seq<Violation>)
    ensures |was + TurnAll(vs)| == |was| + |vs|
    ensures vs == [] ==> TurnAll(vs) == []
  {
  }

  lemma NoKeyViolations(at: ProtoField, ks: seq<Violation>, was: seq<Violation>)
    requires |was + TurnAll(ks)| <= |was|
    ensures ks == [] && MapAll(KeySet(), InRule(KEYS, At(at, ks))) == []
  {
  }

  lemma KeyedMode(f: FieldRules, e: Entry, k: Outcome, was: seq<Violation>, mid: seq<Violation>, failFast: bool)
    requires f.field.shape.MapOf? && mid == was + TurnAll(EntryViolations(f, e, k.violations, []))
    ensures ModeOf(failFast, was).After(k) == ModeOf(failFast, mid)
    ensures |EntryViolations(f, e, k.violations, [])| == |k.violations|
  {
  }

  method ValidateMap(ctx: RuleContext, f: FieldRules, key: Option<FieldRules>, value: Option<FieldRules>, m: Message)
    returns (status: Status)
    modifies ctx
    ensures Adds(old(ctx.violations), ctx.violations, status,
        RunMap(f, key, value, m, ModeOf(ctx.failFast, old(ctx.violations))))
  {
    hide RunField, RunEntry, Adds, EntriesOf;
    ghost var was, mode := ctx.violations, ModeOf(ctx.failFast, ctx.violations);
    ghost var base := RunField(f, m, mode);
    status := ValidateField(ctx, f, m);
    StopsAgree(was, ctx.violations, status, base, ctx.failFast);
    AddsStatus(was, ctx.violations, status, base);
    if status != Ok || (key.None? && value.None?) || !f.field.shape.MapOf? {
      return;
    }
    if f.readFailure(m).Some? {
      status := f.readFailure(m).value.AsStatus();
      NoOutcome(ctx.violations);
      AddsThen(was, ctx.violations, ctx.violations, Ok, status, base, Outcome(status, []));
      return;
    }
    var entries := EntriesOf(m, f.field);
    ghost var done, first := NOTHING, ctx.violations;
    ghost var inner := mode.After(base);
    ghost var all := RunEntries(f, key, value, entries, inner);
    AddsNothing(first);
    ThenAssociative(all, NOTHING, NOTHING);
    for i := 0 to |entries|
      invariant Adds(first, ctx.violations, Ok, done) && done.status == Ok
      invariant ctx.failFast ==> done.violations == []
      invariant all == Then(done, RunEntries(f, key, value, entries[i..], inner))
    {
      ghost var mid := ctx.violations;
      var pos := |ctx.violations|;
      ghost var o := RunEntry(f, key, value, entries[i], inner);
      assert entries[i..][0] == entries[i] && entries[i..][1..] == entries[i + 1..];
      StopsAgree(first, mid, Ok, done, ctx.failFast);
      status := ValidateEntry(ctx, f, key, value, entries[i]);
      StopsAgree(mid, ctx.violations, status, o, ctx.failFast);
      AddsStatus(mid, ctx.violations, status, o);
      AddsThen(first, mid, ctx.violations, Ok, status, done, o);
      if status != Ok || (|ctx.violations| > pos && ctx.failFast) {
        AddsThen(was, first, ctx.violations, Ok, status, base, Then(done, o));
        return;
      }
      ThenAssociative(done, o, RunEntries(f, key, value, entries[i + 1..], inner));
      done := Then(done, o);
    }
    assert entries[|entries|..] == [];
    EndOfRun(done);
    AddsThen(was, first, ctx.violations, Ok, Ok, base, done);
    return Ok;
  }

  // ---------------------------------------------------------------- message rules

  method ValidateOneof(ctx: RuleContext, oneof: string, members: seq<FieldDescriptor>, required: bool, m: Message)
    returns (status: Status)
    modifies ctx
    ensures Adds(old(ctx.violations), ctx.violations, status, RunOneof(oneof, members, required, m))
  {
    AddsNothing(ctx.violations);
    if required {
      if CountSet(m, members) == 0 {
        var violation := Plain("required", "exactly one field is required in oneof", [OneofElement(oneof)]);
        TurnShort(violation);
        AddsOne(ctx.violations, violation, RunOneof(oneof, members, required, m));
        ctx.violations := ctx.violations + [violation];
      }
    }
    return Ok;
  }

  method ValidateMessageOneof(ctx: RuleContext, members: seq<FieldDescriptor>, required: bool, m: Message)
    returns (status: Status)
    modifies ctx
    ensures Adds(old(ctx.violations), ctx.violations, status, RunMessageOneof(members, required, m))
  {
    AddsNothing(ctx.violations);
    var count := 0;
    for i := 0 to |members|
      invariant count + CountSet(m, members[i..]) == CountSet(m, members)
    {
      assert members[i..][0] == members[i] && members[i..][1..] == members[i + 1..];
      if HasField(m, members[i]) {
        count := count + 1;
      }
    }
    if count > 1 {
      var violation := Plain("message.oneof", "only one of " + JoinNames(members) + " can be set", []);
      TurnShort(violation);
      AddsOne(ctx.violations, violation, RunMessageOneof(members, required, m));
      ctx.violations := ctx.violations + [violation];
    }
    if required && count == 0 {
      var violation := Plain("message.oneof", "one of " + JoinNames(members) + " must be set", []);
      TurnShort(violation);
      AddsOne(ctx.violations, violation, RunMessageOneof(members, required, m));
      ctx.violations := ctx.violations + [violation];
    }
    return Ok;
  }

  /** rule->Validate(ctx, message) */
  method Validate(ctx: RuleContext, rule: Rule, m: Message) returns (status: Status)
    modifies ctx
    ensures Adds(old(ctx.violations), ctx.violations, status,
        RunRule(rule, m, ModeOf(ctx.failFast, old(ctx.violations))))
  {
    hide Adds, RunCel, RunField, RunEnum, RunRepeated, RunMap, RunOneof, RunMessageOneof;
    match rule {
      case MessageRule(cel) => status := ValidateCel(ctx, cel, MessageThis(m));
      case FieldRule(f) => status := ValidateField(ctx, f, m);
      case EnumRule(f, definedOnly) => status := ValidateEnum(ctx, f, definedOnly, m);
      case RepeatedRule(f, item) => status := ValidateRepeated(ctx, f, item, m);
      case MapRule(f, key, value) => status := ValidateMap(ctx, f, key, value, m);
      case OneofRule(oneof, members, required) => status := ValidateOneof(ctx, oneof, members, required, m);
      case MessageOneofRule(members, required) => status := ValidateMessageOneof(ctx, members, required, m);
    }
  }
}
