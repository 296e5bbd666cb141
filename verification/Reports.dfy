/** What the rules report, said of their results: which expressions are evaluated, which
    violations come back in which order, and what each of them says. */
module Reports {
  import opened Wrappers
  import opened Proto
  import opened Violations
  import opened RuleSpec
  import opened Validity

  predicate Violates(r: CelResult) { r == BoolResult(false) || (r.StringResult? && r.s != "") }

  /** The status an erring result gives. */
  function ErrorOf(r: CelResult): Status
    requires Errs(r)
  {
    match r
    case EvalFailed(failure) => Error(Foreign(failure.number), failure.reason)
    case ErrorResult(reason) => Error(InvalidArgument, reason)
    case OtherResult => Error(InvalidArgument, "invalid result type")
  }

  lemma ResultCases(r: CelResult)
    ensures Passes(r) || Violates(r) || Errs(r)
    ensures !(Passes(r) && Violates(r)) && !(Passes(r) && Errs(r)) && !(Violates(r) && Errs(r))
  {
  }

  /** `path` is the stored path, turned around. */
  ghost predicate Turned<T>(path: seq<T>, stored: seq<T>)
  {
    |path| == |stored| && forall i | 0 <= i < |path| :: path[i] == stored[|stored| - 1 - i]
  }

  lemma {:induction false} ReverseTurns<T>(s: seq<T>)
    ensures Turned(Reverse(s), s)
  {
    if s != [] {
      ReverseTurns(s[1..]);
    }
  }

  /** `v` is what the expression reports for its result `r`. */
  ghost predicate Reported(c: CelRules, expr: CompiledRule, r: CelResult, v: Violation)
  {
    && v.ruleId == expr.id && v.field == [] && !v.forKey && v.fieldValue == None
    && (r.StringResult? ==> v.message == r.s)
    && (r.BoolResult? && expr.message != "" ==> v.message == expr.message)
    && (r.BoolResult? && expr.message == "" ==> v.message == "\"" + expr.expression + "\" returned false")
    && Turned(v.rule, match expr.rulePath case Some(path) => path case None => [])
    && match (c.rules, expr.ruleField)
       case (Some(m), Some(f)) => v.ruleValue == Some(ProtoField(m, f, -1))
       case _ => v.ruleValue == None
  }

  lemma ExprReports(c: CelRules, expr: CompiledRule, t: CelThis)
    ensures var r, o := expr.eval(t), RunExpr(c, expr, t);
      && (Passes(r) ==> o == Outcome(Ok, []))
      && (Violates(r) ==> o.status == Ok && |o.violations| == 1 && Reported(c, expr, r, o.violations[0]))
      && (Errs(r) ==> o == Outcome(ErrorOf(r), []))
  {
    if expr.rulePath.Some? {
      ReverseTurns(expr.rulePath.value);
    }
  }

  // ---------------------------------------------------------------- expressions

  /** The run stops behind a result: an error, or in fail-fast mode a violation, now or before. */
  predicate StopsAt(r: CelResult, mode: Mode) { Errs(r) || (mode.failFast && (mode.had || Violates(r))) }

  /** Of the expressions from `i` on exactly those before `n` are evaluated. */
  ghost predicate Evaluated(exprs: seq<CompiledRule>, t: CelThis, mode: Mode, i: nat, n: nat)
  {
    && i <= n <= |exprs| && (forall k: nat | i <= k && k + 1 < n :: !StopsAt(exprs[k].eval(t), mode))
    && (n < |exprs| ==> n > i && StopsAt(exprs[n - 1].eval(t), mode))
  }

  ghost predicate ViolatedAt(exprs: seq<CompiledRule>, t: CelThis, k: nat)
  {
    k < |exprs| && Violates(exprs[k].eval(t))
  }

  ghost predicate ReportedAt(c: CelRules, exprs: seq<CompiledRule>, t: CelThis, k: nat, v: Violation)
  {
    ViolatedAt(exprs, t, k) && Reported(c, exprs[k], exprs[k].eval(t), v)
  }

  /** `at` are the violated expressions from `i` up to `n`, in order, and `vs` their reports. */
  ghost predicate ReportsOf(c: CelRules, exprs: seq<CompiledRule>, t: CelThis, i: nat, n: nat, at: seq<nat>,
      vs: seq<Violation>)
  {
    && n <= |exprs| && |at| == |vs| && (forall a, b | 0 <= a < b < |at| :: at[a] < at[b])
    && (forall k | 0 <= k < |at| :: i <= at[k] < n && ReportedAt(c, exprs, t, at[k], vs[k]))
    && forall k: nat | i <= k < n && ViolatedAt(exprs, t, k) :: k in at
  }

  /** The expressions are evaluated up to the one that stops the run; each violated one among
      them gives one violation, in order, and an error of the last one is the status. */
  lemma ExprsExact(c: CelRules, exprs: seq<CompiledRule>, t: CelThis, mode: Mode) returns (n: nat, at: seq<nat>)
    ensures Evaluated(exprs, t, mode, 0, n) && ReportsOf(c, exprs, t, 0, n, at, RunExprs(c, exprs, t, mode).violations)
    ensures RunExprs(c, exprs, t, mode).status
         == if n > 0 && Errs(exprs[n - 1].eval(t)) then ErrorOf(exprs[n - 1].eval(t)) else Ok
  {
    assert exprs[0..] == exprs;
    n, at := ExprsFrom(c, exprs, t, mode, 0);
  }

  lemma {:induction false} ExprsFrom(c: CelRules, exprs: seq<CompiledRule>, t: CelThis, mode: Mode, i: nat)
    returns (n: nat, at: seq<nat>)
    requires i <= |exprs|
    ensures Evaluated(exprs, t, mode, i, n)
    ensures ReportsOf(c, exprs, t, i, n, at, RunExprs(c, exprs[i..], t, mode).violations)
    ensures RunExprs(c, exprs[i..], t, mode).status
         == if n > i && Errs(exprs[n - 1].eval(t)) then ErrorOf(exprs[n - 1].eval(t)) else Ok
    decreases |exprs| - i
  {
    hide RunExpr, Passes, Violates, Errs, Reported, ReportsOf;
    if i == |exprs| {
      n, at := i, [];
      assert ReportsOf(c, exprs, t, i, n, [], []) by { NoReports(c, exprs, t, i); }
    } else {
      var r, o := exprs[i].eval(t), RunExpr(c, exprs[i], t);
      assert exprs[i..][0] == exprs[i] && exprs[i..][1..] == exprs[i + 1..];
      ResultCases(r);
      ExprReports(c, exprs[i], t);
      if mode.Stops(o) {
        n := i + 1;
        NoReports(c, exprs, t, n);
        at := OneMore(c, exprs, t, i, n, [], o.violations, []);
        assert o.violations + [] == o.violations;
      } else {
        n, at := ExprsFrom(c, exprs, t, mode, i + 1);
        at := OneMore(c, exprs, t, i, n, at, o.violations, RunExprs(c, exprs[i + 1..], t, mode).violations);
      }
    }
  }

  lemma NoReports(c: CelRules, exprs: seq<CompiledRule>, t: CelThis, i: nat)
    requires i <= |exprs|
    ensures ReportsOf(c, exprs, t, i, i, [], [])
  {
  }

  lemma OneMore(c: CelRules, exprs: seq<CompiledRule>, t: CelThis, i: nat, n: nat, at: seq<nat>, head: seq<Violation>,
      vs: seq<Violation>)
    returns (all: seq<nat>)
    requires i < n && ReportsOf(c, exprs, t, i + 1, n, at, vs)
    requires if ViolatedAt(exprs, t, i) then |head| == 1 && ReportedAt(c, exprs, t, i, head[0]) else head == []
    ensures ReportsOf(c, exprs, t, i, n, all, head + vs)
  {
    hide ViolatedAt, ReportedAt;
    if head == [] {
      all := at;
      assert head + vs == vs;
    } else {
      all := [i] + at;
      var more := head + vs;
      forall k | 0 <= k < |all| ensures i <= all[k] < n && ReportedAt(c, exprs, t, all[k], more[k]) {
        if k > 0 {
          assert all[k] == at[k - 1] && more[k] == vs[k - 1];
        }
      }
      forall a, b | 0 <= a < b < |all| ensures all[a] < all[b] {
        assert all[b] == at[b - 1];
        if a > 0 {
          assert all[a] == at[a - 1];
        }
      }
      forall k: nat | i <= k < n && ViolatedAt(exprs, t, k) ensures k in all {
        if k > i {
          assert k in at;
        } else {
          assert all[0] == k;
        }
      }
    }
  }

  /** In fail-fast mode an expression list reports at most one violation, that of an expression
      before which all pass. */
  lemma FastExprsOne(c: CelRules, exprs: seq<CompiledRule>, t: CelThis, had: bool)
    ensures var vs := RunExprs(c, exprs, t, Mode(true, had)).violations;
      && |vs| <= 1
      && (vs != [] ==> exists k: nat :: FirstReported(c, exprs, t, k, vs[0]))
  {
    hide RunExprs, Passes, Violates, Errs, Reported;
    var mode := Mode(true, had);
    var n, at := ExprsExact(c, exprs, t, mode);
    assert |at| > 1 ==> at[0] < at[1];
    forall k: nat | k + 1 < n ensures Passes(exprs[k].eval(t)) && !Violates(exprs[k].eval(t)) {
      ResultCases(exprs[k].eval(t));
      assert !StopsAt(exprs[k].eval(t), mode);
    }
    assert forall k | 0 <= k < |at| :: at[k] + 1 == n;
    if at != [] {
      assert FirstReported(c, exprs, t, n - 1, RunExprs(c, exprs, t, mode).violations[0]);
    }
  }

  ghost predicate FirstReported(c: CelRules, exprs: seq<CompiledRule>, t: CelThis, k: nat, v: Violation)
  {
    && k < |exprs| && (forall i | 0 <= i < k :: Passes(exprs[i].eval(t)))
    && Violates(exprs[k].eval(t)) && Reported(c, exprs[k], exprs[k].eval(t), v)
  }

  // ---------------------------------------------------------------- fields

  /** The element is the field's: its number, type and name, extensions by their full name in
      brackets, without key types and subscript. */
  predicate IsElementOf(f: FieldDescriptor, e: PathElement)
  {
    && e.number == Some(f.number) && e.fieldType == Some(f.fieldType)
    && (f.isExtension ==>
          && |e.name| == |f.fullName| + 2 && e.name[0] == '[' && e.name[|e.name| - 1] == ']'
          && e.name[1..|e.name| - 1] == f.fullName)
    && (!f.isExtension ==> e.name == f.name)
    && e.keyType == None && e.valueType == None && e.subscript == NoSubscript
  }

  /** A key of a kind its field can have, and the subscript that shows it. */
  predicate Shows(f: FieldDescriptor, key: Value, s: Subscript)
  {
    match key
    case BoolValue(b) => f.fieldType == TypeBool && s == BoolKey(b)
    case IntValue(i) =>
      && f.fieldType in {TypeInt32, TypeInt64, TypeSInt32, TypeSInt64, TypeSFixed32, TypeSFixed64} && s == IntKey(i)
    case UIntValue(u) => f.fieldType in {TypeUInt32, TypeUInt64, TypeFixed32, TypeFixed64} && s == UIntKey(u)
    case StringValue(t) => f.fieldType == TypeString && s == StringKey(t)
    case _ => false
  }

  lemma ElementNames(f: FieldDescriptor)
    ensures forall e :: e == FieldElement(f) <==> IsElementOf(f, e)
  {
    forall e | IsElementOf(f, e) ensures e == FieldElement(f) {
      if f.isExtension {
        assert e.name == [e.name[0]] + e.name[1..|e.name| - 1] + [e.name[|e.name| - 1]];
      }
    }
    var n := "[" + f.fullName + "]";
    assert n[1..|n| - 1] == f.fullName;
  }

  /** A map entry's element is the field's with the key's and value's types and the key itself;
      there is none exactly for the key types no map has. */
  lemma KeyElement(f: FieldDescriptor, key: FieldDescriptor, value: FieldDescriptor, k: Value)
    ensures WithMapKey(FieldElement(f), key, value, k) == None
       <==> key.fieldType in {TypeDouble, TypeFloat, TypeGroup, TypeMessage, TypeBytes, TypeEnum}
    ensures forall s | Shows(key, k, s) ::
      WithMapKey(FieldElement(f), key, value, k)
      == Some(FieldElement(f).(keyType := Some(key.fieldType), valueType := Some(value.fieldType), subscript := s))
  {
  }

  /** A violation of a fixed rule on a field. */
  predicate Says(v: Violation, id: string, message: string, rule: seq<string>, ref: Option<ProtoField>)
  {
    && v.ruleId == id && v.message == message && !v.forKey && v.ruleValue == ref
    && |v.rule| == |rule| && forall i | 0 <= i < |rule| ::
         v.rule[i] == PathElement(None, None, rule[i], None, None, NoSubscript)
  }

  /** Unset, or an empty collection. */
  predicate Missing(f: FieldDescriptor, m: Message)
  {
    match f.shape
    case MapOf(_, _) => EntriesOf(m, f) == []
    case Repeated => ItemsOf(m, f) == []
    case Single => !HasField(m, f)
  }

  /** A missing value: for a single field being required comes first, for a collection being
      passed over. */
  lemma MissingReports(f: FieldRules, m: Message, mode: Mode)
    requires Missing(f.field, m)
    ensures var o := RunField(f, m, mode);
      var passed := PassesOver(f) && !(f.field.shape.Single? && f.required);
      && (passed ==> o == Outcome(Ok, []))
      && (!passed && f.required ==>
            && o.status == Ok && |o.violations| == 1 && o.violations[0].field == [FieldElement(f.field)]
            && o.violations[0].fieldValue == Some(ProtoField(m, f.field, -1))
            && Says(o.violations[0], "required", "value is required", ["required"],
                    Some(ProtoField(f.source, f.refs.required, -1))))
  {
  }

  /** What the Any rules report: at most one violation for the allow list and then at most one
      for the block list. */
  lemma AnyReports(f: FieldRules, any: AnyRules, at: ProtoField, v: Value, uf: FieldDescriptor)
    requires TypeUrlField(v) == Some(uf) && uf.fieldType == TypeString
    ensures var o, url := RunAny(f, any, at, v), TypeUrl(v.m, uf);
      var outside, inside := any.allowed != [] && url !in any.allowed, url in any.blocked;
      && o.status == Ok && |o.violations| == (if outside then 1 else 0) + (if inside then 1 else 0)
      && (forall x | x in o.violations ::
            x.fieldValue == Some(at) && x.field == if at.index == -1 then [FieldElement(at.field)] else [])
      && (outside ==> Says(o.violations[0], "any.in", "type URL must be in the allow list", ["any", "in"],
                           Some(ProtoField(f.source, f.refs.anyIn, -1))))
      && (inside ==> Says(o.violations[|o.violations| - 1], "any.not_in", "type URL must not be in the block list",
                          ["any", "not_in"], Some(ProtoField(f.source, f.refs.anyNotIn, -1))))
  {
  }

  /** What the Any rules of a field report. */
  function AnyPart(f: FieldRules, m: Message): Outcome
  {
    if f.anyRules.Some? && f.field.IsMessage()
    then RunAny(f, f.anyRules.value, ProtoField(m, f.field, -1), SingleOf(m, f.field)) else NOTHING
  }

  /** What its expressions report behind that. */
  function CelPart(f: FieldRules, m: Message, mode: Mode): Outcome
  {
    RunCel(f.cel, ValueThis(SingleOf(m, f.field)),
           Mode(mode.failFast, mode.failFast && (mode.had || AnyPart(f, m).violations != [])))
  }

  /** `v` is `own`, placed under the field and pointing at it. */
  predicate OnItsField(f: FieldRules, m: Message, own: Violation, v: Violation)
  {
    v == own.(field := [FieldElement(f.field)] + own.field, fieldValue := Some(ProtoField(m, f.field, -1)))
  }

  /** A present single field: first what its Any rules report, then its expressions' reports,
      each under the field and pointing at it. */
  lemma PresentReports(f: FieldRules, m: Message, mode: Mode)
    requires !Missing(f.field, m) && f.field.shape.Single? && f.readFailure(m).None?
    requires RunField(f, m, mode).status == Ok
    ensures AnyPart(f, m).status == Ok && CelPart(f, m, mode).status == Ok
    ensures var any, cel, vs := AnyPart(f, m).violations, CelPart(f, m, mode).violations,
        RunField(f, m, mode).violations;
      && |vs| == |any| + |cel| && vs[..|any|] == any
      && forall i | 0 <= i < |cel| :: OnItsField(f, m, cel[i], vs[|any| + i])
  {
    hide RunExprs, RunAny, RequiredViolation;
    var any, cel := AnyPart(f, m), CelPart(f, m, mode);
    assert mode.After(any) == Mode(mode.failFast, mode.failFast && (mode.had || any.violations != []));
    assert any.status == Ok;
    assert RunField(f, m, mode) == Then(any, UnderField(f, m, cel));
    PlacedOnField(f, m, cel.violations);
  }

  lemma PlacedOnField(f: FieldRules, m: Message, cel: seq<Violation>)
    ensures var vs := InField(FieldElement(f.field), At(ProtoField(m, f.field, -1), cel));
      |vs| == |cel| && forall i | 0 <= i < |cel| :: OnItsField(f, m, cel[i], vs[i])
  {
  }

  /** A collection that is not empty: its expressions' reports, each under the field. */
  lemma CollectionReports(f: FieldRules, m: Message, mode: Mode)
    requires !Missing(f.field, m) && !f.field.shape.Single? && RunField(f, m, mode).status == Ok
    ensures var t := if f.field.shape.Repeated? then ListThis(ItemsOf(m, f.field)) else MapThis(EntriesOf(m, f.field));
      var cel, vs := RunCel(f.cel, t, mode), RunField(f, m, mode).violations;
      && cel.status == Ok && |vs| == |cel.violations|
      && forall i | 0 <= i < |vs| :: OnItsField(f, m, cel.violations[i], vs[i])
  {
    hide RunExprs, RequiredViolation;
    var t := if f.field.shape.Repeated? then ListThis(ItemsOf(m, f.field)) else MapThis(EntriesOf(m, f.field));
    PlacedOnField(f, m, RunCel(f.cel, t, mode).violations);
  }

  /** An undefined enum number is reported behind the field's own violations, in fail-fast mode
      only if there are none. */
  lemma EnumReports(f: FieldRules, m: Message, n: int, mode: Mode)
    requires SingleOf(m, f.field) == IntValue(n) && RunField(f, m, mode).status == Ok
    ensures var own, vs := RunField(f, m, mode).violations, RunEnum(f, true, m, mode).violations;
      if n in f.field.enumValues || (mode.failFast && (mode.had || own != [])) then vs == own
      else
        && |vs| == |own| + 1 && vs[..|own|] == own && vs[|own|].field == [FieldElement(f.field)]
        && vs[|own|].fieldValue == Some(ProtoField(m, f.field, -1))
        && Says(vs[|own|], "enum.defined_only", "value must be one of the defined enum values",
                ["enum", "defined_only"], Some(ProtoField(f.source, f.refs.definedOnly, -1)))
  {
    hide RunField;
  }

  /** A required oneof without a set member gives one violation on the oneof, others none. */
  lemma OneofReports(oneof: string, members: seq<FieldDescriptor>, required: bool, m: Message)
    ensures var o := RunOneof(oneof, members, required, m);
      var unset := forall i | 0 <= i < |members| :: !HasField(m, members[i]);
      && o.status == Ok
      && (required && unset ==>
            && |o.violations| == 1 && Says(o.violations[0], "required", "exactly one field is required in oneof", [],
                None)
            && o.violations[0].field == [PathElement(None, None, oneof, None, None, NoSubscript)]
            && o.violations[0].fieldValue == None)
      && (!(required && unset) ==> o.violations == [])
  {
    CountPositive(m, members);
  }

  /** A message oneof gives one violation for two set members, or for none when one is
      required. */
  lemma MessageOneofReports(members: seq<FieldDescriptor>, required: bool, m: Message)
    ensures var o, names := RunMessageOneof(members, required, m), JoinNames(members);
      var several := exists i, j :: 0 <= i < j < |members| && HasField(m, members[i]) && HasField(m, members[j]);
      var unset := forall i | 0 <= i < |members| :: !HasField(m, members[i]);
      && o.status == Ok && |o.violations| == (if several || (required && unset) then 1 else 0)
      && (forall v | v in o.violations :: v.field == [] && v.fieldValue == None)
      && (several ==> Says(o.violations[0], "message.oneof", "only one of " + names + " can be set", [], None))
      && (required && unset ==> Says(o.violations[0], "message.oneof", "one of " + names + " must be set", [], None))
  {
    hide JoinNames;
    CountPositive(m, members);
    CountAtMostOne(m, members);
  }

  lemma {:induction false} NamesJoined(fs: seq<FieldDescriptor>, f: FieldDescriptor)
    ensures JoinNames([f]) == f.name
    ensures fs != [] ==> JoinNames(fs + [f]) == JoinNames(fs) + ", " + f.name
  {
    if |fs| > 1 {
      NamesJoined(fs[1..], f);
      assert (fs + [f])[1..] == fs[1..] + [f];
    } else if |fs| == 1 {
      assert (fs + [f])[1..] == [f];
    }
  }

  // ---------------------------------------------------------------- items and entries

  function Flatten(parts: seq<seq<Violation>>): seq<Violation>
  {
    if parts == [] then [] else parts[0] + Flatten(parts[1..])
  }

  function ItemPart(f: FieldRules, item: FieldRules, m: Message, v: Value, i: nat): seq<Violation>
  {
    if IgnoredItem(item, v) then [] else RunItem(f, item, m, v, i, FULL).violations
  }

  function ItemParts(f: FieldRules, item: FieldRules, m: Message, items: seq<Value>, i: nat)
    : (parts: seq<seq<Violation>>)
    requires i <= |items|
    ensures |parts| == |items| - i
    ensures forall k | 0 <= k < |parts| :: parts[k] == ItemPart(f, item, m, items[i + k], i + k)
  {
    seq(|items| - i, k requires 0 <= k < |items| - i => ItemPart(f, item, m, items[i + k], i + k))
  }

  /** A full run reports every item that is not passed over, item by item. */
  lemma {:induction false} ItemsReport(f: FieldRules, item: FieldRules, m: Message, items: seq<Value>, i: nat)
    requires i <= |items| && RunItems(f, item, m, items, i, FULL).status == Ok
    ensures RunItems(f, item, m, items, i, FULL).violations == Flatten(ItemParts(f, item, m, items, i))
    decreases |items| - i
  {
    hide RunItem, IsEmptyItem, IgnoredItem, ItemParts;
    if i < |items| {
      IgnoredIff(item, items[i]);
      ItemsReport(f, item, m, items, i + 1);
      var parts := ItemParts(f, item, m, items, i);
      assert parts[0] == ItemPart(f, item, m, items[i], i);
      assert parts[1..] == ItemParts(f, item, m, items, i + 1);
    }
  }

  function EntryParts(f: FieldRules, key: Option<FieldRules>, value: Option<FieldRules>, es: seq<Entry>)
    : (parts: seq<seq<Violation>>)
    requires f.field.shape.MapOf?
    ensures |parts| == |es|
    ensures forall k | 0 <= k < |parts| :: parts[k] == RunEntry(f, key, value, es[k], FULL).violations
  {
    seq(|es|, k requires 0 <= k < |es| => RunEntry(f, key, value, es[k], FULL).violations)
  }

  /** The same for the entries of a map. */
  lemma {:induction false} EntriesReport(f: FieldRules, key: Option<FieldRules>, value: Option<FieldRules>,
      es: seq<Entry>)
    requires f.field.shape.MapOf? && RunEntries(f, key, value, es, FULL).status == Ok
    ensures RunEntries(f, key, value, es, FULL).violations == Flatten(EntryParts(f, key, value, es))
  {
    hide RunEntry, EntryParts;
    if es != [] {
      EntriesReport(f, key, value, es[1..]);
      assert EntryParts(f, key, value, es)[1..] == EntryParts(f, key, value, es[1..]);
    }
  }

  /** Even in fail-fast mode a violation of the map field does not keep its first entry from
      being checked. */
  lemma MapGoesOn(f: FieldRules, key: FieldRules, value: Option<FieldRules>, m: Message)
    requires f.field.shape.MapOf? && f.readFailure(m).None? && EntriesOf(m, f.field) != []
    requires RunField(f, m, FAST).status == Ok && RunField(f, m, FAST).violations != []
    requires var k := EntriesOf(m, f.field)[0].key;
      !IgnoredItem(key, k) && key.cel.exprs != [] && Violates(key.cel.exprs[0].eval(ValueThis(k)))
    ensures |RunMap(f, Some(key), value, m, FAST).violations| >= 2
  {
    hide RunField, RunExpr, Violates, EntryViolations, WithMapKey, IsEmptyItem, IgnoredItem;
    var es := EntriesOf(m, f.field);
    var mode := FAST.After(RunField(f, m, FAST));
    var k := RunSide(Some(key), es[0].key, mode);
    IgnoredIff(key, es[0].key);
    ResultCases(key.cel.exprs[0].eval(ValueThis(es[0].key)));
    ExprReports(key.cel, key.cel.exprs[0], ValueThis(es[0].key));
    assert k == RunExpr(key.cel, key.cel.exprs[0], ValueThis(es[0].key));
    EntryFirst(f, key, value, es[0], mode);
  }

  lemma EntryFirst(f: FieldRules, key: FieldRules, value: Option<FieldRules>, e: Entry, mode: Mode)
    requires f.field.shape.MapOf? && mode.failFast && RunSide(Some(key), e.key, mode).status == Ok
    requires |RunSide(Some(key), e.key, mode).violations| == 1
    ensures |RunEntry(f, Some(key), value, e, mode).violations| >= 1
  {
    hide RunSide, EntryViolations, WithMapKey;
    var k := RunSide(Some(key), e.key, mode).violations;
    forall vs ensures |EntryViolations(f, e, k, vs)| == 1 + |vs| {
      EntrySizes(f, e, k, vs);
    }
  }

  // ---------------------------------------------------------------- reading fields

  /** The first set field with the descriptor `f` is at `i`. */
  ghost predicate SetAt(m: Message, f: FieldDescriptor, i: nat)
  {
    i < |m.fields| && m.fields[i].descriptor == f && forall j | 0 <= j < i :: m.fields[j].descriptor != f
  }

  /** What a rule sees of a field: the content set, or the default or nothing. */
  lemma FieldSeen(m: Message, f: FieldDescriptor)
    ensures HasField(m, f) <==> exists i: nat :: SetAt(m, f, i)
    ensures forall i: nat | SetAt(m, f, i) ::
      var c := m.fields[i].content;
      && (c.One? ==> SingleOf(m, f) == c.value) && (c.Many? ==> ItemsOf(m, f) == c.items)
      && (c.Entries? ==> EntriesOf(m, f) == c.entries)
    ensures !HasField(m, f) ==> SingleOf(m, f) == f.defaultValue && ItemsOf(m, f) == [] && EntriesOf(m, f) == []
  {
    FoundFrom(m, f, 0);
    assert m.fields[0..] == m.fields;
  }

  lemma {:induction false} FoundFrom(m: Message, f: FieldDescriptor, k: nat)
    requires k <= |m.fields| && forall j | 0 <= j < k :: m.fields[j].descriptor != f
    ensures FindIn(m.fields[k..], f) == None ==> forall i: nat :: !SetAt(m, f, i)
    ensures FindIn(m.fields[k..], f).Some? ==>
      exists i: nat :: SetAt(m, f, i) && FindIn(m.fields[k..], f) == Some(m.fields[i].content)
    decreases |m.fields| - k
  {
    if k < |m.fields| {
      assert m.fields[k..][0] == m.fields[k] && m.fields[k..][1..] == m.fields[k + 1..];
      if m.fields[k].descriptor == f {
        assert SetAt(m, f, k);
      } else {
        FoundFrom(m, f, k + 1);
      }
    }
  }
}
