/** The rules of a message and the specification of their evaluation: a status and a list of
    root-first violations. */
module RuleSpec {
  import opened Wrappers
  import opened Proto
  import opened Violations

  // ---------------------------------------------------------------- rules

  /** What `this` is bound to. */
  datatype CelThis =
    | MessageThis(m: Message)
    | ListThis(items: seq<Value>)
    | MapThis(entries: seq<Entry>)
    | ValueThis(v: Value)

  /** The outcome of evaluating a compiled expression. */
  datatype CelResult =
    | EvalFailed(failure: Failure)
    | BoolResult(b: bool)
    | StringResult(s: string)
    | ErrorResult(reason: string)
    | OtherResult

  /** A compiled expression, taken as a fixed function; its rule path is stored leaf first. */
  datatype CompiledRule = CompiledRule(
    id: string, message: string, expression: string, rulePath: Option<seq<PathElement>>,
    ruleField: Option<FieldDescriptor>, eval: CelThis -> CelResult)

  datatype CelRules = CelRules(exprs: seq<CompiledRule>, rules: Option<Message>)

  datatype AnyRules = AnyRules(allowed: seq<string>, blocked: seq<string>)

  /** `readFailure` tells whether the library fails to turn the field of a message into a CEL
      value or, for a map, to list its keys. */
  datatype FieldRules = FieldRules(
    cel: CelRules, field: FieldDescriptor, ignoreIfZero: bool, mapEntry: bool, required: bool,
    anyRules: Option<AnyRules>, source: Message, refs: RuleRefs, readFailure: Message -> Option<Failure>)
  {
    function IgnoreEmpty(): bool { ignoreIfZero || (field.hasPresence && !mapEntry) }
  }

  /** The descriptors of the rule fields a violation may point at. */
  datatype RuleRefs = RuleRefs(
    required: FieldDescriptor, definedOnly: FieldDescriptor, anyIn: FieldDescriptor, anyNotIn: FieldDescriptor)

  datatype Rule =
    | MessageRule(cel: CelRules)
    | FieldRule(base: FieldRules)
    | EnumRule(base: FieldRules, definedOnly: bool)
    | RepeatedRule(base: FieldRules, item: Option<FieldRules>)
    | MapRule(base: FieldRules, key: Option<FieldRules>, value: Option<FieldRules>)
    | OneofRule(oneof: string, members: seq<FieldDescriptor>, required: bool)
    | MessageOneofRule(members: seq<FieldDescriptor>, required: bool)

  // ---------------------------------------------------------------- outcomes

  datatype Outcome = Outcome(status: Status, violations: seq<Violation>)

  const NOTHING := Outcome(Ok, [])

  /** Fail-fast or not, and, where that matters, whether the context held violations before. */
  datatype Mode = Mode(failFast: bool, had: bool) {
    /** What shouldReturn answers after `o` was added to the context. */
    predicate Stops(o: Outcome) { o.status != Ok || (failFast && (had || o.violations != [])) }

    /** The mode once `o` has been added. */
    function After(o: Outcome): Mode { Mode(failFast, failFast && (had || o.violations != [])) }
  }

  const FULL := Mode(false, false)
  const FAST := Mode(true, false)

  function Then(o: Outcome, rest: Outcome): Outcome { Outcome(rest.status, o.violations + rest.violations) }

  // ---------------------------------------------------------------- CEL rules

  /** The violation of one rule, root first. */
  function RuleViolation(expr: CompiledRule, message: string): Violation
  {
    Violation(expr.id, message, [], if expr.rulePath.Some? then Reverse(expr.rulePath.value) else [], false, None, None)
  }

  function DefaultMessage(expr: CompiledRule): string
  {
    if expr.message != "" then expr.message else "\"" + expr.expression + "\" returned false"
  }

  /** The rule field a violation of the expression points at. */
  function RuleField(c: CelRules, expr: CompiledRule): Option<ProtoField>
  {
    if c.rules.Some? && expr.ruleField.Some? then Some(ProtoField(c.rules.value, expr.ruleField.value, -1)) else None
  }

  function RunExpr(c: CelRules, expr: CompiledRule, t: CelThis): Outcome
  {
    var o := RunProcess(expr, t);
    if RuleField(c, expr).None? then o
    else Outcome(o.status, MapAll(RuleValueSet(RuleField(c, expr).value), o.violations))
  }

  function RunProcess(expr: CompiledRule, t: CelThis): Outcome
  {
    match expr.eval(t)
    case EvalFailed(failure) => Outcome(failure.AsStatus(), [])
    case BoolResult(b) => if b then NOTHING else Outcome(Ok, [RuleViolation(expr, DefaultMessage(expr))])
    case StringResult(s) => if s == "" then NOTHING else Outcome(Ok, [RuleViolation(expr, s)])
    case ErrorResult(reason) => Outcome(Error(InvalidArgument, reason), [])
    case OtherResult => Outcome(Error(InvalidArgument, "invalid result type"), [])
  }

  /** The expressions in order, up to the first that stops the run. */
  function RunExprs(c: CelRules, exprs: seq<CompiledRule>, t: CelThis, mode: Mode): Outcome
  {
    if exprs == [] then NOTHING
    else
      var o := RunExpr(c, exprs[0], t);
      if mode.Stops(o) then o else Then(o, RunExprs(c, exprs[1..], t, mode))
  }

  function RunCel(c: CelRules, t: CelThis, mode: Mode): Outcome { RunExprs(c, c.exprs, t, mode) }

  // ---------------------------------------------------------------- field rules

  function RequiredViolation(f: FieldRules, m: Message): Violation
  {
    Violation("required", "value is required", [FieldElement(f.field)], [RuleElement("required")], false,
              Some(ProtoField(m, f.field, -1)), Some(ProtoField(f.source, f.refs.required, -1)))
  }

  function AnyViolation(f: FieldRules, at: ProtoField, id: string, message: string, rule: string,
      ref: FieldDescriptor): Violation
  {
    Violation(id, message, if at.index == -1 then [FieldElement(at.field)] else [],
              [RuleElement("any"), RuleElement(rule)], false, Some(at), Some(ProtoField(f.source, ref, -1)))
  }

  function TypeUrlField(v: Value): Option<FieldDescriptor>
  {
    if v.MessageValue? then FindByName(v.m.desc.fields, "type_url") else None
  }

  function TypeUrl(m: Message, f: FieldDescriptor): string
  {
    var v := SingleOf(m, f); if v.StringValue? then v.s else ""
  }

  function RunAny(f: FieldRules, any: AnyRules, at: ProtoField, v: Value): Outcome
  {
    match TypeUrlField(v)
    case None => Outcome(Error(InvalidArgument, "expected Any"), [])
    case Some(uf) =>
      if uf.fieldType != TypeString then Outcome(Error(InvalidArgument, "expected Any"), [])
      else
        var url := TypeUrl(v.m, uf);
        Outcome(Ok,
                (if any.allowed != [] && url !in any.allowed
                 then [AnyViolation(f, at, "any.in", "type URL must be in the allow list", "in", f.refs.anyIn)] else [])
                + (if url in any.blocked
                   then [AnyViolation(f, at, "any.not_in", "type URL must not be in the block list",
                                      "not_in", f.refs.anyNotIn)]
                   else []))
  }

  /** The CEL rules of a field, the violations placed under the field unless one failed. */
  function UnderField(f: FieldRules, m: Message, o: Outcome): Outcome
  {
    if o.status != Ok then o
    else Outcome(Ok, InField(FieldElement(f.field), At(ProtoField(m, f.field, -1), o.violations)))
  }

  function RunFieldCel(f: FieldRules, m: Message, t: CelThis, mode: Mode): Outcome
  {
    UnderField(f, m, RunCel(f.cel, t, mode))
  }

  function RunField(f: FieldRules, m: Message, mode: Mode): Outcome
  {
    match f.field.shape
    case MapOf(_, _) =>
      var es := EntriesOf(m, f.field);
      if es == [] && f.IgnoreEmpty() then NOTHING
      else if es == [] && f.required then Outcome(Ok, [RequiredViolation(f, m)])
      else RunFieldCel(f, m, MapThis(es), mode)
    case Repeated =>
      var items := ItemsOf(m, f.field);
      if items == [] && f.IgnoreEmpty() then NOTHING
      else if items == [] && f.required then Outcome(Ok, [RequiredViolation(f, m)])
      else RunFieldCel(f, m, ListThis(items), mode)
    case Single =>
      if !HasField(m, f.field) && f.required then Outcome(Ok, [RequiredViolation(f, m)])
      else if !HasField(m, f.field) && f.IgnoreEmpty() then NOTHING
      else
        var v := SingleOf(m, f.field);
        var any := if f.anyRules.Some? && f.field.IsMessage()
                   then RunAny(f, f.anyRules.value, ProtoField(m, f.field, -1), v) else NOTHING;
        if any.status != Ok then any
        else if f.readFailure(m).Some? then Then(any, Outcome(f.readFailure(m).value.AsStatus(), []))
        else Then(any, RunFieldCel(f, m, ValueThis(v), mode.After(any)))
  }

  function RunEnum(f: FieldRules, definedOnly: bool, m: Message, mode: Mode): Outcome
  {
    var base := RunField(f, m, mode);
    if mode.Stops(base) then base
    else
      var v := SingleOf(m, f.field);
      var n := if v.IntValue? then v.i else 0;
      if definedOnly && n !in f.field.enumValues then
        Then(base, Outcome(Ok, [Violation("enum.defined_only", "value must be one of the defined enum values",
                                          [FieldElement(f.field)], [RuleElement("enum"), RuleElement("defined_only")],
                                          false, Some(ProtoField(m, f.field, -1)),
                                          Some(ProtoField(f.source, f.refs.definedOnly, -1)))]))
      else Then(base, NOTHING)
  }

  function IsEmptyItem(v: Value): bool
  {
    match v
    case BoolValue(b) => !b
    case IntValue(i) => i == 0
    case UIntValue(u) => u == 0
    case DoubleValue(d) => d == 0.0
    case StringValue(s) => s == ""
    case BytesValue(bs) => bs == []
    case MessageValue(_) => false
  }

  const ITEMS := [RuleElement("repeated"), RuleElement("items")]
  const KEYS := [RuleElement("map"), RuleElement("keys")]
  const VALUES := [RuleElement("map"), RuleElement("values")]

  /** One item: the Any status, when there are Any rules, replaces the CEL status. */
  function RunItem(f: FieldRules, item: FieldRules, m: Message, v: Value, i: nat, mode: Mode): Outcome
  {
    var at := ProtoField(m, f.field, i);
    var cel := RunCel(item.cel, ValueThis(v), mode);
    var o := if item.anyRules.Some? then Then(cel, RunAny(item, item.anyRules.value, at, v)) else cel;
    Outcome(o.status, InField(FieldElement(f.field).(subscript := Index(i)), InRule(ITEMS, At(at, o.violations))))
  }

  function RunItems(f: FieldRules, item: FieldRules, m: Message, items: seq<Value>, i: nat, mode: Mode): Outcome
    requires i <= |items|
    decreases |items| - i
  {
    if i == |items| then NOTHING
    else if item.IgnoreEmpty() && IsEmptyItem(items[i]) then RunItems(f, item, m, items, i + 1, mode)
    else
      var o := RunItem(f, item, m, items[i], i, mode);
      if mode.Stops(o) then o else Then(o, RunItems(f, item, m, items, i + 1, mode))
  }

  function RunRepeated(f: FieldRules, item: Option<FieldRules>, m: Message, mode: Mode): Outcome
  {
    var base := RunField(f, m, mode);
    if mode.Stops(base) || item.None? then base
    else Then(base, RunItems(f, item.value, m, ItemsOf(m, f.field), 0, mode.After(base)))
  }

  /** The rules of one side of a map entry, or nothing when there are none or the side is an
      ignored empty value. */
  function RunSide(side: Option<FieldRules>, v: Value, mode: Mode): Outcome
  {
    if side.Some? && !(side.value.IgnoreEmpty() && IsEmptyItem(v)) then RunCel(side.value.cel, ValueThis(v), mode)
    else NOTHING
  }

  /** The entry as a message of the map entry type. */
  function EntryMessage(f: FieldRules, e: Entry): Message
    requires f.field.shape.MapOf?
  {
    var shape := f.field.shape;
    Message(Descriptor(f.field.messageType, [shape.key, shape.value]),
            [Field(shape.key, One(e.key)), Field(shape.value, One(e.value))])
  }

  /** Key violations, then value violations. Value violations also move the key violations'
      field value to the value. */
  function EntryViolations(f: FieldRules, e: Entry, ks: seq<Violation>, vs: seq<Violation>): seq<Violation>
    requires f.field.shape.MapOf?
  {
    var em := EntryMessage(f, e);
    var keyed := MapAll(KeySet(), InRule(KEYS, At(ProtoField(em, f.field.shape.key, -1), ks)));
    if vs == [] then keyed else At(ProtoField(em, f.field.shape.value, -1), keyed + InRule(VALUES, vs))
  }

  function RunEntry(f: FieldRules, key: Option<FieldRules>, value: Option<FieldRules>, e: Entry, mode: Mode): Outcome
    requires f.field.shape.MapOf?
  {
    var k := RunSide(key, e.key, mode);
    if k.status != Ok then k
    else
      var v := RunSide(value, e.found, mode.After(k));
      if v.status != Ok then Outcome(v.status, EntryViolations(f, e, k.violations, []) + v.violations)
      else
        var all := EntryViolations(f, e, k.violations, v.violations);
        if all == [] then NOTHING
        else
          match WithMapKey(FieldElement(f.field), f.field.shape.key, f.field.shape.value, e.key)
          case None => Outcome(Error(Internal, "unexpected map key type"), all)
          case Some(element) => Outcome(Ok, InField(element, all))
  }

  function RunEntries(f: FieldRules, key: Option<FieldRules>, value: Option<FieldRules>, es: seq<Entry>,
      mode: Mode): Outcome
    requires f.field.shape.MapOf?
  {
    if es == [] then NOTHING
    else
      var o := RunEntry(f, key, value, es[0], mode);
      if o.status != Ok || (mode.failFast && o.violations != []) then o
      else Then(o, RunEntries(f, key, value, es[1..], mode))
  }

  /** Unlike the other rules a map's rules go on after a violation of the field itself. */
  function RunMap(f: FieldRules, key: Option<FieldRules>, value: Option<FieldRules>, m: Message, mode: Mode): Outcome
  {
    var base := RunField(f, m, mode);
    if base.status != Ok || (key.None? && value.None?) || !f.field.shape.MapOf? then base
    else if f.readFailure(m).Some? then Then(base, Outcome(f.readFailure(m).value.AsStatus(), []))
    else Then(base, RunEntries(f, key, value, EntriesOf(m, f.field), mode.After(base)))
  }

  // ---------------------------------------------------------------- message rules

  function CountSet(m: Message, fs: seq<FieldDescriptor>): nat
  {
    if fs == [] then 0 else (if HasField(m, fs[0]) then 1 else 0) + CountSet(m, fs[1..])
  }

  function JoinNames(fs: seq<FieldDescriptor>): string
  {
    if fs == [] then "" else if |fs| == 1 then fs[0].name else fs[0].name + ", " + JoinNames(fs[1..])
  }

  function Plain(id: string, message: string, field: seq<PathElement>): Violation
  {
    Violation(id, message, field, [], false, None, None)
  }

  function RunOneof(oneof: string, members: seq<FieldDescriptor>, required: bool, m: Message): Outcome
  {
    if required && CountSet(m, members) == 0
    then Outcome(Ok, [Plain("required", "exactly one field is required in oneof", [OneofElement(oneof)])])
    else NOTHING
  }

  function RunMessageOneof(members: seq<FieldDescriptor>, required: bool, m: Message): Outcome
  {
    var n := CountSet(m, members);
    Outcome(Ok,
            (if n > 1 then [Plain("message.oneof", "only one of " + JoinNames(members) + " can be set", [])] else [])
            + (if required && n == 0
               then [Plain("message.oneof", "one of " + JoinNames(members) + " must be set", [])] else []))
  }

  function RunRule(rule: Rule, m: Message, mode: Mode): Outcome
  {
    match rule
    case MessageRule(cel) => RunCel(cel, MessageThis(m), mode)
    case FieldRule(f) => RunField(f, m, mode)
    case EnumRule(f, definedOnly) => RunEnum(f, definedOnly, m, mode)
    case RepeatedRule(f, item) => RunRepeated(f, item, m, mode)
    case MapRule(f, key, value) => RunMap(f, key, value, m, mode)
    case OneofRule(oneof, members, required) => RunOneof(oneof, members, required, m)
    case MessageOneofRule(members, required) => RunMessageOneof(members, required, m)
  }
}
