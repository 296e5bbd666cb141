/** The traversal of a message tree as a recursive specification with root-first paths. */
module WalkSpec {
  import opened Wrappers
  import opened Proto
  import opened Violations
  import opened RuleSpec

  /** The cached outcome of building the rules of one message type. */
  datatype Loaded = RuleList(rules: seq<Rule>) | BuildError(reason: string)

  type Lookup = string -> Option<Loaded>

  /** A message reached from its parent, and the path element that leads to it; none when the
      map key is of a type no map can have. */
  datatype Child = Child(element: Option<PathElement>, message: Message)

  predicate Skipped(f: FieldDescriptor)
  {
    f.options.Some?
    && (f.options.value.ignoreAlways || f.options.value.itemsIgnoreAlways || f.options.value.valuesIgnoreAlways)
  }

  function ValueChild(e: Option<PathElement>, v: Value): seq<Child>
  {
    if v.MessageValue? then [Child(e, v.m)] else []
  }

  function ItemChildren(f: FieldDescriptor, items: seq<Value>, i: nat): seq<Child>
    requires i <= |items|
    decreases |items| - i
  {
    if i == |items| then []
    else ValueChild(Some(FieldElement(f).(subscript := Index(i))), items[i]) + ItemChildren(f, items, i + 1)
  }

  function EntryChildren(f: FieldDescriptor, k: FieldDescriptor, v: FieldDescriptor, es: seq<Entry>): seq<Child>
  {
    if es == [] then []
    else ValueChild(WithMapKey(FieldElement(f), k, v, es[0].key), es[0].value) + EntryChildren(f, k, v, es[1..])
  }

  /** The child messages of one set field. */
  function FieldChildren(f: Field): seq<Child>
  {
    var d := f.descriptor;
    if !d.IsMessage() || Skipped(d) then []
    else
      match (d.shape, f.content)
      case (MapOf(k, v), Entries(es)) => if v.IsMessage() then EntryChildren(d, k, v, es) else []
      case (Repeated, Many(items)) => ItemChildren(d, items, 0)
      case (Single, One(v)) => ValueChild(Some(FieldElement(d)), v)
      case _ => []
  }

  function FieldsChildren(fs: seq<Field>): seq<Child>
  {
    if fs == [] then [] else FieldChildren(fs[0]) + FieldsChildren(fs[1..])
  }

  function Children(m: Message): seq<Child> { FieldsChildren(m.fields) }

  ghost predicate Below(cs: seq<Child>, m: Message)
  {
    forall i | 0 <= i < |cs| :: cs[i].message < m
  }

  lemma {:induction false} ItemsBelow(f: FieldDescriptor, items: seq<Value>, i: nat, m: Message)
    requires i <= |items|
    requires forall k, x: Message | 0 <= k < |items| && items[k] == MessageValue(x) :: x < m
    ensures Below(ItemChildren(f, items, i), m)
    decreases |items| - i
  {
    if i < |items| {
      ItemsBelow(f, items, i + 1, m);
    }
  }

  lemma {:induction false} EntriesBelow(f: FieldDescriptor, k: FieldDescriptor, v: FieldDescriptor, es: seq<Entry>,
      m: Message)
    requires forall i, x: Message | 0 <= i < |es| && es[i].value == MessageValue(x) :: x < m
    ensures Below(EntryChildren(f, k, v, es), m)
  {
    if es != [] {
      EntriesBelow(f, k, v, es[1..], m);
    }
  }

  lemma FieldBelow(f: Field, m: Message)
    requires f in m.fields
    ensures Below(FieldChildren(f), m)
  {
    match f.content
    case Many(items) =>
      forall k, x: Message | 0 <= k < |items| && items[k] == MessageValue(x) ensures x < m {
        ItemInside(m, f, items, k);
      }
      ItemsBelow(f.descriptor, items, 0, m);
    case Entries(es) =>
      forall i, x: Message | 0 <= i < |es| && es[i].value == MessageValue(x) ensures x < m {
        EntryInside(m, f, es, i);
      }
      if f.descriptor.shape.MapOf? {
        EntriesBelow(f.descriptor, f.descriptor.shape.key, f.descriptor.shape.value, es, m);
      }
    case One(v) =>
      if v.MessageValue? {
        assert v.m < m by { OneInside(m, f, v); }
      }
  }

  lemma OneInside(m: Message, f: Field, v: Value)
    requires f in m.fields && f.content == One(v) && v.MessageValue?
    ensures v.m < m
  {
  }

  lemma ItemInside(m: Message, f: Field, items: seq<Value>, k: nat)
    requires f in m.fields && f.content == Many(items) && k < |items| && items[k].MessageValue?
    ensures items[k].m < m
  {
  }

  lemma EntryInside(m: Message, f: Field, es: seq<Entry>, k: nat)
    requires f in m.fields && f.content == Entries(es) && k < |es| && es[k].value.MessageValue?
    ensures es[k].value.m < m
  {
  }

  lemma {:induction false} FieldsBelow(fs: seq<Field>, m: Message)
    requires forall f | f in fs :: f in m.fields
    ensures Below(FieldsChildren(fs), m)
  {
    if fs != [] {
      FieldBelow(fs[0], m);
      FieldsBelow(fs[1..], m);
    }
  }

  lemma ChildrenBelow(m: Message)
    ensures Below(Children(m), m)
  {
    FieldsBelow(m.fields, m);
  }

  // ---------------------------------------------------------------- the walk

  /** The violations of a child, placed under its path element. */
  function Attach(e: Option<PathElement>, o: Outcome): Outcome
  {
    if o.violations == [] then o
    else if e.None? then Outcome(Error(Internal, "unexpected map key type"), o.violations)
    else Outcome(o.status, InField(e.value, o.violations))
  }

  /** ValidateMessage: the message's own rules, then its children. */
  ghost function Walk(lookup: Lookup, m: Message, mode: Mode): Outcome
    decreases m, 2, 0
  {
    match lookup(m.desc.fullName)
    case None => Outcome(Error(NotFound, "rules not loaded for message: " + m.desc.fullName), [])
    case Some(BuildError(reason)) => Outcome(Error(BuildFailed, reason), [])
    case Some(RuleList(rules)) => WalkRules(lookup, m, rules, mode)
  }

  ghost function WalkRules(lookup: Lookup, m: Message, rules: seq<Rule>, mode: Mode): Outcome
    decreases m, 1, |rules|
  {
    if rules == [] then
      FieldsBelow(m.fields, m);
      WalkChildren(lookup, m, Children(m), mode)
    else
      var o := RunRule(rules[0], m, mode);
      if mode.Stops(o) then o else Then(o, WalkRules(lookup, m, rules[1..], mode))
  }

  ghost function WalkChildren(lookup: Lookup, m: Message, cs: seq<Child>, mode: Mode): Outcome
    requires Below(cs, m)
    decreases m, 0, |cs|
  {
    if cs == [] then NOTHING
    else
      var o := Attach(cs[0].element, Walk(lookup, cs[0].message, mode));
      if mode.Stops(o) then o else Then(o, WalkChildren(lookup, m, cs[1..], mode))
  }
}
