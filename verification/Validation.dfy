/** The validator: methods over the shared context and the cache. */
module Validation {
  import opened Wrappers
  import opened Proto
  import opened Violations
  import opened RuleSpec
  import opened Rules
  import opened WalkSpec
  import opened Factory

  datatype ValidationResult = Failed(status: Status) | Result(violations: seq<Violation>)

  class Validator {
    const factory: ValidatorFactory
    const failFast: bool

    constructor (factory: ValidatorFactory, failFast: bool)
      ensures this.factory == factory && this.failFast == failFast
    {
      this.factory, this.failFast := factory, failFast;
    }

    method ValidateMessage(ctx: RuleContext, m: Message, ghost lookup: Lookup) returns (status: Status)
      requires factory.Answers(lookup)
      modifies ctx, factory`rules
      ensures factory.Answers(lookup)
      ensures Adds(old(ctx.violations), ctx.violations, status,
          Walk(lookup, m, ModeOf(ctx.failFast, old(ctx.violations))))
      decreases m, 1
    {
      hide Adds, RunRule, WalkChildren;
      ghost var was, mode := ctx.violations, ModeOf(ctx.failFast, ctx.violations);
      NoOutcome(was);
      var found := factory.GetMessageRules(m.desc.fullName);
      if found.None? {
        return Error(NotFound, "rules not loaded for message: " + m.desc.fullName);
      }
      if found.value.BuildError? {
        return Error(BuildFailed, found.value.reason);
      }
      var rules := found.value.rules;
      ghost var done := NOTHING;
      ghost var whole := WalkRules(lookup, m, rules, mode);
      AddsNothing(was);
      ThenAssociative(whole, NOTHING, NOTHING);
      for i := 0 to |rules|
        invariant Adds(was, ctx.violations, Ok, done) && done.status == Ok
        invariant ctx.failFast ==> done.violations == []
        invariant whole == Then(done, WalkRules(lookup, m, rules[i..], mode))
        invariant factory.Answers(lookup)
      {
        ghost var mid := ctx.violations;
        ghost var o := RunRule(rules[i], m, mode);
        assert rules[i..][0] == rules[i] && rules[i..][1..] == rules[i + 1..];
        StopsAgree(was, mid, Ok, done, ctx.failFast);
        status := Rules.Validate(ctx, rules[i], m);
        StopsAgree(mid, ctx.violations, status, o, ctx.failFast);
        AddsStatus(mid, ctx.violations, status, o);
        AddsThen(was, mid, ctx.violations, Ok, status, done, o);
        if ctx.ShouldReturn(status) {
          return;
        }
        ThenAssociative(done, o, WalkRules(lookup, m, rules[i + 1..], mode));
        done := Then(done, o);
      }
      assert rules[|rules|..] == [];
      ghost var mid := ctx.violations;
      StopsAgree(was, mid, Ok, done, ctx.failFast);
      FieldsBelow(m.fields, m);
      status := ValidateFields(ctx, m, lookup);
      AddsThen(was, mid, ctx.violations, Ok, status, done, WalkChildren(lookup, m, Children(m), mode));
    }

    /** One child: its own walk, then the path element on what it added. */
    method ValidateChild(ctx: RuleContext, e: Option<PathElement>, child: Message, ghost m: Message,
        ghost lookup: Lookup)
      returns (status: Status)
      requires factory.Answers(lookup) && child < m
      modifies ctx, factory`rules
      ensures factory.Answers(lookup)
      ensures Adds(old(ctx.violations), ctx.violations, status,
                   Attach(e, Walk(lookup, child, ModeOf(ctx.failFast, old(ctx.violations)))))
      decreases m, 0, 0
    {
      hide Walk;
      ghost var was := ctx.violations;
      ghost var o := Walk(lookup, child, ModeOf(ctx.failFast, was));
      var pos := |ctx.violations|;
      status := ValidateMessage(ctx, child, lookup);
      EntrySize(was, o.violations);
      if pos < |ctx.violations| {
        if e.None? {
          return Error(Internal, "unexpected map key type");
        }
        PrefixEdit(was, e.value, o.violations);
        ctx.AppendFieldPathElement(e.value, pos);
      }
    }

    /** The child behind the element `e`, if the value is a message, as part of a visit. */
    method ValidateValue(ctx: RuleContext, e: Option<PathElement>, v: Value, ghost st: Visit, ghost rest: seq<Child>)
      returns (stopped: bool, status: Status, ghost st': Visit)
      requires factory.Answers(st.lookup) && Visiting(st, ctx.violations) && st.mode.failFast == ctx.failFast
      requires st.cs == ValueChild(e, v) + rest
      modifies ctx, factory`rules
      ensures factory.Answers(st.lookup)
      ensures if stopped then Done(st, ctx.violations, status) else Moved(st, st', ctx.violations, rest)
      decreases st.m, 0, 1
    {
      hide Adds, Walk, Attach;
      stopped, status, st' := false, Ok, st;
      if v.MessageValue? {
        NextChild(st, e, v.m, rest);
        ghost var mid := ctx.violations;
        status := ValidateChild(ctx, e, v.m, st.m, st.lookup);
        st' := VisitedChild(st, mid, ctx.violations, status);
        stopped := ctx.ShouldReturn(status);
      } else {
        assert [] + rest == rest;
      }
    }

    method ValidateItems(ctx: RuleContext, d: FieldDescriptor, items: seq<Value>, ghost st: Visit,
        ghost later: seq<Child>)
      returns (stopped: bool, status: Status, ghost st': Visit)
      requires factory.Answers(st.lookup) && Visiting(st, ctx.violations) && st.mode.failFast == ctx.failFast
      requires st.cs == ItemChildren(d, items, 0) + later
      modifies ctx, factory`rules
      ensures factory.Answers(st.lookup)
      ensures if stopped then Done(st, ctx.violations, status) else Moved(st, st', ctx.violations, later)
      decreases st.m, 0, 2
    {
      hide Visiting, Done, FieldElement;
      stopped, status, st' := false, Ok, st;
      for j := 0 to |items|
        invariant !stopped && factory.Answers(st.lookup)
        invariant Moved(st, st', ctx.violations, ItemChildren(d, items, j) + later)
      {
        ghost var rest := ItemChildren(d, items, j + 1) + later;
        var e := Some(FieldElement(d).(subscript := Index(j)));
        assert ItemChildren(d, items, j) + later == ValueChild(e, items[j]) + rest;
        ghost var before := st';
        stopped, status, st' := ValidateValue(ctx, e, items[j], before, rest);
        if stopped {
          DoneBefore(st, before, ctx.violations, status);
          return;
        }
      }
      assert [] + later == later;
    }

    method ValidateEntries(ctx: RuleContext, d: FieldDescriptor, k: FieldDescriptor, v: FieldDescriptor, es: seq<Entry>,
                           ghost st: Visit, ghost later: seq<Child>)
      returns (stopped: bool, status: Status, ghost st': Visit)
      requires factory.Answers(st.lookup) && Visiting(st, ctx.violations) && st.mode.failFast == ctx.failFast
      requires st.cs == EntryChildren(d, k, v, es) + later
      modifies ctx, factory`rules
      ensures factory.Answers(st.lookup)
      ensures if stopped then Done(st, ctx.violations, status) else Moved(st, st', ctx.violations, later)
      decreases st.m, 0, 2
    {
      hide Visiting, Done, FieldElement, WithMapKey;
      stopped, status, st' := false, Ok, st;
      assert es[0..] == es;
      for j := 0 to |es|
        invariant !stopped && factory.Answers(st.lookup)
        invariant Moved(st, st', ctx.violations, EntryChildren(d, k, v, es[j..]) + later)
      {
        ghost var rest := EntryChildren(d, k, v, es[j + 1..]) + later;
        var e := WithMapKey(FieldElement(d), k, v, es[j].key);
        assert es[j..][0] == es[j] && es[j..][1..] == es[j + 1..];
        assert EntryChildren(d, k, v, es[j..]) + later == ValueChild(e, es[j].value) + rest;
        ghost var before := st';
        stopped, status, st' := ValidateValue(ctx, e, es[j].value, before, rest);
        if stopped {
          DoneBefore(st, before, ctx.violations, status);
          return;
        }
      }
      assert es[|es|..] == [] && [] + later == later;
    }

    /** The set message fields in order: map values, items, single messages. */
    method ValidateFields(ctx: RuleContext, m: Message, ghost lookup: Lookup) returns (status: Status)
      requires factory.Answers(lookup)
      modifies ctx, factory`rules
      ensures factory.Answers(lookup)
      ensures Below(Children(m), m)
      ensures Adds(old(ctx.violations), ctx.violations, status,
                   WalkChildren(lookup, m, Children(m), ModeOf(ctx.failFast, old(ctx.violations))))
      decreases m, 0, 3
    {
      hide Visiting, Adds, FieldElement, Walk, ItemChildren, EntryChildren, ValueChild, Skipped;
      ghost var was, mode := ctx.violations, ModeOf(ctx.failFast, ctx.violations);
      ghost var first := Visit(lookup, m, mode, was, NOTHING, Children(m));
      ghost var st := first;
      FieldsBelow(m.fields, m);
      StartVisit(first);
      assert m.fields[0..] == m.fields;
      for i := 0 to |m.fields|
        invariant factory.Answers(lookup) && Moved(first, st, ctx.violations, FieldsChildren(m.fields[i..]))
      {
        var field := m.fields[i];
        var d := field.descriptor;
        ghost var later := FieldsChildren(m.fields[i + 1..]);
        assert m.fields[i..][0] == field && m.fields[i..][1..] == m.fields[i + 1..];
        assert FieldsChildren(m.fields[i..]) == FieldChildren(field) + later;
        assert [] + later == later;
        if !d.IsMessage() || Skipped(d) {
          continue;
        }
        ghost var before := st;
        var stopped := false;
        if d.shape.MapOf? && field.content.Entries? {
          if !d.shape.value.IsMessage() {
            continue;
          }
          stopped, status, st := ValidateEntries(ctx, d, d.shape.key, d.shape.value, field.content.entries, before,
              later);
        } else if d.shape.Repeated? && field.content.Many? {
          stopped, status, st := ValidateItems(ctx, d, field.content.items, before, later);
        } else if d.shape.Single? && field.content.One? {
          stopped, status, st := ValidateValue(ctx, Some(FieldElement(d)), field.content.value, before, later);
        }
        if stopped {
          DoneBefore(first, before, ctx.violations, status);
          DoneIs(first, ctx.violations, status);
          return;
        }
      }
      assert m.fields[|m.fields|..] == [];
      EndVisit(st, ctx.violations);
      return Ok;
    }

    /** Walks the message and turns the paths around at the end. */
    method Validate(m: Message, ghost lookup: Lookup) returns (r: ValidationResult)
      requires factory.Answers(lookup)
      modifies factory`rules
      ensures factory.Answers(lookup)
      ensures var o := Walk(lookup, m, Mode(failFast, false));
        r == if o.status == Ok then Result(o.violations) else Failed(o.status)
    {
      hide Walk;
      var ctx := new RuleContext(failFast);
      ghost var o := Walk(lookup, m, Mode(failFast, false));
      var status := ValidateMessage(ctx, m, lookup);
      if status != Ok {
        return Failed(status);
      }
      assert ctx.violations == [] + TurnAll(o.violations) == TurnAll(o.violations);
      TurnTwice(o.violations);
      ctx.Finalize();
      return Result(ctx.violations);
    }
  }

  // ---------------------------------------------------------------- the loops over children

  /** Where the loops over the children stand: what was done and which children are left. */
  datatype Visit = Visit(
    lookup: Lookup, m: Message, mode: Mode, was: seq<Violation>, done: Outcome, cs: seq<Child>)

  ghost predicate Visiting(st: Visit, now: seq<Violation>)
  {
    && Below(st.cs, st.m) && Below(Children(st.m), st.m) && st.mode == ModeOf(st.mode.failFast, st.was)
    && Adds(st.was, now, Ok, st.done) && st.done.status == Ok
    && (st.mode.failFast ==> st.done.violations == [])
    && WalkChildren(st.lookup, st.m, Children(st.m), st.mode)
       == Then(st.done, WalkChildren(st.lookup, st.m, st.cs, st.mode))
  }

  /** The loops returned: the outcome of the whole visit is in the context. */
  ghost predicate Done(st: Visit, now: seq<Violation>, status: Status)
  {
    && Below(Children(st.m), st.m)
    && Adds(st.was, now, status, WalkChildren(st.lookup, st.m, Children(st.m), st.mode))
  }

  /** The visit went on to the children `cs`. */
  ghost predicate Moved(st: Visit, st': Visit, now: seq<Violation>, cs: seq<Child>)
  {
    Visiting(st', now) && st' == st.(done := st'.done, cs := cs)
  }

  lemma DoneBefore(st: Visit, before: Visit, now: seq<Violation>, status: Status)
    requires Done(before, now, status) && before == st.(done := before.done, cs := before.cs)
    ensures Done(st, now, status)
  {
  }

  lemma DoneIs(st: Visit, now: seq<Violation>, status: Status)
    requires Done(st, now, status)
    ensures Below(Children(st.m), st.m)
    ensures Adds(st.was, now, status, WalkChildren(st.lookup, st.m, Children(st.m), st.mode))
  {
  }

  lemma StartVisit(st: Visit)
    requires st.done == NOTHING && st.cs == Children(st.m) && Below(st.cs, st.m)
    requires st.mode == ModeOf(st.mode.failFast, st.was)
    ensures Moved(st, st, st.was, st.cs)
  {
    AddsNothing(st.was);
    ThenAssociative(WalkChildren(st.lookup, st.m, st.cs, st.mode), NOTHING, NOTHING);
  }

  lemma NextChild(st: Visit, e: Option<PathElement>, x: Message, rest: seq<Child>)
    requires Below(st.cs, st.m) && st.cs == [Child(e, x)] + rest
    ensures st.cs != [] && st.cs[0] == Child(e, x) && st.cs[1..] == rest && x < st.m
  {
    assert st.cs[0].message == x;
  }

  lemma VisitedChild(st: Visit, mid: seq<Violation>, now: seq<Violation>, status: Status) returns (st': Visit)
    requires Visiting(st, mid) && st.cs != []
    requires Adds(mid, now, status, Attach(st.cs[0].element,
        Walk(st.lookup, st.cs[0].message, ModeOf(st.mode.failFast, mid))))
    ensures if status != Ok || (st.mode.failFast && now != []) then Done(st, now, status)
            else Moved(st, st', now, st.cs[1..])
  {
    hide Walk, Attach, Adds;
    var o := Attach(st.cs[0].element, Walk(st.lookup, st.cs[0].message, st.mode));
    StopsAgree(st.was, mid, Ok, st.done, st.mode.failFast);
    assert ModeOf(st.mode.failFast, mid) == st.mode;
    StopsAgree(mid, now, status, o, st.mode.failFast);
    AddsStatus(mid, now, status, o);
    AddsThen(st.was, mid, now, Ok, status, st.done, o);
    st' := st.(done := Then(st.done, o), cs := st.cs[1..]);
    if !st.mode.Stops(o) {
      ThenAssociative(st.done, o, WalkChildren(st.lookup, st.m, st.cs[1..], st.mode));
    }
  }

  lemma EndVisit(st: Visit, now: seq<Violation>)
    requires Visiting(st, now) && st.cs == []
    ensures Below(Children(st.m), st.m)
    ensures Adds(st.was, now, Ok, WalkChildren(st.lookup, st.m, Children(st.m), st.mode))
  {
    EndOfRun(st.done);
  }
}
