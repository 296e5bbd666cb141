/** What a full run returns: own violations, then the children's, each under one path element
    per nesting level. */
module WalkFacts {
  import opened Wrappers
  import opened Proto
  import opened Violations
  import opened RuleSpec
  import opened WalkSpec
  import opened Traversal

  function RulesOf(lookup: Lookup, m: Message): seq<Rule>
  {
    match lookup(m.desc.fullName) case Some(RuleList(rules)) => rules case _ => []
  }

  /** The violations of a message's own rules, rule by rule. */
  function Own(rules: seq<Rule>, m: Message): seq<Violation>
  {
    if rules == [] then [] else RunRule(rules[0], m, FULL).violations + Own(rules[1..], m)
  }

  function Under(e: Option<PathElement>, vs: seq<Violation>): seq<Violation>
  {
    if e.Some? then InField(e.value, vs) else vs
  }

  /** Own violations, then each child's under its element: no statuses, no stopping. */
  ghost function AllViolations(lookup: Lookup, m: Message): seq<Violation>
    decreases m, 1, 0
  {
    FieldsBelow(m.fields, m);
    Own(RulesOf(lookup, m), m) + ChildViolations(lookup, m, Children(m))
  }

  ghost function ChildViolations(lookup: Lookup, m: Message, cs: seq<Child>): seq<Violation>
    requires Below(cs, m)
    decreases m, 0, |cs|
  {
    if cs == [] then []
    else Under(cs[0].element, AllViolations(lookup, cs[0].message)) + ChildViolations(lookup, m, cs[1..])
  }

  /** A full run that succeeds returns exactly these violations, in this order. */
  lemma {:induction false} FullRun(lookup: Lookup, m: Message)
    requires Walk(lookup, m, FULL).status == Ok
    ensures Walk(lookup, m, FULL).violations == AllViolations(lookup, m)
    decreases m, 2, 0
  {
    FieldsBelow(m.fields, m);
    FullRules(lookup, m, RulesOf(lookup, m));
  }

  lemma {:induction false} FullRules(lookup: Lookup, m: Message, rules: seq<Rule>)
    requires WalkRules(lookup, m, rules, FULL).status == Ok
    ensures Below(Children(m), m)
    ensures WalkRules(lookup, m, rules, FULL).violations == Own(rules, m) + ChildViolations(lookup, m, Children(m))
    decreases m, 1, |rules|
  {
    hide RunRule;
    FieldsBelow(m.fields, m);
    if rules == [] {
      FullChildren(lookup, m, Children(m));
      assert [] + ChildViolations(lookup, m, Children(m)) == ChildViolations(lookup, m, Children(m));
    } else {
      FullRules(lookup, m, rules[1..]);
      var vs := RunRule(rules[0], m, FULL).violations;
      assert vs + (Own(rules[1..], m) + ChildViolations(lookup, m, Children(m)))
          == vs + Own(rules[1..], m) + ChildViolations(lookup, m, Children(m));
    }
  }

  lemma {:induction false} FullChildren(lookup: Lookup, m: Message, cs: seq<Child>)
    requires Below(cs, m) && WalkChildren(lookup, m, cs, FULL).status == Ok
    ensures WalkChildren(lookup, m, cs, FULL).violations == ChildViolations(lookup, m, cs)
    decreases m, 0, |cs|
  {
    hide Walk;
    if cs != [] {
      FullRun(lookup, cs[0].message);
      FullChildren(lookup, m, cs[1..]);
      if AllViolations(lookup, cs[0].message) == [] {
        assert Under(cs[0].element, []) == [];
      }
    }
  }

  // ---------------------------------------------------------------- paths

  /** `v` is a violation of the own rules of the message at the end of `route` below `m`. */
  ghost predicate OwnAt(lookup: Lookup, m: Message, route: seq<PathElement>, v: Violation)
    decreases |route|
  {
    if route == [] then v in Own(RulesOf(lookup, m), m)
    else exists x :: ChildOf(m, Some(route[0]), x) && OwnAt(lookup, x, route[1..], v)
  }

  /** The violation as reported from the root: the route in front of its own path. */
  function Routed(route: seq<PathElement>, v: Violation): Violation { v.(field := route + v.field) }

  /** Every reported path is the root-to-leaf route, one element per message on the way, then
      the path the rule itself gave. */
  lemma {:induction false} PathsAreRoutes(lookup: Lookup, m: Message, v: Violation)
    requires v in AllViolations(lookup, m) && Walk(lookup, m, FULL).status == Ok
    ensures exists route, own :: OwnAt(lookup, m, route, own) && v == Routed(route, own)
    decreases m, 2, 0
  {
    FieldsBelow(m.fields, m);
    if v in Own(RulesOf(lookup, m), m) {
      assert [] + v.field == v.field;
      assert OwnAt(lookup, m, [], v) && v == Routed([], v);
    } else {
      RulesThenChildren(lookup, m, RulesOf(lookup, m));
      var route, own := ChildRoutes(lookup, m, Children(m), v);
    }
  }

  lemma {:induction false} RulesThenChildren(lookup: Lookup, m: Message, rules: seq<Rule>)
    requires WalkRules(lookup, m, rules, FULL).status == Ok
    ensures Below(Children(m), m) && WalkChildren(lookup, m, Children(m), FULL).status == Ok
    decreases |rules|
  {
    hide RunRule;
    FieldsBelow(m.fields, m);
    if rules != [] {
      RulesThenChildren(lookup, m, rules[1..]);
    }
  }

  lemma StepRoute(lookup: Lookup, m: Message, e: PathElement, x: Message, r: seq<PathElement>, v: Violation)
    requires Child(Some(e), x) in Children(m) && OwnAt(lookup, x, r, v)
    ensures OwnAt(lookup, m, [e] + r, v)
  {
    var route := [e] + r;
    hide Children, ChildOf;
    ChildIff(m);
    assert route[1..] == r && ChildOf(m, Some(route[0]), x);
  }

  lemma {:induction false} ChildRoutes(lookup: Lookup, m: Message, cs: seq<Child>, v: Violation)
    returns (route: seq<PathElement>, own: Violation)
    requires Below(cs, m) && v in ChildViolations(lookup, m, cs) && WalkChildren(lookup, m, cs, FULL).status == Ok
    requires forall c | c in cs :: c in Children(m)
    ensures OwnAt(lookup, m, route, own) && v == Routed(route, own)
    decreases m, 0, |cs|
  {
    hide Walk, AllViolations, Children, ChildOf, Own, RulesOf, OwnAt;
    var e, x := cs[0].element, cs[0].message;
    var inner := AllViolations(lookup, x);
    assert Walk(lookup, x, FULL).status == Ok;
    FullRun(lookup, x);
    if v in Under(e, inner) {
      assert e.Some?;
      var i :| 0 <= i < |inner| && v == Prefixed(e.value)(inner[i]);
      PathsAreRoutes(lookup, x, inner[i]);
      var r, o :| OwnAt(lookup, x, r, o) && inner[i] == Routed(r, o);
      route, own := [e.value] + r, o;
      StepRoute(lookup, m, e.value, x, r, o);
      assert [e.value] + (r + o.field) == route + o.field;
    } else {
      route, own := ChildRoutes(lookup, m, cs[1..], v);
    }
  }

  /** Nothing is lost: an own violation at the end of any route is reported under that route. */
  lemma {:induction false} RoutesAreReported(lookup: Lookup, m: Message, route: seq<PathElement>, own: Violation)
    requires OwnAt(lookup, m, route, own)
    ensures Routed(route, own) in AllViolations(lookup, m)
    decreases |route|
  {
    hide Children, ChildOf, Own, RulesOf, ChildViolations;
    ChildrenBelow(m);
    if route == [] {
      assert [] + own.field == own.field;
    } else {
      var x :| ChildOf(m, Some(route[0]), x) && OwnAt(lookup, x, route[1..], own);
      ChildIff(m);
      RoutesAreReported(lookup, x, route[1..], own);
      ChildReported(lookup, m, Children(m), route[0], x, Routed(route[1..], own));
      assert [route[0]] + (route[1..] + own.field) == route + own.field;
    }
  }

  lemma {:induction false} ChildReported(
    lookup: Lookup, m: Message, cs: seq<Child>, e: PathElement, x: Message, v: Violation)
    requires Below(cs, m) && Child(Some(e), x) in cs && v in AllViolations(lookup, x)
    ensures Prefixed(e)(v) in ChildViolations(lookup, m, cs)
    decreases |cs|
  {
    hide AllViolations;
    if cs[0] == Child(Some(e), x) {
      var inner := AllViolations(lookup, x);
      var i :| 0 <= i < |inner| && v == inner[i];
      assert InField(e, inner)[i] == Prefixed(e)(v);
    } else {
      ChildReported(lookup, m, cs[1..], e, x, v);
    }
  }
}
