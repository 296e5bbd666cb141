/** Violations and their paths. The code grows paths leaf first and reverses them at the end;
    the specification writes them root first. */
module Violations {
  import opened Wrappers
  import opened Proto

  datatype Subscript =
    | NoSubscript
    | Index(i: nat)
    | BoolKey(b: bool)
    | IntKey(k: int)
    | UIntKey(u: nat)
    | StringKey(s: string)

  datatype PathElement = PathElement(
    number: Option<nat>, fieldType: Option<FieldType>, name: string,
    keyType: Option<FieldType>, valueType: Option<FieldType>, subscript: Subscript)

  datatype Violation = Violation(
    ruleId: string, message: string, field: seq<PathElement>, rule: seq<PathElement>,
    forKey: bool, fieldValue: Option<ProtoField>, ruleValue: Option<ProtoField>)

  function FieldElement(f: FieldDescriptor): PathElement
  {
    PathElement(Some(f.number), Some(f.fieldType), if f.isExtension then "[" + f.fullName + "]" else f.name,
                None, None, NoSubscript)
  }

  function OneofElement(name: string): PathElement
  {
    PathElement(None, None, name, None, None, NoSubscript)
  }

  /** A field of one of the rule messages, by name. */
  function RuleElement(name: string): PathElement { OneofElement(name) }

  /** setPathElementMapKey: None for a key of a type no map can have. */
  function WithMapKey(e: PathElement, key: FieldDescriptor, value: FieldDescriptor, k: Value): Option<PathElement>
  {
    var typed := e.(keyType := Some(key.fieldType), valueType := Some(value.fieldType));
    match key.fieldType
    case TypeBool => Some(typed.(subscript := BoolKey(k == BoolValue(true))))
    case TypeInt32 | TypeSFixed32 | TypeSInt32 | TypeInt64 | TypeSFixed64 | TypeSInt64 =>
      Some(typed.(subscript := IntKey(if k.IntValue? then k.i else 0)))
    case TypeUInt32 | TypeFixed32 | TypeUInt64 | TypeFixed64 =>
      Some(typed.(subscript := UIntKey(if k.UIntValue? then k.u else 0)))
    case TypeString => Some(typed.(subscript := StringKey(if k.StringValue? then k.s else "")))
    case _ => None
  }

  function Reverse<T>(s: seq<T>): (r: seq<T>)
    ensures |r| == |s|
  {
    if s == [] then [] else Reverse(s[1..]) + [s[0]]
  }

  lemma {:induction false} ReverseConcat<T>(a: seq<T>, b: seq<T>)
    ensures Reverse(a + b) == Reverse(b) + Reverse(a)
  {
    if a == [] {
      assert a + b == b && Reverse(b) + [] == Reverse(b);
    } else {
      ReverseConcat(a[1..], b);
      assert (a + b)[1..] == a[1..] + b;
      assert Reverse(b) + Reverse(a[1..]) + [a[0]] == Reverse(b) + Reverse(a);
    }
  }

  lemma {:induction false} ReverseTwice<T>(s: seq<T>)
    ensures Reverse(Reverse(s)) == s
  {
    if s != [] {
      ReverseTwice(s[1..]);
      ReverseConcat(Reverse(s[1..]), [s[0]]);
      assert [s[0]][1..] == [];
      assert Reverse([s[0]]) == [s[0]];
      assert s == [s[0]] + s[1..];
    }
  }

  function MapAll<T, U>(f: T -> U, s: seq<T>): (r: seq<U>)
    ensures |r| == |s| && forall i | 0 <= i < |s| :: r[i] == f(s[i])
  {
    seq(|s|, i requires 0 <= i < |s| => f(s[i]))
  }

  /** Both paths of a violation turned around. */
  function Turn(v: Violation): Violation
  {
    v.(field := Reverse(v.field), rule := Reverse(v.rule))
  }

  function TurnAll(vs: seq<Violation>): (r: seq<Violation>)
    ensures |r| == |vs|
  {
    MapAll(Turn, vs)
  }

  lemma TurnTwice(vs: seq<Violation>)
    ensures TurnAll(TurnAll(vs)) == vs
  {
    forall i | 0 <= i < |vs| ensures TurnAll(TurnAll(vs))[i] == vs[i] {
      ReverseTwice(vs[i].field);
      ReverseTwice(vs[i].rule);
    }
  }

  lemma TurnConcat(a: seq<Violation>, b: seq<Violation>)
    ensures TurnAll(a + b) == TurnAll(a) + TurnAll(b)
  {
  }

  // ---------------------------------------------------------------- root-first updates

  function Prefixed(e: PathElement): Violation -> Violation { (v: Violation) => v.(field := [e] + v.field) }

  function RulePrefixed(es: seq<PathElement>): Violation -> Violation { (v: Violation) => v.(rule := es + v.rule) }

  function ValueSet(f: ProtoField): Violation -> Violation { (v: Violation) => v.(fieldValue := Some(f)) }

  function RuleValueSet(f: ProtoField): Violation -> Violation { (v: Violation) => v.(ruleValue := Some(f)) }

  function KeySet(): Violation -> Violation { (v: Violation) => v.(forKey := true) }

  /** Root-first: the element in front of every field path. */
  function InField(e: PathElement, vs: seq<Violation>): seq<Violation> { MapAll(Prefixed(e), vs) }

  /** Root-first: the elements in front of every rule path. */
  function InRule(es: seq<PathElement>, vs: seq<Violation>): seq<Violation> { MapAll(RulePrefixed(es), vs) }

  function At(f: ProtoField, vs: seq<Violation>): seq<Violation> { MapAll(ValueSet(f), vs) }

  // ---------------------------------------------------------------- leaf-first updates

  function Appended(e: PathElement): Violation -> Violation { (v: Violation) => v.(field := v.field + [e]) }

  function RuleAppended(es: seq<PathElement>): Violation -> Violation { (v: Violation) => v.(rule := v.rule + es) }

  /** Appending behind a turned path is turning the path with the element in front. */
  lemma TurnPrefixed(e: PathElement, vs: seq<Violation>)
    ensures MapAll(Appended(e), TurnAll(vs)) == TurnAll(InField(e, vs))
  {
    forall i | 0 <= i < |vs| ensures Reverse([e] + vs[i].field) == Reverse(vs[i].field) + [e] {
      ReverseConcat([e], vs[i].field);
      assert [e][1..] == [];
    }
  }

  lemma TurnRulePrefixed(es: seq<PathElement>, vs: seq<Violation>)
    ensures MapAll(RuleAppended(Reverse(es)), TurnAll(vs)) == TurnAll(InRule(es, vs))
  {
    forall i | 0 <= i < |vs| ensures Reverse(es + vs[i].rule) == Reverse(vs[i].rule) + Reverse(es) {
      ReverseConcat(es, vs[i].rule);
    }
  }

  /** Updates that leave the paths alone do not care about the direction. */
  lemma TurnKept(f: Violation -> Violation, vs: seq<Violation>)
    requires forall v: Violation :: f(Turn(v)) == Turn(f(v))
    ensures MapAll(f, TurnAll(vs)) == TurnAll(MapAll(f, vs))
  {
  }

  // ---------------------------------------------------------------- the context

  /** `f` applied to every violation from index `start` on. */
  function From(vs: seq<Violation>, start: nat, f: Violation -> Violation): seq<Violation>
    requires start <= |vs|
  {
    vs[..start] + MapAll(f, vs[start..])
  }

  /** `f` applied to the violations with an index from `start` up to `end`. */
  predicate Updated(now: seq<Violation>, was: seq<Violation>, start: nat, end: nat, f: Violation -> Violation)
  {
    && |now| == |was|
    && forall k | 0 <= k < |was| :: now[k] == if start <= k < end then f(was[k]) else was[k]
  }

  class RuleContext {
    const failFast: bool
    var violations: seq<Violation>

    constructor (failFast: bool)
      ensures this.failFast == failFast && violations == []
    {
      this.failFast := failFast;
      violations := [];
    }

    predicate ShouldReturn(status: Status)
      reads this
    {
      status != Ok || (failFast && violations != [])
    }

    method AppendFieldPathElement(element: PathElement, start: nat)
      requires start <= |violations|
      modifies this
      ensures violations == From(old(violations), start, Appended(element))
    {
      for i := start to |violations|
        invariant Updated(violations, old(violations), start, i, Appended(element))
      {
        violations := violations[i := violations[i].(field := violations[i].field + [element])];
      }
    }

    method AppendRulePathElement(suffix: seq<PathElement>, start: nat)
      requires start <= |violations|
      modifies this
      ensures violations == From(old(violations), start, RuleAppended(suffix))
    {
      for i := start to |violations|
        invariant Updated(violations, old(violations), start, i, RuleAppended(suffix))
      {
        violations := violations[i := violations[i].(rule := violations[i].rule + suffix)];
      }
    }

    method SetFieldValue(field: ProtoField, start: nat)
      requires start <= |violations|
      modifies this
      ensures violations == From(old(violations), start, ValueSet(field))
    {
      for i := start to |violations|
        invariant Updated(violations, old(violations), start, i, ValueSet(field))
      {
        violations := violations[i := violations[i].(fieldValue := Some(field))];
      }
    }

    method SetRuleValue(rule: ProtoField, start: nat)
      requires start <= |violations|
      modifies this
      ensures violations == From(old(violations), start, RuleValueSet(rule))
    {
      for i := start to |violations|
        invariant Updated(violations, old(violations), start, i, RuleValueSet(rule))
      {
        violations := violations[i := violations[i].(ruleValue := Some(rule))];
      }
    }

    method SetForKey(start: nat)
      requires start <= |violations|
      modifies this
      ensures violations == From(old(violations), start, KeySet())
    {
      for i := start to |violations|
        invariant Updated(violations, old(violations), start, i, KeySet())
      {
        violations := violations[i := violations[i].(forKey := true)];
      }
    }

    /** Reverses every path in place. */
    method Finalize()
      modifies this
      ensures violations == TurnAll(old(violations))
    {
      for i := 0 to |violations|
        invariant Updated(violations, old(violations), 0, i, Turn)
      {
        var v := violations[i];
        if v.field != [] {
          v := v.(field := Reverse(v.field));
        }
        if v.rule != [] {
          v := v.(rule := Reverse(v.rule));
        }
        violations := violations[i := v];
      }
    }
  }
}
