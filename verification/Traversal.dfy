/** Which messages the traversal visits, in which order and under which path elements, said of
    the set fields alone. */
module Traversal {
  import opened Wrappers
  import opened Proto
  import opened Violations
  import opened RuleSpec
  import opened WalkSpec

  predicate MessageTyped(f: FieldDescriptor) { f.fieldType in {TypeMessage, TypeGroup} }

  /** A message field whose options, if it has any, set none of the three ignores. */
  predicate Descends(f: FieldDescriptor)
  {
    && MessageTyped(f)
    && (f.options.Some? ==>
          var o := f.options.value; !o.ignoreAlways && !o.itemsIgnoreAlways && !o.valuesIgnoreAlways)
  }

  /** Value `j` of a set field is the message `x`, which the element `e` leads to. */
  predicate HoldsAt(f: Field, j: nat, e: Option<PathElement>, x: Message)
  {
    var d := f.descriptor;
    match (d.shape, f.content)
    case (Single, One(v)) => j == 0 && v == MessageValue(x) && e == Some(FieldElement(d))
    case (Repeated, Many(items)) =>
      j < |items| && items[j] == MessageValue(x) && e == Some(FieldElement(d).(subscript := Index(j)))
    case (MapOf(k, v), Entries(es)) =>
      && MessageTyped(v) && j < |es| && es[j].value == MessageValue(x)
      && e == WithMapKey(FieldElement(d), k, v, es[j].key)
    case _ => false
  }

  /** A place in a message: a set field and one of its values. */
  datatype Place = Place(field: nat, item: nat) {
    predicate Before(p: Place) { field < p.field || (field == p.field && item < p.item) }
  }

  predicate Located(fs: seq<Field>, p: Place, c: Child)
  {
    p.field < |fs| && Descends(fs[p.field].descriptor) && HoldsAt(fs[p.field], p.item, c.element, c.message)
  }

  /** `x` is a child of `m` under the element `e`. */
  ghost predicate ChildOf(m: Message, e: Option<PathElement>, x: Message)
  {
    exists p :: Located(m.fields, p, Child(e, x))
  }

  lemma ChildOfBelow(m: Message)
    ensures forall e, x | ChildOf(m, e, x) :: x < m
  {
    forall e, x | ChildOf(m, e, x) ensures x < m {
      var p :| Located(m.fields, p, Child(e, x));
      var f := m.fields[p.field];
      assert f in m.fields;
      match f.content
      case One(v) => OneInside(m, f, v);
      case Many(items) => ItemInside(m, f, items, p.item);
      case Entries(es) => EntryInside(m, f, es, p.item);
    }
  }

  // ---------------------------------------------------------------- one field

  predicate Increasing(js: seq<nat>) { forall a, b | 0 <= a < b < |js| :: js[a] < js[b] }

  /** `cs` are the messages among the values of `f` from `from` on, at the indices `js`. */
  ghost predicate ListsField(f: Field, from: nat, cs: seq<Child>, js: seq<nat>)
  {
    && |js| == |cs| && Increasing(js)
    && (forall k | 0 <= k < |cs| :: from <= js[k] && HoldsAt(f, js[k], cs[k].element, cs[k].message))
    && forall j: nat, e, x | from <= j && HoldsAt(f, j, e, x) :: j in js
  }

  /** One more value in front. */
  lemma ListsMore(f: Field, from: nat, head: seq<Child>, cs: seq<Child>, js: seq<nat>) returns (all: seq<nat>)
    requires ListsField(f, from + 1, cs, js)
    requires |head| <= 1 && (head == [] ==> forall e, x :: !HoldsAt(f, from, e, x))
    requires head != [] ==> HoldsAt(f, from, head[0].element, head[0].message)
    ensures ListsField(f, from, head + cs, all)
  {
    hide HoldsAt;
    if head == [] {
      all := js;
      assert head + cs == cs;
      forall j: nat, e, x | from <= j && HoldsAt(f, j, e, x) ensures j in all {
        assert j != from;
      }
    } else {
      all := [from] + js;
      assert Increasing(all);
      HeldAll(f, from, head, cs, js);
      forall j: nat, e, x | from <= j && HoldsAt(f, j, e, x) ensures j in all {
        if j == from {
          assert all[0] == j;
        } else {
          assert j in js;
        }
      }
    }
  }

  lemma HeldAll(f: Field, from: nat, head: seq<Child>, cs: seq<Child>, js: seq<nat>)
    requires ListsField(f, from + 1, cs, js) && |head| == 1 && HoldsAt(f, from, head[0].element, head[0].message)
    ensures var all, c := [from] + js, head + cs;
      forall k | 0 <= k < |c| :: from <= all[k] && HoldsAt(f, all[k], c[k].element, c[k].message)
  {
    hide HoldsAt;
    var all, c := [from] + js, head + cs;
    forall k | 0 <= k < |c| ensures from <= all[k] && HoldsAt(f, all[k], c[k].element, c[k].message) {
      if k > 0 {
        assert all[k] == js[k - 1] && c[k] == cs[k - 1];
      }
    }
  }

  lemma {:induction false} ItemPlaces(f: Field, i: nat) returns (js: seq<nat>)
    requires f.descriptor.shape.Repeated? && f.content.Many? && i <= |f.content.items|
    ensures ListsField(f, i, ItemChildren(f.descriptor, f.content.items, i), js)
    decreases |f.content.items| - i
  {
    var items := f.content.items;
    if i == |items| {
      js := [];
    } else {
      js := ItemPlaces(f, i + 1);
      var head := ValueChild(Some(FieldElement(f.descriptor).(subscript := Index(i))), items[i]);
      js := ListsMore(f, i, head, ItemChildren(f.descriptor, items, i + 1), js);
    }
  }

  lemma {:induction false} EntryPlaces(f: Field, i: nat) returns (js: seq<nat>)
    requires f.descriptor.shape.MapOf? && f.content.Entries? && i <= |f.content.entries|
    requires MessageTyped(f.descriptor.shape.value)
    ensures var d := f.descriptor;
      ListsField(f, i, EntryChildren(d, d.shape.key, d.shape.value, f.content.entries[i..]), js)
    decreases |f.content.entries| - i
  {
    var d, es := f.descriptor, f.content.entries;
    if i == |es| {
      js := [];
    } else {
      js := EntryPlaces(f, i + 1);
      var head := ValueChild(WithMapKey(FieldElement(d), d.shape.key, d.shape.value, es[i].key), es[i].value);
      assert es[i..][0] == es[i] && es[i..][1..] == es[i + 1..];
      js := ListsMore(f, i, head, EntryChildren(d, d.shape.key, d.shape.value, es[i + 1..]), js);
    }
  }

  lemma FieldPlaces(f: Field) returns (js: seq<nat>)
    requires Descends(f.descriptor)
    ensures ListsField(f, 0, FieldChildren(f), js)
  {
    js := [];
    match (f.descriptor.shape, f.content)
    case (MapOf(k, v), Entries(es)) =>
      assert es[0..] == es;
      if MessageTyped(v) {
        js := EntryPlaces(f, 0);
      }
    case (Repeated, Many(_)) => js := ItemPlaces(f, 0);
    case (Single, One(v)) =>
      if v.MessageValue? {
        js := [0];
      }
    case _ =>
  }

  // ---------------------------------------------------------------- all fields

  /** `cs` are the children in the fields from `lo` up to `hi`, at the places `ps`. */
  ghost predicate Lists(fs: seq<Field>, lo: nat, hi: nat, cs: seq<Child>, ps: seq<Place>)
  {
    && |ps| == |cs| && (forall a, b | 0 <= a < b < |ps| :: ps[a].Before(ps[b]))
    && (forall k | 0 <= k < |cs| :: lo <= ps[k].field < hi && Located(fs, ps[k], cs[k]))
    && forall p: Place, c | lo <= p.field < hi && Located(fs, p, c) :: p in ps
  }

  lemma {:induction false} FieldsPlaces(fs: seq<Field>, i: nat) returns (ps: seq<Place>)
    requires i <= |fs|
    ensures Lists(fs, i, |fs|, FieldsChildren(fs[i..]), ps)
    decreases |fs| - i
  {
    hide Lists, ListsField, FieldChildren, Descends;
    if i == |fs| {
      ps := NoPlaces(fs);
    } else {
      assert fs[i..][0] == fs[i] && fs[i..][1..] == fs[i + 1..];
      var own := OwnPlaces(fs, i);
      var rest := FieldsPlaces(fs, i + 1);
      JoinPlaces(fs, i, i + 1, |fs|, FieldChildren(fs[i]), own, FieldsChildren(fs[i + 1..]), rest);
      ps := own + rest;
    }
  }

  lemma NoPlaces(fs: seq<Field>) returns (ps: seq<Place>)
    ensures Lists(fs, |fs|, |fs|, [], ps)
  {
    ps := [];
  }

  lemma OwnPlaces(fs: seq<Field>, i: nat) returns (ps: seq<Place>)
    requires i < |fs|
    ensures Lists(fs, i, i + 1, FieldChildren(fs[i]), ps)
  {
    if Descends(fs[i].descriptor) {
      var js := FieldPlaces(fs[i]);
      hide HoldsAt, FieldChildren, Descends;
      ps := seq(|js|, k requires 0 <= k < |js| => Place(i, js[k]));
      forall p: Place, c | i <= p.field < i + 1 && Located(fs, p, c) ensures p in ps {
        assert p.item in js;
        var k :| 0 <= k < |js| && js[k] == p.item;
        assert ps[k] == p;
      }
    } else {
      ps := [];
    }
  }

  lemma JoinPlaces(fs: seq<Field>, lo: nat, mid: nat, hi: nat, a: seq<Child>, pa: seq<Place>, b: seq<Child>,
      pb: seq<Place>)
    requires lo <= mid <= hi && Lists(fs, lo, mid, a, pa) && Lists(fs, mid, hi, b, pb)
    ensures Lists(fs, lo, hi, a + b, pa + pb)
  {
    hide Located;
    var ps, cs := pa + pb, a + b;
    forall k | 0 <= k < |cs| ensures lo <= ps[k].field < hi && Located(fs, ps[k], cs[k]) {
      if k < |pa| {
        assert ps[k] == pa[k] && cs[k] == a[k];
      } else {
        assert ps[k] == pb[k - |pa|] && cs[k] == b[k - |pa|];
      }
    }
    forall p: Place, c | lo <= p.field < hi && Located(fs, p, c) ensures p in ps {
      assert p in pa || p in pb;
    }
  }

  /** The children are exactly the messages at all places that the traversal descends to, each
      once, in the order of the places: field by field, value by value. */
  lemma ChildrenInPlaces(m: Message) returns (ps: seq<Place>)
    ensures Lists(m.fields, 0, |m.fields|, Children(m), ps)
  {
    assert m.fields[0..] == m.fields;
    ps := FieldsPlaces(m.fields, 0);
  }

  /** A message is visited as a child exactly if it is a value of a set message field without
      an ignore. */
  lemma ChildIff(m: Message)
    ensures forall e, x :: Child(e, x) in Children(m) <==> ChildOf(m, e, x)
  {
    hide Children, HoldsAt, Descends;
    var ps := ChildrenInPlaces(m);
    var cs := Children(m);
    forall e, x ensures Child(e, x) in cs <==> ChildOf(m, e, x) {
      if Child(e, x) in cs {
        var k :| 0 <= k < |cs| && cs[k] == Child(e, x);
        assert Located(m.fields, ps[k], Child(e, x));
      }
      if ChildOf(m, e, x) {
        var p :| Located(m.fields, p, Child(e, x));
        assert p in ps;
        var k :| 0 <= k < |ps| && ps[k] == p;
        OneChildAt(m.fields, p, cs[k], Child(e, x));
      }
    }
  }

  lemma OneChildAt(fs: seq<Field>, p: Place, c: Child, c': Child)
    requires Located(fs, p, c) && Located(fs, p, c')
    ensures c == c'
  {
  }
}
