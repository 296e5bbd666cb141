/** The rule cache: which types adding a type visits, when that succeeds, and what is loaded
    then. */
module Factory {
  import opened Wrappers
  import opened Proto
  import opened RuleSpec
  import opened WalkSpec

  /** The message-typed fields of every message type, by type name; the types may be cyclic. */
  type Schema = map<string, seq<string>>

  /** Every entry is what a fresh build of its type gives. */
  ghost predicate Coherent(rules: map<string, Loaded>, build: string -> Loaded)
  {
    forall d | d in rules :: rules[d] == build(d)
  }

  function IsOk(l: Loaded): bool { l.RuleList? }

  /** The types of the message fields of a loaded type are loaded. */
  ghost predicate ClosedAt(rules: map<string, Loaded>, schema: Schema, d: string)
  {
    d in schema && forall k | 0 <= k < |schema[d]| :: schema[d][k] in rules && IsOk(rules[schema[d][k]])
  }

  /** Closed at every loaded type but the ones in `open`. */
  ghost predicate ClosedExcept(rules: map<string, Loaded>, schema: Schema, open: set<string>)
  {
    forall d | d in rules && IsOk(rules[d]) && d !in open :: ClosedAt(rules, schema, d)
  }

  ghost predicate Closed(rules: map<string, Loaded>, schema: Schema) { ClosedExcept(rules, schema, {}) }

  ghost predicate WellFormed(schema: Schema)
  {
    forall d, k | d in schema && 0 <= k < |schema[d]| :: schema[d][k] in schema
  }

  /** `path` leads from `d` through message fields. */
  ghost predicate Path(schema: Schema, path: seq<string>)
  {
    && path != [] && (forall i | 0 <= i < |path| :: path[i] in schema)
    && forall i | 0 <= i < |path| - 1 :: path[i + 1] in schema[path[i]]
  }

  ghost predicate Reachable(schema: Schema, d: string, e: string)
  {
    exists path :: Path(schema, path) && path[0] == d && path[|path| - 1] == e
  }

  /** `path` passes only through types outside `stored` before its last one. */
  ghost predicate Fresh(stored: set<string>, path: seq<string>)
  {
    forall i | 0 <= i < |path| - 1 :: path[i] !in stored
  }

  /** Adding `d` comes to `e`: a path of types not yet stored leads from `d` to `e`, which may
      be stored. */
  ghost predicate Visited(schema: Schema, stored: set<string>, d: string, e: string)
  {
    exists path :: Path(schema, path) && path[0] == d && path[|path| - 1] == e && Fresh(stored, path)
  }

  lemma VisitedSelf(schema: Schema, stored: set<string>, d: string)
    requires d in schema
    ensures Visited(schema, stored, d, d)
  {
    assert Path(schema, [d]) && Fresh(stored, [d]) && [d][0] == d;
  }

  /** Once a field of `d` is added with more types stored, it visits nothing that adding `d`
      does not visit. */
  lemma VisitedField(schema: Schema, stored: set<string>, more: set<string>, d: string, f: string)
    requires d in schema && d !in stored && f in schema[d] && stored <= more
    ensures forall e | Visited(schema, more, f, e) :: Visited(schema, stored, d, e)
  {
    forall e | Visited(schema, more, f, e) ensures Visited(schema, stored, d, e) {
      var path :| Path(schema, path) && path[0] == f && path[|path| - 1] == e && Fresh(more, path);
      var longer := [d] + path;
      assert forall i | 1 <= i < |longer| :: longer[i] == path[i - 1];
      assert Path(schema, longer) && longer[0] == d && longer[|longer| - 1] == e && Fresh(stored, longer);
    }
  }

  lemma VisitedFewer(schema: Schema, stored: set<string>, more: set<string>, d: string)
    requires stored <= more
    ensures forall e | Visited(schema, more, d, e) :: Visited(schema, stored, d, e)
  {
    forall e | Visited(schema, more, d, e) ensures Visited(schema, stored, d, e) {
      var path :| Path(schema, path) && path[0] == d && path[|path| - 1] == e && Fresh(more, path);
      assert Fresh(stored, path);
    }
  }

  /** Adding a stored type visits that type alone. */
  lemma StoredVisits(schema: Schema, stored: set<string>, d: string)
    requires d in stored && d in schema
    ensures forall e :: Visited(schema, stored, d, e) <==> e == d
  {
    VisitedSelf(schema, stored, d);
  }

  lemma ReachableIsVisited(schema: Schema, d: string)
    ensures forall e :: Reachable(schema, d, e) <==> Visited(schema, {}, d, e)
  {
    forall e | Reachable(schema, d, e) ensures Visited(schema, {}, d, e) {
      var path :| Path(schema, path) && path[0] == d && path[|path| - 1] == e;
      assert Fresh({}, path);
    }
  }

  predicate LoadedIn(rules: map<string, Loaded>, e: string) { e in rules && IsOk(rules[e]) }

  /** In a cache closed outside `open`, what a loaded type visits is loaded. */
  lemma {:induction false} PathLoaded(rules: map<string, Loaded>, schema: Schema, open: set<string>, path: seq<string>)
    requires ClosedExcept(rules, schema, open) && Path(schema, path) && Fresh(open, path) && LoadedIn(rules, path[0])
    ensures LoadedIn(rules, path[|path| - 1])
    decreases |path|
  {
    if |path| > 1 {
      var front := path[..|path| - 1];
      PathLoaded(rules, schema, open, front);
      assert path[|path| - 2 + 1] in schema[path[|path| - 2]];
      assert ClosedAt(rules, schema, front[|front| - 1]);
    }
  }

  lemma VisitedLoaded(rules: map<string, Loaded>, schema: Schema, open: set<string>, d: string)
    requires ClosedExcept(rules, schema, open) && LoadedIn(rules, d)
    ensures forall e | Visited(schema, open, d, e) :: LoadedIn(rules, e)
  {
    forall e | Visited(schema, open, d, e) ensures LoadedIn(rules, e) {
      var path :| Path(schema, path) && path[0] == d && path[|path| - 1] == e && Fresh(open, path);
      PathLoaded(rules, schema, open, path);
    }
  }

  /** In a closed cache every type reachable from a loaded one is loaded. */
  lemma ClosedReachable(rules: map<string, Loaded>, schema: Schema, d: string)
    requires Closed(rules, schema) && d in rules && IsOk(rules[d])
    ensures forall e | Reachable(schema, d, e) :: e in rules && IsOk(rules[e])
  {
    ReachableIsVisited(schema, d);
    VisitedLoaded(rules, schema, {}, d);
  }

  /** In a closed cache nothing reachable hides behind a stored type: if all that adding `d`
      visits can be built, so can all that is reachable from `d`. */
  lemma ClosedHidesNothing(rules: map<string, Loaded>, schema: Schema, build: string -> Loaded, d: string)
    requires Closed(rules, schema) && Coherent(rules, build)
    ensures (forall e | Visited(schema, rules.Keys, d, e) :: IsOk(build(e)))
       <==> (forall e | Reachable(schema, d, e) :: IsOk(build(e)))
  {
    ReachableIsVisited(schema, d);
    VisitedFewer(schema, {}, rules.Keys, d);
    if forall e | Visited(schema, rules.Keys, d, e) :: IsOk(build(e)) {
      forall e | Reachable(schema, d, e) ensures IsOk(build(e)) {
        var path :| Path(schema, path) && path[0] == d && path[|path| - 1] == e;
        PathBuilt(rules, schema, build, path);
      }
    }
  }

  lemma {:induction false} PathBuilt(rules: map<string, Loaded>, schema: Schema, build: string -> Loaded,
      path: seq<string>)
    requires Closed(rules, schema) && Coherent(rules, build) && Path(schema, path)
    requires forall e | Visited(schema, rules.Keys, path[0], e) :: IsOk(build(e))
    ensures IsOk(build(path[|path| - 1]))
    ensures LoadedIn(rules, path[|path| - 1]) || forall i | 0 <= i < |path| :: path[i] !in rules
    decreases |path|
  {
    var last := path[|path| - 1];
    if |path| == 1 {
      VisitedSelf(schema, rules.Keys, last);
    } else {
      var front := path[..|path| - 1];
      PathBuilt(rules, schema, build, front);
      assert path[|path| - 2 + 1] in schema[path[|path| - 2]];
      if LoadedIn(rules, front[|front| - 1]) {
        assert ClosedAt(rules, schema, front[|front| - 1]);
      } else {
        assert forall i | 0 <= i < |path| - 1 :: path[i] == front[i];
        assert Fresh(rules.Keys, path);
        assert Visited(schema, rules.Keys, path[0], last);
      }
    }
  }

  /** `after` is what adding `d` to `before` with success leaves. */
  ghost predicate Added(before: map<string, Loaded>, after: map<string, Loaded>, schema: Schema, d: string)
  {
    && (forall e :: e in after <==> e in before || Visited(schema, before.Keys, d, e))
    && (forall e | e in before :: after[e] == before[e])
    && (forall e | Visited(schema, before.Keys, d, e) :: LoadedIn(after, e))
  }

  /** The stored types that are reachable from `d` leave no gap: each of their fields was
      loaded before or is visited. */
  ghost predicate NoGap(before: map<string, Loaded>, schema: Schema, d: string)
  {
    forall x, f | Reachable(schema, d, x) && x in before && x in schema && f in schema[x] ::
      LoadedIn(before, f) || Visited(schema, before.Keys, d, f)
  }

  /** An Add that returned OK from any cache: everything reachable is loaded exactly if every
      reachable type was loaded before or is visited, and exactly if there is no gap. */
  lemma TruthfulOk(before: map<string, Loaded>, after: map<string, Loaded>, schema: Schema, d: string)
    requires WellFormed(schema) && d in schema && Added(before, after, schema, d)
    ensures (forall e | Reachable(schema, d, e) :: LoadedIn(after, e))
       <==> (forall e | Reachable(schema, d, e) :: LoadedIn(before, e) || Visited(schema, before.Keys, d, e))
    ensures (forall e | Reachable(schema, d, e) :: LoadedIn(after, e)) <==> NoGap(before, schema, d)
  {
    hide Reachable, Visited, WellFormed;
    if forall e | Reachable(schema, d, e) :: LoadedIn(after, e) {
      forall x, f | Reachable(schema, d, x) && x in before && x in schema && f in schema[x]
        ensures LoadedIn(before, f) || Visited(schema, before.Keys, d, f)
      {
        ReachableField(schema, d, x, f);
      }
    }
    if NoGap(before, schema, d) {
      forall e | Reachable(schema, d, e) ensures LoadedIn(after, e) {
        GaplessLoaded(before, after, schema, d, e);
      }
    }
  }

  lemma ReachableField(schema: Schema, d: string, x: string, f: string)
    requires WellFormed(schema) && Reachable(schema, d, x) && x in schema && f in schema[x]
    ensures Reachable(schema, d, f)
  {
    var path :| Path(schema, path) && path[0] == d && path[|path| - 1] == x;
    var longer := path + [f];
    assert forall i | 0 <= i < |path| :: longer[i] == path[i];
    assert Path(schema, longer) && longer[0] == d && longer[|longer| - 1] == f;
  }

  lemma GaplessLoaded(before: map<string, Loaded>, after: map<string, Loaded>, schema: Schema, d: string, e: string)
    requires Added(before, after, schema, d) && NoGap(before, schema, d) && Reachable(schema, d, e)
    ensures LoadedIn(after, e)
  {
    var path :| Path(schema, path) && path[0] == d && path[|path| - 1] == e;
    GaplessPath(before, after, schema, path);
  }

  lemma PathReaches(schema: Schema, path: seq<string>)
    requires Path(schema, path)
    ensures Reachable(schema, path[0], path[|path| - 1])
  {
  }

  lemma VisitedNext(schema: Schema, stored: set<string>, d: string, x: string, f: string)
    requires Visited(schema, stored, d, x) && x !in stored && x in schema && f in schema[x] && f in schema
    ensures Visited(schema, stored, d, f)
  {
    var path :| Path(schema, path) && path[0] == d && path[|path| - 1] == x && Fresh(stored, path);
    var longer := path + [f];
    assert forall i | 0 <= i < |path| :: longer[i] == path[i];
    assert Path(schema, longer) && longer[0] == d && longer[|longer| - 1] == f && Fresh(stored, longer);
  }

  lemma {:induction false} GaplessPath(before: map<string, Loaded>, after: map<string, Loaded>, schema: Schema,
      path: seq<string>)
    requires Path(schema, path) && Added(before, after, schema, path[0]) && NoGap(before, schema, path[0])
    ensures LoadedIn(after, path[|path| - 1])
    ensures path[|path| - 1] in before || Visited(schema, before.Keys, path[0], path[|path| - 1])
    decreases |path|
  {
    hide Visited, Reachable;
    var d, last := path[0], path[|path| - 1];
    if |path| == 1 {
      VisitedSelf(schema, before.Keys, d);
    } else {
      var front := path[..|path| - 1];
      var x := front[|front| - 1];
      GaplessPath(before, after, schema, front);
      assert path[|path| - 2 + 1] in schema[path[|path| - 2]];
      if x in before {
        PathReaches(schema, front);
      } else {
        VisitedNext(schema, before.Keys, d, x, last);
      }
    }
  }

  function StatusOf(l: Loaded): Status
  {
    match l case RuleList(_) => Ok case BuildError(reason) => Error(BuildFailed, reason)
  }

  // ---------------------------------------------------------------- adding, as a function

  /** Adding a type: a stored type is left as it is, any other is built and stored and then its
      fields are added in order, up to the first failure. */
  ghost function AddType(schema: Schema, build: string -> Loaded, rules: map<string, Loaded>, d: string)
    : (r: (map<string, Loaded>, Status))
    requires WellFormed(schema) && d in schema
    ensures rules.Keys <= r.0.Keys <= rules.Keys + schema.Keys
    decreases |schema.Keys - rules.Keys|, 0
  {
    if d in rules then (rules, StatusOf(rules[d]))
    else
      var stored := rules[d := build(d)];
      assert schema.Keys - rules.Keys == {d} + (schema.Keys - stored.Keys);
      if IsOk(build(d)) then AddFields(schema, build, stored, schema[d]) else (stored, StatusOf(build(d)))
  }

  ghost function AddFields(schema: Schema, build: string -> Loaded, rules: map<string, Loaded>, ds: seq<string>)
    : (r: (map<string, Loaded>, Status))
    requires WellFormed(schema) && (forall d | d in ds :: d in schema)
    ensures rules.Keys <= r.0.Keys <= rules.Keys + schema.Keys
    decreases |schema.Keys - rules.Keys|, |ds| + 1
  {
    if ds == [] then (rules, Ok)
    else
      var (next, status) := AddType(schema, build, rules, ds[0]);
      if status != Ok then (next, status)
      else
        Fewer(schema.Keys - next.Keys, schema.Keys - rules.Keys);
        AddFields(schema, build, next, ds[1..])
  }

  lemma Fewer(a: set<string>, b: set<string>)
    requires a <= b
    ensures |a| <= |b|
  {
    var rest := b - a;
    assert b == a + rest;
  }

  /** The status is that of a visited type that is stored now and cannot be built. */
  ghost predicate Blamed(rules: map<string, Loaded>, schema: Schema, stored: set<string>, d: string, status: Status)
  {
    exists e :: Visited(schema, stored, d, e) && e in rules && !IsOk(rules[e]) && status == StatusOf(rules[e])
  }

  /** What adding `d` keeps and achieves; `open` are types at which the cache need not be
      closed. */
  ghost predicate AddFacts(schema: Schema, build: string -> Loaded, before: map<string, Loaded>, open: set<string>,
      d: string, after: map<string, Loaded>, status: Status)
  {
    && Coherent(after, build) && (forall e | e in before :: e in after && after[e] == before[e])
    && d in after && (forall e | e in after && e !in before :: Visited(schema, before.Keys, d, e))
    && (status != Ok ==> Blamed(after, schema, before.Keys, d, status))
    && (status == Ok ==> LoadedIn(after, d) && ClosedExcept(after, schema, open))
  }

  /** The same for fields of `d`, which is stored. */
  ghost predicate FieldFacts(schema: Schema, build: string -> Loaded, before: map<string, Loaded>, open: set<string>,
      ds: seq<string>, after: map<string, Loaded>, status: Status)
  {
    && Coherent(after, build) && (forall e | e in before :: e in after && after[e] == before[e])
    && (forall e | e in after && e !in before :: exists f :: f in ds && Visited(schema, before.Keys, f, e))
    && (status != Ok ==> exists f :: f in ds && Blamed(after, schema, before.Keys, f, status))
    && (status == Ok ==> (forall f | f in ds :: LoadedIn(after, f)) && ClosedExcept(after, schema, open))
  }

  lemma {:induction false} AddTypeFacts(schema: Schema, build: string -> Loaded, rules: map<string, Loaded>,
      open: set<string>, d: string)
    requires WellFormed(schema) && d in schema && Coherent(rules, build)
    requires open <= rules.Keys && ClosedExcept(rules, schema, open)
    ensures var (after, status) := AddType(schema, build, rules, d);
      AddFacts(schema, build, rules, open, d, after, status)
    decreases |schema.Keys - rules.Keys|, 0
  {
    hide Visited, AddFields, FieldFacts, AddFacts, ClosedExcept, Coherent;
    var stored := rules[d := build(d)];
    if d in rules {
      StoredFacts(schema, build, rules, open, d);
    } else if !IsOk(build(d)) {
      BrokenFacts(schema, build, rules, open, d);
    } else {
      assert schema.Keys - rules.Keys == {d} + (schema.Keys - stored.Keys);
      StoreOpen(schema, build, rules, open, d);
      AddFieldsFacts(schema, build, stored, open + {d}, schema[d]);
      var (after, status) := AddFields(schema, build, stored, schema[d]);
      TypeFacts(schema, build, rules, open, d, after, status);
    }
  }

  lemma StoredFacts(schema: Schema, build: string -> Loaded, rules: map<string, Loaded>, open: set<string>, d: string)
    requires d in schema && d in rules && Coherent(rules, build) && ClosedExcept(rules, schema, open)
    ensures AddFacts(schema, build, rules, open, d, rules, StatusOf(rules[d]))
  {
    hide Visited;
    VisitedSelf(schema, rules.Keys, d);
  }

  lemma BrokenFacts(schema: Schema, build: string -> Loaded, rules: map<string, Loaded>, open: set<string>, d: string)
    requires d in schema && d !in rules && Coherent(rules, build) && !IsOk(build(d))
    ensures AddFacts(schema, build, rules, open, d, rules[d := build(d)], StatusOf(build(d)))
  {
    hide Visited;
    VisitedSelf(schema, rules.Keys, d);
  }

  lemma StoreOpen(schema: Schema, build: string -> Loaded, rules: map<string, Loaded>, open: set<string>, d: string)
    requires d !in rules && Coherent(rules, build) && ClosedExcept(rules, schema, open)
    ensures var stored := rules[d := build(d)]; Coherent(stored, build) && ClosedExcept(stored, schema, open + {d})
  {
  }

  lemma TypeFacts(schema: Schema, build: string -> Loaded, before: map<string, Loaded>, open: set<string>, d: string,
      after: map<string, Loaded>, status: Status)
    requires WellFormed(schema) && d in schema && d !in before && IsOk(build(d)) && open <= before.Keys
    requires FieldFacts(schema, build, before[d := build(d)], open + {d}, schema[d], after, status)
    ensures AddFacts(schema, build, before, open, d, after, status)
  {
    hide Visited;
    var stored := before[d := build(d)];
    VisitedSelf(schema, before.Keys, d);
    forall f, e | f in schema[d] && Visited(schema, stored.Keys, f, e) ensures Visited(schema, before.Keys, d, e) {
      VisitedField(schema, before.Keys, stored.Keys, d, f);
    }
    if status == Ok {
      assert forall k | 0 <= k < |schema[d]| :: schema[d][k] in schema[d];
      assert ClosedAt(after, schema, d);
    }
  }

  lemma {:induction false} AddFieldsFacts(schema: Schema, build: string -> Loaded, rules: map<string, Loaded>,
      open: set<string>, ds: seq<string>)
    requires WellFormed(schema) && (forall d | d in ds :: d in schema)
    requires Coherent(rules, build) && open <= rules.Keys && ClosedExcept(rules, schema, open)
    ensures var (after, status) := AddFields(schema, build, rules, ds);
      FieldFacts(schema, build, rules, open, ds, after, status)
    decreases |schema.Keys - rules.Keys|, |ds| + 1
  {
    hide Visited, AddType, ClosedExcept, FieldFacts, AddFacts;
    if ds == [] {
      NoFields(schema, build, rules, open);
    } else {
      var (next, status) := AddType(schema, build, rules, ds[0]);
      AddTypeFacts(schema, build, rules, open, ds[0]);
      if status != Ok {
        FirstFails(schema, build, rules, open, ds, next, status);
      } else {
        Fewer(schema.Keys - next.Keys, schema.Keys - rules.Keys);
        FactsOf(schema, build, rules, open, ds[0], next);
        AddFieldsFacts(schema, build, next, open, ds[1..]);
        var (after, last) := AddFields(schema, build, next, ds[1..]);
        JoinFacts(schema, build, rules, open, ds, next, after, last);
      }
    }
  }

  lemma NoFields(schema: Schema, build: string -> Loaded, rules: map<string, Loaded>, open: set<string>)
    requires Coherent(rules, build) && ClosedExcept(rules, schema, open)
    ensures FieldFacts(schema, build, rules, open, [], rules, Ok)
  {
  }

  lemma FactsOf(schema: Schema, build: string -> Loaded, before: map<string, Loaded>, open: set<string>, d: string,
      after: map<string, Loaded>)
    requires AddFacts(schema, build, before, open, d, after, Ok)
    ensures Coherent(after, build) && ClosedExcept(after, schema, open)
  {
  }

  lemma FirstFails(schema: Schema, build: string -> Loaded, before: map<string, Loaded>, open: set<string>,
      ds: seq<string>, after: map<string, Loaded>, status: Status)
    requires ds != [] && status != Ok && AddFacts(schema, build, before, open, ds[0], after, status)
    ensures FieldFacts(schema, build, before, open, ds, after, status)
  {
    hide Visited, Blamed;
    assert ds[0] in ds;
  }

  lemma JoinFacts(schema: Schema, build: string -> Loaded, before: map<string, Loaded>, open: set<string>,
      ds: seq<string>, next: map<string, Loaded>, after: map<string, Loaded>, status: Status)
    requires ds != [] && before.Keys <= next.Keys && AddFacts(schema, build, before, open, ds[0], next, Ok)
    requires FieldFacts(schema, build, next, open, ds[1..], after, status)
    ensures FieldFacts(schema, build, before, open, ds, after, status)
  {
    hide Visited, ClosedExcept;
    assert ds[0] in ds && forall f | f in ds[1..] :: f in ds;
    forall f, e | Visited(schema, next.Keys, f, e) ensures Visited(schema, before.Keys, f, e) {
      VisitedFewer(schema, before.Keys, next.Keys, f);
    }
  }

  /** What adding `d` to a cache promises. */
  ghost predicate AddPromise(schema: Schema, build: string -> Loaded, before: map<string, Loaded>, d: string,
      after: map<string, Loaded>, status: Status)
  {
    && Coherent(after, build) && after.Keys <= before.Keys + schema.Keys && d in after
    // entries stay, and only visited types are stored
    && (forall e | e in before :: e in after && after[e] == before[e])
    && (forall e | e in after && e !in before :: Visited(schema, before.Keys, d, e))
    // OK exactly if all visited types can be built, and then they are all loaded
    && (status == Ok <==> forall e | Visited(schema, before.Keys, d, e) :: IsOk(build(e)))
    && (status == Ok ==> Added(before, after, schema, d))
    && (status != Ok ==> Blamed(after, schema, before.Keys, d, status))
    // wherever the cache was closed it stays closed
    && (status == Ok ==> forall open: set<string> | open <= before.Keys && ClosedExcept(before, schema, open) ::
          ClosedExcept(after, schema, open))
    // from a closed cache: OK exactly if everything reachable can be built, and then it is loaded
    && (Closed(before, schema) ==> (status == Ok <==> forall e | Reachable(schema, d, e) :: IsOk(build(e))))
    && (Closed(before, schema) && status == Ok ==> forall e | Reachable(schema, d, e) :: LoadedIn(after, e))
  }

  lemma AddTypeKeepsPromise(schema: Schema, build: string -> Loaded, before: map<string, Loaded>, d: string)
    requires WellFormed(schema) && d in schema && Coherent(before, build)
    ensures var (after, status) := AddType(schema, build, before, d);
      AddPromise(schema, build, before, d, after, status)
  {
    hide AddType, Visited, Reachable, ClosedExcept, Added;
    var (after, status) := AddType(schema, build, before, d);
    assert ClosedExcept(before, schema, before.Keys) by { OpenEverywhere(before, schema); }
    AddTypeFacts(schema, build, before, before.Keys, d);
    forall open: set<string> | open <= before.Keys && ClosedExcept(before, schema, open)
      ensures status == Ok ==> ClosedExcept(after, schema, open)
    {
      AddTypeFacts(schema, build, before, open, d);
    }
    if status == Ok {
      VisitedLoaded(after, schema, before.Keys, d);
      assert Added(before, after, schema, d) by { AddedAll(before, after, schema, d); }
    }
    if Closed(before, schema) {
      AddTypeFacts(schema, build, before, {}, d);
      ClosedHidesNothing(before, schema, build, d);
      if status == Ok {
        ClosedReachable(after, schema, d);
      }
    }
  }

  lemma PromiseKeeps(schema: Schema, build: string -> Loaded, before: map<string, Loaded>, d: string)
    requires WellFormed(schema) && d in schema && Coherent(before, build)
    ensures Coherent(AddType(schema, build, before, d).0, build)
  {
    hide AddType;
    AddTypeKeepsPromise(schema, build, before, d);
  }

  lemma OpenEverywhere(rules: map<string, Loaded>, schema: Schema)
    ensures ClosedExcept(rules, schema, rules.Keys)
  {
  }

  lemma AddedAll(before: map<string, Loaded>, after: map<string, Loaded>, schema: Schema, d: string)
    requires forall e | e in before :: e in after && after[e] == before[e]
    requires forall e | e in after && e !in before :: Visited(schema, before.Keys, d, e)
    requires forall e | Visited(schema, before.Keys, d, e) :: LoadedIn(after, e)
    ensures Added(before, after, schema, d)
  {
    hide Visited;
  }

  class ValidatorFactory {
    const schema: Schema
    const build: string -> Loaded
    const disableLazyLoading: bool
    var rules: map<string, Loaded>

    constructor (schema: Schema, build: string -> Loaded, disableLazyLoading: bool)
      ensures this.schema == schema && this.build == build && this.disableLazyLoading == disableLazyLoading
      ensures rules == map[] && Coherent(rules, build)
    {
      this.schema, this.build, this.disableLazyLoading := schema, build, disableLazyLoading;
      rules := map[];
    }

    /** What GetMessageRules answers. */
    ghost function Find(d: string): Option<Loaded>
      reads this
    {
      if d in rules then Some(rules[d]) else if disableLazyLoading then None else Some(build(d))
    }

    /** `lookup` is the answer for every type. */
    ghost predicate Answers(lookup: Lookup)
      reads this
    {
      Coherent(rules, build) && forall d :: lookup(d) == Find(d)
    }

    /** With lazy loading every type has an answer, what a fresh build gives; without, exactly
        the stored types have one. */
    lemma AnswersAre(lookup: Lookup)
      requires Answers(lookup)
      ensures !disableLazyLoading ==> forall d :: lookup(d) == Some(build(d))
      ensures disableLazyLoading ==> forall d :: lookup(d).Some? <==> d in rules
      ensures forall d | lookup(d).Some? :: lookup(d) == Some(build(d))
    {
      forall d ensures lookup(d) == Find(d) && (d in rules ==> rules[d] == build(d)) {
      }
    }

    /** Adds the type and, through its message fields, everything it visits, up to the first
        type that cannot be built. */
    method Add(desc: string) returns (status: Status)
      requires WellFormed(schema) && desc in schema
      requires Coherent(rules, build)
      modifies this`rules
      ensures (rules, status) == AddType(schema, build, old(rules), desc)
      ensures AddPromise(schema, build, old(rules), desc, rules, status)
      decreases |schema.Keys - rules.Keys|
    {
      hide AddPromise;
      AddTypeKeepsPromise(schema, build, rules, desc);
      if desc in rules {
        return StatusOf(rules[desc]);
      }
      ghost var before := rules;
      rules := rules[desc := build(desc)];
      assert schema.Keys - before.Keys == {desc} + (schema.Keys - rules.Keys);
      status := StatusOf(rules[desc]);
      if status != Ok {
        return;
      }
      for i := 0 to |schema[desc]|
        invariant Coherent(rules, build) && before.Keys + {desc} <= rules.Keys
        invariant AddType(schema, build, before, desc) == AddFields(schema, build, rules, schema[desc][i..])
      {
        assert schema[desc][i..][0] == schema[desc][i] && schema[desc][i..][1..] == schema[desc][i + 1..];
        Fewer(schema.Keys - rules.Keys, schema.Keys - before.Keys - {desc});
        PromiseKeeps(schema, build, rules, schema[desc][i]);
        status := Add(schema[desc][i]);
        if status != Ok {
          return;
        }
      }
      return Ok;
    }

    /** Looks the type up, building its rules unless lazy loading is disabled. */
    method GetMessageRules(desc: string) returns (r: Option<Loaded>)
      requires Coherent(rules, build)
      modifies this`rules
      ensures desc in old(rules) ==> r == Some(old(rules)[desc]) && rules == old(rules)
      ensures desc !in old(rules) && disableLazyLoading ==> r == None && rules == old(rules)
      ensures desc !in old(rules) && !disableLazyLoading ==>
        desc in rules && r == Some(rules[desc]) && rules.Keys == old(rules).Keys + {desc}
      ensures !disableLazyLoading ==> r == Some(build(desc))
      ensures Coherent(rules, build) && forall d | d in old(rules) :: d in rules && rules[d] == old(rules)[d]
      ensures r == old(Find(desc)) && forall d :: Find(d) == old(Find(d))
    {
      if desc in rules {
        return Some(rules[desc]);
      }
      if disableLazyLoading {
        return None;
      }
      rules := rules[desc := build(desc)];
      return Some(rules[desc]);
    }
  }
}
