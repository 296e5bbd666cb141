/** One thread running alone from any moment of any run: its call returns, with the status and
    the cache of the sequential method. */
module SoloRun {
  import opened Wrappers
  import opened Proto
  import opened WalkSpec
  import opened Factory
  import opened Concurrency

  /** Thread `t` alone takes `s` to `s'`. */
  ghost predicate Solo(c: Config, s: State, t: nat, s': State)
  {
    exists steps :: OnlyOf(t, steps) && s' == Run(c, s, steps)
  }

  predicate OnlyOf(t: nat, steps: seq<Action>) { forall i | 0 <= i < |steps| :: steps[i].t == t }

  lemma SoloNone(c: Config, s: State, t: nat)
    ensures Solo(c, s, t, s)
  {
    assert OnlyOf(t, []) && s == Run(c, s, []);
  }

  lemma SoloStep(c: Config, s: State, t: nat, a: Action)
    requires a.t == t
    ensures Solo(c, s, t, Step(c, s, a))
  {
    var steps := [a];
    assert steps[..0] == [];
    assert Run(c, s, []) == s;
    assert OnlyOf(t, steps) && Step(c, s, a) == Run(c, s, steps);
  }

  lemma {:induction false} RunTwice(c: Config, s: State, a: seq<Action>, b: seq<Action>)
    ensures Run(c, Run(c, s, a), b) == Run(c, s, a + b)
    decreases |b|
  {
    if b == [] {
      assert a + b == a;
    } else {
      RunTwice(c, s, a, b[..|b| - 1]);
      assert (a + b)[..|a + b| - 1] == a + b[..|b| - 1];
    }
  }

  lemma SoloTwice(c: Config, s: State, t: nat, s': State, s'': State)
    requires Solo(c, s, t, s') && Solo(c, s', t, s'')
    ensures Solo(c, s, t, s'')
  {
    var a :| OnlyOf(t, a) && s' == Run(c, s, a);
    var b :| OnlyOf(t, b) && s'' == Run(c, s', b);
    RunTwice(c, s, a, b);
    assert OnlyOf(t, a + b);
  }

  /** The state `s'` after the innermost Add of thread `t` came to its end: the cache is `rules`,
      and the caller goes on, or the outermost call returned. */
  ghost predicate Ended(s: State, t: nat, root: string, stack: seq<Frame>, rules: map<string, Loaded>, status: Status,
      s': State)
  {
    && s'.rules == rules
    && var e := if status == Ok then Resume(s, t, root, stack) else s.Return(t, AddReturned(root, status));
       s'.threads == e.threads && s'.log == e.log
  }

  /** What the parts of a configuration must satisfy for a thread to run alone. */
  ghost predicate Ready(c: Config, s: State)
  {
    c.Valid() && Coherent(s.rules, c.build)
  }

  lemma {:induction false} SoloType(c: Config, s: State, t: nat, root: string, stack: seq<Frame>, d: string)
    returns (s': State)
    requires Ready(c, s) && d in c.schema && s.At(t) == Entering(root, stack, d)
    ensures Solo(c, s, t, s')
    ensures var (rules, status) := AddType(c.schema, c.build, s.rules, d); Ended(s, t, root, stack, rules, status, s')
    decreases |c.schema.Keys - s.rules.Keys|, 0
  {
    hide AddType, AddFields, Solo, Coherent, Resume, Step, Ended;
    SoloStep(c, s, t, Enter(t));
    s' := Step(c, s, Enter(t));
    if d in s.rules || !IsOk(c.build(d)) {
      EnterEnds(c, s, t, root, stack, d);
    } else {
      var s1 := s';
      EnterStores(c, s, t, root, stack, d);
      s' := SoloFields(c, s1, t, root, stack, d, 0);
      SoloTwice(c, s, t, s1, s');
      var (rules, status) := AddType(c.schema, c.build, s.rules, d);
      EndedAgain(s, s1, t, s1.At(t), root, stack, rules, status, s');
    }
  }

  /** The critical section ends an Add of a type that is stored or cannot be built. */
  lemma EnterEnds(c: Config, s: State, t: nat, root: string, stack: seq<Frame>, d: string)
    requires Ready(c, s) && d in c.schema && s.At(t) == Entering(root, stack, d)
    requires d in s.rules || !IsOk(c.build(d))
    ensures var (rules, status) := AddType(c.schema, c.build, s.rules, d);
      Ended(s, t, root, stack, rules, status, Step(c, s, Enter(t)))
  {
    hide AddFields, Coherent, Resume;
    ResumeKeeps(s, t, root, stack);
  }

  /** Any other type is stored, and its fields are next. */
  lemma EnterStores(c: Config, s: State, t: nat, root: string, stack: seq<Frame>, d: string)
    requires Ready(c, s) && d in c.schema && s.At(t) == Entering(root, stack, d)
    requires d !in s.rules && IsOk(c.build(d))
    ensures var s' := Step(c, s, Enter(t));
      && s'.rules == s.rules[d := c.build(d)] && s'.log == s.log
      && s'.threads == s.threads[t := Looping(root, stack + [Frame(d, 0)])] && Ready(c, s')
      && |c.schema.Keys - s'.rules.Keys| < |c.schema.Keys - s.rules.Keys|
      && AddType(c.schema, c.build, s.rules, d) == AddFields(c.schema, c.build, s'.rules, c.schema[d][0..])
  {
    hide AddFields, AddType, Coherent, Resume;
    AddTypeStores(c.schema, c.build, s.rules, d);
    CoherentStore(s.rules, c.build, d);
    assert c.schema[d][0..] == c.schema[d];
  }

  lemma AddTypeStores(schema: Schema, build: string -> Loaded, rules: map<string, Loaded>, d: string)
    requires Factory.WellFormed(schema) && d in schema && d !in rules && IsOk(build(d))
    ensures var stored := rules[d := build(d)];
      && AddType(schema, build, rules, d) == AddFields(schema, build, stored, schema[d])
      && |schema.Keys - stored.Keys| < |schema.Keys - rules.Keys|
  {
    hide AddFields;
    var stored := rules[d := build(d)];
    assert schema.Keys - rules.Keys == {d} + (schema.Keys - stored.Keys);
  }

  lemma EndedAgain(s: State, s1: State, t: nat, pc: Pc, root: string, stack: seq<Frame>, rules: map<string, Loaded>,
      status: Status, s': State)
    requires s1.log == s.log && s1.threads == s.threads[t := pc] && Ended(s1, t, root, stack, rules, status, s')
    ensures Ended(s, t, root, stack, rules, status, s')
  {
    hide Resume;
    ThreadsAgain(s, s1, t, pc, root, stack);
  }

  lemma ResumeKeeps(s: State, t: nat, root: string, stack: seq<Frame>)
    ensures Resume(s, t, root, stack).rules == s.rules
  {
  }

  lemma CoherentStore(rules: map<string, Loaded>, build: string -> Loaded, d: string)
    requires Coherent(rules, build) && d !in rules
    ensures Coherent(rules[d := build(d)], build)
  {
  }

  /** Only the thread itself moved, and nothing was logged. */
  lemma ThreadsAgain(s: State, s': State, t: nat, pc: Pc, root: string, stack: seq<Frame>)
    requires s'.log == s.log && s'.threads == s.threads[t := pc]
    ensures Resume(s', t, root, stack).threads == Resume(s, t, root, stack).threads
    ensures Resume(s', t, root, stack).log == Resume(s, t, root, stack).log
    ensures forall e :: s'.Return(t, e).threads == s.Return(t, e).threads && s'.Return(t, e).log == s.Return(t, e).log
  {
    MovedTwice(s.threads, t, pc, Idle);
    if stack != [] {
      var top := stack[|stack| - 1];
      MovedTwice(s.threads, t, pc, Looping(root, stack[..|stack| - 1] + [Frame(top.desc, top.next + 1)]));
    }
  }

  lemma MovedTwice(threads: map<nat, Pc>, t: nat, pc: Pc, next: Pc)
    ensures threads[t := pc][t := next] == threads[t := next]
  {
  }

  lemma {:induction false} SoloFields(c: Config, s: State, t: nat, root: string, stack: seq<Frame>, d: string, k: nat)
    returns (s': State)
    requires Ready(c, s) && d in c.schema && k <= |c.schema[d]|
    requires s.At(t) == Looping(root, stack + [Frame(d, k)])
    ensures Solo(c, s, t, s')
    ensures var (rules, status) := AddFields(c.schema, c.build, s.rules, c.schema[d][k..]);
      Ended(s, t, root, stack, rules, status, s')
    decreases |c.schema.Keys - s.rules.Keys|, |c.schema[d]| - k + 1
  {
    hide AddType, Solo, Coherent;
    var ds, now := c.schema[d], stack + [Frame(d, k)];
    assert now[|now| - 1] == Frame(d, k) && now[..|now| - 1] == stack;
    SoloStep(c, s, t, Loop(t));
    s' := Step(c, s, Loop(t));
    if k < |ds| {
      assert ds[k..][0] == ds[k] && ds[k..][1..] == ds[k + 1..];
      var s1 := SoloType(c, s', t, root, now, ds[k]);
      SoloTwice(c, s, t, s', s1);
      ThreadsAgain(s, s', t, s'.At(t), root, now);
      ThreadsAgain(s, s', t, s'.At(t), root, stack);
      var (next, status) := AddType(c.schema, c.build, s.rules, ds[k]);
      s' := s1;
      if status == Ok {
        PromiseKeeps(c.schema, c.build, s.rules, ds[k]);
        Fewer(c.schema.Keys - next.Keys, c.schema.Keys - s.rules.Keys);
        var s2 := SoloFields(c, s1, t, root, stack, d, k + 1);
        SoloTwice(c, s, t, s1, s2);
        ThreadsAgain(s, s1, t, s1.At(t), root, stack);
        s' := s2;
      }
    }
  }

  /** From any moment of any run, whatever the other threads are in the middle of, a thread
      that calls Add and runs alone returns, with the status and the cache of the sequential
      method on the cache as it is. */
  lemma AddRunsToItsEnd(c: Config, before: seq<Action>, t: nat, d: string) returns (s': State)
    requires c.Valid() && d in c.schema && Run(c, EMPTY, before).At(t) == Idle
    ensures var s := Run(c, EMPTY, before);
      var (rules, status) := AddType(c.schema, c.build, s.rules, d);
      Solo(c, s, t, s') && s'.rules == rules && s'.log == s.log + [AddReturned(d, status)] && s'.At(t) == Idle
  {
    hide AddType, Run, Solo, Coherent;
    var s := Run(c, EMPTY, before);
    RunSafe(c, before);
    var s1 := Step(c, s, CallAdd(t, d));
    SoloStep(c, s, t, CallAdd(t, d));
    s' := SoloType(c, s1, t, d, [], d);
    SoloTwice(c, s, t, s1, s');
  }

  /** A thread that looks a type up and runs alone does what the sequential method does. */
  lemma LookupRunsToItsEnd(c: Config, before: seq<Action>, t: nat, d: string) returns (s': State)
    requires Run(c, EMPTY, before).At(t) == Idle
    ensures var s := Run(c, EMPTY, before);
      && Solo(c, s, t, s') && s'.At(t) == Idle
      && (d in s.rules ==> s'.rules == s.rules && s'.log == s.log + [Got(d, Some(s.rules[d]))])
      && (d !in s.rules && c.disableLazyLoading ==> s'.rules == s.rules && s'.log == s.log + [Got(d, None)])
      && (d !in s.rules && !c.disableLazyLoading ==>
            s'.rules == s.rules[d := c.build(d)] && s'.log == s.log + [Got(d, Some(c.build(d)))])
  {
    hide Run, Solo;
    var s := Run(c, EMPTY, before);
    SoloStep(c, s, t, CallGet(t, d));
    s' := Step(c, s, CallGet(t, d));
    if d !in s.rules && !c.disableLazyLoading {
      var s1 := s';
      SoloStep(c, s1, t, Upgrade(t));
      s' := Step(c, s1, Upgrade(t));
      SoloTwice(c, s, t, s1, s');
    }
  }
}
