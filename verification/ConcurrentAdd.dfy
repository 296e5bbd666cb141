/** What concurrent calls of Add return, under every interleaving, with or without lazy
    loading. */
module ConcurrentAdd {
  import opened Wrappers
  import opened Proto
  import opened WalkSpec
  import opened Factory
  import opened Concurrency

  /** OK means that the type is loaded; an error is that of a stored type reachable from it. */
  ghost predicate Truthful(c: Config, s: State, e: Event)
  {
    match e
    case Got(_, _) => true
    case AddReturned(d, status) => if status == Ok then LoadedOk(s, d) else exists x :: Blames(c, s, d, status, x)
  }

  ghost predicate Blames(c: Config, s: State, d: string, status: Status, x: string)
  {
    Reachable(c.schema, d, x) && x in s.rules && !IsOk(s.rules[x]) && status == StatusOf(s.rules[x])
  }

  /** The activations of a call on `root`: the first is on `root`, which is loaded, and all are
      on types reachable from it. */
  ghost predicate Rooted(c: Config, s: State, root: string, stack: seq<Frame>)
  {
    && stack != [] && stack[0].desc == root && LoadedOk(s, root)
    && forall j | 0 <= j < |stack| :: stack[j].desc in c.schema && Reachable(c.schema, root, stack[j].desc)
  }

  ghost predicate CallOk(c: Config, s: State, pc: Pc)
  {
    match pc
    case Idle => true
    case Upgrading(_) => true
    case Looping(root, stack) => Rooted(c, s, root, stack)
    case Entering(root, stack, d) =>
      && d in c.schema && Reachable(c.schema, root, d)
      && (if stack == [] then d == root else Rooted(c, s, root, stack))
  }

  ghost predicate CallsOk(c: Config, s: State)
  {
    && (forall t | t in s.threads :: CallOk(c, s, s.threads[t]))
    && forall i | 0 <= i < |s.log| :: Truthful(c, s, s.log[i])
  }

  lemma Kept(c: Config, s: State, s': State)
    requires Grows(s, s')
    ensures forall pc | CallOk(c, s, pc) :: CallOk(c, s', pc)
    ensures forall e | Truthful(c, s, e) :: Truthful(c, s', e)
  {
    hide Reachable;
    forall e | Truthful(c, s, e) ensures Truthful(c, s', e) {
      if e.AddReturned? && e.status != Ok {
        var x :| Blames(c, s, e.desc, e.status, x);
        assert Blames(c, s', e.desc, e.status, x);
      }
    }
  }

  /** A thread moves on and perhaps logs an event. */
  lemma Moved(c: Config, s: State, s': State, t: nat, pc: Pc, events: seq<Event>)
    requires CallsOk(c, s) && Grows(s, s') && s'.threads == s.threads[t := pc] && s'.log == s.log + events
    requires CallOk(c, s', pc) && forall i | 0 <= i < |events| :: Truthful(c, s', events[i])
    ensures CallsOk(c, s')
  {
    hide CallOk, Truthful, Grows;
    Kept(c, s, s');
  }

  lemma ResumeOk(c: Config, s: State, s': State, t: nat, root: string, stack: seq<Frame>)
    requires CallsOk(c, s) && s' == Resume(s, t, root, stack)
    requires LoadedOk(s, root) && (stack != [] ==> Rooted(c, s, root, stack))
    ensures CallsOk(c, s')
  {
    hide CallsOk, Reachable;
    if stack == [] {
      Moved(c, s, s', t, Idle, [AddReturned(root, Ok)]);
    } else {
      var top := stack[|stack| - 1];
      var now := stack[..|stack| - 1] + [Frame(top.desc, top.next + 1)];
      assert forall j | 0 <= j < |now| :: now[j].desc == stack[j].desc;
      Moved(c, s, s', t, Looping(root, now), []);
    }
  }

  lemma EnterOk(c: Config, s: State, t: nat)
    requires CallsOk(c, s) && s.At(t).Entering?
    ensures CallsOk(c, EnterStep(c, s, t, s.At(t).root, s.At(t).stack, s.At(t).desc))
  {
    hide CallsOk, Reachable, Resume;
    AtOk(c, s, t);
    var root, stack, d := s.At(t).root, s.At(t).stack, s.At(t).desc;
    var s' := EnterStep(c, s, t, root, stack, d);
    if d in s.rules && IsOk(s.rules[d]) {
      ResumeOk(c, s, s', t, root, stack);
    } else if d in s.rules || !IsOk(c.build(d)) {
      var status := StatusOf(s'.rules[d]);
      assert Blames(c, s', root, status, d);
      Moved(c, s, s', t, Idle, [AddReturned(root, status)]);
    } else {
      var now := stack + [Frame(d, 0)];
      assert forall j | 0 <= j < |now| :: now[j].desc == if j < |stack| then stack[j].desc else d;
      Moved(c, s, s', t, Looping(root, now), []);
    }
  }

  lemma AtOk(c: Config, s: State, t: nat)
    requires CallsOk(c, s)
    ensures CallOk(c, s, s.At(t))
  {
  }

  lemma LoopOk(c: Config, s: State, t: nat)
    requires c.Valid() && CallsOk(c, s) && s.At(t).Looping?
    ensures CallsOk(c, LoopStep(c, s, t, s.At(t).root, s.At(t).stack))
  {
    hide CallsOk, Reachable, Resume;
    AtOk(c, s, t);
    var root, stack := s.At(t).root, s.At(t).stack;
    var s' := LoopStep(c, s, t, root, stack);
    var top := stack[|stack| - 1];
    if top.next < |c.schema[top.desc]| {
      var d := c.schema[top.desc][top.next];
      ReachableField(c.schema, root, top.desc, d);
      Moved(c, s, s', t, Entering(root, stack, d), []);
    } else {
      ResumeOk(c, s, s', t, root, stack[..|stack| - 1]);
    }
  }

  lemma StepOk(c: Config, s: State, a: Action)
    requires c.Valid() && CallsOk(c, s)
    ensures CallsOk(c, Step(c, s, a))
  {
    hide CallsOk, EnterStep, LoopStep, Reachable;
    var s' := Step(c, s, a);
    match a
    case CallAdd(t, d) =>
      if s.At(t) == Idle && d in c.schema {
        PathReaches(c.schema, [d]);
        Moved(c, s, s', t, Entering(d, [], d), []);
      }
    case Enter(t) =>
      if s.At(t).Entering? {
        EnterOk(c, s, t);
      }
    case Loop(t) =>
      if s.At(t).Looping? {
        LoopOk(c, s, t);
      }
    case CallGet(t, d) =>
      if s.At(t) == Idle {
        if d in s.rules {
          Moved(c, s, s', t, Idle, [Got(d, Some(s.rules[d]))]);
        } else if c.disableLazyLoading {
          Moved(c, s, s', t, Idle, [Got(d, None)]);
        } else {
          Moved(c, s, s', t, Upgrading(d), []);
        }
      }
    case Upgrade(t) =>
      if s.At(t).Upgrading? {
        var d := s.At(t).desc;
        Moved(c, s, s', t, Idle, [Got(d, Some(s'.rules[d]))]);
      }
  }

  lemma {:induction false} RunOk(c: Config, actions: seq<Action>)
    requires c.Valid()
    ensures CallsOk(c, Run(c, EMPTY, actions))
    decreases |actions|
  {
    if actions != [] {
      RunOk(c, actions[..|actions| - 1]);
      StepOk(c, Run(c, EMPTY, actions[..|actions| - 1]), actions[|actions| - 1]);
    }
  }

  /** Whatever the interleaving: an Add that returned OK has its type loaded, and one that
      returned an error gives that of a stored type reachable from it that cannot be built. */
  lemma AddReturnsTruthfully(c: Config, actions: seq<Action>, i: nat)
    requires c.Valid() && i < |Run(c, EMPTY, actions).log| && Run(c, EMPTY, actions).log[i].AddReturned?
    ensures var s := Run(c, EMPTY, actions);
      var AddReturned(d, status) := s.log[i];
      if status == Ok then LoadedOk(s, d) && IsOk(c.build(d))
      else exists x :: Blames(c, s, d, status, x) && !IsOk(c.build(x)) && status == StatusOf(c.build(x))
  {
    hide Reachable;
    var s := Run(c, EMPTY, actions);
    RunOk(c, actions);
    RunSafe(c, actions);
    var AddReturned(d, status) := s.log[i];
    assert Truthful(c, s, s.log[i]);
    if status != Ok {
      var x :| Blames(c, s, d, status, x);
      assert s.rules[x] == c.build(x);
    }
  }

  // ---------------------------------------------------------------- when OK is the whole truth

  /** Some activation still has field `k` of `d` before it. */
  ghost predicate Awaited(s: State, d: string, k: nat)
  {
    exists t: nat, j: nat :: Waits(s, t, j, d, k)
  }

  /** Every field of a reachable type that some activation still waits for is loaded. */
  ghost predicate NothingMissing(c: Config, s: State, root: string)
  {
    forall d, k: nat | Reachable(c.schema, root, d) && d in c.schema && k < |c.schema[d]| && Awaited(s, d, k) ::
      LoadedOk(s, c.schema[d][k])
  }

  /** Without lazy loading and failed Adds, at any moment of any run: what is reachable from a
      loaded type is loaded exactly if nothing is missing that an activation waits for. */
  lemma RootComplete(c: Config, actions: seq<Action>, root: string)
    requires c.Valid() && c.disableLazyLoading
    requires !AnyFailed(Run(c, EMPTY, actions)) && LoadedOk(Run(c, EMPTY, actions), root)
    ensures var s := Run(c, EMPTY, actions);
      (forall e | Reachable(c.schema, root, e) :: LoadedOk(s, e)) <==> NothingMissing(c, s, root)
  {
    hide Reachable, Waits, Progress;
    var s := Run(c, EMPTY, actions);
    RunSound(c, actions);
    if forall e | Reachable(c.schema, root, e) :: LoadedOk(s, e) {
      forall d, k: nat | Reachable(c.schema, root, d) && d in c.schema && k < |c.schema[d]| && Awaited(s, d, k)
        ensures LoadedOk(s, c.schema[d][k])
      {
        ReachableField(c.schema, root, d, c.schema[d][k]);
      }
    }
    if NothingMissing(c, s, root) {
      forall e | Reachable(c.schema, root, e) ensures LoadedOk(s, e) {
        ReachedLoaded(c, s, root, e);
      }
    }
  }

  lemma ReachedLoaded(c: Config, s: State, root: string, e: string)
    requires Progress(c, s) && NothingMissing(c, s, root) && LoadedOk(s, root) && Reachable(c.schema, root, e)
    ensures LoadedOk(s, e)
  {
    hide Progress, NothingMissing;
    var path :| Path(c.schema, path) && path[0] == root && path[|path| - 1] == e;
    WalkLoaded(c, s, path);
  }

  lemma {:induction false} WalkLoaded(c: Config, s: State, path: seq<string>)
    requires Path(c.schema, path) && Progress(c, s) && NothingMissing(c, s, path[0]) && LoadedOk(s, path[0])
    ensures LoadedOk(s, path[|path| - 1])
    decreases |path|
  {
    hide Progress, Reachable, Waits;
    if |path| > 1 {
      var front := path[..|path| - 1];
      var d := front[|front| - 1];
      WalkLoaded(c, s, front);
      PathReaches(c.schema, front);
      assert path[|path| - 2 + 1] in c.schema[path[|path| - 2]];
      var k: nat :| k < |c.schema[d]| && c.schema[d][k] == path[|path| - 1];
      HandledOne(c, s, d, k);
      assert Handled(c, s, d, k) ==> LoadedOk(s, c.schema[d][k]) || Awaited(s, d, k);
    }
  }

  // ---------------------------------------------------------------- after a lookup

  /** The two steps of looking `a` up. */
  lemma LookUp(c: Config)
    requires c.schema == TWO_TYPES && !c.disableLazyLoading && c.build("a") == RuleList([])
    ensures var s := Run(c, EMPTY, [CallGet(0, "a")] + [Upgrade(0)]);
      && s.At(0) == Idle && s.log == [Got("a", Some(RuleList([])))] && s.rules == map["a" := RuleList([])]
  {
    var a1 := [CallGet(0, "a")];
    assert [] + a1 == a1 && Run(c, EMPTY, []) == EMPTY;
    hide Run;
    RunStep(c, [], CallGet(0, "a"));
    RunStep(c, a1, Upgrade(0));
    assert [] + [Got("a", Some(RuleList([])))] == [Got("a", Some(RuleList([])))];
  }

  /** With lazy loading a lookup stores a type alone: adding it afterwards returns OK although
      a type it needs is not loaded. */
  lemma AddAfterLookup()
    ensures exists c: Config, actions ::
      && c.Valid() && !c.disableLazyLoading && c.schema == TWO_TYPES && !AnyFailed(Run(c, EMPTY, actions))
      && AddReturned("a", Ok) in Run(c, EMPTY, actions).log && "b" !in Run(c, EMPTY, actions).rules
  {
    hide Run;
    var c := Config(TWO_TYPES, _ => RuleList([]), false);
    var a2 := [CallGet(0, "a")] + [Upgrade(0)];
    LookUp(c);
    AddAgain(c, a2, 0, "a");
    var s := Run(c, EMPTY, a2 + [CallAdd(0, "a")] + [Enter(0)]);
    assert s.log == [Got("a", Some(RuleList([]))), AddReturned("a", Ok)];
    assert s.log[1] == AddReturned("a", Ok);
    assert c.Valid() && !AnyFailed(s) && "b" !in s.rules;
  }
}
