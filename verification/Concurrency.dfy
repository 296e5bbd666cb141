/** The factory under concurrent calls: every interleaving of steps that each hold the lock
    once, or run between two holds. */
module Concurrency {
  import opened Wrappers
  import opened Proto
  import opened WalkSpec
  import opened Factory

  /** A fixed configuration: the schema, what building a type gives, lazy loading. */
  datatype Config = Config(schema: Schema, build: string -> Loaded, disableLazyLoading: bool) {
    ghost predicate Valid() { Factory.WellFormed(schema) }
  }

  /** An activation of Add: its type is stored, its field `next` comes next. */
  datatype Frame = Frame(desc: string, next: nat)

  /** Where a thread stands: outside, about to take the lock for a type, looping over fields
      between two holds of the lock, or between the two locks of a lookup. */
  datatype Pc =
    | Idle
    | Entering(root: string, stack: seq<Frame>, desc: string)
    | Looping(root: string, stack: seq<Frame>)
    | Upgrading(desc: string)
  {
    function Frames(): seq<Frame>
    {
      match this case Entering(_, st, _) => st case Looping(_, st) => st case _ => []
    }
  }

  datatype Event = AddReturned(desc: string, status: Status) | Got(desc: string, found: Option<Loaded>)

  datatype State = State(rules: map<string, Loaded>, builds: multiset<string>, threads: map<nat, Pc>, log: seq<Event>) {
    function At(t: nat): Pc { if t in threads then threads[t] else Idle }

    function Move(t: nat, pc: Pc): State { this.(threads := threads[t := pc]) }

    function Return(t: nat, e: Event): State { this.(threads := threads[t := Idle], log := log + [e]) }

    function Store(d: string, l: Loaded): State { this.(rules := rules[d := l], builds := builds + multiset{d}) }
  }

  const EMPTY := State(map[], multiset{}, map[], [])

  datatype Action =
    | CallAdd(t: nat, desc: string)
    | Enter(t: nat)
    | Loop(t: nat)
    | CallGet(t: nat, desc: string)
    | Upgrade(t: nat)

  /** An inner Add returned Ok: the caller goes on with its next field, or there is none. */
  function Resume(s: State, t: nat, root: string, stack: seq<Frame>): State
  {
    if stack == [] then s.Return(t, AddReturned(root, Ok))
    else
      var top := stack[|stack| - 1];
      s.Move(t, Looping(root, stack[..|stack| - 1] + [Frame(top.desc, top.next + 1)]))
  }

  /** The critical section of Add. */
  function EnterStep(c: Config, s: State, t: nat, root: string, stack: seq<Frame>, d: string): State
  {
    if d in s.rules then
      if IsOk(s.rules[d]) then Resume(s, t, root, stack)
      else s.Return(t, AddReturned(root, StatusOf(s.rules[d])))
    else
      var stored := s.Store(d, c.build(d));
      if IsOk(c.build(d)) then stored.Move(t, Looping(root, stack + [Frame(d, 0)]))
      else stored.Return(t, AddReturned(root, StatusOf(c.build(d))))
  }

  /** One turn of the loop over message fields, or the return at its end. */
  function LoopStep(c: Config, s: State, t: nat, root: string, stack: seq<Frame>): State
  {
    if stack == [] || stack[|stack| - 1].desc !in c.schema then s
    else
      var top := stack[|stack| - 1];
      if top.next < |c.schema[top.desc]| then s.Move(t, Entering(root, stack, c.schema[top.desc][top.next]))
      else Resume(s, t, root, stack[..|stack| - 1])
  }

  /** What an action does; an action that is not enabled does nothing. */
  function Step(c: Config, s: State, a: Action): State
  {
    match a
    case CallAdd(t, d) =>
      if s.At(t) == Idle && d in c.schema then s.Move(t, Entering(d, [], d)) else s
    case Enter(t) =>
      (match s.At(t) case Entering(root, stack, d) => EnterStep(c, s, t, root, stack, d) case _ => s)
    case Loop(t) =>
      (match s.At(t) case Looping(root, stack) => LoopStep(c, s, t, root, stack) case _ => s)
    case CallGet(t, d) =>
      if s.At(t) != Idle then s
      else if d in s.rules then s.Return(t, Got(d, Some(s.rules[d])))
      else if c.disableLazyLoading then s.Return(t, Got(d, None))
      else s.Move(t, Upgrading(d))
    case Upgrade(t) =>
      (match s.At(t)
       case Upgrading(d) =>
         if d in s.rules then s.Return(t, Got(d, Some(s.rules[d])))
         else s.Store(d, c.build(d)).Return(t, Got(d, Some(c.build(d))))
       case _ => s)
  }

  /** A run: any sequence of actions of any threads. */
  function Run(c: Config, s: State, actions: seq<Action>): State
    decreases |actions|
  {
    if actions == [] then s else Step(c, Run(c, s, actions[..|actions| - 1]), actions[|actions| - 1])
  }

  // ---------------------------------------------------------------- safety

  /** Each stored type was built exactly once and holds what its build gives; every lookup
      returned what the build of its type gives, or nothing where lazy loading is disabled. */
  ghost predicate Safe(c: Config, s: State)
  {
    && Coherent(s.rules, c.build)
    && (forall d :: s.builds[d] == if d in s.rules then 1 else 0)
    && (forall i | 0 <= i < |s.log| :: SafeEvent(c, s.log[i]))
    && (c.disableLazyLoading ==> forall t | t in s.threads :: !s.threads[t].Upgrading?)
  }

  /** What a lookup returned; what Add returns is the subject of ConcurrentAdd. */
  ghost predicate SafeEvent(c: Config, e: Event)
  {
    match e
    case Got(d, Some(l)) => l == c.build(d)
    case Got(d, None) => c.disableLazyLoading
    case AddReturned(_, _) => true
  }

  lemma MoveSafe(c: Config, s: State, t: nat, pc: Pc)
    requires Safe(c, s) && (c.disableLazyLoading ==> !pc.Upgrading?)
    ensures Safe(c, s.Move(t, pc))
  {
  }

  lemma ReturnSafe(c: Config, s: State, t: nat, e: Event)
    requires Safe(c, s) && SafeEvent(c, e)
    ensures Safe(c, s.Return(t, e))
  {
  }

  lemma StoreSafe(c: Config, s: State, d: string)
    requires Safe(c, s) && d !in s.rules
    ensures Safe(c, s.Store(d, c.build(d)))
  {
  }

  lemma ResumeSafe(c: Config, s: State, t: nat, root: string, stack: seq<Frame>)
    requires Safe(c, s)
    ensures Safe(c, Resume(s, t, root, stack)) && Resume(s, t, root, stack).rules == s.rules
  {
    hide Safe;
    if stack == [] {
      ReturnSafe(c, s, t, AddReturned(root, Ok));
    } else {
      var top := stack[|stack| - 1];
      MoveSafe(c, s, t, Looping(root, stack[..|stack| - 1] + [Frame(top.desc, top.next + 1)]));
    }
  }

  /** The published rules only grow, and what is published stays. */
  ghost predicate Grows(s: State, s': State)
  {
    forall d | d in s.rules :: d in s'.rules && s'.rules[d] == s.rules[d]
  }

  lemma EnterSafe(c: Config, s: State, t: nat, root: string, stack: seq<Frame>, d: string)
    requires Safe(c, s)
    ensures Safe(c, EnterStep(c, s, t, root, stack, d)) && Grows(s, EnterStep(c, s, t, root, stack, d))
  {
    hide Safe, Resume;
    if d in s.rules {
      if IsOk(s.rules[d]) {
        ResumeSafe(c, s, t, root, stack);
      } else {
        ReturnSafe(c, s, t, AddReturned(root, StatusOf(s.rules[d])));
      }
    } else {
      StoreSafe(c, s, d);
      var stored := s.Store(d, c.build(d));
      MoveSafe(c, stored, t, Looping(root, stack + [Frame(d, 0)]));
      ReturnSafe(c, stored, t, AddReturned(root, StatusOf(c.build(d))));
    }
  }

  lemma LoopSafe(c: Config, s: State, t: nat, root: string, stack: seq<Frame>)
    requires Safe(c, s)
    ensures Safe(c, LoopStep(c, s, t, root, stack)) && LoopStep(c, s, t, root, stack).rules == s.rules
  {
    hide Safe, Resume;
    if stack != [] && stack[|stack| - 1].desc in c.schema {
      var top := stack[|stack| - 1];
      if top.next < |c.schema[top.desc]| {
        MoveSafe(c, s, t, Entering(root, stack, c.schema[top.desc][top.next]));
      } else {
        ResumeSafe(c, s, t, root, stack[..|stack| - 1]);
      }
    }
  }

  lemma SafeFacts(c: Config, s: State)
    requires Safe(c, s)
    ensures Coherent(s.rules, c.build) && (c.disableLazyLoading ==> forall t :: !s.At(t).Upgrading?)
  {
  }

  lemma StepSafe(c: Config, s: State, a: Action)
    requires Safe(c, s)
    ensures Safe(c, Step(c, s, a)) && Grows(s, Step(c, s, a))
  {
    hide Safe, EnterStep, LoopStep;
    SafeFacts(c, s);
    match a
    case CallAdd(t, d) => MoveSafe(c, s, t, Entering(d, [], d));
    case Enter(t) =>
      if s.At(t).Entering? {
        EnterSafe(c, s, t, s.At(t).root, s.At(t).stack, s.At(t).desc);
      }
    case Loop(t) =>
      if s.At(t).Looping? {
        LoopSafe(c, s, t, s.At(t).root, s.At(t).stack);
      }
    case CallGet(t, d) =>
      if d in s.rules {
        ReturnSafe(c, s, t, Got(d, Some(s.rules[d])));
      } else if c.disableLazyLoading {
        ReturnSafe(c, s, t, Got(d, None));
      } else {
        MoveSafe(c, s, t, Upgrading(d));
      }
    case Upgrade(t) =>
      if s.At(t).Upgrading? {
        var d := s.At(t).desc;
        if d in s.rules {
          ReturnSafe(c, s, t, Got(d, Some(s.rules[d])));
        } else {
          StoreSafe(c, s, d);
          ReturnSafe(c, s.Store(d, c.build(d)), t, Got(d, Some(c.build(d))));
        }
      }
  }

  lemma {:induction false} RunSafe(c: Config, actions: seq<Action>)
    ensures Safe(c, Run(c, EMPTY, actions))
    decreases |actions|
  {
    if actions != [] {
      RunSafe(c, actions[..|actions| - 1]);
      StepSafe(c, Run(c, EMPTY, actions[..|actions| - 1]), actions[|actions| - 1]);
    }
  }

  /** A published entry never changes, however the run goes on. */
  lemma {:induction false} PublishedForever(c: Config, before: seq<Action>, after: seq<Action>)
    ensures var s, s' := Run(c, EMPTY, before), Run(c, EMPTY, before + after);
      Grows(s, s')
    decreases |after|
  {
    if after == [] {
      assert before + after == before;
    } else {
      var front, a := after[..|after| - 1], after[|after| - 1];
      PublishedForever(c, before, front);
      assert (before + after)[..|before + after| - 1] == before + front;
      RunSafe(c, before + front);
      StepSafe(c, Run(c, EMPTY, before + front), a);
    }
  }

  // ---------------------------------------------------------------- when all calls are done

  predicate LoadedOk(s: State, d: string) { d in s.rules && IsOk(s.rules[d]) }

  /** A stack of activations: each stored, its earlier fields loaded, its current field the
      type of the next activation. */
  ghost predicate GoodStack(c: Config, s: State, stack: seq<Frame>)
  {
    && (forall j | 0 <= j < |stack| :: GoodFrame(c, s, stack[j]))
    && forall j | 0 <= j < |stack| - 1 :: Calls(c, stack[j], stack[j + 1].desc)
  }

  ghost predicate GoodFrame(c: Config, s: State, f: Frame)
  {
    && f.desc in c.schema && f.next <= |c.schema[f.desc]| && LoadedOk(s, f.desc)
    && forall k | 0 <= k < f.next :: LoadedOk(s, c.schema[f.desc][k])
  }

  ghost predicate Calls(c: Config, f: Frame, d: string)
  {
    f.desc in c.schema && f.next < |c.schema[f.desc]| && c.schema[f.desc][f.next] == d
  }

  ghost predicate GoodPc(c: Config, s: State, pc: Pc)
  {
    match pc
    case Idle => true
    case Upgrading(_) => false
    case Looping(_, stack) => stack != [] && GoodStack(c, s, stack)
    case Entering(_, stack, d) =>
      d in c.schema && GoodStack(c, s, stack) && (stack != [] ==> Calls(c, stack[|stack| - 1], d))
  }

  /** Field `k` of `d` is loaded, or the activation that stored `d` has not come to it yet. */
  ghost predicate Handled(c: Config, s: State, d: string, k: nat)
    requires d in c.schema && k < |c.schema[d]|
  {
    LoadedOk(s, c.schema[d][k]) || exists t: nat, j: nat :: Waits(s, t, j, d, k)
  }

  ghost predicate Waits(s: State, t: nat, j: nat, d: string, k: nat)
  {
    t in s.threads && j < |s.threads[t].Frames()| && s.threads[t].Frames()[j].desc == d
        && s.threads[t].Frames()[j].next <= k
  }

  predicate Failed(e: Event) { e.AddReturned? && e.status != Ok }

  predicate AnyFailed(s: State) { exists i :: 0 <= i < |s.log| && Failed(s.log[i]) }

  /** What holds in every state without lazy loading as long as no Add has failed. */
  ghost predicate Progress(c: Config, s: State)
  {
    && (forall t | t in s.threads :: GoodPc(c, s, s.threads[t]))
    && (forall d | LoadedOk(s, d) :: d in c.schema && forall k | 0 <= k < |c.schema[d]| :: Handled(c, s, d, k))
  }

  lemma HandledOne(c: Config, s: State, d: string, k: nat)
    requires Progress(c, s) && LoadedOk(s, d) && d in c.schema && k < |c.schema[d]|
    ensures Handled(c, s, d, k)
  {
  }

  /** A stack stays good while the published rules grow. */
  lemma GoodGrows(c: Config, s: State, s': State, pc: Pc)
    requires GoodPc(c, s, pc) && Grows(s, s')
    ensures GoodPc(c, s', pc)
  {
  }

  /** Every field the frames `old` wait for is loaded or waited for by the frames `now`. */
  ghost predicate Covers(c: Config, s: State, was: seq<Frame>, now: seq<Frame>)
  {
    forall j, k: nat | 0 <= j < |was| && was[j].desc in c.schema && was[j].next <= k < |c.schema[was[j].desc]| ::
      || LoadedOk(s, c.schema[was[j].desc][k])
      || WaitsIn(now, was[j].desc, k)
  }

  ghost predicate WaitsIn(fs: seq<Frame>, d: string, k: nat)
  {
    exists i :: 0 <= i < |fs| && fs[i].desc == d && fs[i].next <= k
  }

  /** A thread moves on, possibly after storing a type it now works on. */
  lemma MoveProgress(c: Config, s: State, s': State, t: nat, pc: Pc, stored: set<string>)
    requires Progress(c, s) && Grows(s, s') && s'.threads == s.threads[t := pc]
    requires GoodPc(c, s', pc) && Covers(c, s', s.At(t).Frames(), pc.Frames())
    requires forall d | LoadedOk(s', d) :: LoadedOk(s, d) || d in stored
    requires forall d | d in stored :: d in c.schema && WaitsIn(pc.Frames(), d, 0)
    ensures Progress(c, s')
  {
    forall u | u in s'.threads ensures GoodPc(c, s', s'.threads[u]) {
      if u != t {
        GoodGrows(c, s, s', s.threads[u]);
      }
    }
    forall d | LoadedOk(s', d) ensures d in c.schema && forall k | 0 <= k < |c.schema[d]| :: Handled(c, s', d, k) {
      if LoadedOk(s, d) {
        forall k | 0 <= k < |c.schema[d]| ensures Handled(c, s', d, k) {
          HandledOne(c, s, d, k);
          StillHandled(c, s, s', t, pc, d, k);
        }
      } else {
        var i :| 0 <= i < |pc.Frames()| && pc.Frames()[i].desc == d && pc.Frames()[i].next <= 0;
        forall k | 0 <= k < |c.schema[d]| ensures Handled(c, s', d, k) {
          assert Waits(s', t, i, d, k);
        }
      }
    }
  }

  lemma StillHandled(c: Config, s: State, s': State, t: nat, pc: Pc, d: string, k: nat)
    requires d in c.schema && k < |c.schema[d]| && Handled(c, s, d, k)
    requires Grows(s, s') && s'.threads == s.threads[t := pc] && Covers(c, s', s.At(t).Frames(), pc.Frames())
    ensures Handled(c, s', d, k)
  {
    if !LoadedOk(s', c.schema[d][k]) {
      var u: nat, j: nat :| Waits(s, u, j, d, k);
      if u == t {
        assert s.At(t).Frames()[j].desc == d;
        var i :| 0 <= i < |pc.Frames()| && pc.Frames()[i].desc == d && pc.Frames()[i].next <= k;
        assert Waits(s', t, i, d, k);
      } else {
        assert Waits(s', u, j, d, k);
      }
    }
  }

  /** The activation on top of `stack` called Add on `d`, which is now loaded. */
  lemma ResumeProgress(c: Config, s: State, t: nat, root: string, stack: seq<Frame>, d: string)
    requires Progress(c, s) && GoodStack(c, s, stack) && LoadedOk(s, d)
    requires stack != [] ==> Calls(c, stack[|stack| - 1], d)
    requires Covers(c, s, s.At(t).Frames(), stack)
    ensures Progress(c, Resume(s, t, root, stack))
  {
    var s' := Resume(s, t, root, stack);
    if stack == [] {
      assert Idle.Frames() == [];
      MoveProgress(c, s, s', t, Idle, {});
    } else {
      var top := stack[|stack| - 1];
      var next := Frame(top.desc, top.next + 1);
      var now := stack[..|stack| - 1] + [next];
      assert GoodFrame(c, s, next);
      CoversNext(c, s, s.At(t).Frames(), stack, now, d);
      MoveProgress(c, s, s', t, Looping(root, now), {});
    }
  }

  lemma CoversNext(c: Config, s: State, was: seq<Frame>, stack: seq<Frame>, now: seq<Frame>, d: string)
    requires stack != [] && Calls(c, stack[|stack| - 1], d) && LoadedOk(s, d) && Covers(c, s, was, stack)
    requires now == stack[..|stack| - 1] + [Frame(stack[|stack| - 1].desc, stack[|stack| - 1].next + 1)]
    ensures Covers(c, s, was, now)
  {
    forall j, k: nat | 0 <= j < |was| && was[j].desc in c.schema && was[j].next <= k < |c.schema[was[j].desc]|
      ensures LoadedOk(s, c.schema[was[j].desc][k]) || WaitsIn(now, was[j].desc, k)
    {
      if !LoadedOk(s, c.schema[was[j].desc][k]) {
        var i :| 0 <= i < |stack| && stack[i].desc == was[j].desc && stack[i].next <= k;
        assert now[i].desc == was[j].desc && now[i].next <= k;
      }
    }
  }

  lemma CoversSelf(c: Config, s: State, fs: seq<Frame>, more: seq<Frame>)
    ensures Covers(c, s, fs, fs + more)
  {
    forall j, k: nat | 0 <= j < |fs| && fs[j].desc in c.schema && fs[j].next <= k < |c.schema[fs[j].desc]|
      ensures WaitsIn(fs + more, fs[j].desc, k)
    {
      assert (fs + more)[j] == fs[j];
    }
  }

  /** A finished activation waits for nothing. */
  lemma CoversPop(c: Config, s: State, stack: seq<Frame>)
    requires stack != [] && stack[|stack| - 1].desc in c.schema
    requires stack[|stack| - 1].next >= |c.schema[stack[|stack| - 1].desc]|
    ensures Covers(c, s, stack, stack[..|stack| - 1])
  {
    var front := stack[..|stack| - 1];
    forall j, k: nat | 0 <= j < |stack| && stack[j].desc in c.schema && stack[j].next <= k < |c.schema[stack[j].desc]|
      ensures WaitsIn(front, stack[j].desc, k)
    {
      assert front[j] == stack[j];
    }
  }

  ghost predicate Sound(c: Config, s: State) { AnyFailed(s) || Progress(c, s) }

  lemma FailedReturn(c: Config, s: State, t: nat, root: string, status: Status)
    requires status != Ok
    ensures Sound(c, s.Return(t, AddReturned(root, status)))
  {
    var s' := s.Return(t, AddReturned(root, status));
    assert Failed(s'.log[|s.log|]);
  }

  lemma EnterProgress(c: Config, s: State, t: nat)
    requires c.Valid() && Progress(c, s) && s.At(t).Entering?
    ensures Sound(c, EnterStep(c, s, t, s.At(t).root, s.At(t).stack, s.At(t).desc))
  {
    hide Progress, GoodStack, AnyFailed;
    var pc := s.At(t);
    GoodAt(c, s, t);
    CoversSelf(c, s, pc.stack, []);
    assert pc.stack + [] == pc.stack;
    if pc.desc in s.rules {
      if IsOk(s.rules[pc.desc]) {
        ResumeProgress(c, s, t, pc.root, pc.stack, pc.desc);
      } else {
        FailedReturn(c, s, t, pc.root, StatusOf(s.rules[pc.desc]));
      }
    } else {
      var stored := s.Store(pc.desc, c.build(pc.desc));
      if IsOk(c.build(pc.desc)) {
        PushProgress(c, s, t, pc.root, pc.stack, pc.desc);
      } else {
        FailedReturn(c, stored, t, pc.root, StatusOf(c.build(pc.desc)));
      }
    }
  }

  lemma GoodAt(c: Config, s: State, t: nat)
    requires Progress(c, s)
    ensures GoodPc(c, s, s.At(t))
  {
  }

  /** A type is stored and a new activation waits for all its fields. */
  lemma PushProgress(c: Config, s: State, t: nat, root: string, stack: seq<Frame>, d: string)
    requires Progress(c, s) && s.At(t) == Entering(root, stack, d) && d !in s.rules && IsOk(c.build(d))
    ensures Progress(c, s.Store(d, c.build(d)).Move(t, Looping(root, stack + [Frame(d, 0)])))
  {
    hide Progress;
    GoodAt(c, s, t);
    var s' := s.Store(d, c.build(d)).Move(t, Looping(root, stack + [Frame(d, 0)]));
    var now := stack + [Frame(d, 0)];
    GoodGrows(c, s, s', s.At(t));
    assert GoodFrame(c, s', Frame(d, 0));
    CoversSelf(c, s', stack, [Frame(d, 0)]);
    assert now[|stack|] == Frame(d, 0);
    MoveProgress(c, s, s', t, Looping(root, now), {d});
  }

  lemma LoopProgress(c: Config, s: State, t: nat)
    requires c.Valid() && Progress(c, s) && s.At(t).Looping?
    ensures Progress(c, LoopStep(c, s, t, s.At(t).root, s.At(t).stack))
  {
    hide Progress;
    GoodAt(c, s, t);
    var root, stack := s.At(t).root, s.At(t).stack;
    var top := stack[|stack| - 1];
    assert GoodFrame(c, s, top);
    if top.next < |c.schema[top.desc]| {
      CoversSelf(c, s, stack, []);
      assert stack + [] == stack;
      var pc := Entering(root, stack, c.schema[top.desc][top.next]);
      assert GoodPc(c, s.Move(t, pc), pc);
      MoveProgress(c, s, s.Move(t, pc), t, pc, {});
    } else {
      var front := stack[..|stack| - 1];
      CoversPop(c, s, stack);
      assert forall j | 0 <= j < |front| - 1 :: Calls(c, front[j], front[j + 1].desc);
      assert front != [] ==> Calls(c, stack[|stack| - 2], stack[|stack| - 2 + 1].desc);
      ResumeProgress(c, s, t, root, front, top.desc);
    }
  }

  lemma StepSound(c: Config, s: State, a: Action)
    requires c.Valid() && c.disableLazyLoading && Safe(c, s) && Sound(c, s)
    ensures Sound(c, Step(c, s, a))
  {
    hide Progress, EnterStep, LoopStep, Safe, AnyFailed;
    SafeFacts(c, s);
    var s' := Step(c, s, a);
    if AnyFailed(s) {
      LogGrows(c, s, a);
      FailedStays(s, s');
    } else {
      match a
      case CallAdd(t, d) =>
        if s.At(t) == Idle && d in c.schema {
          assert GoodPc(c, s', Entering(d, [], d));
          MoveProgress(c, s, s', t, Entering(d, [], d), {});
        }
      case Enter(t) =>
        if s.At(t).Entering? {
          EnterProgress(c, s, t);
        }
      case Loop(t) =>
        if s.At(t).Looping? {
          LoopProgress(c, s, t);
        }
      case CallGet(t, d) =>
        if s.At(t) == Idle {
          MoveProgress(c, s, s', t, Idle, {});
        }
      case Upgrade(t) =>
    }
  }

  lemma LogGrows(c: Config, s: State, a: Action)
    ensures s.log <= Step(c, s, a).log
  {
  }

  lemma FailedStays(s: State, s': State)
    requires AnyFailed(s) && s.log <= s'.log
    ensures AnyFailed(s')
  {
    var i :| 0 <= i < |s.log| && Failed(s.log[i]);
    assert Failed(s'.log[i]);
  }

  lemma {:induction false} RunSound(c: Config, actions: seq<Action>)
    requires c.Valid() && c.disableLazyLoading
    ensures Sound(c, Run(c, EMPTY, actions))
    decreases |actions|
  {
    hide Sound;
    if actions == [] {
      EmptySound(c);
    } else {
      RunSound(c, actions[..|actions| - 1]);
      RunSafe(c, actions[..|actions| - 1]);
      StepSound(c, Run(c, EMPTY, actions[..|actions| - 1]), actions[|actions| - 1]);
    }
  }

  lemma EmptySound(c: Config)
    ensures Sound(c, EMPTY)
  {
  }

  /** Without lazy loading: once every call has returned and no Add has failed, the cache is
      closed, whatever the interleaving was. */
  lemma QuietClosed(c: Config, actions: seq<Action>)
    requires c.Valid() && c.disableLazyLoading
    requires var s := Run(c, EMPTY, actions); !AnyFailed(s) && forall t | t in s.threads :: s.threads[t] == Idle
    ensures Closed(Run(c, EMPTY, actions).rules, c.schema)
  {
    var s := Run(c, EMPTY, actions);
    RunSound(c, actions);
    forall d | d in s.rules && IsOk(s.rules[d]) ensures ClosedAt(s.rules, c.schema, d) {
      assert LoadedOk(s, d);
      forall k | 0 <= k < |c.schema[d]| ensures LoadedOk(s, c.schema[d][k]) {
        HandledOne(c, s, d, k);
      }
    }
  }

  // ---------------------------------------------------------------- what does not hold

  const TWO_TYPES: Schema := map["a" := ["b"], "b" := []]

  lemma RunStep(c: Config, actions: seq<Action>, a: Action)
    ensures Run(c, EMPTY, actions + [a]) == Step(c, Run(c, EMPTY, actions), a)
  {
    assert (actions + [a])[..|actions|] == actions;
  }

  /** The first two steps of adding `a`. */
  lemma FirstStore(c: Config)
    requires c.schema == TWO_TYPES && c.build("a") == RuleList([])
    ensures var s := Run(c, EMPTY, [CallAdd(0, "a")] + [Enter(0)]);
      s.At(0) == Looping("a", [Frame("a", 0)]) && s.At(1) == Idle && s.log == [] && s.rules == map["a" := RuleList([])]
  {
    var a1 := [CallAdd(0, "a")];
    assert [] + a1 == a1 && Run(c, EMPTY, []) == EMPTY;
    hide Run;
    RunStep(c, [], CallAdd(0, "a"));
    RunStep(c, a1, Enter(0));
    assert [] + [Frame("a", 0)] == [Frame("a", 0)];
  }

  /** Calling Add where the type is already stored returns its status at once. */
  lemma AddAgain(c: Config, actions: seq<Action>, t: nat, d: string)
    requires var s := Run(c, EMPTY, actions); d in c.schema && s.At(t) == Idle && LoadedOk(s, d)
    ensures var s, s' := Run(c, EMPTY, actions), Run(c, EMPTY, actions + [CallAdd(t, d)] + [Enter(t)]);
      s'.log == s.log + [AddReturned(d, Ok)] && s'.rules == s.rules
  {
    hide Run;
    RunStep(c, actions, CallAdd(t, d));
    RunStep(c, actions + [CallAdd(t, d)], Enter(t));
  }

  /** While one thread is still adding the fields of a type, another Add of that type returns
      Ok although a type it needs is not loaded. */
  lemma EarlyReturn()
    ensures exists c: Config, actions ::
      && c.Valid() && c.disableLazyLoading && c.schema == TWO_TYPES
      && Run(c, EMPTY, actions).log == [AddReturned("a", Ok)] && "b" !in Run(c, EMPTY, actions).rules
  {
    hide Run;
    var c := Config(TWO_TYPES, _ => RuleList([]), true);
    var a2 := [CallAdd(0, "a")] + [Enter(0)];
    FirstStore(c);
    AddAgain(c, a2, 1, "a");
    assert [] + [AddReturned("a", Ok)] == [AddReturned("a", Ok)];
    assert Run(c, EMPTY, a2 + [CallAdd(1, "a")] + [Enter(1)]).log == [AddReturned("a", Ok)];
  }

  function BrokenInner(): Config
  {
    Config(TWO_TYPES, d => if d == "b" then BuildError("x") else RuleList([]), true)
  }

  /** Adding a type whose only field fails to build. */
  lemma FailInner(c: Config, actions: seq<Action>, root: string)
    requires var s := Run(c, EMPTY, actions);
      && s.At(0) == Entering(root, [Frame("a", 0)], "b") && s.log == [] && "b" !in s.rules && c == BrokenInner()
    ensures var s, s' := Run(c, EMPTY, actions), Run(c, EMPTY, actions + [Enter(0)]);
      s'.At(0) == Idle && s'.log == [AddReturned(root, Error(BuildFailed, "x"))]
          && (LoadedOk(s, "a") ==> LoadedOk(s', "a"))
  {
    hide Run;
    RunStep(c, actions, Enter(0));
    var s := Run(c, EMPTY, actions);
    assert c.build("b") == BuildError("x");
    assert s.log + [AddReturned(root, Error(BuildFailed, "x"))] == [AddReturned(root, Error(BuildFailed, "x"))];
  }

  lemma ReachInner(c: Config)
    requires c == BrokenInner()
    ensures var s := Run(c, EMPTY, [CallAdd(0, "a")] + [Enter(0)] + [Loop(0)]);
      s.At(0) == Entering("a", [Frame("a", 0)], "b") && s.log == [] && "b" !in s.rules && LoadedOk(s, "a")
  {
    hide Run;
    FirstStore(c);
    RunStep(c, [CallAdd(0, "a")] + [Enter(0)], Loop(0));
  }

  /** After an Add failed on an inner type, the same Add again returns Ok. */
  lemma SecondAddSucceeds()
    ensures exists c: Config, actions, reason ::
      && c.Valid() && c.disableLazyLoading && c.schema == TWO_TYPES && c.build("b") == BuildError(reason)
      && Run(c, EMPTY, actions).log == [AddReturned("a", Error(BuildFailed, reason)), AddReturned("a", Ok)]
  {
    hide Run;
    var c := BrokenInner();
    assert c.build("b") == BuildError("x");
    var a3 := [CallAdd(0, "a")] + [Enter(0)] + [Loop(0)];
    var a4 := a3 + [Enter(0)];
    ReachInner(c);
    FailInner(c, a3, "a");
    AddAgain(c, a4, 0, "a");
    assert Run(c, EMPTY, a4 + [CallAdd(0, "a")] + [Enter(0)]).log
        == [AddReturned("a", Error(BuildFailed, "x")), AddReturned("a", Ok)];
  }
}