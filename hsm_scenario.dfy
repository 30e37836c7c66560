// The lifecycle the generated hierarchical machine is driven through by its
// recording host: one flag `foo`, read by the two guards and written by the two
// actions, and one log per callback.

module HsmScenario {
  import opened Wrappers
  import opened Engine
  import opened Hsm

  /** The host's flag after performing `acts`, starting from `init`. */
  function FlagAfter(init: bool, acts: seq<HsmActionId>): bool
    decreases |acts|
  {
    if acts == [] then init
    else FlagAfter(acts[0] == setFooTrue, acts[1..])
  }

  /** The recording host starts with the flag set; only its actions change it. */
  function Foo(calls: seq<HsmCall>): bool
  {
    FlagAfter(true, Performed(calls))
  }

  /** The recording host: `isFooTrue` reads the flag, `isFooFalse` its negation. */
  function FooHost(): Host
  {
    (calls: seq<HsmCall>, st: HsmState, ev: HsmEvent, g: HsmGuardId) =>
      match g
      case isFooTrue => Foo(calls)
      case isFooFalse => !Foo(calls)
  }

  lemma {:induction false} FlagAfterAppend(init: bool, a: seq<HsmActionId>, b: seq<HsmActionId>)
    ensures FlagAfter(init, a + b) == FlagAfter(FlagAfter(init, a), b)
    decreases |a|
  {
    if a != [] {
      assert (a + b)[0] == a[0] && (a + b)[1..] == a[1..] + b;
      FlagAfterAppend(a[0] == setFooTrue, a[1..], b);
    } else {
      assert a + b == b;
    }
  }

  /** What the host observes during one dispatch, and the machine's state after it. */
  datatype Step = Step(
    ev: HsmEvent, exits: seq<HsmState>, entries: seq<HsmState>,
    actions: seq<HsmActionId>, guards: seq<HsmGuardId>, state: HsmState, terminated: bool)

  /** Going from `v` to `r`, the host saw exactly what `st` lists. */
  ghost predicate Observed(v: HsmView, r: HsmView, st: Step)
  {
    && v.calls <= r.calls
    && var d := r.calls[|v.calls|..];
    && Exited(d) == st.exits && Entered(d) == st.entries
    && Performed(d) == st.actions && Asked(d) == st.guards
    && r.state == st.state && r.terminated == st.terminated
  }

  /** Step `k` of the lifecycle after start: G, I, A, D, D, C, E, E, G, I, I,
      TERMINATE, with what the host sees at each. */
  function LifecycleAt(k: nat): Step
    requires k < 12
  {
    match k
    case 0 => Step(G, [s211, s21, s2], [s1, s11], [], [], s11, false)
    case 1 => Step(I, [], [], [], [], s11, false)
    case 2 => Step(A, [s11, s1], [s1, s11], [], [], s11, false)
    case 3 => Step(D, [s11, s1], [s1, s11], [setFooTrue], [isFooTrue, isFooFalse], s11, false)
    case 4 => Step(D, [s11], [s11], [setFooFalse], [isFooTrue], s11, false)
    case 5 => Step(C, [s11, s1], [s2, s21, s211], [], [], s211, false)
    case 6 => Step(E, [s211, s21, s2], [s1, s11], [], [], s11, false)
    case 7 => Step(E, [s11, s1], [s1, s11], [], [], s11, false)
    case 8 => Step(G, [s11, s1], [s2, s21, s211], [], [], s211, false)
    case 9 => Step(I, [], [], [setFooTrue], [isFooFalse], s211, false)
    case 10 => Step(I, [], [], [setFooFalse], [isFooFalse, isFooTrue], s211, false)
    case 11 => Step(TERMINATE, [s211, s21, s2, s], [FinalPseudoState], [], [], FinalPseudoState, true)
  }

  /** Following `next` from view `v` at step `k` on, each step is seen as `seen` says. */
  ghost predicate Follows(next: (HsmView, nat) -> HsmView, seen: (HsmView, HsmView, nat) -> bool,
                          v: HsmView, k: nat)
    requires k <= 12
    decreases 12 - k
  {
    k == 12 || (seen(v, next(v, k), k) && Follows(next, seen, next(v, k), k + 1))
  }

  /** A property kept by every step and holding at step `k` gives the whole run from `k`. */
  lemma {:induction false} FollowsByInduction(next: (HsmView, nat) -> HsmView,
                                              seen: (HsmView, HsmView, nat) -> bool,
                                              ready: (HsmView, nat) -> bool, v: HsmView, k: nat)
    requires k <= 12 && ready(v, k)
    requires forall w: HsmView, j: nat :: j < 12 && ready(w, j) ==> seen(w, next(w, j), j) && ready(next(w, j), j + 1)
    ensures Follows(next, seen, v, k)
    decreases 12 - k
  {
    if k < 12 {
      FollowsByInduction(next, seen, ready, next(v, k), k + 1);
    }
  }

  /** Dispatching the event of step `k` (no step past the last). */
  function NextView(answer: Host): (HsmView, nat) -> HsmView
  {
    (w: HsmView, j: nat) => if j < 12 then DispatchSpec(answer, w, LifecycleAt(j).ev) else w
  }

  /** What the host sees at step `k` is what that step lists. */
  ghost function SeenAsListed(): (HsmView, HsmView, nat) -> bool
  {
    (w: HsmView, r: HsmView, j: nat) => j < 12 && Observed(w, r, LifecycleAt(j))
  }

  /** Dispatching the events of the lifecycle from step `k` on, starting in `v`,
      the host sees at each step exactly what that step lists. */
  ghost predicate FollowsFrom(answer: Host, v: HsmView, k: nat)
    requires k <= 12
  {
    Follows(NextView(answer), SeenAsListed(), v, k)
  }

  /** The flag the host holds before step `k` of the lifecycle. */
  function FooBefore(k: nat): bool
  {
    k == 4 || k == 10
  }

  /** The state the machine is in before step `k` of the lifecycle. */
  function StateBefore(k: nat): HsmState
    requires k < 12
  {
    if k == 0 then s211 else LifecycleAt(k - 1).state
  }

  /** The first candidate of the arm is unguarded, so it is taken. */
  lemma Unguarded(v: HsmView, ev: HsmEvent)
    requires v.started && !v.terminated
    requires |Arm(v.state, ev)| >= 1 && Arm(v.state, ev)[0].guard.None?
    ensures DispatchSpec(FooHost(), v, ev) == Take(Arm(v.state, ev)[0], v, v.calls, ev, FinalPseudoState)
  {
    HandleUnguarded(FooHost(), Arm(v.state, ev), v, ev, FinalPseudoState);
  }

  /** The first candidate's guard holds, so it is taken after one guard call. */
  lemma FirstGuardHolds(v: HsmView, ev: HsmEvent, g: HsmGuardId)
    requires v.started && !v.terminated
    requires |Arm(v.state, ev)| >= 1 && Arm(v.state, ev)[0].guard == Some(g)
    requires FooHost()(v.calls, v.state, ev, g)
    ensures DispatchSpec(FooHost(), v, ev)
      == Take(Arm(v.state, ev)[0], v, v.calls + [Guard(v.state, ev, g, true)], ev, FinalPseudoState)
  {
    HandleGuarded(FooHost(), Arm(v.state, ev), v, ev, FinalPseudoState);
  }

  /** The first guard fails and the second holds; the flag is read twice, unchanged. */
  lemma SecondGuardHolds(v: HsmView, ev: HsmEvent, g0: HsmGuardId, g1: HsmGuardId)
    requires v.started && !v.terminated
    requires |Arm(v.state, ev)| >= 2
    requires Arm(v.state, ev)[0].guard == Some(g0) && Arm(v.state, ev)[1].guard == Some(g1)
    requires !FooHost()(v.calls, v.state, ev, g0)
    requires FooHost()(v.calls, v.state, ev, g1)
    ensures DispatchSpec(FooHost(), v, ev)
      == Take(Arm(v.state, ev)[1], v,
              v.calls + [Guard(v.state, ev, g0, false), Guard(v.state, ev, g1, true)],
              ev, FinalPseudoState)
  {
    var cands := Arm(v.state, ev);
    var c0 := Guard(v.state, ev, g0, false);
    HandleGuarded(FooHost(), cands, v, ev, FinalPseudoState);
    var m := v.(calls := v.calls + [c0]);
    LogsAppend(v.calls, [c0]);
    assert Performed([c0]) == [];
    assert Performed(m.calls) == Performed(v.calls);
    HandleGuarded(FooHost(), cands[1..], m, ev, FinalPseudoState);
    assert m.calls + [Guard(v.state, ev, g1, true)]
      == v.calls + [c0, Guard(v.state, ev, g1, true)];
  }

  lemma SplitAfter(a: seq<HsmCall>, b: seq<HsmCall>, x: seq<HsmCall>)
    requires a + b <= x
    ensures a <= x && x == a + x[|a|..] && x[|a|..] == b + x[|a + b|..]
  {
    assert x[..|a|] == (a + b)[..|a|] == a;
    assert x[|a|..][..|b|] == b;
  }

  /** Taking `c` after the guard calls `gs` shows exactly what `st` lists. */
  ghost predicate Describes(v: HsmView, c: HsmCandidate, gs: seq<HsmCall>, st: Step)
  {
    && Exited(gs) == [] && Entered(gs) == [] && Performed(gs) == [] && Asked(gs) == st.guards
    && st.exits == (if c.target.Goto? then c.exits else [])
    && st.entries == (if c.target.Goto? then c.entries else [])
    && st.actions == c.actions
    && st.state == (if c.target.Goto? then c.target.to else v.state)
    && st.terminated == (v.terminated || (c.target.Goto? && c.target.to == FinalPseudoState))
  }

  /** Taking `c` after the guard calls `gs` adds, past the trace of `v`, the logs `st`
      lists, and lands where `st` says. */
  lemma TakeShows(v: HsmView, c: HsmCandidate, gs: seq<HsmCall>, ev: HsmEvent, st: Step)
    requires Describes(v, c, gs, st)
    ensures var r := Take(c, v, v.calls + gs, ev, FinalPseudoState);
      && v.calls <= r.calls
      && var e := r.calls[|v.calls|..];
      && Exited(e) == st.exits && Entered(e) == st.entries
      && Performed(e) == st.actions && Asked(e) == st.guards
      && r.state == st.state && r.terminated == st.terminated && r.started == v.started
  {
    var r := Take(c, v, v.calls + gs, ev, FinalPseudoState);
    TakeLogs(c, v, v.calls + gs, ev, FinalPseudoState);
    var d := r.calls[|v.calls + gs|..];
    SplitAfter(v.calls, gs, r.calls);
    LogsAppend(gs, d);
  }

  lemma TakeObserved(v: HsmView, c: HsmCandidate, gs: seq<HsmCall>, ev: HsmEvent, st: Step)
    requires Describes(v, c, gs, st)
    ensures var r := Take(c, v, v.calls + gs, ev, FinalPseudoState);
      && Observed(v, r, st) && r.started == v.started
      && Foo(r.calls) == FlagAfter(Foo(v.calls), st.actions)
  {
    var r := Take(c, v, v.calls + gs, ev, FinalPseudoState);
    TakeShows(v, c, gs, ev, st);
    FlagAcross(v.calls, r.calls);
  }

  /** The flag after a longer trace is the flag after its prefix, updated by the
      actions performed since. */
  lemma FlagAcross(x: seq<HsmCall>, y: seq<HsmCall>)
    requires x <= y
    ensures Foo(y) == FlagAfter(Foo(x), Performed(y[|x|..]))
  {
    var e := y[|x|..];
    assert y == x + e;
    LogsAppend(x, e);
    FlagAfterAppend(true, Performed(x), Performed(e));
  }

  /** A step whose first candidate is unguarded. */
  lemma UnguardedObserved(v: HsmView, st: Step)
    requires v.started && !v.terminated
    requires |Arm(v.state, st.ev)| >= 1 && Arm(v.state, st.ev)[0].guard.None?
    requires Describes(v, Arm(v.state, st.ev)[0], [], st)
    ensures var r := DispatchSpec(FooHost(), v, st.ev);
      && Observed(v, r, st) && r.started && Foo(r.calls) == FlagAfter(Foo(v.calls), st.actions)
  {
    Unguarded(v, st.ev);
    assert v.calls + [] == v.calls;
    TakeObserved(v, Arm(v.state, st.ev)[0], [], st.ev, st);
  }

  /** A step whose first candidate's guard `g` holds. */
  lemma FirstGuardObserved(v: HsmView, st: Step, g: HsmGuardId)
    requires v.started && !v.terminated
    requires |Arm(v.state, st.ev)| >= 1 && Arm(v.state, st.ev)[0].guard == Some(g)
    requires FooHost()(v.calls, v.state, st.ev, g)
    requires Describes(v, Arm(v.state, st.ev)[0], [Guard(v.state, st.ev, g, true)], st)
    ensures var r := DispatchSpec(FooHost(), v, st.ev);
      && Observed(v, r, st) && r.started && Foo(r.calls) == FlagAfter(Foo(v.calls), st.actions)
  {
    FirstGuardHolds(v, st.ev, g);
    TakeObserved(v, Arm(v.state, st.ev)[0], [Guard(v.state, st.ev, g, true)], st.ev, st);
  }

  /** A step whose first guard `g0` fails and whose second guard `g1` holds. */
  lemma SecondGuardObserved(v: HsmView, st: Step, g0: HsmGuardId, g1: HsmGuardId)
    requires v.started && !v.terminated
    requires |Arm(v.state, st.ev)| >= 2
    requires Arm(v.state, st.ev)[0].guard == Some(g0) && Arm(v.state, st.ev)[1].guard == Some(g1)
    requires !FooHost()(v.calls, v.state, st.ev, g0)
    requires FooHost()(v.calls, v.state, st.ev, g1)
    requires st.guards == [g0, g1]
    requires Describes(v, Arm(v.state, st.ev)[1], [], st.(guards := []))
    ensures var r := DispatchSpec(FooHost(), v, st.ev);
      && Observed(v, r, st) && r.started && Foo(r.calls) == FlagAfter(Foo(v.calls), st.actions)
  {
    SecondGuardHolds(v, st.ev, g0, g1);
    var a := Guard(v.state, st.ev, g0, false);
    var b := Guard(v.state, st.ev, g1, true);
    LogsAppend([a], [b]);
    assert [a] + [b] == [a, b];
    TakeObserved(v, Arm(v.state, st.ev)[1], [a, b], st.ev, st);
  }

  /** Steps 0 to 2 of the lifecycle: G, I and A, all unguarded. */
  lemma EarlySteps(k: nat, v: HsmView)
    requires k <= 2
    requires v.started && !v.terminated && v.state == StateBefore(k) && Foo(v.calls) == FooBefore(k)
    ensures var r := DispatchSpec(FooHost(), v, LifecycleAt(k).ev);
      && Observed(v, r, LifecycleAt(k)) && r.started && Foo(r.calls) == FooBefore(k + 1)
  {
    if k == 0 {
      UnguardedObserved(v, LifecycleAt(0));
    } else if k == 1 {
      UnguardedObserved(v, LifecycleAt(1));
    } else {
      UnguardedObserved(v, LifecycleAt(2));
    }
  }

  /** Steps 3 and 4 of the lifecycle: the guarded D, twice. */
  lemma GuardedDSteps(k: nat, v: HsmView)
    requires k == 3 || k == 4
    requires v.started && !v.terminated && v.state == StateBefore(k) && Foo(v.calls) == FooBefore(k)
    ensures var r := DispatchSpec(FooHost(), v, LifecycleAt(k).ev);
      && Observed(v, r, LifecycleAt(k)) && r.started && Foo(r.calls) == FooBefore(k + 1)
  {
    if k == 3 {
      SecondGuardObserved(v, LifecycleAt(k), isFooTrue, isFooFalse);
    } else {
      FirstGuardObserved(v, LifecycleAt(k), isFooTrue);
    }
  }

  /** Steps 5 to 8 of the lifecycle: C, E, E and G, all unguarded. */
  lemma MiddleSteps(k: nat, v: HsmView)
    requires 5 <= k <= 8
    requires v.started && !v.terminated && v.state == StateBefore(k) && Foo(v.calls) == FooBefore(k)
    ensures var r := DispatchSpec(FooHost(), v, LifecycleAt(k).ev);
      && Observed(v, r, LifecycleAt(k)) && r.started && Foo(r.calls) == FooBefore(k + 1)
  {
    UnguardedObserved(v, LifecycleAt(k));
  }

  /** Steps 9 to 11 of the lifecycle: the guarded I, twice, then TERMINATE. */
  lemma LateSteps(k: nat, v: HsmView)
    requires 9 <= k <= 11
    requires v.started && !v.terminated && v.state == StateBefore(k) && Foo(v.calls) == FooBefore(k)
    ensures var r := DispatchSpec(FooHost(), v, LifecycleAt(k).ev);
      && Observed(v, r, LifecycleAt(k)) && r.started && Foo(r.calls) == FooBefore(k + 1)
  {
    if k == 9 {
      FirstGuardObserved(v, LifecycleAt(k), isFooFalse);
    } else if k == 10 {
      SecondGuardObserved(v, LifecycleAt(k), isFooFalse, isFooTrue);
    } else {
      UnguardedObserved(v, LifecycleAt(k));
    }
  }

  /** Where the machine and the host's flag stand before step `k`. */
  ghost predicate Before(k: nat, v: HsmView)
    requires k <= 12
  {
    v.started && (k < 12 ==> !v.terminated && v.state == StateBefore(k)) && Foo(v.calls) == FooBefore(k)
  }

  /** Step `k` of the lifecycle, from any trace that leaves the flag as expected. */
  lemma LifecycleStep(k: nat, v: HsmView)
    requires k < 12 && Before(k, v)
    ensures var r := DispatchSpec(FooHost(), v, LifecycleAt(k).ev);
      Observed(v, r, LifecycleAt(k)) && Before(k + 1, r)
  {
    if k <= 2 {
      EarlySteps(k, v);
    } else if k <= 4 {
      GuardedDSteps(k, v);
    } else if k <= 8 {
      MiddleSteps(k, v);
    } else {
      LateSteps(k, v);
    }
  }

  /** The lifecycle from step `k` on, from any view where step `k` may start. */
  lemma LifecycleFrom(k: nat, v: HsmView)
    requires k <= 12 && Before(k, v)
    ensures FollowsFrom(FooHost(), v, k)
  {
    var ready := (w: HsmView, j: nat) => j <= 12 && Before(j, w);
    forall w: HsmView, j: nat | j < 12 && ready(w, j)
      ensures SeenAsListed()(w, NextView(FooHost())(w, j), j) && ready(NextView(FooHost())(w, j), j + 1)
    {
      LifecycleStep(j, w);
    }
    FollowsByInduction(NextView(FooHost()), SeenAsListed(), ready, v, k);
  }

  /** Starting runs the initial action, then enters s, s2, s21 and s211. */
  lemma StartLogs()
    ensures Exited(StartCalls) == [] && Entered(StartCalls) == [s, s2, s21, s211]
    ensures Performed(StartCalls) == [setFooFalse] && Asked(StartCalls) == []
  {
    var a: seq<HsmCall> := [Action(s, DefaultEvent, setFooFalse)];
    var e := EntryCalls<HsmState, HsmEvent, HsmGuardId, HsmActionId>([s, s2, s21, s211]);
    assert StartCalls == a + e;
    LogsAppend(a, e);
    RecordLogs<HsmState, HsmEvent, HsmGuardId, HsmActionId>(s, DefaultEvent, [s, s2, s21, s211], []);
  }

  /** A freshly built machine with the recording host: starting it runs the
      initial action and enters s, s2, s21 and s211, after which the lifecycle
      produces exactly the logs listed step by step, ending in the final
      pseudo-state. */
  lemma DrivesThroughLifecycle()
    ensures var v1 := StartSpec(View(InitialPseudoState, false, false, [], 0));
      && Exited(v1.calls) == [] && Entered(v1.calls) == [s, s2, s21, s211]
      && Performed(v1.calls) == [setFooFalse] && Asked(v1.calls) == []
      && !Foo(v1.calls) && v1.state == s211 && !v1.terminated
      && FollowsFrom(FooHost(), v1, 0)
  {
    var v1 := StartSpec(View(InitialPseudoState, false, false, [], 0));
    assert v1.calls == StartCalls;
    StartLogs();
    LifecycleFrom(0, v1);
  }
}
