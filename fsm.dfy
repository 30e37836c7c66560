// The generated flat state machine: five states in a line, State1 to State5,
// two guarded transitions and two transitions with an action. Every state is
// top-level, so a transition exits exactly its source and enters exactly its
// target.

module Fsm {
  import opened Wrappers
  import opened Engine

  datatype FsmState = InitialPseudoState | State1 | State2 | State3 | State4 | State5 | FinalPseudoState
  datatype FsmEvent = eventA | eventB | eventC | eventD | eventFoo | init
  datatype FsmGuardId = guardA | guardB
  datatype FsmActionId = actionA | actionB

  type FsmCall = Call<FsmState, FsmEvent, FsmGuardId, FsmActionId>
  type FsmView = View<FsmState, FsmEvent, FsmGuardId, FsmActionId>
  type FsmCandidate = Candidate<FsmState, FsmGuardId, FsmActionId>
  /** The host's guard answers: a function of everything it was told before. */
  type Host = (seq<FsmCall>, FsmState, FsmEvent, FsmGuardId) -> bool

  /// The states have no parents: the active configuration is the current state.

  function Parent(x: FsmState): Option<FsmState>
  {
    None
  }

  function Active(x: FsmState): seq<FsmState>
  {
    if x == InitialPseudoState then [] else [x]
  }

  /** Position of a state along the line; the pseudo-states sit at both ends. */
  function Rank(x: FsmState): nat
  {
    match x
    case InitialPseudoState => 0
    case State1 => 1
    case State2 => 2
    case State3 => 3
    case State4 => 4
    case State5 => 5
    case FinalPseudoState => 6
  }

  /// The dispatch table: for each state and event, the candidates in the order
  /// the generated code tries them.

  function Arm(x: FsmState, ev: FsmEvent): seq<FsmCandidate>
  {
    match x
    case State1 =>
      (match ev
       case eventA => [Candidate(None, [State1], [], [State2], Goto(State2))]
       case init => [Candidate(None, [], [], [], Stay)]
       case eventFoo => [Candidate(None, [], [], [], Stay)]
       case _ => [])
    case State2 =>
      if ev == eventB then [Candidate(Some(guardA), [State2], [], [State3], Goto(State3))] else []
    case State3 =>
      if ev == eventC then [Candidate(None, [State3], [actionA], [State4], Goto(State4))] else []
    case State4 =>
      if ev == eventD then [Candidate(Some(guardB), [State4], [actionB], [State5], Goto(State5))] else []
    case State5 =>
      if ev == init then [Candidate(None, [], [], [], Stay)] else []
    case _ => []
  }

  /// What each operation does to the machine and its trace.

  function ResetSpec(v: FsmView): FsmView
  {
    v.(state := InitialPseudoState, started := false, terminated := false, since := |v.calls|)
  }

  function StartSpec(v: FsmView): FsmView
  {
    if v.terminated || v.started then v
    else v.(started := true, state := State1, calls := v.calls + [OnEntry(State1)])
  }

  function DispatchSpec(answer: Host, v: FsmView, ev: FsmEvent): FsmView
  {
    if v.terminated then v
    else
      var v' := StartSpec(v);
      Handle(answer, Arm(v'.state, ev), v', ev, FinalPseudoState)
  }

  /** The machine invariant: the machine never terminates, it is started exactly
      when it has left the initial pseudo-state, and the entry/exit records since
      the last reset, replayed, give the current state. */
  ghost predicate Inv(v: FsmView)
  {
    && v.since <= |v.calls|
    && v.state != FinalPseudoState && !v.terminated
    && (v.started <==> v.state != InitialPseudoState)
    && Replay(Parent, Some([]), v.calls[v.since..]) == Some(Active(v.state))
  }

  /// The invariant, operation by operation.

  lemma ResetEstablishesInv(v: FsmView)
    ensures Inv(ResetSpec(v))
  {
    var r := ResetSpec(v);
    assert r.calls[r.since..] == [];
  }

  lemma StartPreservesInv(v: FsmView)
    requires Inv(v)
    ensures Inv(StartSpec(v))
  {
    if !v.terminated && !v.started {
      var r := StartSpec(v);
      var e: seq<FsmCall> := [OnEntry(State1)];
      assert r.calls[v.since..] == v.calls[v.since..] + e;
      ReplayAppend(Parent, Some([]), v.calls[v.since..], e);
      assert e[1..] == [];
      assert Parent(State1) == None && [State1] + [] == [State1];
      assert ApplyCall(Parent, Some([]), e[0]) == Some([State1]);
    }
  }

  /** Every candidate listed for a state fits the (flat) tree and stays on the line. */
  lemma ArmsFit(x: FsmState, ev: FsmEvent)
    requires x != InitialPseudoState && x != FinalPseudoState
    ensures forall c :: c in Arm(x, ev) ==>
      && Fits(Parent, Active, x, c)
      && (c.target.Goto? ==> c.target.to != InitialPseudoState && c.target.to != FinalPseudoState)
  {
    forall c | c in Arm(x, ev)
      ensures Fits(Parent, Active, x, c)
    {
      if c.target.Goto? {
        var t := c.target.to;
        assert IsChain(Parent, Active(t));
        assert Reverse([t]) == [t];
        assert Active(x)[1..] == [] == Active(t)[1..];
      }
    }
  }

  lemma HandlePreservesInv(answer: Host, v: FsmView, ev: FsmEvent)
    requires Inv(v) && v.started
    ensures Inv(Handle(answer, Arm(v.state, ev), v, ev, FinalPseudoState))
  {
    ArmsFit(v.state, ev);
    HandleKeepsConfiguration(answer, Parent, Active, Arm(v.state, ev), v, ev, FinalPseudoState);
  }

  lemma DispatchPreservesInv(answer: Host, v: FsmView, ev: FsmEvent)
    requires Inv(v)
    ensures Inv(DispatchSpec(answer, v, ev))
  {
    StartPreservesInv(v);
    HandlePreservesInv(answer, StartSpec(v), ev);
  }

  /// The transitions of the table, one by one.

  /** eventA in State1 exits State1, enters State2 and moves there. */
  lemma EventAMovesToState2(answer: Host, v: FsmView)
    requires v.started && !v.terminated && v.state == State1
    ensures DispatchSpec(answer, v, eventA)
      == v.(state := State2, calls := v.calls + [OnExit(State1), OnEntry(State2)])
  {
    var c := Arm(State1, eventA)[0];
    HandleUnguarded(answer, Arm(State1, eventA), v, eventA, FinalPseudoState);
    assert Effects(c, State1, eventA) == [OnExit(State1), OnEntry(State2)];
  }

  /** eventB in State2 asks guardA exactly once; only when it holds does the
      machine exit State2, enter State3 and move there. */
  lemma GuardAChoosesState3(answer: Host, v: FsmView)
    requires v.started && !v.terminated && v.state == State2
    ensures var b := answer(v.calls, State2, eventB, guardA);
      DispatchSpec(answer, v, eventB)
        == v.(state := if b then State3 else State2,
              calls := v.calls + [Guard(State2, eventB, guardA, b)]
                       + (if b then [OnExit(State2), OnEntry(State3)] else []))
  {
    var cands := Arm(State2, eventB);
    HandleGuarded(answer, cands, v, eventB, FinalPseudoState);
    assert Effects(cands[0], State2, eventB) == [OnExit(State2), OnEntry(State3)];
    var b := answer(v.calls, State2, eventB, guardA);
    assert v.calls + [Guard(State2, eventB, guardA, b)] + [] == v.calls + [Guard(State2, eventB, guardA, b)];
  }

  /** eventC in State3 exits State3, then runs actionA (reported against State3),
      then enters State4. */
  lemma EventCRunsActionBetweenExitAndEntry(answer: Host, v: FsmView)
    requires v.started && !v.terminated && v.state == State3
    ensures DispatchSpec(answer, v, eventC)
      == v.(state := State4,
            calls := v.calls + [OnExit(State3), Action(State3, eventC, actionA), OnEntry(State4)])
  {
    var c := Arm(State3, eventC)[0];
    HandleUnguarded(answer, Arm(State3, eventC), v, eventC, FinalPseudoState);
    assert Effects(c, State3, eventC) == [OnExit(State3), Action(State3, eventC, actionA), OnEntry(State4)];
  }

  /** eventD in State4 asks guardB exactly once; only when it holds does the
      machine exit State4, run actionB, enter State5 and move there. */
  lemma GuardBChoosesState5(answer: Host, v: FsmView)
    requires v.started && !v.terminated && v.state == State4
    ensures var b := answer(v.calls, State4, eventD, guardB);
      DispatchSpec(answer, v, eventD)
        == v.(state := if b then State5 else State4,
              calls := v.calls + [Guard(State4, eventD, guardB, b)]
                       + (if b then [OnExit(State4), Action(State4, eventD, actionB), OnEntry(State5)] else []))
  {
    var cands := Arm(State4, eventD);
    HandleGuarded(answer, cands, v, eventD, FinalPseudoState);
    assert Effects(cands[0], State4, eventD)
      == [OnExit(State4), Action(State4, eventD, actionB), OnEntry(State5)];
    var b := answer(v.calls, State4, eventD, guardB);
    assert v.calls + [Guard(State4, eventD, guardB, b)] + [] == v.calls + [Guard(State4, eventD, guardB, b)];
  }

  /** Every other event in a running machine (init and eventFoo in State1, any event
      in State5, and the unlisted events of State2 to State4) changes nothing and
      calls nothing. */
  lemma OtherEventsAreQuiet(answer: Host, v: FsmView, ev: FsmEvent)
    requires v.started && !v.terminated
    requires || (v.state == State1 && ev != eventA)
             || (v.state == State2 && ev != eventB)
             || (v.state == State3 && ev != eventC)
             || (v.state == State4 && ev != eventD)
             || v.state == State5
    ensures DispatchSpec(answer, v, ev) == v
  {
    var cands := Arm(v.state, ev);
    if cands != [] {
      HandleUnguarded(answer, cands, v, ev, FinalPseudoState);
      assert v.calls + [] == v.calls;
    }
  }

  /** From a reachable view, dispatch never terminates the machine, and it moves
      forward along the line by at most one state (starting first if needed). */
  lemma DispatchMovesForwardAtMostOne(answer: Host, v: FsmView, ev: FsmEvent)
    requires Inv(v)
    ensures var r := DispatchSpec(answer, v, ev);
      && !r.terminated
      && Rank(v.state) <= Rank(StartSpec(v).state) <= Rank(r.state) <= Rank(StartSpec(v).state) + 1
  {
    var s := StartSpec(v);
    StartPreservesInv(v);
    ArmsFit(s.state, ev);
    HandleKeepsConfiguration(answer, Parent, Active, Arm(s.state, ev), s, ev, FinalPseudoState);
    ArmsMoveForward(s.state, ev);
  }

  /** Every transition in the table goes to the next state along the line. */
  lemma ArmsMoveForward(x: FsmState, ev: FsmEvent)
    ensures forall c :: c in Arm(x, ev) && c.target.Goto? ==> Rank(c.target.to) == Rank(x) + 1
  {
  }

  /// The machine.

  class FsmMachine {
    /** The host's guard answers. */
    const answer: Host
    /** Every callback the machine has made on its host, in order. */
    var calls: seq<FsmCall>
    var state: FsmState
    var started: bool
    var terminated: bool
    /** Length of `calls` at the last reset. */
    ghost var since: nat

    ghost function View(): FsmView
      reads this
    {
      Engine.View(state, started, terminated, calls, since)
    }

    constructor(host: Host)
      ensures answer == host
      ensures View() == Engine.View(InitialPseudoState, false, false, [], 0)
      ensures Inv(View())
    {
      answer := host;
      calls := [];
      state := InitialPseudoState;
      started := false;
      terminated := false;
      since := 0;
      new;
      Reset();
    }

    method Reset()
      modifies this
      ensures View() == ResetSpec(old(View()))
      ensures Inv(View())
    {
      terminated := false;
      started := false;
      state := InitialPseudoState;
      since := |calls|;
      ResetEstablishesInv(old(View()));
    }

    method Start()
      modifies this
      ensures View() == StartSpec(old(View()))
      ensures old(Inv(View())) ==> Inv(View())
    {
      ghost var v := View();
      if terminated || started {
        return;
      }
      started := true;
      state := State1;
      Enter(State1);
      if Inv(v) {
        StartPreservesInv(v);
      }
    }

    method Dispatch(ev: FsmEvent)
      modifies this
      ensures View() == DispatchSpec(answer, old(View()), ev)
      ensures old(Inv(View())) ==> Inv(View())
    {
      ghost var v := View();
      if terminated {
        return;
      }
      if !started {
        Start();
      }
      DispatchInState(ev);
      if Inv(v) {
        DispatchPreservesInv(answer, v, ev);
      }
    }

    /** The match of the generated dispatcher on the current state; the
        pseudo-states handle nothing. */
    method DispatchInState(ev: FsmEvent)
      modifies this
      ensures View() == Handle(answer, Arm(old(state), ev), old(View()), ev, FinalPseudoState)
    {
      match state
      case State1 => FromState1(ev);
      case State2 => FromState2(ev);
      case State3 => FromState3(ev);
      case State4 => FromState4(ev);
      case State5 => FromState5(ev);
      case InitialPseudoState =>
      case FinalPseudoState =>
    }

    /// The match on the event, one method per state.

    method FromState1(ev: FsmEvent)
      requires state == State1
      modifies this
      ensures View() == Handle(answer, Arm(State1, ev), old(View()), ev, FinalPseudoState)
    {
      match ev
      case eventA =>
        HandleUnguarded(answer, Arm(State1, ev), View(), ev, FinalPseudoState);
        Leave(State1);
        Enter(State2);
        state := State2;
      case init | eventFoo =>
        HandleUnguarded(answer, Arm(State1, ev), View(), ev, FinalPseudoState);
        assert calls + [] == calls;
      case _ =>
    }

    method FromState2(ev: FsmEvent)
      requires state == State2
      modifies this
      ensures View() == Handle(answer, Arm(State2, ev), old(View()), ev, FinalPseudoState)
    {
      if ev == eventB {
        HandleGuarded(answer, Arm(State2, ev), View(), ev, FinalPseudoState);
        var b := Ask(state, ev, guardA);
        if b {
          Leave(State2);
          Enter(State3);
          state := State3;
        }
      }
    }

    method FromState3(ev: FsmEvent)
      requires state == State3
      modifies this
      ensures View() == Handle(answer, Arm(State3, ev), old(View()), ev, FinalPseudoState)
    {
      if ev == eventC {
        HandleUnguarded(answer, Arm(State3, ev), View(), ev, FinalPseudoState);
        Leave(State3);
        Act(state, ev, actionA);
        Enter(State4);
        state := State4;
      }
    }

    method FromState4(ev: FsmEvent)
      requires state == State4
      modifies this
      ensures View() == Handle(answer, Arm(State4, ev), old(View()), ev, FinalPseudoState)
    {
      if ev == eventD {
        HandleGuarded(answer, Arm(State4, ev), View(), ev, FinalPseudoState);
        var b := Ask(state, ev, guardB);
        if b {
          Leave(State4);
          Act(state, ev, actionB);
          Enter(State5);
          state := State5;
        }
      }
    }

    method FromState5(ev: FsmEvent)
      requires state == State5
      modifies this
      ensures View() == Handle(answer, Arm(State5, ev), old(View()), ev, FinalPseudoState)
    {
      if ev == init {
        HandleUnguarded(answer, Arm(State5, ev), View(), ev, FinalPseudoState);
        assert calls + [] == calls;
      }
    }

    /// The hooks on the host.

    method Enter(x: FsmState)
      modifies this`calls
      ensures calls == old(calls) + [OnEntry(x)]
    {
      calls := calls + [OnEntry(x)];
    }

    method Leave(x: FsmState)
      modifies this`calls
      ensures calls == old(calls) + [OnExit(x)]
    {
      calls := calls + [OnExit(x)];
    }

    method Act(st: FsmState, ev: FsmEvent, a: FsmActionId)
      modifies this`calls
      ensures calls == old(calls) + [Action(st, ev, a)]
    {
      calls := calls + [Action(st, ev, a)];
    }

    method Ask(st: FsmState, ev: FsmEvent, g: FsmGuardId) returns (b: bool)
      modifies this`calls
      ensures b == answer(old(calls), st, ev, g)
      ensures calls == old(calls) + [Guard(st, ev, g, b)]
    {
      b := answer(calls, st, ev, g);
      calls := calls + [Guard(st, ev, g, b)];
    }
  }
}
