/**
  The generated hierarchical dispatcher `HsmMachine` (rust/generated/hsm.rs).

  State tree: s contains s1 and s2; s1 contains s11; s2 contains s21, which
  contains s211. The two pseudo-states are top-level markers. The host object is
  the trace of callback records the machine has produced (`calls`) together with
  the guard answers, given as a function of that trace (`answer`).
 */
module Hsm {
  import opened Wrappers
  import opened Engine

  datatype HsmState = InitialPseudoState | s | s1 | s11 | s2 | s21 | s211 | FinalPseudoState
  datatype HsmEvent = A | B | C | D | E | F | G | H | I | TERMINATE
  datatype HsmGuardId = isFooTrue | isFooFalse
  datatype HsmActionId = setFooFalse | setFooTrue

  /** `HsmEvent::default()` */
  const DefaultEvent: HsmEvent := A

  type HsmCall = Call<HsmState, HsmEvent, HsmGuardId, HsmActionId>
  type HsmView = View<HsmState, HsmEvent, HsmGuardId, HsmActionId>
  type HsmCandidate = Candidate<HsmState, HsmGuardId, HsmActionId>
  /** The host's guard answers: a function of everything it was told before. */
  type Host = (seq<HsmCall>, HsmState, HsmEvent, HsmGuardId) -> bool

  /// The state tree.

  function Parent(x: HsmState): Option<HsmState>
  {
    match x
    case s1 => Some(s)
    case s2 => Some(s)
    case s11 => Some(s1)
    case s21 => Some(s2)
    case s211 => Some(s21)
    case _ => None
  }

  function Level(x: HsmState): nat
  {
    match x
    case s1 => 1
    case s2 => 1
    case s11 => 2
    case s21 => 2
    case s211 => 3
    case _ => 0
  }

  /** `x` and its enclosing states, innermost first. */
  function Ancestors(x: HsmState): seq<HsmState>
    decreases Level(x)
  {
    match Parent(x)
    case None => [x]
    case Some(p) => [x] + Ancestors(p)
  }

  /** The states whose entry has been reported and not undone by an exit: none
      before start, otherwise the current state and its ancestors. */
  function Active(x: HsmState): seq<HsmState>
  {
    if x == InitialPseudoState then [] else Ancestors(x)
  }

  /// The dispatch table: the candidates hard-coded for each (state, event).

  function Go(exits: seq<HsmState>, entries: seq<HsmState>, to: HsmState): HsmCandidate
  {
    Candidate(None, exits, [], entries, Goto(to))
  }

  function Terminate(exits: seq<HsmState>): HsmCandidate
  {
    Candidate(None, exits, [], [FinalPseudoState], Goto(FinalPseudoState))
  }

  function Internal(guard: Option<HsmGuardId>, actions: seq<HsmActionId>): HsmCandidate
  {
    Candidate(guard, [], actions, [], Stay)
  }

  /** `I` in s2, s21 and s211: try isFooFalse / setFooTrue, then isFooTrue / setFooFalse. */
  const FlipFooArm: seq<HsmCandidate> :=
    [Internal(Some(isFooFalse), [setFooTrue]), Internal(Some(isFooTrue), [setFooFalse])]

  /** The arm of `H` in s11 as generated: it exits only s11 but enters s1, which is
      still active. */
  const HFromS11AsWritten: HsmCandidate := Go([s11], [s1, s11], s11)

  /** The arm of `H` in s11 as evidently intended: an external self-transition on
      s1, the same chains as `A` and `E` in s11. */
  const HFromS11: HsmCandidate := Go([s11, s1], [s1, s11], s11)

  /** The candidate list of the generated dispatcher, exactly as generated. */
  function Arm(x: HsmState, ev: HsmEvent): seq<HsmCandidate>
  {
    match x
    case s => ArmOfS(ev)
    case s1 => ArmOfS1(ev)
    case s11 => ArmOfS11(ev)
    case s2 => ArmOfS2(ev)
    case s21 => ArmOfS21(ev)
    case s211 => ArmOfS211(ev)
    case InitialPseudoState => []
    case FinalPseudoState => []
  }

  /** The candidate list with the arm of `H` in s11 corrected. */
  function ArmCorrected(x: HsmState, ev: HsmEvent): seq<HsmCandidate>
  {
    if x == s11 && ev == H then [HFromS11] else Arm(x, ev)
  }

  function ArmOfS(ev: HsmEvent): seq<HsmCandidate>
  {
    match ev
    case I => [Internal(Some(isFooTrue), [setFooFalse])]
    case TERMINATE => [Terminate([s])]
    case E => [Go([s], [s1, s11], s11)]
    case _ => []
  }

  function ArmOfS1(ev: HsmEvent): seq<HsmCandidate>
  {
    match ev
    case I => [Internal(None, [])]
    case D => [Candidate(Some(isFooFalse), [s1], [setFooTrue], [s1, s11], Goto(s11))]
    case A => [Go([s1], [s1, s11], s11)]
    case B => [Go([s1], [s11], s11)]
    case C => [Go([s1], [s2, s21, s211], s211)]
    case F => [Go([s1], [s2, s21, s211], s211)]
    case TERMINATE => [Terminate([s1, s])]
    case E => [Go([s1], [s1, s11], s11)]
    case _ => []
  }

  function ArmOfS11(ev: HsmEvent): seq<HsmCandidate>
  {
    match ev
    case G => [Go([s11, s1], [s2, s21, s211], s211)]
    case H => [HFromS11AsWritten]
    case D =>
      [Candidate(Some(isFooTrue), [s11], [setFooFalse], [s11], Goto(s11)),
       Candidate(Some(isFooFalse), [s11, s1], [setFooTrue], [s1, s11], Goto(s11))]
    case I => [Internal(None, [])]
    case A => [Go([s11, s1], [s1, s11], s11)]
    case B => [Go([s11], [s11], s11)]
    case C => [Go([s11, s1], [s2, s21, s211], s211)]
    case F => [Go([s11, s1], [s2, s21, s211], s211)]
    case TERMINATE => [Terminate([s11, s1, s])]
    case E => [Go([s11, s1], [s1, s11], s11)]
  }

  function ArmOfS2(ev: HsmEvent): seq<HsmCandidate>
  {
    match ev
    case I => FlipFooArm
    case C => [Go([s2], [s1, s11], s11)]
    case F => [Go([s2], [s1, s11], s11)]
    case TERMINATE => [Terminate([s2, s])]
    case E => [Go([s2], [s1, s11], s11)]
    case _ => []
  }

  function ArmOfS21(ev: HsmEvent): seq<HsmCandidate>
  {
    match ev
    case G => [Go([s21, s2], [s1, s11], s11)]
    case A => [Go([s21], [s21, s211], s211)]
    case B => [Go([s21], [s211], s211)]
    case I => FlipFooArm
    case C => [Go([s21, s2], [s1, s11], s11)]
    case F => [Go([s21, s2], [s1, s11], s11)]
    case TERMINATE => [Terminate([s21, s2, s])]
    case E => [Go([s21, s2], [s1, s11], s11)]
    case _ => []
  }

  function ArmOfS211(ev: HsmEvent): seq<HsmCandidate>
  {
    match ev
    case D => [Go([s211], [s211], s211)]
    case H => [Go([s211, s21, s2], [s1, s11], s11)]
    case G => [Go([s211, s21, s2], [s1, s11], s11)]
    case A => [Go([s211, s21], [s21, s211], s211)]
    case B => [Go([s211], [s211], s211)]
    case I => FlipFooArm
    case C => [Go([s211, s21, s2], [s1, s11], s11)]
    case F => [Go([s211, s21, s2], [s1, s11], s11)]
    case TERMINATE => [Terminate([s211, s21, s2, s])]
    case E => [Go([s211, s21, s2], [s1, s11], s11)]
  }

  /// Specification of the three operations on the observable view.

  /** The records `start` emits: the initial action, reported against s with the
      default event, then the entries from s down to the initial leaf s211. */
  const StartCalls: seq<HsmCall> :=
    [Action(s, DefaultEvent, setFooFalse), OnEntry(s), OnEntry(s2), OnEntry(s21), OnEntry(s211)]

  function ResetSpec(v: HsmView): HsmView
  {
    v.(state := InitialPseudoState, started := false, terminated := false, since := |v.calls|)
  }

  function StartSpec(v: HsmView): HsmView
  {
    if v.terminated || v.started then v
    else v.(started := true, state := s211, calls := v.calls + StartCalls)
  }

  function DispatchSpec(answer: Host, v: HsmView, ev: HsmEvent): HsmView
  {
    if v.terminated then v
    else
      var v' := StartSpec(v);
      Handle(answer, Arm(v'.state, ev), v', ev, FinalPseudoState)
  }

  /** Dispatch as evidently intended: the same, with the arm of `H` in s11
      corrected. */
  function DispatchCorrectedSpec(answer: Host, v: HsmView, ev: HsmEvent): HsmView
  {
    if v.terminated then v
    else
      var v' := StartSpec(v);
      Handle(answer, ArmCorrected(v'.state, ev), v', ev, FinalPseudoState)
  }

  /** The shape of every reachable view: only leaves and pseudo-states are ever
      current, and the two flags agree with the state. */
  ghost predicate Shape(v: HsmView)
  {
    && v.since <= |v.calls|
    && v.state in {InitialPseudoState, s11, s211, FinalPseudoState}
    && (v.terminated <==> v.state == FinalPseudoState)
    && (v.started <==> v.state != InitialPseudoState)
  }

  /** The machine invariant: the shape, and the entry/exit records since the last
      reset, replayed as a stack, give exactly the active configuration. */
  ghost predicate Inv(v: HsmView)
  {
    && Shape(v)
    && Replay(Parent, Some([]), v.calls[v.since..]) == Some(Active(v.state))
  }

  /** What the generated machine keeps: the shape, and a replay that is either
      exact or has failed for good. */
  ghost predicate InvOrBroken(v: HsmView)
  {
    && Shape(v)
    && (|| Replay(Parent, Some([]), v.calls[v.since..]) == Some(Active(v.state))
        || Replay(Parent, Some([]), v.calls[v.since..]) == None)
  }
  /// The arm table against the tree.

  /** Candidate `c` lands on a leaf or on the final pseudo-state. */
  ghost predicate LeafTarget(c: HsmCandidate)
  {
    c.target.Goto? ==> c.target.to in {s11, s211, FinalPseudoState}
  }

  /** Candidate `c`, listed for leaf `x`, fits the tree and lands on a leaf or on
      the final pseudo-state. */
  ghost predicate LeafFit(x: HsmState, c: HsmCandidate)
  {
    Fits(Parent, Active, x, c) && LeafTarget(c)
  }

  lemma ChainFacts()
    ensures Active(s11) == [s11, s1, s] && IsChain(Parent, Active(s11))
    ensures Active(s211) == [s211, s21, s2, s] && IsChain(Parent, Active(s211))
    ensures Active(FinalPseudoState) == [FinalPseudoState]
    ensures IsChain(Parent, Active(FinalPseudoState))
    ensures Reverse([s11, s1]) == [s1, s11]
    ensures Reverse([s211, s21, s2]) == [s2, s21, s211]
    ensures Reverse([s211, s21]) == [s21, s211]
    ensures Reverse([s211]) == [s211] && Reverse([s11]) == [s11]
    ensures Reverse([FinalPseudoState]) == [FinalPseudoState]
    ensures Active(s211)[..3] == [s211, s21, s2] && Active(s211)[..2] == [s211, s21]
    ensures Active(s11)[..2] == [s11, s1]
  {
    assert Reverse([s211]) == [s211];
    assert Reverse([s211, s21]) == [s21, s211];
    assert Reverse([s11]) == [s11];
  }

  /** Every candidate listed for s11 lands on a leaf or the final pseudo-state,
      and it fits the configuration of s11 exactly when it is not the arm of `H`. */
  lemma S11ArmsFit(ev: HsmEvent, c: HsmCandidate)
    requires c in Arm(s11, ev)
    ensures LeafTarget(c)
    ensures Fits(Parent, Active, s11, c) <==> ev != H
  {
    ChainFacts();
    if ev == H {
      assert c == HFromS11AsWritten;
      assert |Active(s11)[1..]| != |Active(s11)[2..]|;
    }
  }

  lemma S211ArmsFit(ev: HsmEvent, c: HsmCandidate)
    requires c in Arm(s211, ev)
    ensures LeafFit(s211, c)
  {
    ChainFacts();
  }

  /** Every candidate listed for a leaf lands on a leaf or on the final
      pseudo-state. It fits the tree exactly when it is not the arm of `H` in
      s11: internal ones perform no exit or entry, and external ones exit an
      innermost part of the leaf's configuration and enter, outermost first, the
      missing part of the target's. */
  lemma LeafArmsFit(x: HsmState, ev: HsmEvent)
    requires x == s11 || x == s211
    ensures forall c :: c in Arm(x, ev) ==>
      LeafTarget(c) && (Fits(Parent, Active, x, c) <==> !(x == s11 && ev == H))
  {
    forall c | c in Arm(x, ev)
      ensures LeafTarget(c) && (Fits(Parent, Active, x, c) <==> !(x == s11 && ev == H))
    {
      if x == s11 {
        S11ArmsFit(ev, c);
      } else {
        S211ArmsFit(ev, c);
      }
    }
  }

  /** With the arm of `H` in s11 corrected, every candidate listed for a leaf fits. */
  lemma CorrectedArmsFit(x: HsmState, ev: HsmEvent)
    requires x == s11 || x == s211
    ensures forall c :: c in ArmCorrected(x, ev) ==> LeafFit(x, c)
  {
    if x == s11 && ev == H {
      ChainFacts();
      assert LeafFit(s11, HFromS11);
    } else {
      LeafArmsFit(x, ev);
    }
  }
  /// The invariant across the three operations.

  lemma ResetEstablishesInv(v: HsmView)
    ensures Inv(ResetSpec(v))
  {
    var r := ResetSpec(v);
    assert r.calls[r.since..] == [];
  }

  /** Start enters s, s2, s21 and s211 in that order: exactly the configuration of
      s211. */
  lemma StartPreservesInv(v: HsmView)
    requires Inv(v)
    ensures Inv(StartSpec(v))
  {
    if !v.terminated && !v.started {
      var r := StartSpec(v);
      assert r.calls[r.since..] == v.calls[v.since..] + StartCalls;
      ReplayAppend(Parent, Some([]), v.calls[v.since..], StartCalls);
      StartCallsReplay();
    }
  }

  /** The start-up records, replayed from nothing, enter exactly the
      configuration of s211. */
  lemma StartCallsReplay()
    ensures Replay(Parent, Some([]), StartCalls) == Some(Active(s211))
  {
    ChainFacts();
    var ys := [s211, s21, s2, s];
    var entries: seq<HsmCall> := EntryCalls(Reverse(ys[..4]));
    assert ys[..4] == ys && ys[..3] == [s211, s21, s2];
    assert Reverse(ys[..4]) == [s] + Reverse([s211, s21, s2]);
    assert EntryCalls<HsmState, HsmEvent, HsmGuardId, HsmActionId>([s211])
           == [OnEntry(s211)];
    assert EntryCalls<HsmState, HsmEvent, HsmGuardId, HsmActionId>([s21, s211])
           == [OnEntry(s21), OnEntry(s211)];
    assert EntryCalls<HsmState, HsmEvent, HsmGuardId, HsmActionId>([s2, s21, s211])
           == [OnEntry(s2), OnEntry(s21), OnEntry(s211)];
    assert StartCalls == [Action(s, DefaultEvent, setFooFalse)] + entries;
    ReplayAppend(Parent, Some([]), [Action(s, DefaultEvent, setFooFalse)], entries);
    assert ys[4..] == [];
    ReplayEntries<HsmState, HsmEvent, HsmGuardId, HsmActionId>(Parent, ys, 4);
  }

  /** A failed replay stays failed through start. */
  lemma StartKeepsBroken(v: HsmView)
    requires Shape(v) && Replay(Parent, Some([]), v.calls[v.since..]) == None
    ensures var r := StartSpec(v);
      Shape(r) && Replay(Parent, Some([]), r.calls[r.since..]) == None
  {
    if !v.terminated && !v.started {
      var r := StartSpec(v);
      assert r.calls[r.since..] == v.calls[v.since..] + StartCalls;
      ReplayAppend(Parent, Some([]), v.calls[v.since..], StartCalls);
      ReplayBroken(Parent, StartCalls);
    }
  }

  lemma StartPreservesInvOrBroken(v: HsmView)
    requires InvOrBroken(v)
    ensures InvOrBroken(StartSpec(v))
  {
    if Replay(Parent, Some([]), v.calls[v.since..]) == None {
      StartKeepsBroken(v);
    } else {
      StartPreservesInv(v);
    }
  }

  /** Handling an event in a leaf with candidates that land on leaves keeps the
      shape and only appends to the trace. */
  lemma HandleKeepsShape(answer: Host, cands: seq<HsmCandidate>, v: HsmView, ev: HsmEvent)
    requires Shape(v) && (v.state == s11 || v.state == s211)
    requires forall c :: c in cands ==> LeafTarget(c)
    ensures var r := Handle(answer, cands, v, ev, FinalPseudoState);
      Shape(r) && r.since == v.since && v.calls <= r.calls
  {
    HandleShape(answer, cands, v, ev, FinalPseudoState);
    SelectAsksOnlyGuards(answer, cands, v.state, ev, v.calls);
  }

  /** Handling an event in a leaf keeps the shape, and keeps the replay exact in
      every case but the arm of `H` in s11, which breaks it. */
  lemma HandlePreservesInv(answer: Host, v: HsmView, ev: HsmEvent)
    requires Inv(v) && (v.state == s11 || v.state == s211)
    ensures var r := Handle(answer, Arm(v.state, ev), v, ev, FinalPseudoState);
      Shape(r) && (Inv(r) <==> !(v.state == s11 && ev == H))
  {
    LeafArmsFit(v.state, ev);
    HandleKeepsShape(answer, Arm(v.state, ev), v, ev);
    if v.state == s11 && ev == H {
      HFromS11AsWrittenBreaksConfiguration(answer, v);
    } else {
      HandleKeepsConfiguration(answer, Parent, Active, Arm(v.state, ev), v, ev, FinalPseudoState);
    }
  }

  /** Once the replay has failed, handling an event leaves it failed. */
  lemma HandleKeepsBroken(answer: Host, v: HsmView, ev: HsmEvent)
    requires Shape(v) && (v.state == s11 || v.state == s211)
    requires Replay(Parent, Some([]), v.calls[v.since..]) == None
    ensures var r := Handle(answer, Arm(v.state, ev), v, ev, FinalPseudoState);
      Shape(r) && Replay(Parent, Some([]), r.calls[r.since..]) == None
  {
    LeafArmsFit(v.state, ev);
    HandleKeepsShape(answer, Arm(v.state, ev), v, ev);
    var r := Handle(answer, Arm(v.state, ev), v, ev, FinalPseudoState);
    var added := r.calls[|v.calls|..];
    assert r.calls[r.since..] == v.calls[v.since..] + added;
    ReplayAppend(Parent, Some([]), v.calls[v.since..], added);
    ReplayBroken(Parent, added);
  }

  /** Dispatch keeps the shape, so only s11, s211 and the pseudo-states are ever
      current and the arms of s, s1, s2 and s21 are never taken. It keeps the
      replay exact in every case but `H` in s11. */
  lemma DispatchPreservesInv(answer: Host, v: HsmView, ev: HsmEvent)
    requires Inv(v)
    ensures var r := DispatchSpec(answer, v, ev);
      Shape(r) && (Inv(r) <==> !(v.state == s11 && ev == H))
  {
    if !v.terminated {
      StartPreservesInv(v);
      HandlePreservesInv(answer, StartSpec(v), ev);
    }
  }

  /** The generated machine keeps its shape and a replay that is exact or has
      failed; a failed replay is not repaired before the next reset. */
  lemma DispatchPreservesInvOrBroken(answer: Host, v: HsmView, ev: HsmEvent)
    requires InvOrBroken(v)
    ensures InvOrBroken(DispatchSpec(answer, v, ev))
  {
    if !v.terminated {
      if Replay(Parent, Some([]), v.calls[v.since..]) == None {
        StartKeepsBroken(v);
        HandleKeepsBroken(answer, StartSpec(v), ev);
      } else {
        DispatchPreservesInv(answer, v, ev);
        if v.state == s11 && ev == H {
          LeafArmsFit(s11, H);
          HandleKeepsShape(answer, Arm(s11, H), v, H);
          HFromS11AsWrittenBreaksConfiguration(answer, v);
        }
      }
    }
  }

  /** With the arm of `H` in s11 corrected, dispatch keeps the invariant for
      every event. */
  lemma CorrectedDispatchPreservesInv(answer: Host, v: HsmView, ev: HsmEvent)
    requires Inv(v)
    ensures Inv(DispatchCorrectedSpec(answer, v, ev))
  {
    if !v.terminated {
      StartPreservesInv(v);
      var w := StartSpec(v);
      CorrectedArmsFit(w.state, ev);
      HandleKeepsShape(answer, ArmCorrected(w.state, ev), w, ev);
      HandleKeepsConfiguration(answer, Parent, Active, ArmCorrected(w.state, ev), w, ev, FinalPseudoState);
    }
  }

  /** The arm of `H` in s11 as generated re-enters s1 while s1 is still active:
      from any reachable view in s11, the replay of the resulting trace fails. */
  lemma HFromS11AsWrittenBreaksConfiguration(answer: Host, v: HsmView)
    requires Inv(v) && v.state == s11
    ensures var r := Handle(answer, Arm(s11, H), v, H, FinalPseudoState);
      && r.state == s11
      && Replay(Parent, Some([]), r.calls[v.since..]) == None
  {
    ChainFacts();
    var r := Handle(answer, Arm(s11, H), v, H, FinalPseudoState);
    var pre := v.calls[v.since..];
    var eff: seq<HsmCall> := [OnExit(s11), OnEntry(s1), OnEntry(s11)];
    assert Effects(HFromS11AsWritten, s11, H) == eff;
    assert r.calls[v.since..] == pre + eff;
    ReplayAppend(Parent, Some([]), pre, eff);
    assert Replay(Parent, Some([s11, s1, s]), eff) == None;
  }

  /** The corrected arm moves the configuration of s11 back to itself. */
  lemma HFromS11KeepsConfiguration(answer: Host, v: HsmView)
    requires Inv(v) && v.state == s11
    ensures var r := Handle(answer, ArmCorrected(s11, H), v, H, FinalPseudoState);
      && r.state == s11
      && r.calls == v.calls + [OnExit(s11), OnExit(s1), OnEntry(s1), OnEntry(s11)]
      && Replay(Parent, Some([]), r.calls[v.since..]) == Some(Active(s11))
  {
    CorrectedArmsFit(s11, H);
    HandleKeepsConfiguration(answer, Parent, Active, ArmCorrected(s11, H), v, H, FinalPseudoState);
    assert Effects(HFromS11, s11, H) == [OnExit(s11), OnExit(s1), OnEntry(s1), OnEntry(s11)];
  }
  /// Properties of dispatch in a running machine.

  /** Both leaves list at least one candidate for every event, so the default arms
      of the generated match are reached only from composite states. */
  lemma LeavesHandleEveryEvent(x: HsmState, ev: HsmEvent)
    requires x == s11 || x == s211
    ensures |Arm(x, ev)| > 0
  {
  }

  /** An event without a candidate changes nothing and emits nothing. */
  lemma UnhandledEventIsNoOp(answer: Host, v: HsmView, ev: HsmEvent)
    requires v.started && !v.terminated && Arm(v.state, ev) == []
    ensures DispatchSpec(answer, v, ev) == v
  {
  }

  /** TERMINATE from a running machine exits every active state innermost first,
      enters the final pseudo-state once and terminates. */
  lemma TerminateExitsEveryActiveState(answer: Host, v: HsmView)
    requires Inv(v) && v.started && !v.terminated
    ensures DispatchSpec(answer, v, TERMINATE)
      == v.(state := FinalPseudoState, terminated := true,
            calls := v.calls + ExitCalls(Active(v.state)) + [OnEntry(FinalPseudoState)])
  {
    TerminateArm(v.state);
    TerminateEffects(Active(v.state), v.state);
    HandleUnguarded(answer, Arm(v.state, TERMINATE), v, TERMINATE, FinalPseudoState);
  }

  /** In a leaf, TERMINATE has one arm, which exits the whole configuration. */
  lemma TerminateArm(x: HsmState)
    requires x == s11 || x == s211
    ensures Arm(x, TERMINATE) == [Terminate(Active(x))]
  {
    ChainFacts();
  }

  lemma TerminateEffects(xs: seq<HsmState>, st: HsmState)
    ensures Effects(Terminate(xs), st, TERMINATE) == ExitCalls(xs) + [OnEntry(FinalPseudoState)]
  {
    assert ActionCalls<HsmState, HsmEvent, HsmGuardId, HsmActionId>(st, TERMINATE, []) == [];
    assert EntryCalls<HsmState, HsmEvent, HsmGuardId, HsmActionId>([FinalPseudoState]) == [OnEntry(FinalPseudoState)];
    assert ExitCalls<HsmState, HsmEvent, HsmGuardId, HsmActionId>(xs) + [] == ExitCalls(xs);
  }

  /** `I` in a running machine is internal: the state and flags stay, and the only
      records added are guard calls and actions. In s11 it adds nothing. */
  lemma InternalEventKeepsConfiguration(answer: Host, v: HsmView)
    requires Inv(v) && v.started && !v.terminated
    ensures var r := DispatchSpec(answer, v, I);
      && r.state == v.state && r.started && !r.terminated && r.since == v.since
      && v.calls <= r.calls
      && (forall i :: |v.calls| <= i < |r.calls| ==> r.calls[i].Guard? || r.calls[i].Action?)
      && (v.state == s11 ==> r == v)
  {
    var cands := Arm(v.state, I);
    SelectShortCircuit(answer, cands, v.state, I, v.calls);
    var sel := Select(answer, cands, v.state, I, v.calls);
    if sel.chosen.Some? {
      var c := cands[sel.chosen.value];
      assert c.target.Stay?;
      var acts := ActionCalls<HsmState, HsmEvent, HsmGuardId, HsmActionId>(v.state, I, c.actions);
      var r := DispatchSpec(answer, v, I);
      assert r.calls == sel.calls + acts;
      if v.state == s11 {
        assert sel.calls + acts == v.calls;
      }
    }
  }

  /// The machine.

  class HsmMachine {
    /** The host's guard answers. */
    const answer: Host
    /** Every callback the machine has made on its host, in order. */
    var calls: seq<HsmCall>
    var state: HsmState
    var started: bool
    var terminated: bool
    /** Length of `calls` at the last reset. */
    ghost var since: nat

    ghost function View(): HsmView
      reads this
    {
      Engine.View(state, started, terminated, calls, since)
    }

    constructor(host: Host)
      ensures answer == host
      ensures View() == Engine.View(InitialPseudoState, false, false, [], 0)
      ensures Inv(View())
    {
      answer := host;
      calls := [];
      state := InitialPseudoState;
      started := false;
      terminated := false;
      since := 0;
      new;
      Reset();
    }

    method Reset()
      modifies this
      ensures View() == ResetSpec(old(View()))
      ensures Inv(View())
    {
      terminated := false;
      started := false;
      state := InitialPseudoState;
      since := |calls|;
      ResetEstablishesInv(old(View()));
    }

    method Start()
      modifies this
      ensures View() == StartSpec(old(View()))
      ensures old(Inv(View())) ==> Inv(View())
      ensures old(InvOrBroken(View())) ==> InvOrBroken(View())
    {
      ghost var v := View();
      if terminated || started {
        return;
      }
      started := true;
      state := s211;
      Act(s, DefaultEvent, setFooFalse);
      Enter(s);
      Enter(s2);
      Enter(s21);
      Enter(s211);
      assert calls == v.calls + StartCalls;
      if Inv(v) {
        StartPreservesInv(v);
      }
      if InvOrBroken(v) {
        StartPreservesInvOrBroken(v);
      }
    }

    method Dispatch(ev: HsmEvent)
      modifies this
      ensures View() == DispatchSpec(answer, old(View()), ev)
      ensures old(InvOrBroken(View())) ==> InvOrBroken(View())
      ensures old(Inv(View())) ==> (Inv(View()) <==> !(old(state) == s11 && ev == H))
    {
      ghost var v := View();
      if terminated {
        return;
      }
      if !started {
        Start();
      }
      DispatchInState(ev);
      if Inv(v) {
        DispatchPreservesInv(answer, v, ev);
      }
      if InvOrBroken(v) {
        DispatchPreservesInvOrBroken(answer, v, ev);
      }
    }

    /** The outer match of the generated dispatcher, on the current state. */
    method DispatchInState(ev: HsmEvent)
      modifies this
      ensures View() == Handle(answer, Arm(old(state), ev), old(View()), ev, FinalPseudoState)
    {
      match state
      case s => DispatchFromS(ev);
      case s1 => DispatchFromS1(ev);
      case s11 => DispatchFromS11(ev);
      case s2 => DispatchFromS2(ev);
      case s21 => DispatchFromS21(ev);
      case s211 => DispatchFromS211(ev);
      case InitialPseudoState =>
      case FinalPseudoState =>
    }

    /// The callbacks on the host.

    method Enter(x: HsmState)
      modifies this`calls
      ensures calls == old(calls) + [OnEntry(x)]
    {
      calls := calls + [OnEntry(x)];
    }

    method Leave(x: HsmState)
      modifies this`calls
      ensures calls == old(calls) + [OnExit(x)]
    {
      calls := calls + [OnExit(x)];
    }

    method Act(st: HsmState, ev: HsmEvent, a: HsmActionId)
      modifies this`calls
      ensures calls == old(calls) + [Action(st, ev, a)]
    {
      calls := calls + [Action(st, ev, a)];
    }

    method Ask(st: HsmState, ev: HsmEvent, g: HsmGuardId) returns (b: bool)
      modifies this`calls
      ensures b == answer(old(calls), st, ev, g)
      ensures calls == old(calls) + [Guard(st, ev, g, b)]
    {
      b := answer(calls, st, ev, g);
      calls := calls + [Guard(st, ev, g, b)];
    }

    /// The outer match on the current state, one method per state; each routes
    /// the event to the method of its arm. Arms whose bodies are identical in the
    /// generated code share one method.

    method DispatchFromS(ev: HsmEvent)
      requires state == s
      modifies this
      ensures View() == Handle(answer, ArmOfS(ev), old(View()), ev, FinalPseudoState)
    {
      match ev
      case I => SGuardedI(ev);
      case TERMINATE =>
        HandleUnguarded(answer, ArmOfS(ev), View(), ev, FinalPseudoState);
        STerminate(ev);
      case E =>
        HandleUnguarded(answer, ArmOfS(ev), View(), ev, FinalPseudoState);
        SToS11(ev);
      case _ => 
    }

    method DispatchFromS1(ev: HsmEvent)
      requires state == s1
      modifies this
      ensures View() == Handle(answer, ArmOfS1(ev), old(View()), ev, FinalPseudoState)
    {
      match ev
      case I => 
        HandleUnguarded(answer, ArmOfS1(ev), View(), ev, FinalPseudoState);
        assert calls + [] == calls;
      case D => S1GuardedD(ev);
      case A | E =>
        HandleUnguarded(answer, ArmOfS1(ev), View(), ev, FinalPseudoState);
        S1ReenterS1(ev);
      case B =>
        HandleUnguarded(answer, ArmOfS1(ev), View(), ev, FinalPseudoState);
        S1ToS11(ev);
      case C | F =>
        HandleUnguarded(answer, ArmOfS1(ev), View(), ev, FinalPseudoState);
        S1ToS211(ev);
      case TERMINATE =>
        HandleUnguarded(answer, ArmOfS1(ev), View(), ev, FinalPseudoState);
        S1Terminate(ev);
      case _ => 
    }

    method DispatchFromS11(ev: HsmEvent)
      requires state == s11
      modifies this
      ensures View() == Handle(answer, ArmOfS11(ev), old(View()), ev, FinalPseudoState)
    {
      match ev
      case G | C | F =>
        HandleUnguarded(answer, ArmOfS11(ev), View(), ev, FinalPseudoState);
        S11ToS211(ev);
      case H =>
        HandleUnguarded(answer, ArmOfS11(ev), View(), ev, FinalPseudoState);
        S11EnterS1Again(ev);
      case A | E =>
        HandleUnguarded(answer, ArmOfS11(ev), View(), ev, FinalPseudoState);
        S11ReenterS1(ev);
      case D => S11GuardedD(ev);
      case I => 
        HandleUnguarded(answer, ArmOfS11(ev), View(), ev, FinalPseudoState);
        assert calls + [] == calls;
      case B =>
        HandleUnguarded(answer, ArmOfS11(ev), View(), ev, FinalPseudoState);
        S11Reenter(ev);
      case TERMINATE =>
        HandleUnguarded(answer, ArmOfS11(ev), View(), ev, FinalPseudoState);
        S11Terminate(ev);
    }

    method DispatchFromS2(ev: HsmEvent)
      requires state == s2
      modifies this
      ensures View() == Handle(answer, ArmOfS2(ev), old(View()), ev, FinalPseudoState)
    {
      match ev
      case I => FlipFoo(ev);
      case C | F | E =>
        HandleUnguarded(answer, ArmOfS2(ev), View(), ev, FinalPseudoState);
        S2ToS11(ev);
      case TERMINATE =>
        HandleUnguarded(answer, ArmOfS2(ev), View(), ev, FinalPseudoState);
        S2Terminate(ev);
      case _ => 
    }

    method DispatchFromS21(ev: HsmEvent)
      requires state == s21
      modifies this
      ensures View() == Handle(answer, ArmOfS21(ev), old(View()), ev, FinalPseudoState)
    {
      match ev
      case G | C | F | E =>
        HandleUnguarded(answer, ArmOfS21(ev), View(), ev, FinalPseudoState);
        S21ToS11(ev);
      case A =>
        HandleUnguarded(answer, ArmOfS21(ev), View(), ev, FinalPseudoState);
        S21ReenterS21(ev);
      case B =>
        HandleUnguarded(answer, ArmOfS21(ev), View(), ev, FinalPseudoState);
        S21ToS211(ev);
      case I => FlipFoo(ev);
      case TERMINATE =>
        HandleUnguarded(answer, ArmOfS21(ev), View(), ev, FinalPseudoState);
        S21Terminate(ev);
      case _ => 
    }

    method DispatchFromS211(ev: HsmEvent)
      requires state == s211
      modifies this
      ensures View() == Handle(answer, ArmOfS211(ev), old(View()), ev, FinalPseudoState)
    {
      match ev
      case D | B =>
        HandleUnguarded(answer, ArmOfS211(ev), View(), ev, FinalPseudoState);
        S211Reenter(ev);
      case H | G | C | F | E =>
        HandleUnguarded(answer, ArmOfS211(ev), View(), ev, FinalPseudoState);
        S211ToS11(ev);
      case A =>
        HandleUnguarded(answer, ArmOfS211(ev), View(), ev, FinalPseudoState);
        S211ReenterS21(ev);
      case I => FlipFoo(ev);
      case TERMINATE =>
        HandleUnguarded(answer, ArmOfS211(ev), View(), ev, FinalPseudoState);
        S211Terminate(ev);
    }

    /// The arms.

    /** `E` in s. */
    method SToS11(ev: HsmEvent)
      requires state == s
      modifies this
      ensures View() == Take(Go([s], [s1, s11], s11), old(View()), old(calls), ev, FinalPseudoState)
    {
      Leave(s);
      Enter(s1);
      Enter(s11);
      state := s11;
    }

    /** `TERMINATE` in s. */
    method STerminate(ev: HsmEvent)
      requires state == s
      modifies this
      ensures View() == Take(Terminate([s]), old(View()), old(calls), ev, FinalPseudoState)
    {
      Leave(s);
      Enter(FinalPseudoState);
      state := FinalPseudoState;
      terminated := true;
    }

    /** `A`, `E` in s1. */
    method S1ReenterS1(ev: HsmEvent)
      requires state == s1
      modifies this
      ensures View() == Take(Go([s1], [s1, s11], s11), old(View()), old(calls), ev, FinalPseudoState)
    {
      Leave(s1);
      Enter(s1);
      Enter(s11);
      state := s11;
    }

    /** `B` in s1. */
    method S1ToS11(ev: HsmEvent)
      requires state == s1
      modifies this
      ensures View() == Take(Go([s1], [s11], s11), old(View()), old(calls), ev, FinalPseudoState)
    {
      Leave(s1);
      Enter(s11);
      state := s11;
    }

    /** `C`, `F` in s1. */
    method S1ToS211(ev: HsmEvent)
      requires state == s1
      modifies this
      ensures View() == Take(Go([s1], [s2, s21, s211], s211), old(View()), old(calls), ev, FinalPseudoState)
    {
      Leave(s1);
      Enter(s2);
      Enter(s21);
      Enter(s211);
      state := s211;
    }

    /** `TERMINATE` in s1. */
    method S1Terminate(ev: HsmEvent)
      requires state == s1
      modifies this
      ensures View() == Take(Terminate([s1, s]), old(View()), old(calls), ev, FinalPseudoState)
    {
      Leave(s1);
      Leave(s);
      Enter(FinalPseudoState);
      state := FinalPseudoState;
      terminated := true;
    }

    /** `G`, `C`, `F` in s11. */
    method S11ToS211(ev: HsmEvent)
      requires state == s11
      modifies this
      ensures View() == Take(Go([s11, s1], [s2, s21, s211], s211), old(View()), old(calls), ev, FinalPseudoState)
    {
      Leave(s11);
      Leave(s1);
      Enter(s2);
      Enter(s21);
      Enter(s211);
      state := s211;
    }

    /** `H` in s11, as generated: s1 is entered again without having been
        exited. */
    method S11EnterS1Again(ev: HsmEvent)
      requires state == s11
      modifies this
      ensures View() == Take(HFromS11AsWritten, old(View()), old(calls), ev, FinalPseudoState)
    {
      Leave(s11);
      Enter(s1);
      Enter(s11);
      state := s11;
    }

    /** `A`, `E` in s11. */
    method S11ReenterS1(ev: HsmEvent)
      requires state == s11
      modifies this
      ensures View() == Take(Go([s11, s1], [s1, s11], s11), old(View()), old(calls), ev, FinalPseudoState)
    {
      Leave(s11);
      Leave(s1);
      Enter(s1);
      Enter(s11);
      state := s11;
    }

    /** `B` in s11. */
    method S11Reenter(ev: HsmEvent)
      requires state == s11
      modifies this
      ensures View() == Take(Go([s11], [s11], s11), old(View()), old(calls), ev, FinalPseudoState)
    {
      Leave(s11);
      Enter(s11);
      state := s11;
    }

    /** `TERMINATE` in s11. */
    method S11Terminate(ev: HsmEvent)
      requires state == s11
      modifies this
      ensures View() == Take(Terminate([s11, s1, s]), old(View()), old(calls), ev, FinalPseudoState)
    {
      Leave(s11);
      Leave(s1);
      Leave(s);
      Enter(FinalPseudoState);
      state := FinalPseudoState;
      terminated := true;
    }

    /** `C`, `F`, `E` in s2. */
    method S2ToS11(ev: HsmEvent)
      requires state == s2
      modifies this
      ensures View() == Take(Go([s2], [s1, s11], s11), old(View()), old(calls), ev, FinalPseudoState)
    {
      Leave(s2);
      Enter(s1);
      Enter(s11);
      state := s11;
    }

    /** `TERMINATE` in s2. */
    method S2Terminate(ev: HsmEvent)
      requires state == s2
      modifies this
      ensures View() == Take(Terminate([s2, s]), old(View()), old(calls), ev, FinalPseudoState)
    {
      Leave(s2);
      Leave(s);
      Enter(FinalPseudoState);
      state := FinalPseudoState;
      terminated := true;
    }

    /** `G`, `C`, `F`, `E` in s21. */
    method S21ToS11(ev: HsmEvent)
      requires state == s21
      modifies this
      ensures View() == Take(Go([s21, s2], [s1, s11], s11), old(View()), old(calls), ev, FinalPseudoState)
    {
      Leave(s21);
      Leave(s2);
      Enter(s1);
      Enter(s11);
      state := s11;
    }

    /** `A` in s21. */
    method S21ReenterS21(ev: HsmEvent)
      requires state == s21
      modifies this
      ensures View() == Take(Go([s21], [s21, s211], s211), old(View()), old(calls), ev, FinalPseudoState)
    {
      Leave(s21);
      Enter(s21);
      Enter(s211);
      state := s211;
    }

    /** `B` in s21. */
    method S21ToS211(ev: HsmEvent)
      requires state == s21
      modifies this
      ensures View() == Take(Go([s21], [s211], s211), old(View()), old(calls), ev, FinalPseudoState)
    {
      Leave(s21);
      Enter(s211);
      state := s211;
    }

    /** `TERMINATE` in s21. */
    method S21Terminate(ev: HsmEvent)
      requires state == s21
      modifies this
      ensures View() == Take(Terminate([s21, s2, s]), old(View()), old(calls), ev, FinalPseudoState)
    {
      Leave(s21);
      Leave(s2);
      Leave(s);
      Enter(FinalPseudoState);
      state := FinalPseudoState;
      terminated := true;
    }

    /** `D`, `B` in s211. */
    method S211Reenter(ev: HsmEvent)
      requires state == s211
      modifies this
      ensures View() == Take(Go([s211], [s211], s211), old(View()), old(calls), ev, FinalPseudoState)
    {
      Leave(s211);
      Enter(s211);
      state := s211;
    }

    /** `H`, `G`, `C`, `F`, `E` in s211. */
    method S211ToS11(ev: HsmEvent)
      requires state == s211
      modifies this
      ensures View() == Take(Go([s211, s21, s2], [s1, s11], s11), old(View()), old(calls), ev, FinalPseudoState)
    {
      Leave(s211);
      Leave(s21);
      Leave(s2);
      Enter(s1);
      Enter(s11);
      state := s11;
    }

    /** `A` in s211. */
    method S211ReenterS21(ev: HsmEvent)
      requires state == s211
      modifies this
      ensures View() == Take(Go([s211, s21], [s21, s211], s211), old(View()), old(calls), ev, FinalPseudoState)
    {
      Leave(s211);
      Leave(s21);
      Enter(s21);
      Enter(s211);
      state := s211;
    }

    /** `TERMINATE` in s211. */
    method S211Terminate(ev: HsmEvent)
      requires state == s211
      modifies this
      ensures View() == Take(Terminate([s211, s21, s2, s]), old(View()), old(calls), ev, FinalPseudoState)
    {
      Leave(s211);
      Leave(s21);
      Leave(s2);
      Leave(s);
      Enter(FinalPseudoState);
      state := FinalPseudoState;
      terminated := true;
    }

    /** `I` in s. */
    method SGuardedI(ev: HsmEvent)
      requires state == s && ev == I
      modifies this
      ensures View() == Handle(answer, ArmOfS(ev), old(View()), ev, FinalPseudoState)
    {
      HandleGuarded(answer, ArmOfS(ev), View(), ev, FinalPseudoState);
      var b := Ask(state, ev, isFooTrue);
      if b {
        Act(state, ev, setFooFalse);
        return;
      }
    }

    /** `D` in s1: guarded by isFooFalse. */
    method S1GuardedD(ev: HsmEvent)
      requires state == s1 && ev == D
      modifies this
      ensures View() == Handle(answer, ArmOfS1(ev), old(View()), ev, FinalPseudoState)
    {
      HandleGuarded(answer, ArmOfS1(ev), View(), ev, FinalPseudoState);
      var b := Ask(state, ev, isFooFalse);
      if b {
        S1ReenterSettingFooTrue(ev);
        return;
      }
    }

    method S1ReenterSettingFooTrue(ev: HsmEvent)
      requires state == s1
      modifies this
      ensures View() == Take(Candidate(Some(isFooFalse), [s1], [setFooTrue], [s1, s11], Goto(s11)),
                             old(View()), old(calls), ev, FinalPseudoState)
    {
      Leave(s1);
      Act(state, ev, setFooTrue);
      Enter(s1);
      Enter(s11);
      state := s11;
    }

    /** `D` in s11: isFooTrue re-enters s11 alone, otherwise isFooFalse re-enters
        s1 and s11. */
    method S11GuardedD(ev: HsmEvent)
      requires state == s11 && ev == D
      modifies this
      ensures View() == Handle(answer, ArmOfS11(ev), old(View()), ev, FinalPseudoState)
    {
      HandleGuarded(answer, ArmOfS11(ev), View(), ev, FinalPseudoState);
      var b := Ask(state, ev, isFooTrue);
      if b {
        S11ReenterSettingFooFalse(ev);
        return;
      }
      HandleGuarded(answer, ArmOfS11(ev)[1..], View(), ev, FinalPseudoState);
      b := Ask(state, ev, isFooFalse);
      if b {
        S11ReenterS1SettingFooTrue(ev);
        return;
      }
    }

    method S11ReenterSettingFooFalse(ev: HsmEvent)
      requires state == s11
      modifies this
      ensures View() == Take(Candidate(Some(isFooTrue), [s11], [setFooFalse], [s11], Goto(s11)),
                             old(View()), old(calls), ev, FinalPseudoState)
    {
      Leave(s11);
      Act(state, ev, setFooFalse);
      Enter(s11);
      state := s11;
    }

    method S11ReenterS1SettingFooTrue(ev: HsmEvent)
      requires state == s11
      modifies this
      ensures View() == Take(Candidate(Some(isFooFalse), [s11, s1], [setFooTrue], [s1, s11], Goto(s11)),
                             old(View()), old(calls), ev, FinalPseudoState)
    {
      Leave(s11);
      Leave(s1);
      Act(state, ev, setFooTrue);
      Enter(s1);
      Enter(s11);
      state := s11;
    }

    /** The guarded internal `I` shared by s2, s21 and s211. */
    method FlipFoo(ev: HsmEvent)
      modifies this
      ensures View() == Handle(answer, FlipFooArm, old(View()), ev, FinalPseudoState)
    {
      HandleGuarded(answer, FlipFooArm, View(), ev, FinalPseudoState);
      var b := Ask(state, ev, isFooFalse);
      if b {
        Act(state, ev, setFooTrue);
        return;
      }
      HandleGuarded(answer, FlipFooArm[1..], View(), ev, FinalPseudoState);
      b := Ask(state, ev, isFooTrue);
      if b {
        Act(state, ev, setFooFalse);
        return;
      }
    }
  }
}
