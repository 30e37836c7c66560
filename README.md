# state-surf, the core in Dafny

This project models the core of state-surf, which has two parts.

- **The runtime.** These are two generated, switch-style dispatchers: the hierarchical
  machine `HsmMachine` (rust/generated/hsm.rs) and the flat machine `FsmMachine`
  (rust/generated/fsm.rs). Each is a Dafny class with the Rust fields `state`,
  `started` and `terminated`. The callback object becomes two things:
  - a trace field `calls`, which records every `on_entry`, `on_exit`, `guard` and
    `action` call in order;
  - a guard oracle `answer`, which is a function of everything the host has been
    told so far.

  Each `dispatch` is written as the nested match of the generated code, every arm as
  generated, including the arm of `H` in s11. It is proved equal to a table-driven
  specification: `Engine.Handle` over the candidate list of the current state and event.
- **The generator's tree logic** in python/statesurf.py:
  - the `Model` class, with `ensure_node`, `ancestors`, `lca`, `is_composite` and
    `initial_leaf`;
  - `topo_states`, `compute_state_depth` and `build_transitions_by_state`;
  - from `gen_header`: identifier sanitising, deduplicating guard and action
    registration, `entry_chain_nodes`, and the exit and entry lists that each emitted
    transition performs.

The central invariant of both machines is stated the same way. Replay the
`on_entry`/`on_exit` records made since the last reset as a stack of active states. The
result is exactly the active configuration: the current state and its ancestors, or
nothing before start.
- The flat machine keeps this invariant on every call.
- The hierarchical machine keeps it on every call but `H` in s11. That arm breaks the
  replay, and the replay then stays broken until the next reset (see "## Findings").
- The hierarchical machine always keeps its shape: only the two leaves and the
  pseudo-states are ever current, and its flags agree with its state.

The same replay judges the generator. The lists it computes for a transition move the
configuration of the source leaf to that of the destination leaf.

Modules:
- `Wrappers`: `Option`.
- `Engine`: callback records, candidates, guard selection, replay, and the host's four logs.
- `Hsm` and `HsmScenario`: the hierarchical machine, and the golden lifecycle of its Rust test.
- `Fsm`: the flat machine.
- `StateTree`: the tree as a value.
- `StateModel`: the `Model` class and its loops.
- `TransitionTable`: `build_transitions_by_state`.
- `Identifiers`: ids and registration.
- `TransitionChains`: exit and entry lists.

## Model

| member | source | states |
|---|---|---|
| Engine.Select | rust/generated/hsm.rs:253-272 | guards are tried in listed order; the chosen index, when there is one, is in range |
| Engine.ExitCalls | rust/generated/hsm.rs:262-270 | one exit record per state, in the listed order |
| Engine.EntryCalls | rust/generated/hsm.rs:262-270 | one entry record per state, in the listed order |
| Engine.ActionCalls | rust/generated/hsm.rs:262-270 | one action record per action, in order, each reported against the source state and the event |
| Engine.SelectAsksInOrder | rust/generated/hsm.rs:253-272 | the calls added are one guard call per candidate tried, in order and each once; every candidate before the chosen one was asked and answered false |
| Engine.SelectStopsAtWinner | rust/generated/hsm.rs:253-272 | the first candidate that is unguarded or whose guard answers true is chosen, and no later guard is asked |
| Engine.SelectShortCircuit | rust/generated/hsm.rs:514-525 | selection adds guard calls only, and stops at the first unguarded candidate or true guard |
| Engine.SelectAsksOnlyGuards | rust/generated/hsm.rs:253-272 | selection only extends the trace, and everything it adds is a guard call |
| Engine.HandleUnguarded | rust/generated/hsm.rs:140-155 | an arm whose first candidate is unguarded takes that candidate with no guard call |
| Engine.HandleGuarded | rust/generated/hsm.rs:253-272 | with a guarded first candidate, dispatch asks that guard once, then takes the candidate or goes on to the rest of the list |
| Engine.HandleShape | rust/generated/hsm.rs:119-580 | a dispatch appends its guard calls and the chosen candidate's calls; it either keeps the state or moves to a listed target |
| Engine.HandleKeepsConfiguration | rust/generated/hsm.rs:119-580 | when every candidate fits the configuration, the replay of the trace after dispatch is the configuration of the new state, and the state is unchanged or a candidate's target |
| Engine.ReplayAppend | rust/generated/hsm.rs:52-53 | replaying a concatenation is replaying its parts one after the other |
| Engine.ReplayExits | rust/generated/hsm.rs:262-270 | exiting a configuration's innermost states, innermost first, pops exactly them |
| Engine.ReplayExitsAll | rust/generated/hsm.rs:546-556 | exiting every active state, innermost first, leaves nothing active |
| Engine.ReplayEntries | rust/generated/hsm.rs:96-100 | entering the states of a chain, outermost first, pushes exactly them |
| Engine.ReplayQuiet | rust/generated/hsm.rs:54-55 | guard and action calls leave the active configuration unchanged |
| Engine.ReplayBroken | rust/generated/hsm.rs:52-53 | once the replay has failed, later calls cannot repair it |
| Engine.ReplayReentry | rust/generated/hsm.rs:245-252 | entering a state that is still active, after exiting only the states below it, breaks the replay |
| Engine.ReplayTransition | rust/generated/hsm.rs:262-270 | a candidate whose exits are a prefix of the old configuration and whose entries complete the new one moves the replay from old to new, after any guard calls |
| Engine.ReplayEffects | rust/generated/hsm.rs:262-270 | the exit, action and entry calls of a consistent candidate move the replay from the old configuration to the new one |
| Engine.ReplayAfterSelection | rust/generated/hsm.rs:119-580 | after the guard calls, the chosen candidate's calls (or none) reach the configuration of the resulting state |
| Engine.LogsAppend | rust/tests/hsm_machine_test.rs:38-62 | each of the host's four logs of a concatenation is the concatenation of the logs |
| Engine.RecordLogs | rust/tests/hsm_machine_test.rs:38-62 | exit calls show up only in the exit log, entry calls only in the entry log, and action calls only in the action log |
| Engine.EffectsLogs | rust/generated/hsm.rs:262-270 | a transition shows the host its exits, actions and entries, and asks no guard |
| Engine.TakeLogs | rust/generated/hsm.rs:262-276 | taking a candidate extends the trace; a transition shows its exits, actions and entries, and an internal candidate only its actions |
| Hsm.ChainFacts | rust/generated/hsm.rs:131-571 | the configurations of the two leaves s11 and s211 are [s11, s1, s] and [s211, s21, s2, s], and both are parent chains |
| Hsm.S11ArmsFit | rust/generated/hsm.rs:233-336 | every candidate listed for s11 lands on a leaf or the final pseudo-state; it fits the configuration of s11 exactly when the event is not `H` |
| Hsm.S211ArmsFit | rust/generated/hsm.rs:469-571 | every candidate listed for s211 fits its configuration and lands on a leaf or the final pseudo-state |
| Hsm.LeafArmsFit | rust/generated/hsm.rs:233-336 | for either leaf, every listed candidate lands on a leaf or the final pseudo-state, and fits the configuration exactly when it is not the arm of `H` in s11 |
| Hsm.CorrectedArmsFit | rust/generated/hsm.rs:245-252 | with the arm of `H` in s11 corrected, every candidate listed for a leaf fits and lands on a leaf or the final pseudo-state |
| Hsm.ResetEstablishesInv | rust/generated/hsm.rs:83-87 | reset establishes the invariant from any view |
| Hsm.StartPreservesInv | rust/generated/hsm.rs:89-100 | start keeps the invariant |
| Hsm.StartCallsReplay | rust/generated/hsm.rs:96-100 | the start-up records enter exactly the configuration of s211 |
| Hsm.StartKeepsBroken | rust/generated/hsm.rs:89-100 | a broken replay stays broken through start, and start keeps the shape |
| Hsm.StartPreservesInvOrBroken | rust/generated/hsm.rs:89-100 | start keeps the weaker invariant: the shape, and a replay that is exact or broken |
| Hsm.HandleKeepsShape | rust/generated/hsm.rs:233-571 | handling an event in a leaf, with candidates that land on leaves, keeps the shape and only appends to the trace |
| Hsm.HandlePreservesInv | rust/generated/hsm.rs:233-571 | handling an event in either leaf keeps the shape; the invariant holds afterwards exactly when the event is not `H` in s11 |
| Hsm.HandleKeepsBroken | rust/generated/hsm.rs:233-571 | once the replay is broken, handling any event in a leaf leaves it broken and keeps the shape |
| Hsm.DispatchPreservesInv | rust/generated/hsm.rs:119-580 | dispatch keeps the shape, so only s11, s211 and the pseudo-states are ever current and the arms of s, s1, s2 and s21 are never taken; the invariant holds afterwards exactly when the call is not `H` in s11 |
| Hsm.DispatchPreservesInvOrBroken | rust/generated/hsm.rs:119-580 | the generated machine keeps the weaker invariant on every call: the shape, and a replay that is exact or broken, never repaired before a reset |
| Hsm.CorrectedDispatchPreservesInv | rust/generated/hsm.rs:245-252 | with the arm of `H` in s11 corrected, dispatch keeps the invariant on every call |
| Hsm.HFromS11AsWrittenBreaksConfiguration | rust/generated/hsm.rs:245-252 | the arm of `H` in s11 as generated breaks the replay from every reachable view in s11 |
| Hsm.HFromS11KeepsConfiguration | rust/generated/hsm.rs:245-252 | the corrected arm exits s11 and s1, enters s1 and s11, and keeps the configuration of s11 |
| Hsm.LeavesHandleEveryEvent | rust/generated/hsm.rs:233-336 | both leaves list a candidate for every event |
| Hsm.UnhandledEventIsNoOp | rust/generated/hsm.rs:332-334 | an event with no candidate emits nothing and changes nothing |
| Hsm.TerminateExitsEveryActiveState | rust/generated/hsm.rs:546-556 | TERMINATE exits every active state innermost first, enters the final pseudo-state once, and terminates |
| Hsm.TerminateArm | rust/generated/hsm.rs:313-322 | in a leaf, TERMINATE's only candidate exits the whole configuration |
| Hsm.TerminateEffects | rust/generated/hsm.rs:546-556 | a termination's calls are the exits followed by one entry of the final pseudo-state |
| Hsm.InternalEventKeepsConfiguration | rust/generated/hsm.rs:273-276 | `I` keeps the state and flags and adds only guard and action calls; in s11 it adds nothing at all |
| Hsm.HsmMachine.constructor | rust/generated/hsm.rs:72-81 | a new machine is in the initial pseudo-state, neither started nor terminated, with no callback made |
| Hsm.HsmMachine.Reset | rust/generated/hsm.rs:83-87 | the state, started and terminated fields are reset, and the invariant holds |
| Hsm.HsmMachine.Start | rust/generated/hsm.rs:89-100 | a no-op once started or terminated; otherwise it performs the initial action and enters s, s2, s21 and s211; it keeps both the invariant and the weaker invariant |
| Hsm.HsmMachine.Dispatch | rust/generated/hsm.rs:119-580 | equals the table-driven specification over the generated table (nothing after termination, start first when unstarted); keeps the weaker invariant always, and keeps the invariant exactly when the call is not `H` in s11 |
| Hsm.HsmMachine.Enter | rust/generated/hsm.rs:52 | `on_entry` appends one entry record to the trace |
| Hsm.HsmMachine.Leave | rust/generated/hsm.rs:53 | `on_exit` appends one exit record to the trace |
| Hsm.HsmMachine.Ask | rust/generated/hsm.rs:54 | `guard` returns the host's answer and records the question with that answer |
| Hsm.HsmMachine.Act | rust/generated/hsm.rs:55 | `action` appends one action record to the trace |
| Hsm.HsmMachine.DispatchInState | rust/generated/hsm.rs:130-580 | the outer match equals handling the current state's generated candidate list |
| Hsm.HsmMachine.DispatchFromS | rust/generated/hsm.rs:131-160 | the match on the event in s equals the table for s |
| Hsm.HsmMachine.DispatchFromS1 | rust/generated/hsm.rs:161-232 | the match on the event in s1 equals the table for s1 |
| Hsm.HsmMachine.DispatchFromS11 | rust/generated/hsm.rs:233-336 | the match on the event in s11 equals the generated table for s11, `H` included |
| Hsm.HsmMachine.DispatchFromS2 | rust/generated/hsm.rs:337-388 | the match on the event in s2 equals the table for s2 |
| Hsm.HsmMachine.DispatchFromS21 | rust/generated/hsm.rs:389-468 | the match on the event in s21 equals the table for s21 |
| Hsm.HsmMachine.DispatchFromS211 | rust/generated/hsm.rs:469-571 | the match on the event in s211 equals the table for s211 |
| Hsm.HsmMachine.SToS11 | rust/generated/hsm.rs:148-155 | exits s, enters s1 and s11, moves to s11 |
| Hsm.HsmMachine.STerminate | rust/generated/hsm.rs:140-147 | exits s, enters the final pseudo-state, terminates |
| Hsm.HsmMachine.S1ReenterS1 | rust/generated/hsm.rs:178-185 | exits s1, enters s1 and s11 |
| Hsm.HsmMachine.S1ToS11 | rust/generated/hsm.rs:186-192 | exits s1, enters s11 |
| Hsm.HsmMachine.S1ToS211 | rust/generated/hsm.rs:193-201 | exits s1, enters s2, s21 and s211 |
| Hsm.HsmMachine.S1Terminate | rust/generated/hsm.rs:211-219 | exits s1 and s, enters the final pseudo-state, terminates |
| Hsm.HsmMachine.S1GuardedD | rust/generated/hsm.rs:167-177 | asks isFooFalse once and takes the transition only when it holds |
| Hsm.HsmMachine.S1ReenterSettingFooTrue | rust/generated/hsm.rs:168-175 | exits s1, performs setFooTrue, enters s1 and s11 |
| Hsm.HsmMachine.S11ToS211 | rust/generated/hsm.rs:235-244 | exits s11 and s1, enters s2, s21 and s211 |
| Hsm.HsmMachine.S11EnterS1Again | rust/generated/hsm.rs:245-252 | `H` in s11 as generated: exits s11 only, then enters s1 and s11 |
| Hsm.HsmMachine.S11ReenterS1 | rust/generated/hsm.rs:277-285 | exits s11 and s1, enters s1 and s11 (`A`, and `E` at 323-331) |
| Hsm.HsmMachine.S11Reenter | rust/generated/hsm.rs:286-292 | exits and re-enters s11 |
| Hsm.HsmMachine.S11Terminate | rust/generated/hsm.rs:313-322 | exits s11, s1 and s, enters the final pseudo-state, terminates |
| Hsm.HsmMachine.S11GuardedD | rust/generated/hsm.rs:253-272 | asks isFooTrue, then isFooFalse only when the first failed, and takes the first that holds |
| Hsm.HsmMachine.S11ReenterSettingFooFalse | rust/generated/hsm.rs:254-261 | exits s11, performs setFooFalse, enters s11 |
| Hsm.HsmMachine.S11ReenterS1SettingFooTrue | rust/generated/hsm.rs:262-271 | exits s11 and s1, performs setFooTrue, enters s1 and s11 |
| Hsm.HsmMachine.S2ToS11 | rust/generated/hsm.rs:351-358 | exits s2, enters s1 and s11 |
| Hsm.HsmMachine.S2Terminate | rust/generated/hsm.rs:367-375 | exits s2 and s, enters the final pseudo-state, terminates |
| Hsm.HsmMachine.S21ToS11 | rust/generated/hsm.rs:391-399 | exits s21 and s2, enters s1 and s11 |
| Hsm.HsmMachine.S21ReenterS21 | rust/generated/hsm.rs:400-407 | exits s21, enters s21 and s211 |
| Hsm.HsmMachine.S21ToS211 | rust/generated/hsm.rs:408-414 | exits s21, enters s211 |
| Hsm.HsmMachine.S21Terminate | rust/generated/hsm.rs:445-454 | exits s21, s2 and s, enters the final pseudo-state, terminates |
| Hsm.HsmMachine.S211Reenter | rust/generated/hsm.rs:471-477 | exits and re-enters s211 |
| Hsm.HsmMachine.S211ToS11 | rust/generated/hsm.rs:488-497 | exits s211, s21 and s2, enters s1 and s11 |
| Hsm.HsmMachine.S211ReenterS21 | rust/generated/hsm.rs:498-506 | exits s211 and s21, enters s21 and s211 |
| Hsm.HsmMachine.S211Terminate | rust/generated/hsm.rs:546-556 | exits s211, s21, s2 and s, enters the final pseudo-state, terminates |
| Hsm.HsmMachine.SGuardedI | rust/generated/hsm.rs:133-139 | asks isFooTrue once and performs setFooFalse only when it holds |
| Hsm.HsmMachine.FlipFoo | rust/generated/hsm.rs:514-525 | asks isFooFalse, then isFooTrue only when the first failed, and performs the matching action without leaving the state |
| HsmScenario.FlagAfterAppend | rust/tests/hsm_machine_test.rs:55-61 | the host's flag after two runs of actions is the flag after the second run, started from the first run's result |
| HsmScenario.Unguarded | rust/tests/hsm_machine_test.rs:115-124 | the recording host's dispatch takes an unguarded first candidate |
| HsmScenario.FirstGuardHolds | rust/tests/hsm_machine_test.rs:145-154 | a true first guard is asked once and its candidate taken |
| HsmScenario.SecondGuardHolds | rust/tests/hsm_machine_test.rs:155-164 | a false first guard and a true second guard are both asked, and the second candidate is taken |
| HsmScenario.TakeShows | rust/tests/hsm_machine_test.rs:64-83 | taking a candidate adds exactly the exits, entries, actions and guards a step lists, and lands where it says |
| HsmScenario.TakeObserved | rust/tests/hsm_machine_test.rs:64-83 | the host observes exactly the step, and its flag follows the actions |
| HsmScenario.FlagAcross | rust/tests/hsm_machine_test.rs:55-61 | the flag after a longer trace is the flag after its prefix, updated by the actions since |
| HsmScenario.UnguardedObserved | rust/tests/hsm_machine_test.rs:115-144 | one unguarded step shows the host exactly what the step lists |
| HsmScenario.FirstGuardObserved | rust/tests/hsm_machine_test.rs:145-154 | one step through a true first guard shows exactly what it lists |
| HsmScenario.SecondGuardObserved | rust/tests/hsm_machine_test.rs:155-164 | one step through a false then a true guard shows exactly what it lists |
| HsmScenario.EarlySteps | rust/tests/hsm_machine_test.rs:115-144 | steps G, I and A of the lifecycle |
| HsmScenario.GuardedDSteps | rust/tests/hsm_machine_test.rs:145-164 | the two guarded D steps |
| HsmScenario.MiddleSteps | rust/tests/hsm_machine_test.rs:165-204 | steps C, E, E and G |
| HsmScenario.LateSteps | rust/tests/hsm_machine_test.rs:205-231 | the two guarded I steps and TERMINATE |
| HsmScenario.LifecycleStep | rust/tests/hsm_machine_test.rs:115-231 | any step of the lifecycle shows what the test expects and reaches the next step's precondition |
| HsmScenario.FollowsByInduction | rust/tests/hsm_machine_test.rs:115-231 | a property kept by every step and holding at step k yields the whole run from k |
| HsmScenario.LifecycleFrom | rust/tests/hsm_machine_test.rs:115-231 | the lifecycle from any step on shows the host exactly what each step lists |
| HsmScenario.StartLogs | rust/tests/hsm_machine_test.rs:98-112 | start-up shows the entries s, s2, s21, s211 and the action setFooFalse, with no exit and no guard |
| HsmScenario.DrivesThroughLifecycle | rust/tests/hsm_machine_test.rs:87-231 | a fresh machine with the recording host produces the test's logs at start and at every dispatch, and ends in the final pseudo-state |
| Fsm.ResetEstablishesInv | rust/generated/fsm.rs:78-82 | reset establishes the invariant |
| Fsm.StartPreservesInv | rust/generated/fsm.rs:84-92 | start keeps the invariant |
| Fsm.ArmsFit | rust/generated/fsm.rs:121-202 | every candidate fits the flat configuration and never targets a pseudo-state |
| Fsm.HandlePreservesInv | rust/generated/fsm.rs:121-202 | handling an event in a started machine keeps the invariant |
| Fsm.DispatchPreservesInv | rust/generated/fsm.rs:110-210 | dispatch keeps the invariant, in particular the machine never terminates |
| Fsm.EventAMovesToState2 | rust/generated/fsm.rs:124-130 | eventA in State1 exits State1, enters State2 and moves there |
| Fsm.GuardAChoosesState3 | rust/generated/fsm.rs:146-154 | eventB in State2 asks guardA once and moves to State3 exactly when it holds |
| Fsm.EventCRunsActionBetweenExitAndEntry | rust/generated/fsm.rs:162-169 | eventC exits State3, performs actionA, enters State4 |
| Fsm.GuardBChoosesState5 | rust/generated/fsm.rs:177-186 | eventD asks guardB once; only when it holds does the machine exit State4, perform actionB, enter State5 |
| Fsm.OtherEventsAreQuiet | rust/generated/fsm.rs:131-202 | every other event in a running machine changes nothing and calls nothing |
| Fsm.DispatchMovesForwardAtMostOne | rust/generated/fsm.rs:110-202 | dispatch never terminates and moves forward along State1 to State5 by at most one |
| Fsm.ArmsMoveForward | rust/generated/fsm.rs:121-202 | every transition goes to the next state along the line |
| Fsm.FsmMachine.constructor | rust/generated/fsm.rs:67-76 | a new machine is in the initial pseudo-state, neither started nor terminated, with no callback made |
| Fsm.FsmMachine.Reset | rust/generated/fsm.rs:78-82 | the three fields are reset, and the invariant holds |
| Fsm.FsmMachine.Start | rust/generated/fsm.rs:84-92 | a no-op once started or terminated; otherwise it enters State1 |
| Fsm.FsmMachine.Dispatch | rust/generated/fsm.rs:110-210 | equals the table-driven specification, and keeps the invariant |
| Fsm.FsmMachine.Enter | rust/generated/fsm.rs:47 | `on_entry` appends one entry record to the trace |
| Fsm.FsmMachine.Leave | rust/generated/fsm.rs:48 | `on_exit` appends one exit record to the trace |
| Fsm.FsmMachine.Ask | rust/generated/fsm.rs:49 | `guard` returns the host's answer and records the question with that answer |
| Fsm.FsmMachine.Act | rust/generated/fsm.rs:50 | `action` appends one action record to the trace |
| Fsm.FsmMachine.DispatchInState | rust/generated/fsm.rs:121-210 | the outer match equals handling the current state's candidate list |
| Fsm.FsmMachine.FromState1 | rust/generated/fsm.rs:122-143 | the match on the event in State1 equals its table |
| Fsm.FsmMachine.FromState2 | rust/generated/fsm.rs:144-159 | the match on the event in State2 equals its table |
| Fsm.FsmMachine.FromState3 | rust/generated/fsm.rs:160-174 | the match on the event in State3 equals its table |
| Fsm.FsmMachine.FromState4 | rust/generated/fsm.rs:175-191 | the match on the event in State4 equals its table |
| Fsm.FsmMachine.FromState5 | rust/generated/fsm.rs:192-202 | the match on the event in State5 equals its table |
| StateTree.ParentBefore | python/statesurf.py:35-46 | in a tree built by `ensure_node`, every node but the root has a parent created before it |
| StateTree.AncestorsShape | python/statesurf.py:48-54 | the ancestors start at the state itself, follow parent links, never contain the root, and end at a top-level state |
| StateTree.AncestorsStep | python/statesurf.py:48-54 | each ancestor's parent is the next ancestor, or the root after the last |
| StateTree.AncestorsBefore | python/statesurf.py:48-54 | every ancestor was created no later than the state |
| StateTree.AncestorsNoDup | python/statesurf.py:48-54 | no state is listed twice among the ancestors |
| StateTree.AncestorsSuffix | python/statesurf.py:48-54 | what follows an ancestor in the list is that ancestor's own list |
| StateTree.WithinTrans | python/statesurf.py:48-54 | being inside is transitive |
| StateTree.WithinAntisymmetric | python/statesurf.py:48-54 | two states that enclose each other are the same state |
| StateTree.ChildrenInMember | python/statesurf.py:35-46 | a node's children are exactly the nodes naming it as parent |
| StateTree.ChildrenInNoDup | python/statesurf.py:35-46 | no child is listed twice |
| StateTree.SiblingsDisjoint | python/statesurf.py:35-46 | two children of the same parent never both enclose the same state |
| StateTree.IsCompositeIffParent | python/statesurf.py:65-66 | a state is composite exactly when some node names it as parent |
| StateTree.FirstInNone | python/statesurf.py:59-63 | the search finds nothing exactly when the two lists share no element |
| StateTree.FirstIn | python/statesurf.py:59-63 | the element found, when there is one, lies in both lists |
| StateTree.FirstInIsFirst | python/statesurf.py:59-63 | nothing before the element found occurs in the other list |
| StateTree.LcaIsLowest | python/statesurf.py:56-63 | `lca` is an ancestor-or-self of both states; it is None exactly when they share no ancestor below the root; and every common ancestor encloses it |
| StateTree.LcaSymmetric | python/statesurf.py:56-63 | `lca(a, b) == lca(b, a)` |
| StateTree.NextDownInside | python/statesurf.py:68-77 | one step of the descent goes to a node strictly inside, created later |
| StateTree.InitialLeafIsLeafInside | python/statesurf.py:68-77 | `initial_leaf` ends at a leaf inside the state, and a leaf is its own initial leaf |
| StateTree.DepthOfChild | python/statesurf.py:182-186 | top-level states have depth 0 and a child is one deeper than its parent |
| StateTree.UpTo | python/statesurf.py:305-314 | the result is the prefix before the first occurrence of the anchor, or everything |
| StateTree.WalkSound | python/statesurf.py:173-180 | the walk below x lists only states strictly inside x |
| StateTree.WalkComplete | python/statesurf.py:173-180 | the walk below x lists every state strictly inside x |
| StateTree.WalkNoDup | python/statesurf.py:173-180 | the walk lists no state twice |
| StateTree.WalkApart | python/statesurf.py:175-178 | the walk below one child shares no state with the walks below its later siblings |
| StateTree.WalkPreOrder | python/statesurf.py:173-180 | every state listed by the walk comes after its parent |
| StateTree.TopoStatesListsEachStateOnce | python/statesurf.py:173-180 | `topo_states` lists every state but the root exactly once, each after its parent |
| StateModel.EnsureNodeSpec | python/statesurf.py:35-46 | the named node exists afterwards, and no node is lost |
| StateModel.EnsureExistingIsNoOp | python/statesurf.py:36-41 | re-declaring an existing state changes nothing |
| StateModel.EnsureNewNode | python/statesurf.py:42-45 | a new state is added last, under `parent`, as its last child, and no other state changes parent |
| StateModel.EnsureNodeKeepsValid | python/statesurf.py:35-46 | `ensure_node` keeps the tree well formed, unless the name is `__root__` |
| StateModel.EnsureNodeKeepsInv | python/statesurf.py:35-46 | the same, with the transition endpoints still nodes |
| StateModel.RedeclaredRootMakesCycle | python/statesurf.py:36-41 | a state called `__root__` inside a top-level state makes the children links cyclic |
| StateModel.Model.constructor | python/statesurf.py:27-33 | a new model holds only the root |
| StateModel.Model.EnsureNode | python/statesurf.py:35-46 | returns the node, updates the tree as the specification says, and keeps validity for every name but `__root__` |
| StateModel.Model.Ancestors | python/statesurf.py:48-54 | the loop returns the ancestors of the state |
| StateModel.Model.InitialLeaf | python/statesurf.py:68-77 | the loop returns the initial leaf |
| StateModel.ComputeStateDepth | python/statesurf.py:182-186 | the loop returns the number of ancestors minus one |
| StateModel.EntryChainNodes | python/statesurf.py:305-314 | the loop returns the states below the anchor down to the leaf, outermost first |
| TransitionTable.FilterMember | python/statesurf.py:201-203 | filtering keeps exactly the elements that satisfy the predicate |
| TransitionTable.FilterCommute | python/statesurf.py:197-203 | filtering by source and by event commute |
| TransitionTable.CandidatesAlongMember | python/statesurf.py:195-199 | the candidates are exactly the transitions whose source is on the chain |
| TransitionTable.Candidates | python/statesurf.py:193-199 | every candidate of a state leaves a state of the tree |
| TransitionTable.CandidatesFromOneSource | python/statesurf.py:195-199 | among the candidates, those of one source are that source's transitions in declaration order |
| TransitionTable.EventsMember | python/statesurf.py:200-203 | an event is a key exactly when some candidate has it |
| TransitionTable.InsertPermutes | python/statesurf.py:204-205 | insertion adds exactly the new element |
| TransitionTable.Insert | python/statesurf.py:204-205 | insertion adds one element |
| TransitionTable.SortDescending | python/statesurf.py:204-205 | the sort keeps the length; its ordering, permutation and stability are the lemmas below |
| TransitionTable.SortDescendingPermutes | python/statesurf.py:204-205 | the sort is a permutation |
| TransitionTable.InsertSorted | python/statesurf.py:204-205 | insertion keeps a list in descending key order |
| TransitionTable.SortDescendingSorts | python/statesurf.py:204-205 | the sort orders by key, largest first |
| TransitionTable.SortDescendingKeepsSorted | python/statesurf.py:204-205 | an ordered list is left as it is |
| TransitionTable.InsertStable | python/statesurf.py:204-205 | insertion keeps the order of elements with equal keys |
| TransitionTable.SortDescendingStable | python/statesurf.py:204-205 | the sort is stable |
| TransitionTable.AncestorDepths | python/statesurf.py:182-186 | along the ancestors, the depth decreases by one at each step |
| TransitionTable.CandidatesAlongDeepestFirst | python/statesurf.py:195-199 | candidates collected innermost first come deepest source first |
| TransitionTable.CandidatesDeepestFirst | python/statesurf.py:193-205 | a state's candidates already come deepest source first |
| TransitionTable.EventListIsCandidates | python/statesurf.py:188-207 | each list holds exactly the transitions on that event from the state or an ancestor, deepest source first, each source's in declaration order |
| TransitionTable.EventMapKeys | python/statesurf.py:200-203 | a state's table has an entry for exactly the events of its candidates |
| TransitionTable.EventMapFromGroups | python/statesurf.py:200-206 | grouping by event and sorting each group gives the state's table |
| TransitionTable.GroupBySource | python/statesurf.py:189-191 | each source's group is its transitions in declaration order |
| TransitionTable.CollectCandidates | python/statesurf.py:195-199 | the loop collects the groups of the state and its ancestors, innermost first |
| TransitionTable.GroupByEvent | python/statesurf.py:200-203 | the keys are the candidates' events, and each list is the candidates with that event |
| TransitionTable.SortEachByDepth | python/statesurf.py:204-205 | every list is sorted by source depth, deepest first, stably |
| TransitionTable.BuildTransitionsByState | python/statesurf.py:188-207 | the table has an entry for every state but the root, and each entry is that state's event table |
| Identifiers.SanitizeId | python/statesurf.py:210-211 | length is preserved, only `[A-Za-z0-9_]` is produced, identifier characters are kept and every other becomes `_` |
| Identifiers.SanitizeIdIdempotent | python/statesurf.py:210-211 | sanitizing twice changes nothing more |
| Identifiers.SanitizeIdKeepsIdChars | python/statesurf.py:210-211 | a string of identifier characters is unchanged |
| Identifiers.NormalizedId | python/statesurf.py:221-227 | the result is non-empty, made of identifier characters, and does not start with a digit |
| Identifiers.NormalizedIdIsSanitized | python/statesurf.py:221-227 | the result is the sanitized name, with at most a `_` in front |
| Identifiers.NormalizedIdKeepsIdentifiers | python/statesurf.py:221-227 | an identifier is left as it is, so normalizing is idempotent |
| Identifiers.NormalizedIdMerges | python/statesurf.py:221-227 | distinct names can share an id |
| Identifiers.IdsOfListsEachIdOnce | python/statesurf.py:229-241 | the id list has no duplicate and holds exactly the ids of the registered names |
| Identifiers.RegisterKeepsInv | python/statesurf.py:229-241 | registering keeps the ids unique, maps each name to its id, and lists only ids of registered names |
| Identifiers.Registry.constructor | python/statesurf.py:215-218 | empty id list and map |
| Identifiers.Registry.Register | python/statesurf.py:229-234 | returns the name's id, appends it only when new, maps the name to it, and keeps the registry's invariant |
| Identifiers.Present | python/statesurf.py:243-247 | a missing or empty name registers nothing |
| Identifiers.GuardNames | python/statesurf.py:243-245 | a name is listed exactly when some transition carries it as a non-empty guard |
| Identifiers.ActionNames | python/statesurf.py:243-247 | a name is listed exactly when some transition carries it as a non-empty action |
| Identifiers.RegisterIfPresent | python/statesurf.py:244-247 | registering an optional name extends the id list as the pure definition says |
| Identifiers.RegisterHooks | python/statesurf.py:243-247 | the loop leaves the ids of all guard and action names, in first-registration order |
| TransitionChains.AncestorsAreChain | python/statesurf.py:48-54 | the ancestors of a state form an active configuration |
| TransitionChains.DestLeafInside | python/statesurf.py:405 | the destination leaf is a leaf inside the destination |
| TransitionChains.ChainsAsWritten | python/statesurf.py:405-438 | the lists as the generator computes them; the leaf is a node |
| TransitionChains.ChainsOf | python/statesurf.py:405-438 | the corrected lists; the leaf is a node |
| TransitionChains.ChainsDifferOnlyOnSelfTransitions | python/statesurf.py:430-432 | the corrected and the as-written lists differ exactly on external self-transitions, and only in their exits |
| TransitionChains.SplitAt | python/statesurf.py:406-411 | an ancestor splits the ancestors into what lies below it and its own ancestors |
| TransitionChains.ChainsOfSelf | python/statesurf.py:405-438 | a self-transition exits up to and including the source, then re-enters it and descends |
| TransitionChains.ChainsOfInside | python/statesurf.py:405-438 | into the source: exit up to the source, enter from below it |
| TransitionChains.InsideToOwnLeafIsSilent | python/statesurf.py:412-438 | a transition from a leaf into an enclosing state whose initial leaf is that same leaf exits nothing and enters nothing |
| TransitionChains.ChainsOfOutside | python/statesurf.py:405-438 | out of the source: exit up to the lowest common ancestor, or everything when there is none, and enter from below it |
| TransitionChains.SelfCase | python/statesurf.py:430-438 | the corrected self-transition lists are consistent with both configurations |
| TransitionChains.InsideCase | python/statesurf.py:405-438 | the lists into the source are consistent |
| TransitionChains.CommonAncestorCase | python/statesurf.py:420-438 | the lists through a common ancestor are consistent |
| TransitionChains.DisjointCase | python/statesurf.py:420-438 | the lists with no common ancestor are consistent |
| TransitionChains.ChainsMoveConfiguration | python/statesurf.py:405-438 | the corrected lists exit a prefix of the active configuration and enter the rest of the leaf's, outermost first |
| TransitionChains.TakenTransitionReplays | python/statesurf.py:439-470 | replaying the emitted calls, after any guard calls, moves the active states from the configuration of s to that of the leaf |
| TransitionChains.FinalExitsEverything | python/statesurf.py:386-403 | a transition to the final pseudo-state exits every active state and leaves nothing active |
| TransitionChains.ChainsAsWrittenSelf | python/statesurf.py:405-438 | as written, a self-transition stops its exits below the source and enters it again |
| TransitionChains.SelfTransitionAsWrittenBreaksReplay | python/statesurf.py:457-462 | as written, an external self-transition's calls break the replay |

## Left out

- Text emission: the C++ header text that `gen_header` builds, `generate`, `main` and
  file I/O are not modelled. The emitted transition is modelled by the calls it makes
  (`TransitionChains.Arm`).
- `parse_puml`: regular-expression parsing of the diagram is not modelled. Trees are built
  with `EnsureNode`, or taken as any well-formed `StateTree.Tree`.
- Node entry, exit and initial actions: the model does not carry them.
  - The action calls the emitted code makes for them are not in the exit and entry lists.
  - Their registration loops (python/statesurf.py:249-262) are not modelled.
- Dictionary iteration order: `evmap`'s keys and the order of `result` are not modelled.
  The order of states uses the `names` sequence, which is the insertion order of the
  `nodes` dictionary.
- `on_event`, `on_transition` and the borrow accessors (`callbacks`, `callbacks_mut`,
  `hooks`, `hooks_mut`) are left out: they have no observable effect. The fields and the
  trace are read directly instead of through `state()` and `terminated()`.
- The `if !self.started { return; }` after `start()` in `dispatch` is not modelled:
  `start` always sets `started` there, so the return cannot be reached.
- The host is modelled by the trace and a guard oracle. Guard answers may depend on
  everything the host has been told, but not on hidden host state.
- StateModel.Model.EnsureNode: the tree stays well formed only for names other than
  `__root__`. Re-declaring the root inside a state makes the children links cyclic
  (`StateModel.RedeclaredRootMakesCycle`), and `topo_states` would then not terminate.
- StateModel.Model.InitialLeaf: requires every initial target to lie strictly inside the
  state that declares it. Otherwise the generator's loop may not terminate or may leave
  the subtree.
- Identifiers.IsDigit: treats `str.isdigit` as ASCII `0`-`9`. This is exact here because
  the input is already sanitized to `[A-Za-z0-9_]`.
- TransitionTable.SortDescending: Python's `list.sort` is modelled as a stable insertion
  sort. Its permutation, ordering and stability are proved.
- TransitionChains.ChainsOf: only external transitions whose source is a state of the
  tree are modelled. The generator's branches for a source missing from `nodes` or equal
  to `__root__` are not reachable from a parsed diagram.
- Internal transitions and the final branch in `gen_header` are not covered by the chain
  lemmas, apart from `TransitionChains.FinalExitsEverything`.

## Findings

| source | as written | input that shows it | evidently intended | confidence | as-written member | corrected member |
|---|---|---|---|---|---|---|
| rust/generated/hsm.rs:245-252 | `H` in s11 exits only s11, then enters s1 and s11 | start the machine, dispatch `E` to reach s11, then `H`: `on_entry(s1)` is reported while s1 is still active, with no `on_exit(s1)` before it | exit s11 and s1, then enter s1 and s11, as `A` and `E` in s11 do | high (not executed) | Hsm.HFromS11AsWrittenBreaksConfiguration | Hsm.CorrectedDispatchPreservesInv |
| python/statesurf.py:430-438, 457-462 | for an external self-transition `A --> A`, the exits stop below A, then `on_entry(A)` is emitted | a top-level leaf A with the transition `A --> A : ev`: the emitted code calls `on_entry(A)` with no `on_exit(A)` | also exit the source before re-entering it | high (not executed) | TransitionChains.SelfTransitionAsWrittenBreaksReplay | TransitionChains.ChainsMoveConfiguration |
