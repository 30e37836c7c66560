/**
  The part shared by both generated dispatchers: what the host sees (an ordered
  trace of callback records), the candidate transitions listed for one
  (state, event) pair, how candidates are tried in order, and a replay of the
  entry/exit records as a stack of active states.
 */
module Engine {
  import opened Wrappers

  /** One invocation of the host's capability interface, in the order it happened.
      A guard record keeps the answer the host gave. */
  datatype Call<S, E, G, A> =
    | OnEntry(entered: S)
    | OnExit(exited: S)
    | Guard(gstate: S, gevent: E, guard: G, result: bool)
    | Action(astate: S, aevent: E, action: A)

  /** `Stay` is an internal transition: actions only, no exit or entry. */
  datatype Target<S> = Stay | Goto(to: S)

  /** One hard-coded arm of a generated dispatcher: an optional guard, then the
      exits, actions and entries it performs, and where it leaves the machine. */
  datatype Candidate<S, G, A> =
    Candidate(guard: Option<G>, exits: seq<S>, actions: seq<A>, entries: seq<S>, target: Target<S>)

  /** The observable part of a machine: current state, lifecycle flags, the host's
      trace, and the trace position at the last reset (a proof aid). */
  datatype View<S, E, G, A> =
    View(state: S, started: bool, terminated: bool, calls: seq<Call<S, E, G, A>>, since: nat)

  /** The result of trying candidates: the trace with the guard calls made, and the
      index of the candidate taken, if any. */
  datatype Selection<S, E, G, A> = Selection(calls: seq<Call<S, E, G, A>>, chosen: Option<nat>)

  /** One exit record per state, in the given order. */
  function ExitCalls<S, E, G, A>(xs: seq<S>): (r: seq<Call<S, E, G, A>>)
    ensures |r| == |xs| && forall i :: 0 <= i < |xs| ==> r[i] == OnExit(xs[i])
  {
    if xs == [] then [] else [OnExit(xs[0])] + ExitCalls(xs[1..])
  }

  /** One entry record per state, in the given order. */
  function EntryCalls<S, E, G, A>(xs: seq<S>): (r: seq<Call<S, E, G, A>>)
    ensures |r| == |xs| && forall i :: 0 <= i < |xs| ==> r[i] == OnEntry(xs[i])
  {
    if xs == [] then [] else [OnEntry(xs[0])] + EntryCalls(xs[1..])
  }

  /** One action record per action, in the given order, all reported against the
      same state and event. */
  function ActionCalls<S, E, G, A>(st: S, ev: E, acts: seq<A>): (r: seq<Call<S, E, G, A>>)
    ensures |r| == |acts| && forall i :: 0 <= i < |acts| ==> r[i] == Action(st, ev, acts[i])
  {
    if acts == [] then [] else [Action(st, ev, acts[0])] + ActionCalls(st, ev, acts[1..])
  }

  /** The records a taken candidate adds: exits, then actions (reported against the
      source state), then entries. */
  function Effects<S, E, G, A>(c: Candidate<S, G, A>, st: S, ev: E): seq<Call<S, E, G, A>>
  {
    ExitCalls(c.exits) + ActionCalls(st, ev, c.actions) + EntryCalls(c.entries)
  }

  /** Try the candidates in listed order. Each guard is put to the host once, and its
      answer may depend on everything the host was told before. */
  function Select<S, E, G, A>(answer: (seq<Call<S, E, G, A>>, S, E, G) -> bool,
                              cands: seq<Candidate<S, G, A>>, st: S, ev: E,
                              calls: seq<Call<S, E, G, A>>): (r: Selection<S, E, G, A>)
    ensures r.chosen.Some? ==> r.chosen.value < |cands|
    decreases |cands|
  {
    if cands == [] then Selection(calls, None)
    else match cands[0].guard
      case None => Selection(calls, Some(0))
      case Some(g) =>
        var b := answer(calls, st, ev, g);
        var calls' := calls + [Guard(st, ev, g, b)];
        if b then Selection(calls', Some(0))
        else
          var rest := Select(answer, cands[1..], st, ev, calls');
          Selection(rest.calls, if rest.chosen.Some? then Some(rest.chosen.value + 1) else None)
  }

  /** Handling of one event by a started machine, given the candidates listed for
      its current state: the table-driven reading of a generated arm. */
  function Handle<S(==), E, G, A>(answer: (seq<Call<S, E, G, A>>, S, E, G) -> bool,
                              cands: seq<Candidate<S, G, A>>, m: View<S, E, G, A>,
                              ev: E, final: S): View<S, E, G, A>
  {
    var sel := Select(answer, cands, m.state, ev, m.calls);
    match sel.chosen
    case None => m.(calls := sel.calls)
    case Some(k) => Take(cands[k], m, sel.calls, ev, final)
  }

  /** Taking candidate `c` from view `m` once the trace reads `calls`: an internal
      one only adds its actions; an external one adds its exits, actions and
      entries and moves to its target, terminating when that is `final`. */
  function Take<S(==), E, G, A>(c: Candidate<S, G, A>, m: View<S, E, G, A>,
                                calls: seq<Call<S, E, G, A>>, ev: E, final: S): View<S, E, G, A>
  {
    match c.target
    case Stay => m.(calls := calls + ActionCalls(m.state, ev, c.actions))
    case Goto(t) =>
      m.(calls := calls + Effects(c, m.state, ev), state := t,
         terminated := m.terminated || t == final)
  }

  /** An unguarded first candidate is taken at once. */
  lemma HandleUnguarded<S, E, G, A>(answer: (seq<Call<S, E, G, A>>, S, E, G) -> bool,
                                    cands: seq<Candidate<S, G, A>>, m: View<S, E, G, A>,
                                    ev: E, final: S)
    requires cands != [] && cands[0].guard.None?
    ensures Handle(answer, cands, m, ev, final) == Take(cands[0], m, m.calls, ev, final)
  {
  }

  /** A guarded first candidate asks its guard once; it is taken on a true answer,
      otherwise the rest are tried after the guard record. */
  lemma HandleGuarded<S, E, G, A>(answer: (seq<Call<S, E, G, A>>, S, E, G) -> bool,
                                  cands: seq<Candidate<S, G, A>>, m: View<S, E, G, A>,
                                  ev: E, final: S)
    requires cands != [] && cands[0].guard.Some?
    ensures var g := cands[0].guard.value;
      var b := answer(m.calls, m.state, ev, g);
      var m' := m.(calls := m.calls + [Guard(m.state, ev, g, b)]);
      Handle(answer, cands, m, ev, final)
        == if b then Take(cands[0], m, m'.calls, ev, final)
           else Handle(answer, cands[1..], m', ev, final)
  {
    var g := cands[0].guard.value;
    var b := answer(m.calls, m.state, ev, g);
    var m' := m.(calls := m.calls + [Guard(m.state, ev, g, b)]);
    if !b {
      var rest := Select(answer, cands[1..], m.state, ev, m'.calls);
      if rest.chosen.Some? {
        assert cands[rest.chosen.value + 1] == cands[1..][rest.chosen.value];
      }
    }
  }

  /** Record i of trace rc (which went past position base) asks the guard of
      candidate i - base, with the answer the host gives after rc[..i]. */
  ghost predicate AskedAt<S, E, G, A>(
    answer: (seq<Call<S, E, G, A>>, S, E, G) -> bool,
    cands: seq<Candidate<S, G, A>>, st: S, ev: E, base: int,
    rc: seq<Call<S, E, G, A>>, i: int)
  {
    && 0 <= i - base < |cands| && 0 <= i < |rc|
    && cands[i - base].guard.Some?
    && rc[i] == Guard(st, ev, cands[i - base].guard.value,
                      answer(rc[..i], st, ev, cands[i - base].guard.value))
  }

  /** Every record added while trying candidates is a guard call: the i-th one asks
      the i-th candidate's guard, with the answer the host gives after the trace so
      far. */
  lemma {:induction false} SelectAsksInOrder<S, E, G, A>(
    answer: (seq<Call<S, E, G, A>>, S, E, G) -> bool,
    cands: seq<Candidate<S, G, A>>, st: S, ev: E, calls: seq<Call<S, E, G, A>>)
    ensures var r := Select(answer, cands, st, ev, calls);
      && calls <= r.calls
      && |r.calls| - |calls| <= |cands|
      && (forall i :: |calls| <= i < |r.calls| ==>
            AskedAt(answer, cands, st, ev, |calls|, r.calls, i))
    decreases |cands|
  {
    if cands != [] && cands[0].guard.Some? {
      var g := cands[0].guard.value;
      var b := answer(calls, st, ev, g);
      var calls' := calls + [Guard(st, ev, g, b)];
      var r := Select(answer, cands, st, ev, calls);
      if !b {
        SelectAsksInOrder(answer, cands[1..], st, ev, calls');
        var rest := Select(answer, cands[1..], st, ev, calls');
        assert r.calls == rest.calls;
        forall i | |calls| <= i < |r.calls|
          ensures AskedAt(answer, cands, st, ev, |calls|, r.calls, i)
        {
          if i == |calls| {
            assert r.calls[..i] == calls;
            assert r.calls[i] == calls'[i];
          } else {
            assert AskedAt(answer, cands[1..], st, ev, |calls'|, rest.calls, i);
            assert cands[i - |calls|] == cands[1..][i - |calls'|];
          }
        }
      } else {
        assert r.calls == calls' && r.calls[..|calls|] == calls;
      }
    }
  }

  /** The outcome of trying candidates: when none is taken, every candidate was
      guarded and every answer false; when the k-th is taken, exactly the guards of
      the first k candidates (and the k-th's own, if any) were asked, the earlier
      ones answered false and the k-th's true. Nothing after the winner is asked. */
  lemma {:induction false} SelectStopsAtWinner<S, E, G, A>(
    answer: (seq<Call<S, E, G, A>>, S, E, G) -> bool,
    cands: seq<Candidate<S, G, A>>, st: S, ev: E, calls: seq<Call<S, E, G, A>>)
    ensures var r := Select(answer, cands, st, ev, calls);
      && |calls| <= |r.calls|
      && (forall i :: |calls| <= i < |r.calls| ==> r.calls[i].Guard?)
      && (r.chosen.None? ==>
            && |r.calls| == |calls| + |cands|
            && forall i :: |calls| <= i < |r.calls| ==> !r.calls[i].result)
      && (r.chosen.Some? ==>
            var k := r.chosen.value;
            && |r.calls| == |calls| + (if cands[k].guard.Some? then k + 1 else k)
            && (forall i :: |calls| <= i < |calls| + k ==> !r.calls[i].result)
            && (cands[k].guard.Some? ==> r.calls[|calls| + k].result))
    decreases |cands|
  {
    if cands != [] && cands[0].guard.Some? {
      var g := cands[0].guard.value;
      var b := answer(calls, st, ev, g);
      var calls' := calls + [Guard(st, ev, g, b)];
      if !b {
        SelectStopsAtWinner(answer, cands[1..], st, ev, calls');
        SelectAsksInOrder(answer, cands[1..], st, ev, calls');
        var r := Select(answer, cands, st, ev, calls);
        assert r.calls[|calls|] == Guard(st, ev, g, b);
        var rest := Select(answer, cands[1..], st, ev, calls');
        if rest.chosen.Some? {
          assert cands[r.chosen.value] == cands[1..][rest.chosen.value];
        }
      }
    }
  }

  /** Guard short-circuit, the two lemmas above together. */
  lemma SelectShortCircuit<S, E, G, A>(
    answer: (seq<Call<S, E, G, A>>, S, E, G) -> bool,
    cands: seq<Candidate<S, G, A>>, st: S, ev: E, calls: seq<Call<S, E, G, A>>)
    ensures var r := Select(answer, cands, st, ev, calls);
      && calls <= r.calls
      && |r.calls| - |calls| <= |cands|
      && (forall i :: |calls| <= i < |r.calls| ==>
            AskedAt(answer, cands, st, ev, |calls|, r.calls, i))
      && (forall i :: |calls| <= i < |r.calls| ==> r.calls[i].Guard?)
      && (r.chosen.None? ==>
            && |r.calls| == |calls| + |cands|
            && forall i :: |calls| <= i < |r.calls| ==> !r.calls[i].result)
      && (r.chosen.Some? ==>
            var k := r.chosen.value;
            && |r.calls| == |calls| + (if cands[k].guard.Some? then k + 1 else k)
            && (forall i :: |calls| <= i < |calls| + k ==> !r.calls[i].result)
            && (cands[k].guard.Some? ==> r.calls[|calls| + k].result))
  {
    SelectAsksInOrder(answer, cands, st, ev, calls);
    SelectStopsAtWinner(answer, cands, st, ev, calls);
  }

  /// Replaying entry/exit records as a stack of active states (innermost first).

  /** One record applied to the stack: an entry must enter a child of the innermost
      active state (or a top-level state when nothing is active); an exit must leave
      the innermost active state. Anything else breaks the replay (None). */
  function ApplyCall<S(==), E, G, A>(parent: S -> Option<S>, stack: Option<seq<S>>,
                                     c: Call<S, E, G, A>): Option<seq<S>>
  {
    match stack
    case None => None
    case Some(st) =>
      match c
      case OnEntry(x) =>
        if parent(x) == (if st == [] then None else Some(st[0])) then Some([x] + st) else None
      case OnExit(x) => if st != [] && st[0] == x then Some(st[1..]) else None
      case _ => stack
  }

  function Replay<S(==), E, G, A>(parent: S -> Option<S>, stack: Option<seq<S>>,
                                  calls: seq<Call<S, E, G, A>>): Option<seq<S>>
    decreases |calls|
  {
    if calls == [] then stack else Replay(parent, ApplyCall(parent, stack, calls[0]), calls[1..])
  }

  /** An active configuration: innermost first, each state's parent is the next one,
      and the outermost has no parent. */
  ghost predicate IsChain<S>(parent: S -> Option<S>, ys: seq<S>)
  {
    && (forall i :: 0 <= i < |ys| - 1 ==> parent(ys[i]) == Some(ys[i + 1]))
    && (|ys| > 0 ==> parent(ys[|ys| - 1]) == None)
  }

  function Reverse<T>(s: seq<T>): (r: seq<T>)
    ensures |r| == |s|
  {
    if s == [] then [] else [s[|s| - 1]] + Reverse(s[..|s| - 1])
  }

  lemma {:induction false} ReplayAppend<S, E, G, A>(parent: S -> Option<S>, stack: Option<seq<S>>,
                                                    a: seq<Call<S, E, G, A>>, b: seq<Call<S, E, G, A>>)
    ensures Replay(parent, stack, a + b) == Replay(parent, Replay(parent, stack, a), b)
    decreases |a|
  {
    if a == [] {
      assert a + b == b;
    } else {
      assert (a + b)[0] == a[0] && (a + b)[1..] == a[1..] + b;
      ReplayAppend(parent, ApplyCall(parent, stack, a[0]), a[1..], b);
    }
  }

  /** Exiting the innermost states in order pops exactly them. */
  lemma {:induction false} ReplayExits<S, E, G, A>(parent: S -> Option<S>, xs: seq<S>, rest: seq<S>)
    ensures Replay(parent, Some(xs + rest), ExitCalls<S, E, G, A>(xs)) == Some(rest)
    decreases |xs|
  {
    var calls: seq<Call<S, E, G, A>> := ExitCalls(xs);
    if xs == [] {
      assert xs + rest == rest;
    } else {
      assert calls[0] == OnExit(xs[0]) && calls[1..] == ExitCalls(xs[1..]);
      assert (xs + rest)[0] == xs[0] && (xs + rest)[1..] == xs[1..] + rest;
      assert ApplyCall(parent, Some(xs + rest), calls[0]) == Some(xs[1..] + rest);
      ReplayExits<S, E, G, A>(parent, xs[1..], rest);
    }
  }

  /** Exiting every active state, innermost first, leaves nothing active. */
  lemma ReplayExitsAll<S, E, G, A>(parent: S -> Option<S>, xs: seq<S>)
    ensures Replay(parent, Some(xs), ExitCalls<S, E, G, A>(xs)) == Some([])
  {
    assert xs + [] == xs;
    ReplayExits<S, E, G, A>(parent, xs, []);
  }

  /** Entering the missing outer part of a chain, outermost first, rebuilds it. */
  lemma {:induction false} ReplayEntries<S, E, G, A>(parent: S -> Option<S>, ys: seq<S>, j: nat)
    requires IsChain(parent, ys)
    requires j <= |ys|
    ensures Replay(parent, Some(ys[j..]), EntryCalls<S, E, G, A>(Reverse(ys[..j]))) == Some(ys)
    decreases j
  {
    if j > 0 {
      assert ys[..j][..j - 1] == ys[..j - 1];
      assert Reverse(ys[..j]) == [ys[j - 1]] + Reverse(ys[..j - 1]);
      assert [ys[j - 1]] + ys[j..] == ys[j - 1..];
      ReplayEntries<S, E, G, A>(parent, ys, j - 1);
    }
  }

  /** Guard and action records leave the stack alone. */
  lemma {:induction false} ReplayQuiet<S, E, G, A>(parent: S -> Option<S>, stack: Option<seq<S>>,
                                                   calls: seq<Call<S, E, G, A>>)
    requires forall i :: 0 <= i < |calls| ==> calls[i].Guard? || calls[i].Action?
    ensures Replay(parent, stack, calls) == stack
    decreases |calls|
  {
    if calls != [] {
      ReplayQuiet(parent, stack, calls[1..]);
    }
  }

  lemma {:induction false} ActionCallsAreActions<S, E, G, A>(st: S, ev: E, acts: seq<A>)
    ensures forall i :: 0 <= i < |ActionCalls<S, E, G, A>(st, ev, acts)| ==>
              ActionCalls<S, E, G, A>(st, ev, acts)[i].Action?
    decreases |acts|
  {
    if acts != [] {
      ActionCallsAreActions<S, E, G, A>(st, ev, acts[1..]);
    }
  }

  /** Once broken, a replay stays broken. */
  lemma {:induction false} ReplayBroken<S, E, G, A>(parent: S -> Option<S>, calls: seq<Call<S, E, G, A>>)
    ensures Replay(parent, None, calls) == None
    decreases |calls|
  {
    if calls != [] {
      ReplayBroken(parent, calls[1..]);
    }
  }

  /** A candidate whose exits stop short of a state and whose entries start by entering
      that same, still active, state breaks the replay. */
  lemma ReplayReentry<S, E, G, A>(parent: S -> Option<S>, xs: seq<S>, c: Candidate<S, G, A>, st: S, ev: E)
    requires |c.exits| < |xs| && c.exits == xs[..|c.exits|]
    requires c.entries != [] && c.entries[0] == xs[|c.exits|]
    requires parent(xs[|c.exits|]) != Some(xs[|c.exits|])
    ensures Replay(parent, Some(xs), Effects(c, st, ev)) == None
  {
    var exits: seq<Call<S, E, G, A>> := ExitCalls(c.exits);
    var acts: seq<Call<S, E, G, A>> := ActionCalls(st, ev, c.actions);
    var ents: seq<Call<S, E, G, A>> := EntryCalls(c.entries);
    var rest := xs[|c.exits|..];
    assert Effects(c, st, ev) == exits + (acts + ents);
    ReplayAppend(parent, Some(xs), exits, acts + ents);
    assert xs == c.exits + rest;
    ReplayExits<S, E, G, A>(parent, c.exits, rest);
    ReplayAppend(parent, Some(rest), acts, ents);
    ActionCallsAreActions<S, E, G, A>(st, ev, c.actions);
    ReplayQuiet(parent, Some(rest), acts);
    assert ents[0] == OnEntry(rest[0]);
    assert ApplyCall(parent, Some(rest), ents[0]) == None;
    ReplayBroken(parent, ents[1..]);
  }

  /** A candidate is consistent with a configuration `xs` when its exits are an
      innermost prefix of `xs`, its entries rebuild chain `ys` outermost first, and
      what was not exited is exactly what is not entered. */
  ghost predicate Consistent<S, G, A>(parent: S -> Option<S>, xs: seq<S>, c: Candidate<S, G, A>, ys: seq<S>)
  {
    && IsChain(parent, ys)
    && |c.exits| <= |xs| && c.exits == xs[..|c.exits|]
    && |c.entries| <= |ys| && c.entries == Reverse(ys[..|c.entries|])
    && xs[|c.exits|..] == ys[|c.entries|..]
  }

  /** Taking a consistent candidate moves the replayed configuration from `xs` to
      `ys`, whatever guard calls came before it. */
  lemma ReplayTransition<S, E, G, A>(parent: S -> Option<S>, xs: seq<S>, c: Candidate<S, G, A>,
                                     ys: seq<S>, st: S, ev: E, guards: seq<Call<S, E, G, A>>)
    requires Consistent(parent, xs, c, ys)
    requires forall i :: 0 <= i < |guards| ==> guards[i].Guard?
    ensures Replay(parent, Some(xs), guards + Effects(c, st, ev)) == Some(ys)
  {
    ReplayAppend(parent, Some(xs), guards, Effects(c, st, ev));
    ReplayQuiet(parent, Some(xs), guards);
    ReplayEffects(parent, xs, c, ys, st, ev);
  }

  /** The effects of a consistent candidate move the configuration from `xs` to `ys`. */
  lemma ReplayEffects<S, E, G, A>(parent: S -> Option<S>, xs: seq<S>, c: Candidate<S, G, A>,
                                  ys: seq<S>, st: S, ev: E)
    requires Consistent(parent, xs, c, ys)
    ensures Replay(parent, Some(xs), Effects(c, st, ev)) == Some(ys)
  {
    var exits: seq<Call<S, E, G, A>> := ExitCalls(c.exits);
    var tail := ActionCalls(st, ev, c.actions) + EntryCalls(c.entries);
    var rest := xs[|c.exits|..];
    assert Effects(c, st, ev) == exits + tail;
    ReplayAppend(parent, Some(xs), exits, tail);
    assert xs == c.exits + rest;
    ReplayExits<S, E, G, A>(parent, c.exits, rest);
    ReplayActionsThenEntries(parent, c, ys, st, ev);
  }

  lemma ReplayActionsThenEntries<S, E, G, A>(parent: S -> Option<S>, c: Candidate<S, G, A>,
                                             ys: seq<S>, st: S, ev: E)
    requires IsChain(parent, ys)
    requires |c.entries| <= |ys| && c.entries == Reverse(ys[..|c.entries|])
    ensures Replay(parent, Some(ys[|c.entries|..]),
                   ActionCalls<S, E, G, A>(st, ev, c.actions) + EntryCalls(c.entries)) == Some(ys)
  {
    var acts: seq<Call<S, E, G, A>> := ActionCalls(st, ev, c.actions);
    var rest := ys[|c.entries|..];
    ReplayAppend(parent, Some(rest), acts, EntryCalls(c.entries));
    ActionCallsAreActions<S, E, G, A>(st, ev, c.actions);
    ReplayQuiet(parent, Some(rest), acts);
    ReplayEntries<S, E, G, A>(parent, ys, |c.entries|);
  }
  /** A candidate listed for state x fits the tree when an internal one performs no
      exit or entry, and an external one is consistent with the configurations
      active in x and in its target. */
  ghost predicate Fits<S, G, A>(parent: S -> Option<S>, active: S -> seq<S>, x: S,
                                c: Candidate<S, G, A>)
  {
    match c.target
    case Stay => c.exits == [] && c.entries == []
    case Goto(t) => Consistent(parent, active(x), c, active(t))
  }

  /** Handling an event with candidates that fit the tree keeps the replayed trace
      equal to the configuration of the current state, and only appends to the
      trace. */
  lemma HandleKeepsConfiguration<S, E, G, A>(
    answer: (seq<Call<S, E, G, A>>, S, E, G) -> bool, parent: S -> Option<S>,
    active: S -> seq<S>, cands: seq<Candidate<S, G, A>>, m: View<S, E, G, A>, ev: E, final: S)
    requires m.since <= |m.calls|
    requires Replay(parent, Some([]), m.calls[m.since..]) == Some(active(m.state))
    requires forall c :: c in cands ==> Fits(parent, active, m.state, c)
    ensures var r := Handle(answer, cands, m, ev, final);
      && r.since == m.since && m.calls <= r.calls
      && Replay(parent, Some([]), r.calls[m.since..]) == Some(active(r.state))
      && (|| r == m.(calls := r.calls)
          || exists c :: c in cands && c.target.Goto? &&
               r == m.(calls := r.calls, state := c.target.to, terminated := m.terminated || c.target.to == final))
  {
    var sel := Select(answer, cands, m.state, ev, m.calls);
    SelectAsksOnlyGuards(answer, cands, m.state, ev, m.calls);
    var guards := sel.calls[|m.calls|..];
    var tail := HandleTail(answer, cands, m, ev);
    HandleShape(answer, cands, m, ev, final);
    TraceSplit(m.calls, sel.calls, tail, m.since);
    ReplayAppend(parent, Some([]), m.calls[m.since..], guards + tail);
    ReplayAfterSelection(parent, active, cands, m.state, ev, guards, sel.chosen, tail);
  }

  /** Trying candidates adds guard calls only. */
  lemma SelectAsksOnlyGuards<S, E, G, A>(
    answer: (seq<Call<S, E, G, A>>, S, E, G) -> bool,
    cands: seq<Candidate<S, G, A>>, st: S, ev: E, calls: seq<Call<S, E, G, A>>)
    ensures var r := Select(answer, cands, st, ev, calls);
      && calls <= r.calls
      && forall i :: |calls| <= i < |r.calls| ==> r.calls[i].Guard?
  {
    SelectAsksInOrder(answer, cands, st, ev, calls);
  }

  /** What a dispatch adds after its guard calls: nothing, the chosen internal
      candidate's actions, or the chosen transition's effects. */
  function HandleTail<S(==), E, G, A>(answer: (seq<Call<S, E, G, A>>, S, E, G) -> bool,
                                      cands: seq<Candidate<S, G, A>>, m: View<S, E, G, A>,
                                      ev: E): seq<Call<S, E, G, A>>
  {
    var sel := Select(answer, cands, m.state, ev, m.calls);
    match sel.chosen
    case None => []
    case Some(k) =>
      if cands[k].target.Stay? then ActionCalls(m.state, ev, cands[k].actions)
      else Effects(cands[k], m.state, ev)
  }

  /** A dispatch appends its guard calls and its tail, and either keeps the state or
      moves to the target of one of the candidates. */
  lemma HandleShape<S, E, G, A>(answer: (seq<Call<S, E, G, A>>, S, E, G) -> bool,
                                cands: seq<Candidate<S, G, A>>, m: View<S, E, G, A>,
                                ev: E, final: S)
    ensures var r := Handle(answer, cands, m, ev, final);
      var sel := Select(answer, cands, m.state, ev, m.calls);
      && r.calls == sel.calls + HandleTail(answer, cands, m, ev)
      && r.since == m.since
      && (sel.chosen.Some? && cands[sel.chosen.value].target.Goto? ==>
            r.state == cands[sel.chosen.value].target.to)
      && (!(sel.chosen.Some? && cands[sel.chosen.value].target.Goto?) ==> r.state == m.state)
      && (|| r == m.(calls := r.calls)
          || exists c :: c in cands && c.target.Goto? &&
               r == m.(calls := r.calls, state := c.target.to, terminated := m.terminated || c.target.to == final))
  {
    var sel := Select(answer, cands, m.state, ev, m.calls);
    if sel.chosen.Some? {
      assert cands[sel.chosen.value] in cands;
    }
  }

  /** The trace after a dispatch, from the last reset on: the old part, the guard
      calls, then the tail. */
  lemma TraceSplit<T>(calls: seq<T>, selected: seq<T>, tail: seq<T>, since: nat)
    requires since <= |calls| && calls <= selected
    ensures calls <= selected + tail
    ensures (selected + tail)[since..] == calls[since..] + (selected[|calls|..] + tail)
  {
    assert selected == calls + selected[|calls|..];
  }

  /** The records a dispatch adds after the configuration it started from, guard
      calls followed by the chosen candidate's effects, replay to the configuration
      of the state it ends in. */
  lemma ReplayAfterSelection<S, E, G, A>(
    parent: S -> Option<S>, active: S -> seq<S>, cands: seq<Candidate<S, G, A>>,
    st: S, ev: E, guards: seq<Call<S, E, G, A>>, chosen: Option<nat>, tail: seq<Call<S, E, G, A>>)
    requires forall i :: 0 <= i < |guards| ==> guards[i].Guard?
    requires chosen.Some? ==> chosen.value < |cands| && Fits(parent, active, st, cands[chosen.value])
    requires chosen.None? ==> tail == []
    requires chosen.Some? && cands[chosen.value].target.Stay? ==>
      tail == ActionCalls(st, ev, cands[chosen.value].actions)
    requires chosen.Some? && cands[chosen.value].target.Goto? ==>
      tail == Effects(cands[chosen.value], st, ev)
    ensures var after :=
        if chosen.Some? && cands[chosen.value].target.Goto? then cands[chosen.value].target.to else st;
      Replay(parent, Some(active(st)), guards + tail) == Some(active(after))
  {
    var xs := active(st);
    if chosen.None? {
      assert guards + tail == guards;
      ReplayQuiet(parent, Some(xs), guards);
    } else {
      var c := cands[chosen.value];
      if c.target.Stay? {
        ActionCallsAreActions<S, E, G, A>(st, ev, c.actions);
        ReplayQuiet(parent, Some(xs), guards + tail);
      } else {
        ReplayTransition(parent, xs, c, active(c.target.to), st, ev, guards);
      }
    }
  }

  /// The logs a recording host keeps, one per callback, read off the trace.

  function Exited<S, E, G, A>(calls: seq<Call<S, E, G, A>>): seq<S>
  {
    if calls == [] then []
    else (if calls[0].OnExit? then [calls[0].exited] else []) + Exited(calls[1..])
  }

  function Entered<S, E, G, A>(calls: seq<Call<S, E, G, A>>): seq<S>
  {
    if calls == [] then []
    else (if calls[0].OnEntry? then [calls[0].entered] else []) + Entered(calls[1..])
  }

  function Performed<S, E, G, A>(calls: seq<Call<S, E, G, A>>): seq<A>
  {
    if calls == [] then []
    else (if calls[0].Action? then [calls[0].action] else []) + Performed(calls[1..])
  }

  function Asked<S, E, G, A>(calls: seq<Call<S, E, G, A>>): seq<G>
  {
    if calls == [] then []
    else (if calls[0].Guard? then [calls[0].guard] else []) + Asked(calls[1..])
  }

  lemma LogsAppend<S, E, G, A>(a: seq<Call<S, E, G, A>>, b: seq<Call<S, E, G, A>>)
    ensures Exited(a + b) == Exited(a) + Exited(b)
    ensures Entered(a + b) == Entered(a) + Entered(b)
    ensures Performed(a + b) == Performed(a) + Performed(b)
    ensures Asked(a + b) == Asked(a) + Asked(b)
  {
    ExitedAppend(a, b);
    EnteredAppend(a, b);
    PerformedAppend(a, b);
    AskedAppend(a, b);
  }

  lemma {:induction false} ExitedAppend<S, E, G, A>(a: seq<Call<S, E, G, A>>, b: seq<Call<S, E, G, A>>)
    ensures Exited(a + b) == Exited(a) + Exited(b)
    decreases |a|
  {
    if a != [] {
      assert (a + b)[0] == a[0] && (a + b)[1..] == a[1..] + b;
      ExitedAppend(a[1..], b);
      var h: seq<S> := if a[0].OnExit? then [a[0].exited] else [];
      assert Exited(a + b) == h + (Exited(a[1..]) + Exited(b));
      assert h + (Exited(a[1..]) + Exited(b)) == (h + Exited(a[1..])) + Exited(b);
    } else {
      assert a + b == b;
    }
  }

  lemma {:induction false} EnteredAppend<S, E, G, A>(a: seq<Call<S, E, G, A>>, b: seq<Call<S, E, G, A>>)
    ensures Entered(a + b) == Entered(a) + Entered(b)
    decreases |a|
  {
    if a != [] {
      assert (a + b)[0] == a[0] && (a + b)[1..] == a[1..] + b;
      EnteredAppend(a[1..], b);
      var h: seq<S> := if a[0].OnEntry? then [a[0].entered] else [];
      assert Entered(a + b) == h + (Entered(a[1..]) + Entered(b));
      assert h + (Entered(a[1..]) + Entered(b)) == (h + Entered(a[1..])) + Entered(b);
    } else {
      assert a + b == b;
    }
  }

  lemma {:induction false} PerformedAppend<S, E, G, A>(a: seq<Call<S, E, G, A>>, b: seq<Call<S, E, G, A>>)
    ensures Performed(a + b) == Performed(a) + Performed(b)
    decreases |a|
  {
    if a != [] {
      assert (a + b)[0] == a[0] && (a + b)[1..] == a[1..] + b;
      PerformedAppend(a[1..], b);
      var h: seq<A> := if a[0].Action? then [a[0].action] else [];
      assert Performed(a + b) == h + (Performed(a[1..]) + Performed(b));
      assert h + (Performed(a[1..]) + Performed(b)) == (h + Performed(a[1..])) + Performed(b);
    } else {
      assert a + b == b;
    }
  }

  lemma {:induction false} AskedAppend<S, E, G, A>(a: seq<Call<S, E, G, A>>, b: seq<Call<S, E, G, A>>)
    ensures Asked(a + b) == Asked(a) + Asked(b)
    decreases |a|
  {
    if a != [] {
      assert (a + b)[0] == a[0] && (a + b)[1..] == a[1..] + b;
      AskedAppend(a[1..], b);
      var h: seq<G> := if a[0].Guard? then [a[0].guard] else [];
      assert Asked(a + b) == h + (Asked(a[1..]) + Asked(b));
      assert h + (Asked(a[1..]) + Asked(b)) == (h + Asked(a[1..])) + Asked(b);
    } else {
      assert a + b == b;
    }
  }

  lemma {:induction false} RecordLogs<S, E, G, A>(st: S, ev: E, xs: seq<S>, acts: seq<A>)
    ensures Exited(ExitCalls<S, E, G, A>(xs)) == xs && Entered(ExitCalls<S, E, G, A>(xs)) == []
    ensures Performed(ExitCalls<S, E, G, A>(xs)) == [] && Asked(ExitCalls<S, E, G, A>(xs)) == []
    ensures Exited(EntryCalls<S, E, G, A>(xs)) == [] && Entered(EntryCalls<S, E, G, A>(xs)) == xs
    ensures Performed(EntryCalls<S, E, G, A>(xs)) == [] && Asked(EntryCalls<S, E, G, A>(xs)) == []
    ensures Exited(ActionCalls<S, E, G, A>(st, ev, acts)) == []
    ensures Entered(ActionCalls<S, E, G, A>(st, ev, acts)) == []
    ensures Performed(ActionCalls<S, E, G, A>(st, ev, acts)) == acts
    ensures Asked(ActionCalls<S, E, G, A>(st, ev, acts)) == []
    decreases |xs| + |acts|
  {
    if xs != [] {
      RecordLogs<S, E, G, A>(st, ev, xs[1..], acts);
      assert xs == [xs[0]] + xs[1..];
    }
    if acts != [] {
      RecordLogs<S, E, G, A>(st, ev, xs, acts[1..]);
      assert acts == [acts[0]] + acts[1..];
    }
  }

  /** What is appended after a prefix is what a drop of that prefix gives back. */
  lemma DropPrefix<T>(a: seq<T>, b: seq<T>)
    ensures a <= a + b && (a + b)[|a|..] == b
  {
  }

  /** The records of a taken transition show its exits, actions and entries. */
  lemma EffectsLogs<S, E, G, A>(c: Candidate<S, G, A>, st: S, ev: E)
    ensures var x := Effects<S, E, G, A>(c, st, ev);
      && Exited(x) == c.exits && Entered(x) == c.entries
      && Performed(x) == c.actions && Asked(x) == []
  {
    var xs := ExitCalls<S, E, G, A>(c.exits);
    var acts := ActionCalls<S, E, G, A>(st, ev, c.actions);
    var ys := EntryCalls<S, E, G, A>(c.entries);
    var e := Effects<S, E, G, A>(c, st, ev);
    assert e == (xs + acts) + ys;
    RecordLogs<S, E, G, A>(st, ev, c.exits, c.actions);
    RecordLogs<S, E, G, A>(st, ev, c.entries, []);
    assert Exited(e) == c.exits by {
      ExitedAppend(xs, acts);
      ExitedAppend(xs + acts, ys);
    }
    assert Entered(e) == c.entries by {
      EnteredAppend(xs, acts);
      EnteredAppend(xs + acts, ys);
    }
    assert Performed(e) == c.actions by {
      PerformedAppend(xs, acts);
      PerformedAppend(xs + acts, ys);
    }
    assert Asked(e) == [] by {
      AskedAppend(xs, acts);
      AskedAppend(xs + acts, ys);
    }
  }

  /** Taking a candidate shows the host its actions, and for a transition its exits
      and entries; it asks no guard. */
  lemma TakeLogs<S, E, G, A>(c: Candidate<S, G, A>, m: View<S, E, G, A>,
                             calls: seq<Call<S, E, G, A>>, ev: E, final: S)
    ensures var r := Take(c, m, calls, ev, final);
      && calls <= r.calls
      && var d := r.calls[|calls|..];
      && Exited(d) == (if c.target.Goto? then c.exits else [])
      && Entered(d) == (if c.target.Goto? then c.entries else [])
      && Performed(d) == c.actions && Asked(d) == []
  {
    if c.target.Stay? {
      RecordLogs<S, E, G, A>(m.state, ev, [], c.actions);
      DropPrefix(calls, ActionCalls<S, E, G, A>(m.state, ev, c.actions));
    } else {
      EffectsLogs<S, E, G, A>(c, m.state, ev);
      DropPrefix(calls, Effects<S, E, G, A>(c, m.state, ev));
    }
  }
}
