/// `build_transitions_by_state` (python/statesurf.py): for every state, the
/// transitions it may take, grouped by event, deepest source first.
module TransitionTable {
  import opened Wrappers
  import opened StateTree
  import opened StateModel

  /// Filters.

  /** The elements of xs satisfying p, in order. */
  function Filter<T>(xs: seq<T>, p: T -> bool): seq<T>
    decreases |xs|
  {
    if xs == [] then []
    else Filter(xs[..|xs| - 1], p) + (if p(xs[|xs| - 1]) then [xs[|xs| - 1]] else [])
  }

  lemma {:induction false} FilterAppend<T>(a: seq<T>, b: seq<T>, p: T -> bool)
    ensures Filter(a + b, p) == Filter(a, p) + Filter(b, p)
    decreases |b|
  {
    if b == [] {
      assert a + b == a;
    } else {
      var b' := b[..|b| - 1];
      assert (a + b)[..|a + b| - 1] == a + b';
      FilterAppend(a, b', p);
    }
  }

  lemma {:induction false} FilterMember<T>(xs: seq<T>, p: T -> bool, x: T)
    ensures x in Filter(xs, p) <==> x in xs && p(x)
    decreases |xs|
  {
    if xs != [] {
      var xs' := xs[..|xs| - 1];
      FilterMember(xs', p, x);
      assert xs == xs' + [xs[|xs| - 1]];
    }
  }

  lemma FilterAllOrNone<T>(xs: seq<T>, p: T -> bool)
    ensures (forall x :: x in xs ==> p(x)) ==> Filter(xs, p) == xs
    ensures (forall x :: x in xs ==> !p(x)) ==> Filter(xs, p) == []
    decreases |xs|
  {
    if xs != [] {
      var xs' := xs[..|xs| - 1];
      FilterAllOrNone(xs', p);
      assert xs == xs' + [xs[|xs| - 1]];
      assert forall x :: x in xs' ==> x in xs;
    }
  }

  /** Two filters can be applied in either order. */
  lemma {:induction false} FilterCommute<T>(xs: seq<T>, p: T -> bool, q: T -> bool)
    ensures Filter(Filter(xs, p), q) == Filter(Filter(xs, q), p)
    decreases |xs|
  {
    if xs != [] {
      var xs' := xs[..|xs| - 1];
      var x := xs[|xs| - 1];
      FilterCommute(xs', p, q);
      var lp := if p(x) then [x] else [];
      var lq := if q(x) then [x] else [];
      FilterAppend(Filter(xs', p), lp, q);
      FilterAppend(Filter(xs', q), lq, p);
      assert [x][..0] == [];
    }
  }

  function SrcIs(x: string): Transition -> bool
  {
    (tr: Transition) => tr.src == x
  }

  function EventIs(e: string): Transition -> bool
  {
    (tr: Transition) => tr.event == Some(e)
  }

  /** `dict.get(key, [])`. */
  function Get(m: map<string, seq<Transition>>, k: string): seq<Transition>
  {
    if k in m then m[k] else []
  }

  /// Candidates.

  /** The transitions leaving each state of `chain`, chain order first, then
      declaration order. */
  function CandidatesAlong(trs: seq<Transition>, chain: seq<string>): (r: seq<Transition>)
    ensures forall tr :: tr in r ==> tr in trs && tr.src in chain
    decreases |chain|
  {
    if chain == [] then []
    else
      var b := Filter(trs, SrcIs(chain[0]));
      var rest := CandidatesAlong(trs, chain[1..]);
      assert forall tr :: tr in b ==> tr in trs && tr.src == chain[0] by {
        forall tr | tr in b
          ensures tr in trs && tr.src == chain[0]
        {
          FilterMember(trs, SrcIs(chain[0]), tr);
        }
      }
      b + rest
  }

  /** The candidates of state s: the transitions leaving s or one of its ancestors. */
  function Candidates(t: Tree, trs: seq<Transition>, s: string): (r: seq<Transition>)
    requires StateTree.Valid(t) && s in t.nodes
    ensures forall tr :: tr in r ==> tr.src in t.nodes
  {
    AncestorsShape(t, s);
    CandidatesAlong(trs, AncestorsOf(t, s))
  }

  lemma {:induction false} CandidatesAlongMember(trs: seq<Transition>, chain: seq<string>, tr: Transition)
    ensures tr in CandidatesAlong(trs, chain) <==> tr in trs && tr.src in chain
    decreases |chain|
  {
    if chain != [] {
      CandidatesAlongMember(trs, chain[1..], tr);
      FilterMember(trs, SrcIs(chain[0]), tr);
      assert tr.src in chain <==> tr.src == chain[0] || tr.src in chain[1..];
    }
  }

  /** From a chain of distinct states, the candidates leaving one of them are exactly
      its own transitions, in declaration order. */
  lemma {:induction false} CandidatesFromOneSource(trs: seq<Transition>, chain: seq<string>, a: string)
    requires NoDup(chain) && a in chain
    ensures Filter(CandidatesAlong(trs, chain), SrcIs(a)) == Filter(trs, SrcIs(a))
    decreases |chain|
  {
    var b := Filter(trs, SrcIs(chain[0]));
    var rest := CandidatesAlong(trs, chain[1..]);
    FilterAppend(b, rest, SrcIs(a));
    forall tr | tr in b
      ensures tr.src == chain[0]
    {
      FilterMember(trs, SrcIs(chain[0]), tr);
    }
    FilterAllOrNone(b, SrcIs(a));
    if a == chain[0] {
      assert a !in chain[1..] by {
        forall k | 0 <= k < |chain[1..]|
          ensures chain[1..][k] != a
        {
          assert chain[1..][k] == chain[k + 1];
        }
      }
      FilterAllOrNone(rest, SrcIs(a));
    } else {
      assert NoDup(chain[1..]) by {
        forall i, j | 0 <= i < j < |chain[1..]|
          ensures chain[1..][i] != chain[1..][j]
        {
          assert chain[1..][i] == chain[i + 1] && chain[1..][j] == chain[j + 1];
        }
      }
      CandidatesFromOneSource(trs, chain[1..], a);
    }
  }

  /// Events.

  /** The events named by the transitions in cs. */
  function Events(cs: seq<Transition>): set<string>
    decreases |cs|
  {
    if cs == [] then {}
    else
      var last := cs[|cs| - 1];
      Events(cs[..|cs| - 1]) + (if last.event.Some? then {last.event.value} else {})
  }

  lemma {:induction false} EventsMember(cs: seq<Transition>, e: string)
    ensures e in Events(cs) <==> Filter(cs, EventIs(e)) != []
    decreases |cs|
  {
    if cs != [] {
      EventsMember(cs[..|cs| - 1], e);
    }
  }

  /// Ordering by a key.

  /** Largest key first. */
  predicate KeyDescending<T>(key: T -> int, xs: seq<T>)
  {
    forall i, j :: 0 <= i < j < |xs| ==> key(xs[i]) >= key(xs[j])
  }

  /** Insert x after every element whose key is at least x's. */
  function Insert<T>(key: T -> int, sorted: seq<T>, x: T): (r: seq<T>)
    ensures |r| == |sorted| + 1
    decreases |sorted|
  {
    if sorted == [] then [x]
    else
      var last := sorted[|sorted| - 1];
      var init := sorted[..|sorted| - 1];
      if key(last) >= key(x) then sorted + [x]
      else Insert(key, init, x) + [last]
  }

  /** Python's stable `list.sort(key=key, reverse=True)`, as insertion sort. */
  function SortDescending<T>(key: T -> int, xs: seq<T>): (r: seq<T>)
    ensures |r| == |xs|
    decreases |xs|
  {
    if xs == [] then []
    else Insert(key, SortDescending(key, xs[..|xs| - 1]), xs[|xs| - 1])
  }

  /** Insertion adds exactly the new element. */
  lemma {:induction false} InsertPermutes<T>(key: T -> int, sorted: seq<T>, x: T)
    ensures multiset(Insert(key, sorted, x)) == multiset(sorted) + multiset{x}
    decreases |sorted|
  {
    if sorted != [] {
      var init := sorted[..|sorted| - 1];
      var last := sorted[|sorted| - 1];
      assert sorted == init + [last];
      InsertPermutes(key, init, x);
    }
  }

  /** The sort is a permutation. */
  lemma {:induction false} SortDescendingPermutes<T>(key: T -> int, xs: seq<T>)
    ensures multiset(SortDescending(key, xs)) == multiset(xs)
    decreases |xs|
  {
    if xs != [] {
      var init := xs[..|xs| - 1];
      assert xs == init + [xs[|xs| - 1]];
      SortDescendingPermutes(key, init);
      InsertPermutes(key, SortDescending(key, init), xs[|xs| - 1]);
    }
  }

  lemma {:induction false} InsertSorted<T>(key: T -> int, sorted: seq<T>, x: T)
    requires KeyDescending(key, sorted)
    ensures KeyDescending(key, Insert(key, sorted, x))
    decreases |sorted|
  {
    if sorted != [] {
      var last := sorted[|sorted| - 1];
      var init := sorted[..|sorted| - 1];
      if key(last) < key(x) {
        InsertSorted(key, init, x);
        InsertPermutes(key, init, x);
        var r := Insert(key, init, x);
        var all := r + [last];
        forall i | 0 <= i < |r|
          ensures key(r[i]) >= key(last)
        {
          assert r[i] in multiset(r);
          assert r[i] == x || r[i] in init;
          if r[i] != x {
            var k :| 0 <= k < |init| && init[k] == r[i];
            assert sorted[k] == r[i];
          }
        }
        forall i, j | 0 <= i < j < |all|
          ensures key(all[i]) >= key(all[j])
        {
          if j < |r| {
            assert all[i] == r[i] && all[j] == r[j];
          } else {
            assert all[i] == r[i];
          }
        }
      } else {
        var all := sorted + [x];
        forall i, j | 0 <= i < j < |all|
          ensures key(all[i]) >= key(all[j])
        {
          if j < |sorted| {
            assert all[i] == sorted[i] && all[j] == sorted[j];
          } else {
            assert all[i] == sorted[i];
          }
        }
      }
    }
  }

  /** The sort orders largest key first. */
  lemma {:induction false} SortDescendingSorts<T>(key: T -> int, xs: seq<T>)
    ensures KeyDescending(key, SortDescending(key, xs))
    decreases |xs|
  {
    if xs != [] {
      var init := xs[..|xs| - 1];
      SortDescendingSorts(key, init);
      InsertSorted(key, SortDescending(key, init), xs[|xs| - 1]);
    }
  }

  /** A list already in order is left exactly as it is. */
  lemma {:induction false} SortDescendingKeepsSorted<T>(key: T -> int, xs: seq<T>)
    requires KeyDescending(key, xs)
    ensures SortDescending(key, xs) == xs
    decreases |xs|
  {
    if xs != [] {
      var init := xs[..|xs| - 1];
      assert xs == init + [xs[|xs| - 1]];
      assert KeyDescending(key, init);
      SortDescendingKeepsSorted(key, init);
      if |init| > 0 {
        assert init[|init| - 1] == xs[|xs| - 2];
      }
    }
  }

  /** `compute_state_depth(t.src)`, as a total key (0 off the tree). */
  function DepthKey(t: Tree): Transition -> int
    requires StateTree.Valid(t)
  {
    (tr: Transition) => if tr.src in t.nodes then Depth(t, tr.src) else 0
  }

  /// The table.

  /** The per-event candidate lists of state s, each sorted deepest first. */
  function EventMap(t: Tree, trs: seq<Transition>, s: string): map<string, seq<Transition>>
    requires StateTree.Valid(t) && s in t.nodes
  {
    var cs := Candidates(t, trs, s);
    map e | e in Events(cs) :: SortDescending(DepthKey(t), Filter(cs, EventIs(e)))
  }

  /// Stability.

  function KeyIs<T>(key: T -> int, k: int): T -> bool
  {
    (x: T) => key(x) == k
  }

  lemma FilterSnoc<T>(a: seq<T>, y: T, p: T -> bool)
    ensures Filter(a + [y], p) == Filter(a, p) + (if p(y) then [y] else [])
  {
    assert (a + [y])[..|a|] == a;
  }

  /** Insertion either appends after the last element or passes it over. */
  lemma InsertLast<T>(key: T -> int, sorted: seq<T>, x: T)
    requires sorted != []
    ensures var last := sorted[|sorted| - 1];
      Insert(key, sorted, x)
        == if key(last) >= key(x) then sorted + [x] else Insert(key, sorted[..|sorted| - 1], x) + [last]
  {
  }

  lemma {:induction false} InsertStable<T>(key: T -> int, sorted: seq<T>, x: T, k: int)
    ensures Filter(Insert(key, sorted, x), KeyIs(key, k))
         == Filter(sorted, KeyIs(key, k)) + (if key(x) == k then [x] else [])
    decreases |sorted|
  {
    var p := KeyIs(key, k);
    if sorted == [] {
      FilterSnoc([], x, p);
      assert [] + [x] == [x];
    } else {
      var last := sorted[|sorted| - 1];
      var init := sorted[..|sorted| - 1];
      InsertLast(key, sorted, x);
      if key(last) >= key(x) {
        FilterSnoc(sorted, x, p);
      } else {
        InsertStable(key, init, x, k);
        FilterSnoc(Insert(key, init, x), last, p);
        assert init + [last] == sorted;
        FilterSnoc(init, last, p);
      }
    }
  }

  /** The sort is stable: elements with equal keys keep their relative order. */
  lemma {:induction false} SortDescendingStable<T>(key: T -> int, xs: seq<T>, k: int)
    ensures Filter(SortDescending(key, xs), KeyIs(key, k)) == Filter(xs, KeyIs(key, k))
    decreases |xs|
  {
    if xs != [] {
      var init := xs[..|xs| - 1];
      SortDescendingStable(key, init, k);
      InsertStable(key, SortDescending(key, init), xs[|xs| - 1], k);
    }
  }

  /// Candidates are already deepest first.

  lemma AncestorDepths(t: Tree, s: string)
    requires StateTree.Valid(t) && s in t.nodes
    ensures forall i :: 0 <= i < |AncestorsOf(t, s)| ==>
      AncestorsOf(t, s)[i] in t.nodes && Depth(t, AncestorsOf(t, s)[i]) == |AncestorsOf(t, s)| - 1 - i
  {
    var a := AncestorsOf(t, s);
    AncestorsShape(t, s);
    forall i | 0 <= i < |a|
      ensures a[i] in t.nodes && Depth(t, a[i]) == |a| - 1 - i
    {
      AncestorsSuffix(t, s, i);
    }
  }

  lemma KeyDescendingAppend<T>(key: T -> int, a: seq<T>, b: seq<T>)
    requires KeyDescending(key, a) && KeyDescending(key, b)
    requires forall x, y :: x in a && y in b ==> key(x) >= key(y)
    ensures KeyDescending(key, a + b)
  {
    var ab := a + b;
    forall i, j | 0 <= i < j < |ab|
      ensures key(ab[i]) >= key(ab[j])
    {
      if j < |a| {
        assert ab[i] == a[i] && ab[j] == a[j];
      } else if i >= |a| {
        assert ab[i] == b[i - |a|] && ab[j] == b[j - |a|];
      } else {
        assert ab[i] == a[i] && ab[j] == b[j - |a|];
      }
    }
  }

  lemma {:induction false} CandidatesAlongDeepestFirst(t: Tree, trs: seq<Transition>, chain: seq<string>)
    requires StateTree.Valid(t)
    requires forall i :: 0 <= i < |chain| ==> chain[i] in t.nodes
    requires forall i, j :: 0 <= i < j < |chain| ==> Depth(t, chain[i]) > Depth(t, chain[j])
    ensures KeyDescending(DepthKey(t), CandidatesAlong(trs, chain))
    decreases |chain|
  {
    if chain != [] {
      var key := DepthKey(t);
      var b := Filter(trs, SrcIs(chain[0]));
      var rest := chain[1..];
      forall x | x in b
        ensures x.src == chain[0] && key(x) == Depth(t, chain[0])
      {
        FilterMember(trs, SrcIs(chain[0]), x);
      }
      assert forall i :: 0 <= i < |rest| ==> rest[i] == chain[i + 1];
      CandidatesAlongDeepestFirst(t, trs, rest);
      forall x, y | x in b && y in CandidatesAlong(trs, rest)
        ensures key(x) >= key(y)
      {
        var j :| 0 <= j < |rest| && rest[j] == y.src;
        assert chain[j + 1] == y.src;
      }
      KeyDescendingAppend(key, b, CandidatesAlong(trs, rest));
    }
  }

  /** A state's candidates come deepest source first, so the sort leaves them as they are. */
  lemma CandidatesDeepestFirst(t: Tree, trs: seq<Transition>, s: string)
    requires StateTree.Valid(t) && s in t.nodes
    ensures KeyDescending(DepthKey(t), Candidates(t, trs, s))
  {
    AncestorDepths(t, s);
    CandidatesAlongDeepestFirst(t, trs, AncestorsOf(t, s));
  }

  lemma FilterKeyDescending<T>(key: T -> int, xs: seq<T>, p: T -> bool)
    requires KeyDescending(key, xs)
    ensures KeyDescending(key, Filter(xs, p))
    decreases |xs|
  {
    if xs != [] {
      var init := xs[..|xs| - 1];
      var x := xs[|xs| - 1];
      assert KeyDescending(key, init);
      FilterKeyDescending(key, init, p);
      forall y | y in Filter(init, p)
        ensures key(y) >= key(x)
      {
        FilterMember(init, p, y);
      }
      KeyDescendingAppend(key, Filter(init, p), if p(x) then [x] else []);
    }
  }

  /// What the table holds.

  /** One entry of a state's table: for event e, exactly the transitions on e leaving the
      state or one of its ancestors, deepest source first, and the transitions of each
      source in declaration order. */
  lemma EventListIsCandidates(t: Tree, trs: seq<Transition>, s: string, e: string)
    requires StateTree.Valid(t) && s in t.nodes
    requires e in EventMap(t, trs, s)
    ensures var l := EventMap(t, trs, s)[e];
      && l == Filter(Candidates(t, trs, s), EventIs(e))
      && KeyDescending(DepthKey(t), l)
      && (forall tr :: tr in l <==> tr in trs && tr.src in AncestorsOf(t, s) && tr.event == Some(e))
      && forall a :: a in AncestorsOf(t, s) ==>
           Filter(l, SrcIs(a)) == Filter(Filter(trs, SrcIs(a)), EventIs(e))
  {
    var cs := Candidates(t, trs, s);
    var l := Filter(cs, EventIs(e));
    CandidatesDeepestFirst(t, trs, s);
    FilterKeyDescending(DepthKey(t), cs, EventIs(e));
    SortDescendingKeepsSorted(DepthKey(t), l);
    forall tr
      ensures tr in l <==> tr in trs && tr.src in AncestorsOf(t, s) && tr.event == Some(e)
    {
      FilterMember(cs, EventIs(e), tr);
      CandidatesAlongMember(trs, AncestorsOf(t, s), tr);
    }
    forall a | a in AncestorsOf(t, s)
      ensures Filter(l, SrcIs(a)) == Filter(Filter(trs, SrcIs(a)), EventIs(e))
    {
      AncestorsNoDup(t, s);
      FilterCommute(cs, EventIs(e), SrcIs(a));
      CandidatesFromOneSource(trs, AncestorsOf(t, s), a);
      FilterCommute(trs, SrcIs(a), EventIs(e));
    }
  }

  /** A state's table has an entry for exactly the events some candidate is triggered by. */
  lemma EventMapKeys(t: Tree, trs: seq<Transition>, s: string, e: string)
    requires StateTree.Valid(t) && s in t.nodes
    ensures e in EventMap(t, trs, s) <==>
      exists tr :: tr in trs && tr.src in AncestorsOf(t, s) && tr.event == Some(e)
  {
    var cs := Candidates(t, trs, s);
    EventsMember(cs, e);
    if e in EventMap(t, trs, s) {
      var l := Filter(cs, EventIs(e));
      var tr := l[0];
      FilterMember(cs, EventIs(e), tr);
      CandidatesAlongMember(trs, AncestorsOf(t, s), tr);
    } else {
      forall tr | tr in trs && tr.src in AncestorsOf(t, s)
        ensures tr.event != Some(e)
      {
        CandidatesAlongMember(trs, AncestorsOf(t, s), tr);
        FilterMember(cs, EventIs(e), tr);
      }
    }
  }

  /// `build_transitions_by_state`, step by step.

  lemma CandidatesAlongStep(trs: seq<Transition>, a: seq<string>, k: nat, cand: seq<Transition>)
    requires k < |a|
    ensures cand + CandidatesAlong(trs, a[k..])
         == (cand + Filter(trs, SrcIs(a[k]))) + CandidatesAlong(trs, a[k + 1..])
  {
    assert a[k..][1..] == a[k + 1..];
  }

  lemma EventMapFromGroups(t: Tree, trs: seq<Transition>, s: string, evmap: map<string, seq<Transition>>)
    requires StateTree.Valid(t) && s in t.nodes
    requires evmap.Keys == Events(Candidates(t, trs, s))
    requires forall e :: e in evmap ==>
      evmap[e] == SortDescending(DepthKey(t), Filter(Candidates(t, trs, s), EventIs(e)))
    ensures evmap == EventMap(t, trs, s)
  {
  }

  /** `by_src`: the transitions grouped by source, each group in declaration order. */
  method GroupBySource(trs: seq<Transition>) returns (bySrc: map<string, seq<Transition>>)
    ensures forall x :: Get(bySrc, x) == Filter(trs, SrcIs(x))
  {
    bySrc := map[];
    var i := 0;
    while i < |trs|
      invariant 0 <= i <= |trs|
      invariant forall x :: Get(bySrc, x) == Filter(trs[..i], SrcIs(x))
    {
      var tr := trs[i];
      bySrc := bySrc[tr.src := Get(bySrc, tr.src) + [tr]];
      assert trs[..i + 1][..i] == trs[..i];
      i := i + 1;
    }
    assert trs[..|trs|] == trs;
  }

  /** `cand`: the groups of s and of each of its ancestors, innermost first. */
  method CollectCandidates(m: Model, bySrc: map<string, seq<Transition>>, s: string)
    returns (cand: seq<Transition>)
    requires m.Valid() && s in m.nodes
    requires forall x :: Get(bySrc, x) == Filter(m.transitions, SrcIs(x))
    ensures cand == Candidates(m.AsTree(), m.transitions, s)
  {
    ghost var t := m.AsTree();
    ghost var a := AncestorsOf(t, s);
    ghost var k := 0;
    cand := [];
    var n: Option<string> := Some(s);
    if a != [] {
      AncestorsStep(t, s, 0);
    }
    while n.Some? && n.value != Root
      invariant k <= |a|
      invariant n == Some(if k < |a| then a[k] else Root)
      invariant k < |a| ==> a[k] != Root
      invariant cand + CandidatesAlong(m.transitions, a[k..]) == CandidatesAlong(m.transitions, a)
      decreases |a| - k
    {
      AncestorsStep(t, s, k);
      CandidatesAlongStep(m.transitions, a, k, cand);
      cand := cand + Get(bySrc, n.value);
      k := k + 1;
      n := m.nodes[n.value].parent;
      if k < |a| {
        AncestorsStep(t, s, k);
      }
    }
    assert a[k..] == [];
  }

  /** `evmap`: the candidates grouped by event; those without an event are dropped. */
  method GroupByEvent(cand: seq<Transition>) returns (evmap: map<string, seq<Transition>>)
    ensures evmap.Keys == Events(cand)
    ensures forall e :: e in evmap ==> evmap[e] == Filter(cand, EventIs(e))
  {
    evmap := map[];
    var j := 0;
    while j < |cand|
      invariant 0 <= j <= |cand|
      invariant evmap.Keys == Events(cand[..j])
      invariant forall e :: Get(evmap, e) == Filter(cand[..j], EventIs(e))
    {
      var tr := cand[j];
      assert cand[..j + 1][..j] == cand[..j];
      if tr.event.Some? {
        evmap := evmap[tr.event.value := Get(evmap, tr.event.value) + [tr]];
      }
      j := j + 1;
    }
    assert cand[..|cand|] == cand;
  }

  /** Sorts every list of evmap by source depth, deepest first. */
  method SortEachByDepth(m: Model, evmap: map<string, seq<Transition>>)
    returns (sorted: map<string, seq<Transition>>)
    requires m.Valid()
    ensures sorted.Keys == evmap.Keys
    ensures forall e :: e in sorted ==> sorted[e] == SortDescending(DepthKey(m.AsTree()), evmap[e])
  {
    var key := DepthKey(m.AsTree());
    sorted := evmap;
    var todo := evmap.Keys;
    while todo != {}
      invariant todo <= evmap.Keys && sorted.Keys == evmap.Keys
      invariant forall e :: e in todo ==> sorted[e] == evmap[e]
      invariant forall e :: e in evmap && e !in todo ==> sorted[e] == SortDescending(key, evmap[e])
      decreases |todo|
    {
      var e :| e in todo;
      sorted := sorted[e := SortDescending(key, sorted[e])];
      todo := todo - {e};
    }
  }

  /** `build_transitions_by_state`: the table of every state other than the root. */
  method BuildTransitionsByState(m: Model) returns (result: map<string, map<string, seq<Transition>>>)
    requires m.Valid()
    ensures forall s :: s in result <==> s in m.nodes && s != Root
    ensures forall s :: s in result ==> result[s] == EventMap(m.AsTree(), m.transitions, s)
  {
    var bySrc := GroupBySource(m.transitions);
    result := map[];
    var k := 0;
    while k < |m.names|
      invariant 0 <= k <= |m.names|
      invariant forall s :: s in result <==> s in m.names[..k] && s != Root
      invariant forall s :: s in result ==> s in m.nodes && result[s] == EventMap(m.AsTree(), m.transitions, s)
    {
      var s := m.names[k];
      if s != Root {
        var cand := CollectCandidates(m, bySrc, s);
        var evmap := GroupByEvent(cand);
        evmap := SortEachByDepth(m, evmap);
        EventMapFromGroups(m.AsTree(), m.transitions, s, evmap);
        result := result[s := evmap];
      }
      PrefixStep(m.names, k);
      k := k + 1;
    }
    assert m.names[..|m.names|] == m.names;
  }
}
