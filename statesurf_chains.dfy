/// The exit and entry lists `gen_header` (python/statesurf.py) emits for an external
/// transition taken in a state, and what they do to the active configuration.
module TransitionChains {
  import opened Wrappers
  import opened StateTree
  import Engine

  /** The states one emitted transition exits (innermost first) and enters (outermost
      first), and the leaf it settles in. */
  datatype Chains = Chains(exits: seq<string>, entries: seq<string>, leaf: string)

  /** The configuration's parent link: top-level states have none. */
  function Parent(t: Tree): string -> Option<string>
  {
    (x: string) =>
      if x in t.nodes && t.nodes[x].parent.Some? && t.nodes[x].parent.value != Root
      then t.nodes[x].parent else None
  }

  /** The ancestors of a state, innermost first, are an active configuration. */
  lemma AncestorsAreChain(t: Tree, x: string)
    requires StateTree.Valid(t) && x in t.nodes
    ensures Engine.IsChain(Parent(t), AncestorsOf(t, x))
  {
    AncestorsShape(t, x);
  }

  /** An external transition with a destination, listed for state s (its source is s or
      an ancestor of s). */
  ghost predicate External(t: Tree, s: string, tr: Transition)
  {
    && StateTree.Valid(t) && InitialsInside(t) && s in t.nodes
    && tr.src in t.nodes && tr.src in AncestorsOf(t, s) && !tr.internal
    && tr.dst.Some? && tr.dst.value in t.nodes
  }

  /** `dest_leaf`: the initial leaf of a composite destination, else the destination. */
  function DestLeaf(t: Tree, dst: string): (r: string)
    requires StateTree.Valid(t) && InitialsInside(t) && dst in t.nodes
  {
    if IsComposite(t, dst) then InitialLeafOf(t, dst) else dst
  }

  lemma DestLeafInside(t: Tree, dst: string)
    requires StateTree.Valid(t) && InitialsInside(t) && dst in t.nodes
    ensures DestLeaf(t, dst) in t.nodes && !IsComposite(t, DestLeaf(t, dst))
    ensures Within(t, DestLeaf(t, dst), dst)
  {
    InitialLeafIsLeafInside(t, dst);
  }

  /** `dest_within_source`: the source encloses the destination leaf. */
  ghost predicate DestWithinSource(t: Tree, s: string, tr: Transition)
    requires External(t, s, tr)
  {
    DestLeafInside(t, tr.dst.value);
    tr.src in AncestorsOf(t, DestLeaf(t, tr.dst.value))
  }

  /** `exit_common`: an external self-transition (the source re-entered). */
  ghost predicate ExitCommon(t: Tree, s: string, tr: Transition)
    requires External(t, s, tr)
  {
    DestWithinSource(t, s, tr) && tr.src == tr.dst.value
  }

  /** The lists as `gen_header` computes them: exits from s up to the source, then, when
      the destination leaf is outside the source, the source and its ancestors below the
      lowest common ancestor; entries from below the entry anchor down to the leaf, after
      the source itself for a self-transition. */
  function ChainsAsWritten(t: Tree, s: string, tr: Transition): (r: Chains)
    requires External(t, s, tr)
    ensures r.leaf in t.nodes
  {
    AncestorsShape(t, s);
    DestLeafInside(t, tr.dst.value);
    var src := tr.src;
    var leaf := DestLeaf(t, tr.dst.value);
    var within := src in AncestorsOf(t, leaf);
    var lca := Lca(t, src, leaf);
    var exits := UpTo(AncestorsOf(t, s), src)
      + (if within then [] else UpTo(AncestorsOf(t, src), if lca.Some? then lca.value else Root));
    var exitCommon := within && src == tr.dst.value;
    var anchor := if within then src else if lca.Some? then lca.value else src;
    Chains(exits, (if exitCommon then [src] else []) + EntryChain(t, anchor, leaf), leaf)
  }

  /** The corrected lists: a self-transition also exits its source before re-entering it. */
  function ChainsOf(t: Tree, s: string, tr: Transition): (r: Chains)
    requires External(t, s, tr)
    ensures r.leaf in t.nodes
  {
    var w := ChainsAsWritten(t, s, tr);
    if tr.src in AncestorsOf(t, w.leaf) && tr.src == tr.dst.value
    then w.(exits := w.exits + [tr.src])
    else w
  }

  /** The two differ exactly on self-transitions. */
  lemma ChainsDifferOnlyOnSelfTransitions(t: Tree, s: string, tr: Transition)
    requires External(t, s, tr)
    ensures ChainsOf(t, s, tr) == ChainsAsWritten(t, s, tr) <==> !ExitCommon(t, s, tr)
    ensures ChainsOf(t, s, tr).entries == ChainsAsWritten(t, s, tr).entries
  {
    var w := ChainsAsWritten(t, s, tr);
    if ExitCommon(t, s, tr) {
      assert |ChainsOf(t, s, tr).exits| == |w.exits| + 1;
    }
  }

  /** The arm the emitted code performs: the guard when it has one, the exits, the
      transition's action, the entries, and the destination leaf. */
  function Arm(tr: Transition, c: Chains): Engine.Candidate<string, string, string>
  {
    Engine.Candidate(
      if tr.guard.Some? && tr.guard.value != "" then tr.guard else None,
      c.exits,
      if tr.action.Some? && tr.action.value != "" then [tr.action.value] else [],
      c.entries,
      Engine.Goto(c.leaf))
  }

  /// Prefixes of ancestor lists.

  lemma UpToFound(xs: seq<string>, x: string)
    requires x in xs
    ensures |UpTo(xs, x)| < |xs| && xs[|UpTo(xs, x)|] == x
    ensures UpTo(xs, x) == xs[..|UpTo(xs, x)|]
  {
  }

  lemma UpToAbsent(xs: seq<string>, x: string)
    requires x !in xs
    ensures UpTo(xs, x) == xs
  {
  }

  lemma ReverseSnoc(b: seq<string>, j: nat)
    requires j < |b|
    ensures Engine.Reverse(b[..j + 1]) == [b[j]] + Engine.Reverse(b[..j])
  {
    assert b[..j + 1][..j] == b[..j];
  }

  /** The position of x in the ancestors of s splits them into what lies below x and
      the ancestors of x. */
  lemma SplitAt(t: Tree, s: string, x: string) returns (k: nat)
    requires StateTree.Valid(t) && s in t.nodes && x in t.nodes && x in AncestorsOf(t, s)
    ensures k == |UpTo(AncestorsOf(t, s), x)| && k < |AncestorsOf(t, s)|
    ensures UpTo(AncestorsOf(t, s), x) == AncestorsOf(t, s)[..k]
    ensures AncestorsOf(t, s)[k] == x && AncestorsOf(t, s)[k..] == AncestorsOf(t, x)
  {
    UpToFound(AncestorsOf(t, s), x);
    k := |UpTo(AncestorsOf(t, s), x)|;
    AncestorsSuffix(t, s, k);
  }

  /// The configuration moves as the transition says.

  /** A split of both configurations that makes an arm consistent: the exits are the
      first i states of xs, the entries the first j states of ys reversed, and what is
      left of the two is the same. */
  lemma ConsistentSplit(parent: string -> Option<string>, xs: seq<string>, ys: seq<string>,
                        c: Engine.Candidate<string, string, string>, i: nat, j: nat)
    requires Engine.IsChain(parent, ys)
    requires i <= |xs| && j <= |ys|
    requires c.exits == xs[..i] && c.entries == Engine.Reverse(ys[..j]) && xs[i..] == ys[j..]
    ensures Engine.Consistent(parent, xs, c, ys)
  {
  }

  /** Leaving the source and its ancestors below a common one kept active. */
  lemma OutsideSplit(parent: string -> Option<string>, xs: seq<string>, ys: seq<string>,
                     above: seq<string>, rest: seq<string>,
                     c: Engine.Candidate<string, string, string>, k: nat, m: nat, j: nat)
    requires Engine.IsChain(parent, ys)
    requires k <= |xs| && xs[k..] == above && m <= |above| && above[m..] == rest
    requires j <= |ys| && ys[j..] == rest
    requires c.exits == xs[..k] + above[..m] && c.entries == Engine.Reverse(ys[..j])
    ensures Engine.Consistent(parent, xs, c, ys)
  {
    assert xs[..k] + xs[k..][..m] == xs[..k + m];
    assert xs[k..][m..] == xs[k + m..];
  }

  lemma RootNotAncestor(t: Tree, x: string)
    requires StateTree.Valid(t) && x in t.nodes
    ensures Root !in AncestorsOf(t, x)
  {
    AncestorsShape(t, x);
  }

  /** A self-transition: exit up to and including the source, re-enter it and descend. */
  lemma ChainsOfSelf(t: Tree, s: string, tr: Transition)
    requires External(t, s, tr) && DestWithinSource(t, s, tr) && tr.src == tr.dst.value
    ensures var c := ChainsOf(t, s, tr);
      && c.exits == UpTo(AncestorsOf(t, s), tr.src) + [tr.src]
      && c.entries == [tr.src] + EntryChain(t, tr.src, c.leaf)
  {
  }

  /** Into the source: exit up to the source, enter from below it. */
  lemma ChainsOfInside(t: Tree, s: string, tr: Transition)
    requires External(t, s, tr) && DestWithinSource(t, s, tr) && tr.src != tr.dst.value
    ensures var c := ChainsOf(t, s, tr);
      && c.exits == UpTo(AncestorsOf(t, s), tr.src)
      && c.entries == EntryChain(t, tr.src, c.leaf)
  {
  }

  /** A transition from a leaf into an enclosing state whose initial leaf is that
      leaf again (`s11 --> s1` where s1 starts in s11) performs no exit and no
      entry at all, so the host sees nothing of it. */
  lemma InsideToOwnLeafIsSilent(t: Tree, s: string, tr: Transition)
    requires External(t, s, tr) && tr.src == s && tr.dst.value != s
    requires DestLeaf(t, tr.dst.value) == s
    ensures DestWithinSource(t, s, tr)
    ensures ChainsOf(t, s, tr).exits == [] && ChainsOf(t, s, tr).entries == []
  {
    AncestorsShape(t, s);
    ChainsOfInside(t, s, tr);
  }

  /** Out of the source: exit up to the lowest common ancestor (everything when there is
      none), enter from below it. */
  lemma ChainsOfOutside(t: Tree, s: string, tr: Transition)
    requires External(t, s, tr) && !DestWithinSource(t, s, tr)
    ensures var c := ChainsOf(t, s, tr);
      var lca := Lca(t, tr.src, c.leaf);
      && c.exits == UpTo(AncestorsOf(t, s), tr.src)
                  + UpTo(AncestorsOf(t, tr.src), if lca.Some? then lca.value else Root)
      && c.entries == Engine.Reverse(UpTo(AncestorsOf(t, c.leaf), if lca.Some? then lca.value else tr.src))
  {
  }

  lemma SelfCase(t: Tree, s: string, tr: Transition)
    requires External(t, s, tr) && DestWithinSource(t, s, tr) && tr.src == tr.dst.value
    ensures var c := ChainsOf(t, s, tr);
      Engine.Consistent(Parent(t), AncestorsOf(t, s), Arm(tr, c), AncestorsOf(t, c.leaf))
  {
    var c := ChainsOf(t, s, tr);
    var a := AncestorsOf(t, s);
    var b := AncestorsOf(t, c.leaf);
    AncestorsAreChain(t, c.leaf);
    ChainsOfSelf(t, s, tr);
    var k := SplitAt(t, s, tr.src);
    var j := SplitAt(t, c.leaf, tr.src);
    ReverseSnoc(b, j);
    PrefixThenPrefix(a, k, 1);
    PrefixThenPrefix(b, j, 1);
    ConsistentSplit(Parent(t), a, b, Arm(tr, c), k + 1, j + 1);
  }

  lemma InsideCase(t: Tree, s: string, tr: Transition)
    requires External(t, s, tr) && DestWithinSource(t, s, tr) && tr.src != tr.dst.value
    ensures var c := ChainsOf(t, s, tr);
      Engine.Consistent(Parent(t), AncestorsOf(t, s), Arm(tr, c), AncestorsOf(t, c.leaf))
  {
    var c := ChainsOf(t, s, tr);
    var a := AncestorsOf(t, s);
    var b := AncestorsOf(t, c.leaf);
    AncestorsAreChain(t, c.leaf);
    ChainsOfInside(t, s, tr);
    var k := SplitAt(t, s, tr.src);
    var j := SplitAt(t, c.leaf, tr.src);
    ConsistentSplit(Parent(t), a, b, Arm(tr, c), k, j);
  }

  lemma CommonAncestorCase(t: Tree, s: string, tr: Transition)
    requires External(t, s, tr) && !DestWithinSource(t, s, tr)
    requires Lca(t, tr.src, ChainsOf(t, s, tr).leaf).Some?
    ensures var c := ChainsOf(t, s, tr);
      Engine.Consistent(Parent(t), AncestorsOf(t, s), Arm(tr, c), AncestorsOf(t, c.leaf))
  {
    var c := ChainsOf(t, s, tr);
    var a := AncestorsOf(t, s);
    var b := AncestorsOf(t, c.leaf);
    AncestorsAreChain(t, c.leaf);
    ChainsOfOutside(t, s, tr);
    LcaCommon(t, tr.src, c.leaf);
    var l := Lca(t, tr.src, c.leaf).value;
    var k := SplitAt(t, s, tr.src);
    var m := SplitAt(t, tr.src, l);
    var j := SplitAt(t, c.leaf, l);
    OutsideSplit(Parent(t), a, b, AncestorsOf(t, tr.src), AncestorsOf(t, l), Arm(tr, c), k, m, j);
  }

  /** The first k elements, then the first m of the rest. */
  lemma PrefixThenPrefix(a: seq<string>, k: nat, m: nat)
    requires k <= |a| && m <= |a[k..]|
    ensures a[..k] + a[k..][..m] == a[..k + m]
    ensures a[k..][m..] == a[k + m..]
    ensures m == 1 ==> a[..k] + [a[k]] == a[..k + 1]
    ensures a[..|a|] == a
  {
  }

  /** What Lca returns is an ancestor-or-self of both states. */
  lemma LcaCommon(t: Tree, x: string, y: string)
    requires StateTree.Valid(t) && x in t.nodes && y in t.nodes && Lca(t, x, y).Some?
    ensures Lca(t, x, y).value in t.nodes
    ensures Lca(t, x, y).value in AncestorsOf(t, x) && Lca(t, x, y).value in AncestorsOf(t, y)
  {
    LcaIsLowest(t, x, y);
  }

  /** No common ancestor: every active state is exited. */
  lemma DisjointExits(t: Tree, s: string, tr: Transition) returns (k: nat)
    requires External(t, s, tr) && !DestWithinSource(t, s, tr)
    requires Lca(t, tr.src, ChainsOf(t, s, tr).leaf).None?
    ensures var a := AncestorsOf(t, s);
      k <= |a| && ChainsOf(t, s, tr).exits == a[..k] + a[k..]
  {
    ChainsOfOutside(t, s, tr);
    k := SplitAt(t, s, tr.src);
    RootNotAncestor(t, tr.src);
    UpToAbsent(AncestorsOf(t, tr.src), Root);
  }

  /** No common ancestor: the whole configuration of the leaf is entered. */
  lemma DisjointEntries(t: Tree, s: string, tr: Transition)
    requires External(t, s, tr) && !DestWithinSource(t, s, tr)
    requires Lca(t, tr.src, ChainsOf(t, s, tr).leaf).None?
    ensures ChainsOf(t, s, tr).entries == Engine.Reverse(AncestorsOf(t, ChainsOf(t, s, tr).leaf))
  {
    ChainsOfOutside(t, s, tr);
    UpToAbsent(AncestorsOf(t, ChainsOf(t, s, tr).leaf), tr.src);
  }

  /** Exiting all of xs and entering all of ys. */
  lemma EverythingSplit(parent: string -> Option<string>, xs: seq<string>, ys: seq<string>,
                        c: Engine.Candidate<string, string, string>, k: nat)
    requires Engine.IsChain(parent, ys)
    requires k <= |xs| && c.exits == xs[..k] + xs[k..] && c.entries == Engine.Reverse(ys)
    ensures Engine.Consistent(parent, xs, c, ys)
  {
    assert xs[..k] + xs[k..] == xs[..|xs|];
    assert ys[..|ys|] == ys;
    ConsistentSplit(parent, xs, ys, c, |xs|, |ys|);
  }

  lemma DisjointCase(t: Tree, s: string, tr: Transition)
    requires External(t, s, tr) && !DestWithinSource(t, s, tr)
    requires Lca(t, tr.src, ChainsOf(t, s, tr).leaf).None?
    ensures var c := ChainsOf(t, s, tr);
      Engine.Consistent(Parent(t), AncestorsOf(t, s), Arm(tr, c), AncestorsOf(t, c.leaf))
  {
    var c := ChainsOf(t, s, tr);
    AncestorsAreChain(t, c.leaf);
    var k := DisjointExits(t, s, tr);
    DisjointEntries(t, s, tr);
    EverythingSplit(Parent(t), AncestorsOf(t, s), AncestorsOf(t, c.leaf), Arm(tr, c), k);
  }

  /** The corrected lists exit a prefix of the active configuration, innermost first,
      and enter the destination leaf's configuration from just below what was kept,
      outermost first: the lowest common ancestor and everything above it stay active. */
  lemma ChainsMoveConfiguration(t: Tree, s: string, tr: Transition)
    requires External(t, s, tr)
    ensures var c := ChainsOf(t, s, tr);
      Engine.Consistent(Parent(t), AncestorsOf(t, s), Arm(tr, c), AncestorsOf(t, c.leaf))
  {
    if DestWithinSource(t, s, tr) && tr.src == tr.dst.value {
      SelfCase(t, s, tr);
    } else if DestWithinSource(t, s, tr) {
      InsideCase(t, s, tr);
    } else if Lca(t, tr.src, ChainsOf(t, s, tr).leaf).Some? {
      CommonAncestorCase(t, s, tr);
    } else {
      DisjointCase(t, s, tr);
    }
  }

  /** So replaying the emitted calls (after any guard calls) moves the stack of active
      states from s's configuration to the destination leaf's. */
  lemma TakenTransitionReplays(t: Tree, s: string, tr: Transition, ev: string,
                               guards: seq<Engine.Call<string, string, string, string>>)
    requires External(t, s, tr)
    requires forall i :: 0 <= i < |guards| ==> guards[i].Guard?
    ensures var c := ChainsOf(t, s, tr);
      Engine.Replay(Parent(t), Some(AncestorsOf(t, s)), guards + Engine.Effects(Arm(tr, c), s, ev))
        == Some(AncestorsOf(t, c.leaf))
  {
    ChainsMoveConfiguration(t, s, tr);
    var c := ChainsOf(t, s, tr);
    Engine.ReplayTransition(Parent(t), AncestorsOf(t, s), Arm(tr, c), AncestorsOf(t, c.leaf), s, ev, guards);
  }

  /** A transition to the final pseudo-state exits every active state, innermost first,
      and leaves nothing active. */
  lemma FinalExitsEverything(t: Tree, s: string)
    requires StateTree.Valid(t) && s in t.nodes
    ensures Engine.Replay(Parent(t), Some(AncestorsOf(t, s)),
                          Engine.ExitCalls<string, string, string, string>(AncestorsOf(t, s)))
         == Some([])
  {
    Engine.ReplayExitsAll<string, string, string, string>(Parent(t), AncestorsOf(t, s));
  }

  /** As written, a self-transition stops its exits below the source and enters the
      source again. */
  lemma ChainsAsWrittenSelf(t: Tree, s: string, tr: Transition)
    requires External(t, s, tr) && DestWithinSource(t, s, tr) && tr.src == tr.dst.value
    ensures var w := ChainsAsWritten(t, s, tr);
      && w.exits == UpTo(AncestorsOf(t, s), tr.src)
      && w.entries == [tr.src] + EntryChain(t, tr.src, w.leaf)
  {
  }

  /** No state is its own parent. */
  lemma NotOwnParent(t: Tree, x: string)
    requires StateTree.Valid(t) && x in t.nodes
    ensures Parent(t)(x) != Some(x)
  {
    if x != Root {
      ParentBefore(t, x);
    }
  }

  /** The lists as written for an external self-transition (`A --> A`, listed for A or
      for a state inside A) leave A active and then enter A again, so the replay of the
      emitted calls breaks: A receives `on_entry` without an `on_exit` before it. */
  lemma SelfTransitionAsWrittenBreaksReplay(t: Tree, s: string, tr: Transition, ev: string)
    requires External(t, s, tr) && ExitCommon(t, s, tr)
    ensures Engine.Replay(Parent(t), Some(AncestorsOf(t, s)),
                          Engine.Effects(Arm(tr, ChainsAsWritten(t, s, tr)), s, ev)) == None
  {
    var w := ChainsAsWritten(t, s, tr);
    ChainsAsWrittenSelf(t, s, tr);
    var k := SplitAt(t, s, tr.src);
    NotOwnParent(t, tr.src);
    Engine.ReplayReentry<string, string, string, string>(Parent(t), AncestorsOf(t, s), Arm(tr, w), s, ev);
  }
}
