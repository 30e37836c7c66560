/// The state tree built by python/statesurf.py, as a value: the nodes by name and
/// the order in which they were created (the iteration order of the Python `nodes`
/// dictionary). The class in statesurf_model.dfy holds the same data in fields and
/// its loops are proved against the functions defined here.
module StateTree {
  import opened Wrappers
  import Engine

  /** The name of the implicit root node every diagram hangs under. */
  const Root: string := "__root__"

  /** A node: its parent, the names of its children in insertion order, and the
      target of its `[*] -->` line. Entry, exit and initial actions only feed the
      emitted text and are not part of this model. */
  datatype Node = Node(parent: Option<string>, children: seq<string>, initialTarget: Option<string>)

  /** A parsed transition; `dst == None` is the final pseudo-state `[*]`. */
  datatype Transition = Transition(src: string, dst: Option<string>, event: Option<string>,
                                   guard: Option<string>, action: Option<string>, internal: bool)

  datatype Tree = Tree(nodes: map<string, Node>, names: seq<string>)

  predicate NoDup<T(==)>(s: seq<T>)
  {
    forall i, j :: 0 <= i < j < |s| ==> s[i] != s[j]
  }

  /** Indexing past the head of a sequence. */
  lemma ConsFrom<T>(x: T, b: seq<T>, i: nat)
    requires 0 < i <= |b|
    ensures ([x] + b)[i] == b[i - 1] && ([x] + b)[i..] == b[i - 1..]
  {
  }

  /** One more element of a prefix. */
  lemma PrefixStep<T>(xs: seq<T>, k: nat)
    requires k < |xs|
    ensures xs[..k + 1] == xs[..k] + [xs[k]]
    ensures forall y :: y in xs[..k + 1] <==> y in xs[..k] || y == xs[k]
  {
    assert xs[..k + 1] == xs[..k] + [xs[k]];
  }

  /** The names, in creation order, whose parent is x. */
  function ChildrenIn(nodes: map<string, Node>, names: seq<string>, x: string): seq<string>
    requires forall y :: y in names ==> y in nodes
  {
    if names == [] then []
    else (if nodes[names[0]].parent == Some(x) then [names[0]] else [])
         + ChildrenIn(nodes, names[1..], x)
  }

  /** A well-formed tree: the root comes first and has no parent, names are the keys
      without repetition, every other node's parent was created before it, and each
      node's children are exactly the nodes naming it as parent, in creation order. */
  ghost predicate Valid(t: Tree)
  {
    && |t.names| > 0 && t.names[0] == Root
    && NoDup(t.names)
    && (forall x :: x in t.nodes <==> x in t.names)
    && t.nodes[Root].parent == None
    && (forall i :: 0 < i < |t.names| ==>
          t.nodes[t.names[i]].parent.Some? && t.nodes[t.names[i]].parent.value in t.names[..i])
    && (forall x :: x in t.nodes ==> t.nodes[x].children == ChildrenIn(t.nodes, t.names, x))
  }

  /** Position of x in s: its first occurrence. */
  function Pos(s: seq<string>, x: string): (i: nat)
    requires x in s
    ensures i < |s| && s[i] == x && x !in s[..i]
  {
    if s[0] == x then 0
    else
      var i := 1 + Pos(s[1..], x);
      assert s[..i] == [s[0]] + s[1..][..i - 1];
      i
  }

  lemma PosNoDup(s: seq<string>, i: nat)
    requires NoDup(s) && i < |s|
    ensures Pos(s, s[i]) == i
  {
  }

  /** Every node but the root has a parent, created before it. */
  lemma ParentBefore(t: Tree, x: string)
    requires Valid(t) && x in t.nodes && x != Root
    ensures t.nodes[x].parent.Some? && t.nodes[x].parent.value in t.nodes
    ensures Pos(t.names, t.nodes[x].parent.value) < Pos(t.names, x)
  {
    var i := Pos(t.names, x);
    assert i > 0;
    var p := t.nodes[x].parent.value;
    assert p in t.names[..i];
    var j :| 0 <= j < i && t.names[..i][j] == p;
    PosNoDup(t.names, j);
  }

  /** `Model.ancestors`: x and its enclosing states up to, not including, the root;
      innermost first. */
  function AncestorsOf(t: Tree, x: string): seq<string>
    requires Valid(t) && x in t.nodes
    decreases Pos(t.names, x)
  {
    if x == Root then []
    else
      ParentBefore(t, x);
      [x] + AncestorsOf(t, t.nodes[x].parent.value)
  }

  /** y is x or lies inside x (every node lies inside the root). */
  ghost predicate Within(t: Tree, y: string, x: string)
    requires Valid(t) && y in t.nodes
  {
    x == Root || x in AncestorsOf(t, y)
  }

  /** The ancestors of x start at x, follow parent links upward, never contain the
      root, and end at a top-level state. */
  lemma {:induction false} AncestorsShape(t: Tree, x: string)
    requires Valid(t) && x in t.nodes
    ensures var a := AncestorsOf(t, x);
      && (x == Root <==> a == [])
      && (x != Root ==> a[0] == x)
      && (forall i :: 0 <= i < |a| ==> a[i] in t.nodes && a[i] != Root)
      && (forall i :: 0 <= i < |a| - 1 ==> t.nodes[a[i]].parent == Some(a[i + 1]))
      && (|a| > 0 ==> t.nodes[a[|a| - 1]].parent == Some(Root))
    decreases Pos(t.names, x)
  {
    if x != Root {
      ParentBefore(t, x);
      var p := t.nodes[x].parent.value;
      AncestorsShape(t, p);
      var a := AncestorsOf(t, x);
      var b := AncestorsOf(t, p);
      assert a == [x] + b;
      forall i | 0 <= i < |a|
        ensures a[i] in t.nodes && a[i] != Root
      {
        if i > 0 {
          assert a[i] == b[i - 1];
        }
      }
      forall i | 0 <= i < |a| - 1
        ensures t.nodes[a[i]].parent == Some(a[i + 1])
      {
        assert a[i + 1] == b[i];
        if i > 0 {
          assert a[i] == b[i - 1];
        }
      }
      if p != Root {
        assert a[|a| - 1] == b[|b| - 1];
      }
    }
  }

  /** Every ancestor of x was created no later than x; the strict ones before it. */
  lemma {:induction false} AncestorsBefore(t: Tree, x: string)
    requires Valid(t) && x in t.nodes
    ensures forall z :: z in AncestorsOf(t, x) ==> z in t.nodes && Pos(t.names, z) <= Pos(t.names, x)
    ensures forall z :: z in AncestorsOf(t, x) && z != x ==> Pos(t.names, z) < Pos(t.names, x)
    decreases Pos(t.names, x)
  {
    if x != Root {
      ParentBefore(t, x);
      var p := t.nodes[x].parent.value;
      AncestorsBefore(t, p);
      assert AncestorsOf(t, x) == [x] + AncestorsOf(t, p);
    }
  }

  /** No state is listed twice among the ancestors. */
  lemma AncestorsNoDup(t: Tree, x: string)
    requires Valid(t) && x in t.nodes
    ensures NoDup(AncestorsOf(t, x))
  {
    var a := AncestorsOf(t, x);
    forall i, j | 0 <= i < j < |a|
      ensures a[i] != a[j]
    {
      AncestorsSuffix(t, x, i);
      AncestorsSuffix(t, x, j);
      assert |a[i..]| != |a[j..]|;
    }
  }

  /** What follows an ancestor in the list is that ancestor's own list. */
  lemma {:induction false} AncestorsSuffix(t: Tree, x: string, i: nat)
    requires Valid(t) && x in t.nodes && i < |AncestorsOf(t, x)|
    ensures AncestorsOf(t, x)[i] in t.nodes
    ensures AncestorsOf(t, x)[i..] == AncestorsOf(t, AncestorsOf(t, x)[i])
    decreases i
  {
    var a := AncestorsOf(t, x);
    assert x != Root;
    ParentBefore(t, x);
    var p := t.nodes[x].parent.value;
    assert a == [x] + AncestorsOf(t, p);
    if i > 0 {
      AncestorsSuffix(t, p, i - 1);
      ConsFrom(x, AncestorsOf(t, p), i);
    } else {
      assert a[0] == x && a[0..] == a;
    }
  }

  /** One step of the upward walk: the k-th ancestor is a node other than the root, and
      its parent is the next ancestor, or the root after the last. */
  lemma AncestorsStep(t: Tree, x: string, k: nat)
    requires Valid(t) && x in t.nodes && k < |AncestorsOf(t, x)|
    ensures var a := AncestorsOf(t, x);
      && a[k] in t.nodes && a[k] != Root
      && t.nodes[a[k]].parent == Some(if k + 1 < |a| then a[k + 1] else Root)
  {
    var a := AncestorsOf(t, x);
    AncestorsSuffix(t, x, k);
    var y := a[k];
    assert AncestorsOf(t, y) != [];
    ParentBefore(t, y);
    var p := t.nodes[y].parent.value;
    assert a[k..] == [y] + AncestorsOf(t, p);
    if p != Root {
      assert a[k + 1] == a[k..][1];
    }
  }

  /** Being inside is transitive. */
  lemma WithinTrans(t: Tree, z: string, y: string, x: string)
    requires Valid(t) && z in t.nodes && y in t.nodes
    requires Within(t, z, y) && Within(t, y, x)
    ensures Within(t, z, x)
  {
    if x != Root && y != Root {
      var a := AncestorsOf(t, z);
      var i :| 0 <= i < |a| && a[i] == y;
      AncestorsSuffix(t, z, i);
      assert x in a[i..];
    }
  }

  /// Children.

  lemma {:induction false} ChildrenInMember(nodes: map<string, Node>, names: seq<string>, x: string, y: string)
    requires forall z :: z in names ==> z in nodes
    ensures y in ChildrenIn(nodes, names, x) <==> y in names && nodes[y].parent == Some(x)
    decreases |names|
  {
    if names != [] {
      ChildrenInMember(nodes, names[1..], x, y);
      assert names == [names[0]] + names[1..];
    }
  }

  lemma {:induction false} ChildrenInNoDup(nodes: map<string, Node>, names: seq<string>, x: string)
    requires forall z :: z in names ==> z in nodes
    requires NoDup(names)
    ensures NoDup(ChildrenIn(nodes, names, x))
    decreases |names|
  {
    if names != [] {
      var rest := ChildrenIn(nodes, names[1..], x);
      ChildrenInNoDup(nodes, names[1..], x);
      forall y | y in rest
        ensures y != names[0]
      {
        ChildrenInMember(nodes, names[1..], x, y);
        var k :| 0 <= k < |names[1..]| && names[1..][k] == y;
        assert names[k + 1] == y;
      }
      var c := ChildrenIn(nodes, names, x);
      if nodes[names[0]].parent == Some(x) {
        assert c == [names[0]] + rest;
        forall i, j | 0 <= i < j < |c|
          ensures c[i] != c[j]
        {
          assert c[j] == rest[j - 1] && rest[j - 1] in rest;
          if i > 0 {
            assert c[i] == rest[i - 1];
          }
        }
      } else {
        assert c == rest;
      }
    }
  }

  /** The children of x are distinct nodes, each naming x as parent and created after it. */
  lemma ChildrenAfter(t: Tree, x: string)
    requires Valid(t) && x in t.nodes
    ensures NoDup(t.nodes[x].children)
    ensures forall c :: c in t.nodes[x].children ==>
              && c in t.nodes && c != Root && t.nodes[c].parent == Some(x)
              && Pos(t.names, x) < Pos(t.names, c)
  {
    ChildrenInNoDup(t.nodes, t.names, x);
    forall c | c in t.nodes[x].children
      ensures c in t.nodes && c != Root && t.nodes[c].parent == Some(x)
      ensures Pos(t.names, x) < Pos(t.names, c)
    {
      ChildrenInMember(t.nodes, t.names, x, c);
      ParentBefore(t, c);
    }
  }

  /** `Model.is_composite`. */
  predicate IsComposite(t: Tree, x: string)
    requires x in t.nodes
  {
    |t.nodes[x].children| > 0
  }

  /** A state is composite exactly when some node names it as parent. */
  lemma IsCompositeIffParent(t: Tree, x: string)
    requires Valid(t) && x in t.nodes
    ensures IsComposite(t, x) <==> exists y :: y in t.nodes && t.nodes[y].parent == Some(x)
  {
    if y :| y in t.nodes && t.nodes[y].parent == Some(x) {
      ChildrenInMember(t.nodes, t.names, x, y);
    }
    if IsComposite(t, x) {
      ChildrenInMember(t.nodes, t.names, x, t.nodes[x].children[0]);
    }
  }

  /// Lowest common ancestor.

  /** The first element of xs that occurs in ys. */
  function FirstIn(xs: seq<string>, ys: seq<string>): (r: Option<string>)
    ensures r.Some? ==> r.value in xs && r.value in ys
  {
    if xs == [] then None
    else if xs[0] in ys then Some(xs[0])
    else FirstIn(xs[1..], ys)
  }

  /** Nothing is found exactly when the two have no element in common. */
  lemma {:induction false} FirstInNone(xs: seq<string>, ys: seq<string>)
    ensures FirstIn(xs, ys).None? <==> forall c :: c in xs ==> c !in ys
  {
    if xs != [] && xs[0] !in ys {
      FirstInNone(xs[1..], ys);
      assert forall c :: c in xs ==> c == xs[0] || c in xs[1..];
    }
  }

  /** Nothing before the element found occurs in ys. */
  lemma {:induction false} FirstInIsFirst(xs: seq<string>, ys: seq<string>)
    requires FirstIn(xs, ys).Some?
    ensures exists k :: 0 <= k < |xs| && xs[k] == FirstIn(xs, ys).value &&
                        forall m :: 0 <= m < k ==> xs[m] !in ys
  {
    if xs[0] !in ys {
      FirstInIsFirst(xs[1..], ys);
      var k :| 0 <= k < |xs[1..]| && xs[1..][k] == FirstIn(xs, ys).value &&
               forall m :: 0 <= m < k ==> xs[1..][m] !in ys;
      assert xs[k + 1] == FirstIn(xs, ys).value;
      assert forall m :: 0 < m < k + 1 ==> xs[m] == xs[1..][m - 1];
    } else {
      assert xs[0] == FirstIn(xs, ys).value;
    }
  }

  /** `Model.lca`: the first of b's ancestors (b itself first) that is also one of a's. */
  function Lca(t: Tree, a: string, b: string): Option<string>
    requires Valid(t) && a in t.nodes && b in t.nodes
  {
    FirstIn(AncestorsOf(t, b), AncestorsOf(t, a))
  }

  /** The result is a common ancestor-or-self, it is None exactly when there is none
      below the root, and every common ancestor encloses it: it is the lowest. */
  lemma LcaIsLowest(t: Tree, a: string, b: string)
    requires Valid(t) && a in t.nodes && b in t.nodes
    ensures var r := Lca(t, a, b);
      && (r.None? <==> forall c :: c in AncestorsOf(t, b) ==> c !in AncestorsOf(t, a))
      && (r.Some? ==> r.value in t.nodes && r.value in AncestorsOf(t, a) && r.value in AncestorsOf(t, b))
      && (r.Some? ==> forall c :: c in AncestorsOf(t, a) && c in AncestorsOf(t, b) ==>
                                 c in AncestorsOf(t, r.value))
  {
    var bs := AncestorsOf(t, b);
    var r := Lca(t, a, b);
    FirstInNone(bs, AncestorsOf(t, a));
    if r.Some? {
      FirstInIsFirst(bs, AncestorsOf(t, a));
      var k :| 0 <= k < |bs| && bs[k] == r.value &&
               forall m :: 0 <= m < k ==> bs[m] !in AncestorsOf(t, a);
      AncestorsSuffix(t, b, k);
      CommonFromFirst(bs, AncestorsOf(t, a), k);
    }
  }

  /** When no element of `bs` before index k lies in `cs`, every element the two
      share lies at k or after. */
  lemma CommonFromFirst<T>(bs: seq<T>, cs: seq<T>, k: nat)
    requires k < |bs| && forall m :: 0 <= m < k ==> bs[m] !in cs
    ensures forall c :: c in cs && c in bs ==> c in bs[k..]
  {
    forall c | c in cs && c in bs
      ensures c in bs[k..]
    {
      var m :| 0 <= m < |bs| && bs[m] == c;
      assert bs[k..][m - k] == c;
    }
  }

  /** Two states enclosing each other are the same state. */
  lemma WithinAntisymmetric(t: Tree, x: string, y: string)
    requires Valid(t) && x in t.nodes && y in t.nodes
    requires x in AncestorsOf(t, y) && y in AncestorsOf(t, x)
    ensures x == y
  {
    AncestorsBefore(t, x);
    AncestorsBefore(t, y);
  }

  /** The lowest common ancestor does not depend on the order of the arguments. */
  lemma LcaSymmetric(t: Tree, a: string, b: string)
    requires Valid(t) && a in t.nodes && b in t.nodes
    ensures Lca(t, a, b) == Lca(t, b, a)
  {
    LcaIsLowest(t, a, b);
    LcaIsLowest(t, b, a);
    var r1 := Lca(t, a, b);
    var r2 := Lca(t, b, a);
    if r1.Some? && r2.Some? {
      WithinAntisymmetric(t, r1.value, r2.value);
    }
  }

  /// Initial descent.

  /** Every `[*] -->` target lies strictly inside the state that declares it. */
  ghost predicate InitialsInside(t: Tree)
    requires Valid(t)
  {
    forall x :: x in t.nodes && HasInitial(t.nodes[x]) ==>
      var g := t.nodes[x].initialTarget.value;
      g in t.nodes && g != x && Within(t, g, x)
  }

  /** A set, non-empty initial target (the empty string is false in the generator's test). */
  predicate HasInitial(n: Node)
  {
    n.initialTarget.Some? && n.initialTarget.value != ""
  }

  /** One step of the descent: the initial target when one is set, else the first child. */
  function NextDown(t: Tree, x: string): string
    requires x in t.nodes && IsComposite(t, x)
  {
    if HasInitial(t.nodes[x]) then t.nodes[x].initialTarget.value else t.nodes[x].children[0]
  }

  lemma NextDownInside(t: Tree, x: string)
    requires Valid(t) && InitialsInside(t) && x in t.nodes && IsComposite(t, x)
    ensures NextDown(t, x) in t.nodes && NextDown(t, x) != x && Within(t, NextDown(t, x), x)
    ensures Pos(t.names, x) < Pos(t.names, NextDown(t, x))
  {
    var n := NextDown(t, x);
    if !HasInitial(t.nodes[x]) {
      ChildrenAfter(t, x);
      assert n in t.nodes[x].children;
      ParentBefore(t, n);
      AncestorsShape(t, n);
      assert AncestorsOf(t, n) == [n] + AncestorsOf(t, x);
    } else if x == Root {
      PosNoDup(t.names, 0);
      assert n != t.names[0];
    } else {
      AncestorsBefore(t, n);
    }
  }

  /** `Model.initial_leaf`: follow initial targets (or first children) down to a leaf. */
  function InitialLeafOf(t: Tree, x: string): string
    requires Valid(t) && InitialsInside(t) && x in t.nodes
    decreases |t.names| - Pos(t.names, x)
  {
    if !IsComposite(t, x) then x
    else
      NextDownInside(t, x);
      InitialLeafOf(t, NextDown(t, x))
  }

  /** The descent ends at a leaf inside x, and a leaf is its own initial leaf. */
  lemma {:induction false} InitialLeafIsLeafInside(t: Tree, x: string)
    requires Valid(t) && InitialsInside(t) && x in t.nodes
    ensures var r := InitialLeafOf(t, x);
      && r in t.nodes && !IsComposite(t, r) && Within(t, r, x)
      && (!IsComposite(t, x) ==> r == x)
    decreases |t.names| - Pos(t.names, x)
  {
    if IsComposite(t, x) {
      NextDownInside(t, x);
      var n := NextDown(t, x);
      InitialLeafIsLeafInside(t, n);
      WithinTrans(t, InitialLeafOf(t, x), n, x);
    } else if x != Root {
      AncestorsShape(t, x);
    }
  }

  /// Depth.

  /** `compute_state_depth` as a function: the number of enclosing states below the root. */
  function Depth(t: Tree, x: string): nat
    requires Valid(t) && x in t.nodes
  {
    if x == Root then 0 else |AncestorsOf(t, x)| - 1
  }

  /** Top-level states have depth 0 and a child is one deeper than its parent. */
  lemma DepthOfChild(t: Tree, x: string)
    requires Valid(t) && x in t.nodes && x != Root
    ensures t.nodes[x].parent.Some? && t.nodes[x].parent.value in t.nodes
    ensures Depth(t, x) == if t.nodes[x].parent == Some(Root) then 0
                           else Depth(t, t.nodes[x].parent.value) + 1
  {
    ParentBefore(t, x);
    AncestorsShape(t, t.nodes[x].parent.value);
  }

  /// Entry chains.

  /** The elements of xs before the first occurrence of a (all of xs when a is absent). */
  function UpTo(xs: seq<string>, a: string): (r: seq<string>)
    ensures r <= xs && a !in r
    ensures |r| < |xs| ==> xs[|r|] == a
  {
    if xs == [] || xs[0] == a then [] else [xs[0]] + UpTo(xs[1..], a)
  }

  /** `entry_chain_nodes`: the states from just below `anchor` down to `leaf`,
      outermost first (everything above `leaf` when `anchor` does not enclose it). */
  function EntryChain(t: Tree, anchor: string, leaf: string): seq<string>
    requires Valid(t) && leaf in t.nodes
  {
    Engine.Reverse(UpTo(AncestorsOf(t, leaf), anchor))
  }

  /// Pre-order walk.

  /** The walk of `topo_states` below x. */
  function Walk(t: Tree, x: string): seq<string>
    requires Valid(t) && x in t.nodes
    decreases |t.names| - Pos(t.names, x), 1, 0
  {
    ChildrenAfter(t, x);
    WalkAll(t, x, t.nodes[x].children)
  }

  function WalkAll(t: Tree, x: string, cs: seq<string>): seq<string>
    requires Valid(t) && x in t.nodes
    requires forall c :: c in cs ==> c in t.nodes && Pos(t.names, x) < Pos(t.names, c)
    decreases |t.names| - Pos(t.names, x), 0, |cs|
  {
    if cs == [] then [] else [cs[0]] + Walk(t, cs[0]) + WalkAll(t, x, cs[1..])
  }

  /** `topo_states`: every state below the root, in pre-order. */
  function TopoStates(t: Tree): seq<string>
    requires Valid(t)
  {
    Walk(t, Root)
  }

  lemma NoDupAppend(a: seq<string>, b: seq<string>)
    requires NoDup(a) && NoDup(b)
    requires forall z :: z in a ==> z !in b
    ensures NoDup(a + b)
  {
    var ab := a + b;
    forall i, j | 0 <= i < j < |ab|
      ensures ab[i] != ab[j]
    {
      if i < |a| && j >= |a| {
        assert ab[i] == a[i] && ab[j] == b[j - |a|] && a[i] in a;
      } else if i >= |a| {
        assert ab[i] == b[i - |a|] && ab[j] == b[j - |a|];
      }
    }
  }

  /** Whatever lies inside a child of x lies inside x, and is not x. */
  lemma InsideChild(t: Tree, c: string, y: string)
    requires Valid(t) && c in t.nodes && c != Root && y in t.nodes
    requires c in AncestorsOf(t, y)
    ensures t.nodes[c].parent.Some? && t.nodes[c].parent.value in t.nodes
    ensures Within(t, y, t.nodes[c].parent.value) && y != t.nodes[c].parent.value
  {
    ParentBefore(t, c);
    var p := t.nodes[c].parent.value;
    AncestorsBefore(t, y);
    AncestorsShape(t, c);
    assert AncestorsOf(t, c) == [c] + AncestorsOf(t, p);
    WithinTrans(t, y, c, p);
  }

  /** Two siblings never both enclose the same state. */
  lemma SiblingsDisjoint(t: Tree, y: string, c1: string, c2: string)
    requires Valid(t) && y in t.nodes && c1 in t.nodes && c2 in t.nodes && c1 != Root && c2 != Root
    requires c1 in AncestorsOf(t, y) && c2 in AncestorsOf(t, y)
    requires t.nodes[c1].parent == t.nodes[c2].parent
    ensures c1 == c2
  {
    var a := AncestorsOf(t, y);
    var k1 :| 0 <= k1 < |a| && a[k1] == c1;
    var k2 :| 0 <= k2 < |a| && a[k2] == c2;
    AncestorsSuffix(t, y, k1);
    AncestorsSuffix(t, y, k2);
    ParentBefore(t, c1);
    var p := t.nodes[c1].parent.value;
    assert AncestorsOf(t, c1) == [c1] + AncestorsOf(t, p);
    assert AncestorsOf(t, c2) == [c2] + AncestorsOf(t, p);
    assert |a[k1..]| == |a[k2..]|;
  }

  /** A state strictly inside x lies inside one of x's children. */
  lemma ChildOnPath(t: Tree, x: string, y: string) returns (c: string)
    requires Valid(t) && x in t.nodes && y in t.nodes && y != x && Within(t, y, x)
    ensures c in t.nodes[x].children && c != Root && c in AncestorsOf(t, y)
  {
    var a := AncestorsOf(t, y);
    AncestorsShape(t, y);
    if x == Root {
      c := a[|a| - 1];
    } else {
      var k :| 0 <= k < |a| && a[k] == x;
      c := a[k - 1];
    }
    ChildrenInMember(t.nodes, t.names, x, c);
  }

  lemma {:induction false} WalkSound(t: Tree, x: string)
    requires Valid(t) && x in t.nodes
    ensures forall y :: y in Walk(t, x) ==> y in t.nodes && y != x && Within(t, y, x)
    decreases |t.names| - Pos(t.names, x), 1, 0
  {
    ChildrenAfter(t, x);
    WalkAllSound(t, x, t.nodes[x].children);
    forall y | y in Walk(t, x)
      ensures y in t.nodes && y != x && Within(t, y, x)
    {
      var c :| c in t.nodes[x].children && Within(t, y, c);
      InsideChild(t, c, y);
    }
  }

  lemma {:induction false} WalkAllSound(t: Tree, x: string, cs: seq<string>)
    requires Valid(t) && x in t.nodes
    requires forall c :: c in cs ==> c in t.nodes && Pos(t.names, x) < Pos(t.names, c)
    ensures forall y :: y in WalkAll(t, x, cs) ==> y in t.nodes && exists c :: c in cs && Within(t, y, c)
    decreases |t.names| - Pos(t.names, x), 0, |cs|
  {
    if cs != [] {
      var c := cs[0];
      WalkSound(t, c);
      WalkAllSound(t, x, cs[1..]);
      AncestorsShape(t, c);
      forall y | y in WalkAll(t, x, cs)
        ensures y in t.nodes && exists c :: c in cs && Within(t, y, c)
      {
        if y in WalkAll(t, x, cs[1..]) {
          var c' :| c' in cs[1..] && Within(t, y, c');
          assert c' in cs;
        } else {
          assert Within(t, y, c) && c in cs;
        }
      }
    }
  }

  lemma {:induction false} WalkAllContains(t: Tree, x: string, cs: seq<string>, c: string, y: string)
    requires Valid(t) && x in t.nodes
    requires forall c :: c in cs ==> c in t.nodes && Pos(t.names, x) < Pos(t.names, c)
    requires c in cs && (y == c || y in Walk(t, c))
    ensures y in WalkAll(t, x, cs)
    decreases |cs|
  {
    if cs[0] != c {
      WalkAllContains(t, x, cs[1..], c, y);
    }
  }

  lemma {:induction false} WalkComplete(t: Tree, x: string)
    requires Valid(t) && x in t.nodes
    ensures forall y :: y in t.nodes && y != x && Within(t, y, x) ==> y in Walk(t, x)
    decreases |t.names| - Pos(t.names, x)
  {
    ChildrenAfter(t, x);
    forall y | y in t.nodes && y != x && Within(t, y, x)
      ensures y in Walk(t, x)
    {
      var c := ChildOnPath(t, x, y);
      if y != c {
        WalkComplete(t, c);
      }
      WalkAllContains(t, x, t.nodes[x].children, c, y);
    }
  }

  lemma {:induction false} WalkNoDup(t: Tree, x: string)
    requires Valid(t) && x in t.nodes
    ensures NoDup(Walk(t, x))
    decreases |t.names| - Pos(t.names, x), 1, 0
  {
    ChildrenAfter(t, x);
    WalkAllNoDup(t, x, t.nodes[x].children);
  }

  lemma {:induction false} WalkAllNoDup(t: Tree, x: string, cs: seq<string>)
    requires Valid(t) && x in t.nodes && NoDup(cs)
    requires forall c :: c in cs ==> c in t.nodes && c != Root && t.nodes[c].parent == Some(x) &&
                                     Pos(t.names, x) < Pos(t.names, c)
    ensures NoDup(WalkAll(t, x, cs))
    decreases |t.names| - Pos(t.names, x), 0, |cs|
  {
    if cs != [] {
      var c := cs[0];
      var w := Walk(t, c);
      var r := WalkAll(t, x, cs[1..]);
      WalkNoDup(t, c);
      WalkAllNoDup(t, x, cs[1..]);
      WalkApart(t, x, cs);
      NoDupAppend([c], w);
      NoDupAppend([c] + w, r);
    }
  }

  /** The walk below the first of several distinct siblings contains neither that
      sibling nor any state of the walks below the others. */
  lemma WalkApart(t: Tree, x: string, cs: seq<string>)
    requires Valid(t) && x in t.nodes && NoDup(cs) && cs != []
    requires forall c :: c in cs ==> c in t.nodes && c != Root && t.nodes[c].parent == Some(x) &&
                                     Pos(t.names, x) < Pos(t.names, c)
    ensures cs[0] !in Walk(t, cs[0])
    ensures forall z :: z in [cs[0]] + Walk(t, cs[0]) ==> z !in WalkAll(t, x, cs[1..])
  {
    var c := cs[0];
    WalkSound(t, c);
    AncestorsShape(t, c);
    forall z | z in [c] + Walk(t, c)
      ensures z !in WalkAll(t, x, cs[1..])
    {
      assert z in t.nodes && c in AncestorsOf(t, z);
      WalkApartAt(t, x, cs, z);
    }
  }

  /** A state below the first sibling is not below any of the others. */
  lemma WalkApartAt(t: Tree, x: string, cs: seq<string>, z: string)
    requires Valid(t) && x in t.nodes && NoDup(cs) && cs != []
    requires forall c :: c in cs ==> c in t.nodes && c != Root && t.nodes[c].parent == Some(x) &&
                                     Pos(t.names, x) < Pos(t.names, c)
    requires z in t.nodes && cs[0] in AncestorsOf(t, z)
    ensures z !in WalkAll(t, x, cs[1..])
  {
    WalkAllSound(t, x, cs[1..]);
    if z in WalkAll(t, x, cs[1..]) {
      var c' :| c' in cs[1..] && Within(t, z, c');
      assert c' in cs;
      SiblingsDisjoint(t, z, cs[0], c');
      NoDupHead(cs);
      assert false;
    }
  }

  /** The head of a sequence without duplicates does not recur in its tail. */
  lemma NoDupHead<T>(xs: seq<T>)
    requires NoDup(xs) && xs != []
    ensures xs[0] !in xs[1..]
  {
    forall k | 0 <= k < |xs| - 1
      ensures xs[1..][k] != xs[0]
    {
      assert xs[1..][k] == xs[k + 1];
    }
  }

  /** Each listed state's parent is x or listed earlier. */
  ghost predicate ParentsFirst(t: Tree, x: string, w: seq<string>)
  {
    forall i :: 0 <= i < |w| ==>
      && w[i] in t.nodes
      && (t.nodes[w[i]].parent == Some(x) ||
          (t.nodes[w[i]].parent.Some? && t.nodes[w[i]].parent.value in w[..i]))
  }

  lemma {:induction false} WalkPreOrder(t: Tree, x: string)
    requires Valid(t) && x in t.nodes
    ensures ParentsFirst(t, x, Walk(t, x))
    decreases |t.names| - Pos(t.names, x), 1, 0
  {
    ChildrenAfter(t, x);
    WalkAllPreOrder(t, x, t.nodes[x].children);
  }

  lemma {:induction false} WalkAllPreOrder(t: Tree, x: string, cs: seq<string>)
    requires Valid(t) && x in t.nodes
    requires forall c :: c in cs ==> c in t.nodes && t.nodes[c].parent == Some(x) &&
                                     Pos(t.names, x) < Pos(t.names, c)
    ensures ParentsFirst(t, x, WalkAll(t, x, cs))
    decreases |t.names| - Pos(t.names, x), 0, |cs|
  {
    if cs != [] {
      var c := cs[0];
      var w := Walk(t, c);
      var r := WalkAll(t, x, cs[1..]);
      WalkPreOrder(t, c);
      WalkAllPreOrder(t, x, cs[1..]);
      ParentsFirstCons(t, x, c, w);
      ParentsFirstAppend(t, x, [c] + w, r);
    }
  }

  lemma ParentsFirstCons(t: Tree, x: string, c: string, w: seq<string>)
    requires c in t.nodes && t.nodes[c].parent == Some(x) && ParentsFirst(t, c, w)
    ensures ParentsFirst(t, x, [c] + w)
  {
    var all := [c] + w;
    forall i | 0 < i < |all|
      ensures all[i] in t.nodes
      ensures t.nodes[all[i]].parent == Some(x) ||
              (t.nodes[all[i]].parent.Some? && t.nodes[all[i]].parent.value in all[..i])
    {
      assert all[i] == w[i - 1];
      assert all[..i] == [c] + w[..i - 1];
    }
  }

  lemma ParentsFirstAppend(t: Tree, x: string, a: seq<string>, b: seq<string>)
    requires ParentsFirst(t, x, a) && ParentsFirst(t, x, b)
    ensures ParentsFirst(t, x, a + b)
  {
    var all := a + b;
    forall i | |a| <= i < |all|
      ensures all[i] in t.nodes
      ensures t.nodes[all[i]].parent == Some(x) ||
              (t.nodes[all[i]].parent.Some? && t.nodes[all[i]].parent.value in all[..i])
    {
      assert all[i] == b[i - |a|];
      assert all[..i] == a + b[..i - |a|];
    }
    forall i | 0 <= i < |a|
      ensures all[..i] == a[..i]
    {
    }
  }

  /** `topo_states` lists every state but the root exactly once, each after its parent. */
  lemma TopoStatesListsEachStateOnce(t: Tree)
    requires Valid(t)
    ensures var r := TopoStates(t);
      && NoDup(r)
      && (forall y :: y in r <==> y in t.nodes && y != Root)
      && forall i :: 0 <= i < |r| ==>
           t.nodes[r[i]].parent == Some(Root) ||
           (t.nodes[r[i]].parent.Some? && t.nodes[r[i]].parent.value in r[..i])
  {
    WalkSound(t, Root);
    WalkComplete(t, Root);
    WalkNoDup(t, Root);
    WalkPreOrder(t, Root);
  }
}
