/// The generator's `Model` class (python/statesurf.py): the nodes dictionary it
/// grows with `ensure_node`, and the loops that walk parent links. Each loop is
/// proved equal to the corresponding function of the tree value in StateTree.
module StateModel {
  import opened Wrappers
  import opened StateTree
  import Engine

  /** The effect of `ensure_node(name, parent)` on the tree. */
  function EnsureNodeSpec(t: Tree, name: string, parent: string): (r: Tree)
    requires parent in t.nodes
    ensures name in r.nodes && forall x :: x in t.nodes ==> x in r.nodes
  {
    if name in t.nodes then
      var n := t.nodes[name];
      var n1 := if n.parent.None? then n.(parent := Some(parent)) else n;
      var nodes1 := t.nodes[name := n1];
      if n1.parent == Some(parent) then
        var p := nodes1[parent];
        Tree(nodes1[parent := p.(children := AddChild(p.children, name))], t.names)
      else Tree(nodes1, t.names)
    else
      var nodes1 := t.nodes[name := Node(Some(parent), [], None)];
      var p := nodes1[parent];
      Tree(nodes1[parent := p.(children := p.children + [name])], t.names + [name])
  }

  /** The tree is well formed and every transition's endpoints are nodes. */
  ghost predicate ModelInv(t: Tree, trs: seq<Transition>)
  {
    && StateTree.Valid(t)
    && forall tr :: tr in trs ==> tr.src in t.nodes && (tr.dst.Some? ==> tr.dst.value in t.nodes)
  }

  /** Assigning a dictionary key keeps an existing key in place and appends a new one. */
  function AddChild(cs: seq<string>, name: string): seq<string>
  {
    if name in cs then cs else cs + [name]
  }

  class Model {
    /** The `nodes` dictionary. */
    var nodes: map<string, Node>
    /** The keys of `nodes` in insertion order. */
    var names: seq<string>
    var transitions: seq<Transition>

    function AsTree(): Tree
      reads this
    {
      Tree(nodes, names)
    }

    ghost predicate Valid()
      reads this
    {
      ModelInv(AsTree(), transitions)
    }

    constructor()
      ensures Valid()
      ensures nodes == map[Root := Node(None, [], None)] && names == [Root] && transitions == []
    {
      nodes := map[Root := Node(None, [], None)];
      names := [Root];
      transitions := [];
      new;
      assert ChildrenIn(nodes, names, Root) == [];
    }

    /** `ensure_node`: returns the node called `name`, creating it under `parent`
        when it does not exist yet. */
    method EnsureNode(name: string, parent: string) returns (n: string)
      requires parent in nodes
      modifies this
      ensures n == name && name in nodes
      ensures AsTree() == EnsureNodeSpec(old(AsTree()), name, parent)
      ensures transitions == old(transitions)
      ensures old(Valid()) && name != Root ==> Valid()
    {
      ghost var t := AsTree();
      if name in nodes {
        var node := nodes[name];
        if node.parent.None? {
          node := node.(parent := Some(parent));
          nodes := nodes[name := node];
        }
        if node.parent == Some(parent) {
          var p := nodes[parent];
          nodes := nodes[parent := p.(children := AddChild(p.children, name))];
        }
      } else {
        nodes := nodes[name := Node(Some(parent), [], None)];
        var p := nodes[parent];
        nodes := nodes[parent := p.(children := p.children + [name])];
        names := names + [name];
      }
      n := name;
      if name != Root {
        EnsureNodeKeepsInv(t, transitions, name, parent);
      }
    }

    /** `ancestors`: walk parent links from `name` until the root. */
    method Ancestors(name: string) returns (res: seq<string>)
      requires Valid() && name in nodes
      ensures res == AncestorsOf(AsTree(), name)
    {
      ghost var t := AsTree();
      ghost var a := AncestorsOf(t, name);
      ghost var k := 0;
      res := [];
      var n: Option<string> := Some(name);
      if a != [] {
        AncestorsStep(t, name, 0);
      }
      while n.Some? && n.value != Root
        invariant k <= |a| && res == a[..k]
        invariant n == Some(if k < |a| then a[k] else Root)
        invariant k < |a| ==> a[k] != Root
        decreases |a| - k
      {
        AncestorsStep(t, name, k);
        PrefixStep(a, k);
        res := res + [n.value];
        k := k + 1;
        n := nodes[n.value].parent;
        if k < |a| {
          AncestorsStep(t, name, k);
        }
      }
      assert a[..|a|] == a;
    }

    /** `initial_leaf`: descend by initial targets, or first children, to a leaf. */
    method InitialLeaf(name: string) returns (leaf: string)
      requires Valid() && InitialsInside(AsTree()) && name in nodes
      ensures leaf == InitialLeafOf(AsTree(), name)
    {
      var n := name;
      while |nodes[n].children| > 0
        invariant n in nodes && InitialLeafOf(AsTree(), n) == InitialLeafOf(AsTree(), name)
        decreases |names| - Pos(names, n)
      {
        NextDownInside(AsTree(), n);
        var next;
        if nodes[n].initialTarget.Some? && nodes[n].initialTarget.value != "" {
          next := nodes[n].initialTarget.value;
        } else {
          next := nodes[n].children[0];
        }
        n := next;
      }
      leaf := n;
    }
  }

  /** `compute_state_depth`: the number of parent steps from `name` to a top-level state. */
  method ComputeStateDepth(m: Model, name: string) returns (d: nat)
    requires m.Valid() && name in m.nodes
    ensures d == Depth(m.AsTree(), name)
  {
    ghost var t := m.AsTree();
    d := 0;
    var n := name;
    while m.nodes[n].parent.Some? && m.nodes[n].parent.value != Root
      invariant n in m.nodes
      invariant name == Root ==> n == Root && d == 0
      invariant name != Root ==> n != Root && d + |AncestorsOf(t, n)| == |AncestorsOf(t, name)|
      decreases Pos(m.names, n)
    {
      ParentBefore(t, n);
      var p := m.nodes[n].parent.value;
      assert AncestorsOf(t, n) == [n] + AncestorsOf(t, p);
      d := d + 1;
      n := p;
    }
    if name != Root {
      ParentBefore(t, n);
      AncestorsShape(t, m.nodes[n].parent.value);
    }
  }

  /** `entry_chain_nodes`: the states from `leaf` up to, not including, `anchor`
      (the root is never listed), reversed to outermost first. */
  method EntryChainNodes(m: Model, anchor: string, leaf: string) returns (acc: seq<string>)
    requires m.Valid() && leaf in m.nodes
    ensures acc == EntryChain(m.AsTree(), anchor, leaf)
  {
    ghost var t := m.AsTree();
    ghost var a := AncestorsOf(t, leaf);
    ghost var k := 0;
    AncestorsShape(t, leaf);
    var up: seq<string> := [];
    var n: Option<string> := Some(leaf);
    while n.Some? && n.value != anchor
      invariant k <= |a| && up == a[..k] && anchor !in up
      invariant k < |a| ==> n == Some(a[k])
      invariant k == |a| ==> n == Some(Root) || n == None
      decreases |a| - k + (if n.Some? then 1 else 0)
    {
      if n.value != Root {
        up := up + [n.value];
        k := k + 1;
      }
      n := m.nodes[n.value].parent;
    }
    UpToPrefix(a, anchor, k);
    acc := Engine.Reverse(up);
  }

  lemma {:induction false} UpToPrefix(xs: seq<string>, a: string, k: nat)
    requires k <= |xs| && a !in xs[..k] && (k == |xs| || xs[k] == a)
    ensures UpTo(xs, a) == xs[..k]
    decreases k
  {
    if k > 0 {
      assert xs[0] in xs[..k];
      assert xs[1..][..k - 1] == xs[1..k];
      var tail := xs[1..][..k - 1];
      forall j | 0 <= j < k - 1
        ensures tail[j] != a
      {
        assert tail[j] == xs[..k][j + 1];
      }
      UpToPrefix(xs[1..], a, k - 1);
      assert xs[..k] == [xs[0]] + xs[1..k];
    }
  }

  /// Lemmas about `ensure_node`.

  lemma {:induction false} ChildrenInSameParents(nodes: map<string, Node>, nodes': map<string, Node>,
                                                 names: seq<string>, x: string)
    requires forall y :: y in names ==> y in nodes && y in nodes' && nodes'[y].parent == nodes[y].parent
    ensures ChildrenIn(nodes', names, x) == ChildrenIn(nodes, names, x)
    decreases |names|
  {
    if names != [] {
      ChildrenInSameParents(nodes, nodes', names[1..], x);
    }
  }

  lemma {:induction false} ChildrenInSnoc(nodes: map<string, Node>, names: seq<string>, y: string, x: string)
    requires forall z :: z in names ==> z in nodes
    requires y in nodes
    ensures ChildrenIn(nodes, names + [y], x)
            == ChildrenIn(nodes, names, x) + (if nodes[y].parent == Some(x) then [y] else [])
    decreases |names|
  {
    if names == [] {
      assert names + [y] == [y];
    } else {
      assert (names + [y])[1..] == names[1..] + [y];
      ChildrenInSnoc(nodes, names[1..], y, x);
    }
  }

  /** Nothing names a node that does not exist as its parent. */
  lemma NoChildrenOfAbsent(t: Tree, name: string)
    requires StateTree.Valid(t) && name !in t.nodes
    ensures ChildrenIn(t.nodes, t.names, name) == []
  {
    var c := ChildrenIn(t.nodes, t.names, name);
    if c != [] {
      ChildrenInMember(t.nodes, t.names, name, c[0]);
      ParentBefore(t, c[0]);
      assert false;
    }
  }

  /** Re-declaring an existing state changes nothing. */
  lemma EnsureExistingIsNoOp(t: Tree, name: string, parent: string)
    requires StateTree.Valid(t) && parent in t.nodes && name in t.nodes && name != Root
    ensures EnsureNodeSpec(t, name, parent) == t
  {
    ParentBefore(t, name);
    if t.nodes[name].parent == Some(parent) {
      ChildrenInMember(t.nodes, t.names, parent, name);
      assert t.nodes[name := t.nodes[name]] == t.nodes;
      assert t.nodes[parent := t.nodes[parent]] == t.nodes;
    } else {
      assert t.nodes[name := t.nodes[name]] == t.nodes;
    }
  }

  /** A new state is appended last, hangs under `parent` as its last child, and no
      existing state changes its parent. */
  lemma EnsureNewNode(t: Tree, name: string, parent: string)
    requires StateTree.Valid(t) && parent in t.nodes && name !in t.nodes
    ensures var t' := EnsureNodeSpec(t, name, parent);
      && StateTree.Valid(t')
      && t'.names == t.names + [name]
      && t'.nodes[name].parent == Some(parent)
      && t'.nodes[parent].children == t.nodes[parent].children + [name]
      && forall x :: x in t.nodes ==> x in t'.nodes && t'.nodes[x].parent == t.nodes[x].parent
  {
    var t' := EnsureNodeSpec(t, name, parent);
    assert t'.names == t.names + [name];
    assert forall x :: x in t'.nodes <==> x in t.nodes || x == name;
    assert forall x :: x in t.nodes ==> t'.nodes[x].parent == t.nodes[x].parent;
    assert t'.nodes[name].parent == Some(parent);
    assert forall x :: x in t'.nodes && x != parent ==>
             t'.nodes[x].children == if x == name then [] else t.nodes[x].children;
    assert t'.nodes[parent].children == t.nodes[parent].children + [name];
    GrownTreeValid(t, t', name, parent);
  }

  /** A tree grown by one new node under an existing parent is well formed. */
  lemma GrownTreeValid(t: Tree, t': Tree, name: string, parent: string)
    requires StateTree.Valid(t) && parent in t.nodes && name !in t.nodes
    requires t'.names == t.names + [name]
    requires forall x :: x in t'.nodes <==> x in t.nodes || x == name
    requires forall x :: x in t.nodes ==> t'.nodes[x].parent == t.nodes[x].parent
    requires t'.nodes[name].parent == Some(parent)
    requires forall x :: x in t'.nodes && x != parent ==>
               t'.nodes[x].children == if x == name then [] else t.nodes[x].children
    requires t'.nodes[parent].children == t.nodes[parent].children + [name]
    ensures StateTree.Valid(t')
  {
    GrownNamesNoDup(t, name);
    GrownParentsBefore(t, t', name, parent);
    forall x | x in t'.nodes
      ensures t'.nodes[x].children == ChildrenIn(t'.nodes, t'.names, x)
    {
      ChildrenInSameParents(t.nodes, t'.nodes, t.names, x);
      ChildrenInSnoc(t'.nodes, t.names, name, x);
      if x == name {
        NoChildrenOfAbsent(t, name);
      }
    }
  }

  lemma GrownNamesNoDup(t: Tree, name: string)
    requires StateTree.Valid(t) && name !in t.nodes
    ensures NoDup(t.names + [name])
  {
    var names' := t.names + [name];
    forall i, j | 0 <= i < j < |names'|
      ensures names'[i] != names'[j]
    {
      if j == |t.names| {
        assert names'[i] == t.names[i] && t.names[i] in t.nodes;
      } else {
        assert names'[i] == t.names[i] && names'[j] == t.names[j];
      }
    }
  }

  lemma GrownParentsBefore(t: Tree, t': Tree, name: string, parent: string)
    requires forall i :: 0 < i < |t.names| ==>
               t.names[i] in t.nodes && t.nodes[t.names[i]].parent.Some? &&
               t.nodes[t.names[i]].parent.value in t.names[..i]
    requires parent in t.names
    requires t'.names == t.names + [name]
    requires forall x :: x in t.nodes ==> x in t'.nodes && t'.nodes[x].parent == t.nodes[x].parent
    requires name in t'.nodes && t'.nodes[name].parent == Some(parent)
    ensures forall i :: 0 < i < |t'.names| ==>
              t'.nodes[t'.names[i]].parent.Some? && t'.nodes[t'.names[i]].parent.value in t'.names[..i]
  {
    forall i | 0 < i < |t'.names|
      ensures t'.nodes[t'.names[i]].parent.Some? && t'.nodes[t'.names[i]].parent.value in t'.names[..i]
    {
      if i < |t.names| {
        assert t'.names[i] == t.names[i];
        assert t'.names[..i] == t.names[..i];
      } else {
        assert t'.names[i] == name;
        assert t'.names[..i] == t.names;
      }
    }
  }

  /** `ensure_node` keeps the tree well formed, unless the root itself is re-declared. */
  lemma EnsureNodeKeepsValid(t: Tree, name: string, parent: string)
    requires StateTree.Valid(t) && parent in t.nodes && name != Root
    ensures StateTree.Valid(EnsureNodeSpec(t, name, parent))
  {
    if name in t.nodes {
      EnsureExistingIsNoOp(t, name, parent);
    } else {
      EnsureNewNode(t, name, parent);
    }
  }

  lemma EnsureNodeKeepsInv(t: Tree, trs: seq<Transition>, name: string, parent: string)
    requires parent in t.nodes && name != Root
    ensures ModelInv(t, trs) ==> ModelInv(EnsureNodeSpec(t, name, parent), trs)
  {
    if ModelInv(t, trs) {
      EnsureNodeKeepsValid(t, name, parent);
    }
  }

  /** Declaring a state called `__root__` inside a top-level state `a` gives the root
      a parent and makes it a child of `a`, while `a` is still a child of the root:
      the children links form a cycle, which `topo_states` would walk forever. */
  lemma RedeclaredRootMakesCycle(t: Tree, a: string)
    requires StateTree.Valid(t) && a in t.nodes && a != Root && t.nodes[a].parent == Some(Root)
    ensures var t' := EnsureNodeSpec(t, Root, a);
      && t'.nodes[Root].parent == Some(a)
      && Root in t'.nodes[a].children
      && a in t'.nodes[Root].children
      && !StateTree.Valid(t')
  {
    ChildrenInMember(t.nodes, t.names, Root, a);
  }
}
