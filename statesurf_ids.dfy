/// C++ identifiers for guard and action hooks (`gen_header` in python/statesurf.py).
module Identifiers {
  import opened Wrappers
  import opened StateTree

  /** A character of `[A-Za-z0-9_]`. */
  predicate IdChar(c: char)
  {
    'A' <= c <= 'Z' || 'a' <= c <= 'z' || '0' <= c <= '9' || c == '_'
  }

  /** `str.isdigit` on a character that is already in `[A-Za-z0-9_]`. */
  predicate IsDigit(c: char)
  {
    '0' <= c <= '9'
  }

  /** Made only of identifier characters, not empty and not starting with a digit. */
  predicate IsIdentifier(s: string)
  {
    s != [] && !IsDigit(s[0]) && forall i :: 0 <= i < |s| ==> IdChar(s[i])
  }

  /** `sanitize_id`: every character outside `[A-Za-z0-9_]` becomes `_`. */
  function SanitizeId(x: string): (r: string)
    ensures |r| == |x|
    ensures forall i :: 0 <= i < |x| ==> IdChar(r[i])
    ensures forall i :: 0 <= i < |x| ==> (IdChar(x[i]) ==> r[i] == x[i]) && (!IdChar(x[i]) ==> r[i] == '_')
    decreases |x|
  {
    if x == [] then []
    else [if IdChar(x[0]) then x[0] else '_'] + SanitizeId(x[1..])
  }

  /** Sanitizing twice changes nothing more. */
  lemma SanitizeIdIdempotent(x: string)
    ensures SanitizeId(SanitizeId(x)) == SanitizeId(x)
  {
  }

  /** A string of identifier characters is left as it is. */
  lemma SanitizeIdKeepsIdChars(x: string)
    requires forall i :: 0 <= i < |x| ==> IdChar(x[i])
    ensures SanitizeId(x) == x
  {
  }

  /** `normalized_id`: sanitize, use `_` for an empty result, and prefix `_` before a
      leading digit. */
  function NormalizedId(name: string): (r: string)
    ensures IsIdentifier(r)
  {
    var sid := SanitizeId(name);
    var sid := if sid == [] then "_" else sid;
    if IsDigit(sid[0]) then "_" + sid else sid
  }

  /** The id is the sanitized name, with at most a `_` put in front. */
  lemma NormalizedIdIsSanitized(name: string)
    ensures NormalizedId(name) == SanitizeId(name) || NormalizedId(name) == "_" + SanitizeId(name)
  {
  }

  /** Normalizing an identifier changes nothing, so normalizing is idempotent. */
  lemma NormalizedIdKeepsIdentifiers(s: string)
    ensures IsIdentifier(s) ==> NormalizedId(s) == s
    ensures NormalizedId(NormalizedId(s)) == NormalizedId(s)
  {
    if IsIdentifier(s) {
      SanitizeIdKeepsIdChars(s);
    }
    SanitizeIdKeepsIdChars(NormalizedId(s));
  }

  /** Distinct names can share an id: `a-b` and `a.b` both become `a_b`, and so do the
      empty name and `_`. */
  lemma NormalizedIdMerges()
    ensures NormalizedId("a-b") == NormalizedId("a.b") == "a_b"
    ensures NormalizedId("") == NormalizedId("_") == "_"
    ensures NormalizedId("1x") == "_1x"
  {
    assert SanitizeId("a-b") == "a_b";
    assert SanitizeId("a.b") == "a_b";
    assert SanitizeId("_") == "_";
    assert SanitizeId("1x") == "1x";
  }

  /** The ids of `names`, deduplicated, in order of first registration. */
  function IdsOf(names: seq<string>): (r: seq<string>)
    decreases |names|
  {
    if names == [] then []
    else
      var prev := IdsOf(names[..|names| - 1]);
      var id := NormalizedId(names[|names| - 1]);
      if id in prev then prev else prev + [id]
  }

  /** Registration lists every id once, and exactly the ids of the registered names. */
  lemma {:induction false} IdsOfListsEachIdOnce(names: seq<string>)
    ensures NoDup(IdsOf(names))
    ensures forall id :: id in IdsOf(names) <==> exists n :: n in names && NormalizedId(n) == id
    decreases |names|
  {
    if names != [] {
      var init := names[..|names| - 1];
      IdsOfListsEachIdOnce(init);
      assert names == init + [names[|names| - 1]];
    }
  }

  /** A registry's invariant: ids listed once each, every name mapped to its own id, and
      every listed id the id of some registered name. */
  ghost predicate RegistryInv(ids: seq<string>, byName: map<string, string>)
  {
    && NoDup(ids)
    && (forall n :: n in byName ==> byName[n] == NormalizedId(n) && byName[n] in ids)
    && (forall id :: id in ids ==> exists n :: n in byName && byName[n] == id)
  }

  lemma RegisterKeepsInv(ids: seq<string>, byName: map<string, string>, name: string)
    requires RegistryInv(ids, byName)
    ensures var id := NormalizedId(name);
      RegistryInv(if id in ids then ids else ids + [id], byName[name := id])
  {
    var id := NormalizedId(name);
    var ids' := if id in ids then ids else ids + [id];
    RegisterKeepsNoDup(ids, id);
    RegisterKeepsImages(ids, byName, name, ids', byName[name := id]);
  }

  lemma RegisterKeepsNoDup(ids: seq<string>, id: string)
    requires NoDup(ids)
    ensures NoDup(if id in ids then ids else ids + [id])
  {
  }

  lemma RegisterKeepsImages(ids: seq<string>, byName: map<string, string>, name: string,
                            ids': seq<string>, byName': map<string, string>)
    requires forall n :: n in byName ==> byName[n] == NormalizedId(n)
    requires forall id :: id in ids ==> exists n :: n in byName && byName[n] == id
    requires ids' == if NormalizedId(name) in ids then ids else ids + [NormalizedId(name)]
    requires byName' == byName[name := NormalizedId(name)]
    ensures forall i :: i in ids' ==> exists n :: n in byName' && byName'[n] == i
  {
    var id := NormalizedId(name);
    forall i | i in ids'
      ensures exists n :: n in byName' && byName'[n] == i
    {
      if i == id {
        assert name in byName' && byName'[name] == i;
      } else {
        var n :| n in byName && byName[n] == i;
        assert n != name;
        assert n in byName' && byName'[n] == i;
      }
    }
  }

  /** `register_guard` / `register_action`: the ids in order of first registration and the
      map from each registered name to its id. */
  class Registry {
    var ids: seq<string>
    var byName: map<string, string>

    ghost predicate Valid()
      reads this
    {
      RegistryInv(ids, byName)
    }

    constructor()
      ensures Valid() && ids == [] && byName == map[]
    {
      ids := [];
      byName := map[];
    }

    /** Registers name and returns its id; the id list grows only by a new id. */
    method Register(name: string) returns (id: string)
      requires Valid()
      modifies this
      ensures Valid()
      ensures id == NormalizedId(name)
      ensures ids == old(ids) + (if id in old(ids) then [] else [id])
      ensures byName == old(byName)[name := id]
    {
      RegisterKeepsInv(ids, byName, name);
      id := NormalizedId(name);
      if id !in ids {
        ids := ids + [id];
      }
      byName := byName[name := id];
    }
  }

  /** A hook name as Python's truth test sees it: absent and empty names register nothing. */
  function Present(o: Option<string>): (r: seq<string>)
    ensures forall n :: n in r <==> o == Some(n) && n != ""
  {
    if o.Some? && o.value != "" then [o.value] else []
  }

  /** The guard names `gen_header` registers, in declaration order. */
  function GuardNames(trs: seq<Transition>): (r: seq<string>)
    ensures forall g :: g in r <==> exists tr :: tr in trs && tr.guard == Some(g) && g != ""
    decreases |trs|
  {
    if trs == [] then []
    else
      var tr := trs[|trs| - 1];
      assert trs == trs[..|trs| - 1] + [tr];
      GuardNames(trs[..|trs| - 1]) + Present(tr.guard)
  }

  /** The action names `gen_header` registers, in declaration order. */
  function ActionNames(trs: seq<Transition>): (r: seq<string>)
    ensures forall a :: a in r <==> exists tr :: tr in trs && tr.action == Some(a) && a != ""
    decreases |trs|
  {
    if trs == [] then []
    else
      var tr := trs[|trs| - 1];
      assert trs == trs[..|trs| - 1] + [tr];
      ActionNames(trs[..|trs| - 1]) + Present(tr.action)
  }

  lemma HookNamesStep(trs: seq<Transition>, i: nat)
    requires i < |trs|
    ensures GuardNames(trs[..i + 1]) == GuardNames(trs[..i]) + Present(trs[i].guard)
    ensures ActionNames(trs[..i + 1]) == ActionNames(trs[..i]) + Present(trs[i].action)
  {
    assert trs[..i + 1][..i] == trs[..i];
  }

  lemma IdsOfStep(names: seq<string>, n: string)
    ensures IdsOf(names + [n])
         == IdsOf(names) + (if NormalizedId(n) in IdsOf(names) then [] else [NormalizedId(n)])
  {
    assert (names + [n])[..|names|] == names;
  }

  lemma KeysStep(byName: map<string, string>, names: seq<string>, n: string)
    requires byName.Keys == set x | x in names
    ensures byName[n := NormalizedId(n)].Keys == set x | x in names + [n]
  {
  }

  /** `if name: register(name)`, for a registry that has seen `names` so far. */
  method RegisterIfPresent(reg: Registry, name: Option<string>, ghost names: seq<string>)
    requires reg.Valid() && reg.ids == IdsOf(names) && reg.byName.Keys == set n | n in names
    modifies reg
    ensures reg.Valid()
    ensures reg.ids == IdsOf(names + Present(name))
    ensures reg.byName.Keys == set n | n in names + Present(name)
  {
    if name.Some? && name.value != "" {
      IdsOfStep(names, name.value);
      KeysStep(reg.byName, names, name.value);
      var id := reg.Register(name.value);
    } else {
      assert names + Present(name) == names;
    }
  }

  /** Registers the guard and action of every transition, in declaration order. */
  method RegisterHooks(trs: seq<Transition>) returns (guards: Registry, actions: Registry)
    ensures fresh(guards) && fresh(actions) && guards != actions
    ensures guards.Valid() && actions.Valid()
    ensures guards.ids == IdsOf(GuardNames(trs)) && actions.ids == IdsOf(ActionNames(trs))
    ensures guards.byName.Keys == set g | g in GuardNames(trs)
    ensures actions.byName.Keys == set a | a in ActionNames(trs)
  {
    guards := new Registry();
    actions := new Registry();
    var i := 0;
    while i < |trs|
      invariant 0 <= i <= |trs|
      invariant fresh(guards) && fresh(actions) && guards != actions
      invariant guards.Valid() && actions.Valid()
      invariant guards.ids == IdsOf(GuardNames(trs[..i])) && actions.ids == IdsOf(ActionNames(trs[..i]))
      invariant guards.byName.Keys == set g | g in GuardNames(trs[..i])
      invariant actions.byName.Keys == set a | a in ActionNames(trs[..i])
    {
      HookNamesStep(trs, i);
      RegisterIfPresent(guards, trs[i].guard, GuardNames(trs[..i]));
      RegisterIfPresent(actions, trs[i].action, ActionNames(trs[..i]));
      i := i + 1;
    }
    assert trs[..|trs|] == trs;
  }
}
