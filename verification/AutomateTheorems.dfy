/** What setting, filling and deleting do to later reads of one level of the automation cache. */
module AutomateTheorems {
  import opened Prelude
  import opened AutomateStore

  // ---------------------------------------------------------------- groups as a partition

  lemma {:induction false} PickSplit(conds: seq<Condition>, g: string, gs: set<string>)
    requires g !in gs
    ensures multiset(Pick(conds, {g} + gs)) == multiset(Pick(conds, {g})) + multiset(Pick(conds, gs))
  {
    if conds != [] {
      PickSplit(conds[1..], g, gs);
    }
  }

  lemma {:induction false} PickNone(conds: seq<Condition>)
    ensures Pick(conds, {}) == []
  {
    if conds != [] {
      PickNone(conds[1..]);
    }
  }

  lemma {:induction false} PickAppend(a: seq<Condition>, b: seq<Condition>, gs: set<string>)
    ensures Pick(a + b, gs) == Pick(a, gs) + Pick(b, gs)
  {
    if a == [] {
      assert a + b == b;
    } else {
      var head := if a[0].group in gs then [a[0]] else [];
      PickAppend(a[1..], b, gs);
      assert Pick(a + b, gs) == head + Pick(a[1..] + b, gs) by {
        assert (a + b)[0] == a[0] && (a + b)[1..] == a[1..] + b;
      }
      assert Pick(a, gs) == head + Pick(a[1..], gs);
    }
  }

  /** Selecting one group from a selection. */
  lemma {:induction false} PickPick(conds: seq<Condition>, h: string, g: string)
    ensures Pick(InGroup(conds, h), {g}) == if g == h then InGroup(conds, h) else []
  {
    if conds != [] {
      PickPick(conds[1..], h, g);
      if conds[0].group == h {
        assert InGroup(conds, h) == [conds[0]] + InGroup(conds[1..], h);
        assert InGroup(conds, h)[1..] == InGroup(conds[1..], h);
      } else {
        assert InGroup(conds, h) == InGroup(conds[1..], h);
      }
    }
  }

  ghost predicate Filled(m: map<string, seq<Condition>>, conds: seq<Condition>, gs: seq<string>) {
    forall g :: g in gs ==> Held(m, g) == InGroup(conds, g)
  }

  function Members(gs: seq<string>): set<string> {
    set g | g in gs
  }

  lemma MembersCons(gs: seq<string>)
    requires gs != []
    ensures Members(gs) == {gs[0]} + Members(gs[1..])
  {
    assert gs == [gs[0]] + gs[1..];
  }

  /** Reading distinct groups back gives the conditions of those groups, each once. */
  lemma {:induction false} FlatPermutes(m: map<string, seq<Condition>>, conds: seq<Condition>, gs: seq<string>)
    requires NoDup(gs) && Filled(m, conds, gs)
    ensures multiset(Flat(m, gs)) == multiset(Pick(conds, Members(gs)))
  {
    if gs == [] {
      PickNone(conds);
      assert Members(gs) == {};
    } else {
      var head, rest := gs[0], gs[1..];
      assert gs == [head] + rest;
      NoDupCons(head, rest);
      MembersCons(gs);
      FlatPermutes(m, conds, rest);
      PickSplit(conds, head, Members(rest));
      assert multiset(Flat(m, gs)) == multiset(Held(m, head)) + multiset(Flat(m, rest));
    }
  }

  /** ... and each group's conditions keep their order. */
  lemma {:induction false} FlatKeepsOrder(m: map<string, seq<Condition>>, conds: seq<Condition>, gs: seq<string>,
        g: string)
    requires NoDup(gs) && Filled(m, conds, gs)
    ensures InGroup(Flat(m, gs), g) == if g in gs then InGroup(conds, g) else []
  {
    if gs != [] {
      var rest := gs[1..];
      assert gs == [gs[0]] + rest;
      NoDupCons(gs[0], rest);
      FlatKeepsOrder(m, conds, rest, g);
      var head := InGroup(conds, gs[0]);
      assert Held(m, gs[0]) == head;
      calc {
        InGroup(Flat(m, gs), g);
        InGroup(head + Flat(m, rest), g);
        { PickAppend(head, Flat(m, rest), {g}); }
        Pick(head, {g}) + InGroup(Flat(m, rest), g);
        { PickPick(conds, gs[0], g); }
        (if g == gs[0] then head else []) + (if g in rest then InGroup(conds, g) else []);
      }
    }
  }

  lemma {:induction false} FlatSame(m: map<string, seq<Condition>>, n: map<string, seq<Condition>>, gs: seq<string>)
    requires forall g :: g in gs ==> Held(m, g) == Held(n, g)
    ensures Flat(m, gs) == Flat(n, gs)
  {
    if gs != [] {
      FlatSame(m, n, gs[1..]);
    }
  }

  // ---------------------------------------------------------------- fill, then read

  /** No group of the scene also holds a condition of another scene. */
  ghost predicate Owned(conds: seq<Condition>, s: string) {
    forall c, d :: c in conds && d in conds && c.scene == s && c.group == d.group ==> d.scene == s
  }

  lemma {:induction false} OwnedPick(conds: seq<Condition>, s: string, gs: set<string>)
    requires forall c :: c in conds ==> (c.group in gs <==> c.scene == s)
    ensures Pick(conds, gs) == OfScene(conds, s)
  {
    if conds != [] {
      OwnedPick(conds[1..], s, gs);
    }
  }

  lemma {:induction false} FillActionsAt(acts: seq<Action>, refs: seq<SceneRef>, i: nat)
    requires i < |refs| && NoDup(SceneNames(refs))
    ensures refs[i].scene in FillActions(acts, refs)
    ensures FillActions(acts, refs)[refs[i].scene] == ActionEntry(refs[i].groups, ActionsOf(acts, refs[i].scene))
  {
    var n := |refs| - 1;
    if i < n {
      assert SceneNames(refs)[i] != SceneNames(refs)[n];
      assert forall j, k :: 0 <= j < k < n ==> SceneNames(refs)[j] != SceneNames(refs)[k];
      FillActionsAt(acts, refs[..n], i);
    }
  }

  lemma {:induction false} ReadAllLive(l: Level, refs: seq<SceneRef>)
    requires forall r :: r in refs ==> r.scene in l.actions
    ensures |ReadRefs(l, refs)| == |refs|
    ensures forall i :: 0 <= i < |refs| ==>
              ReadRefs(l, refs)[i] == SceneInfo(refs[i].scene, Flat(l.groups, refs[i].groups),
                  l.actions[refs[i].scene].actions)
  {
    if refs != [] {
      ReadAllLive(l, refs[1..]);
    }
  }

  lemma FillThenRead(l: Level, d: string, conds: seq<Condition>, acts: seq<Action>, refs: seq<SceneRef>)
    requires FillOrder(conds, acts, refs)
    ensures var a := Read(AfterFill(l, d, conds, acts, refs), d);
            && a.Found? && |a.scenes| == |refs|
            && forall i :: 0 <= i < |refs| ==>
                 && a.scenes[i].scene == refs[i].scene
                 && a.scenes[i].actions == ActionsOf(acts, refs[i].scene)
                 && a.scenes[i].conditions == Flat(Grouped(conds), refs[i].groups)
  {
    var l' := AfterFill(l, d, conds, acts, refs);
    forall i | 0 <= i < |refs|
      ensures refs[i].scene in l'.actions && l'.actions[refs[i].scene].actions == ActionsOf(acts, refs[i].scene)
      ensures Flat(l'.groups, refs[i].groups) == Flat(Grouped(conds), refs[i].groups)
    {
      FillActionsAt(acts, refs, i);
      assert refs[i] in refs;
      forall g | g in refs[i].groups
        ensures g in Grouped(conds)
      {
        assert g in GroupsOf(OfScene(conds, refs[i].scene));
        InOfScene(conds, refs[i].scene);
      }
      FlatSame(l'.groups, Grouped(conds), refs[i].groups);
    }
    ReadAllLive(l', refs);
  }

  lemma GroupsFilled(conds: seq<Condition>, s: string, gs: seq<string>)
    requires Lists(gs, GroupsOf(OfScene(conds, s)))
    ensures Filled(Grouped(conds), conds, gs)
    ensures Members(gs) == GroupsOf(OfScene(conds, s))
  {
    InOfScene(conds, s);
    forall g | g in gs
      ensures Held(Grouped(conds), g) == InGroup(conds, g)
    {
      assert g in GroupsOf(OfScene(conds, s));
      assert g in GroupsOf(conds);
    }
  }

  /** One scene of a filled read holds exactly the scene's conditions iff no group of it is shared. */
  lemma FilledSceneIff(conds: seq<Condition>, s: string, gs: seq<string>)
    requires Lists(gs, GroupsOf(OfScene(conds, s)))
    ensures multiset(Flat(Grouped(conds), gs)) == multiset(OfScene(conds, s)) <==> Owned(conds, s)
    ensures forall g :: g in gs ==> InGroup(Flat(Grouped(conds), gs), g) == InGroup(conds, g)
  {
    GroupsFilled(conds, s, gs);
    FlatPermutes(Grouped(conds), conds, gs);
    forall g | g in gs
      ensures InGroup(Flat(Grouped(conds), gs), g) == InGroup(conds, g)
    {
      FlatKeepsOrder(Grouped(conds), conds, gs, g);
    }
    OwnedIff(conds, s);
  }

  /** The conditions of a scene's groups are the scene's conditions iff no group is shared. */
  lemma OwnedIff(conds: seq<Condition>, s: string)
    ensures multiset(Pick(conds, GroupsOf(OfScene(conds, s)))) == multiset(OfScene(conds, s)) <==> Owned(conds, s)
  {
    var gs := GroupsOf(OfScene(conds, s));
    InOfScene(conds, s);
    InPick(conds, gs);
    if Owned(conds, s) {
      forall c | c in conds
        ensures c.group in gs <==> c.scene == s
      {
        if c.scene == s {
          assert c in OfScene(conds, s);
        }
      }
      OwnedPick(conds, s, gs);
    } else {
      var c, d :| c in conds && d in conds && c.scene == s && c.group == d.group && d.scene != s;
      assert c in OfScene(conds, s);
      assert d in Pick(conds, gs) && d !in OfScene(conds, s);
      assert d in multiset(Pick(conds, gs)) && d !in multiset(OfScene(conds, s));
    }
  }

  /** What a filled scene should read like. */
  ghost predicate Faithful(info: SceneInfo, conds: seq<Condition>, acts: seq<Action>) {
    && info.actions == ActionsOf(acts, info.scene)
    && (forall g :: g in GroupsOf(OfScene(conds, info.scene)) ==> InGroup(info.conditions, g) == InGroup(conds, g))
    && (multiset(info.conditions) == multiset(OfScene(conds, info.scene)) <==> Owned(conds, info.scene))
  }

  /**
   Filling a device and reading it back: whatever the map iteration orders, the answer
   holds exactly the scenes that have an action and a condition, each once, with its
   actions in input order; each group's conditions come back whole and in input order,
   and a scene's conditions are exactly its own iff none of its groups is shared.
   */
  lemma FillRoundTrip(l: Level, d: string, conds: seq<Condition>, acts: seq<Action>, refs: seq<SceneRef>)
    requires FillOrder(conds, acts, refs)
    ensures var a := Read(AfterFill(l, d, conds, acts, refs), d);
            && a.Found?
            && (forall s :: Returns(a, s) <==> s in ActingScenes(acts) && s in ScenesOf(conds))
            && (forall i, j :: 0 <= i < j < |a.scenes| ==> a.scenes[i].scene != a.scenes[j].scene)
            && forall i :: 0 <= i < |a.scenes| ==> Faithful(a.scenes[i], conds, acts)
  {
    FillThenRead(l, d, conds, acts, refs);
    var a := Read(AfterFill(l, d, conds, acts, refs), d);
    ReadNames(a, refs);
    forall i | 0 <= i < |refs|
      ensures Faithful(a.scenes[i], conds, acts)
    {
      assert refs[i] in refs;
      FilledSceneIff(conds, refs[i].scene, refs[i].groups);
    }
  }

  lemma ReadNames(a: Answer, refs: seq<SceneRef>)
    requires a.Found? && |a.scenes| == |refs| && NoDup(SceneNames(refs))
    requires forall i :: 0 <= i < |refs| ==> a.scenes[i].scene == refs[i].scene
    ensures forall s :: Returns(a, s) <==> s in SceneNames(refs)
    ensures forall i, j :: 0 <= i < j < |a.scenes| ==> a.scenes[i].scene != a.scenes[j].scene
  {
    var names := SceneNames(refs);
    forall s
      ensures Returns(a, s) <==> s in names
    {
      if s in names {
        var i :| 0 <= i < |names| && names[i] == s;
        assert a.scenes[i].scene == s;
      }
    }
    forall i, j | 0 <= i < j < |a.scenes|
      ensures a.scenes[i].scene != a.scenes[j].scene
    {
      assert names[i] != names[j];
    }
  }

  /** The shape of the repository's own test input: two scenes that share one group id. */
  lemma SharedGroupMixes(x: Condition, y: Condition)
    requires x.group == y.group && x.scene != y.scene
    ensures !Owned([x, y], x.scene)
    ensures y in Flat(Grouped([x, y]), [x.group])
  {
    assert x in [x, y] && y in [x, y];
    assert x.group in GroupsOf([x, y]);
    assert Flat(Grouped([x, y]), [x.group]) == InGroup([x, y], x.group) + Flat(Grouped([x, y]), []);
    InPick([x, y], {x.group});
    assert y in InGroup([x, y], x.group);
  }

  // ---------------------------------------------------------------- delete, then read

  function WithoutScene(infos: seq<SceneInfo>, s: string): seq<SceneInfo> {
    if infos == [] then []
    else (if infos[0].scene == s then [] else [infos[0]]) + WithoutScene(infos[1..], s)
  }

  function Minus(a: Answer, s: string): Answer {
    if a.Found? then Found(WithoutScene(a.scenes, s)) else a
  }

  lemma {:induction false} WithoutSceneAppend(a: seq<SceneInfo>, b: seq<SceneInfo>, s: string)
    ensures WithoutScene(a + b, s) == WithoutScene(a, s) + WithoutScene(b, s)
  {
    if a == [] {
      assert a + b == b;
    } else {
      assert (a + b)[1..] == a[1..] + b;
      WithoutSceneAppend(a[1..], b, s);
    }
  }

  /** No other live scene of the list names a deleted group that still holds conditions. */
  ghost predicate Spared(l: Level, refs: seq<SceneRef>, s: string, gone: set<string>) {
    forall r, g :: r in refs && r.scene != s && r.scene in l.actions && g in r.groups && g in gone ==>
        Held(l.groups, g) == []
  }

  /** Dropping groups leaves a flattened list alone iff the dropped ones held nothing. */
  lemma {:induction false} FlatDropped(m: map<string, seq<Condition>>, gone: set<string>, gs: seq<string>)
    ensures |Flat(m - gone, gs)| <= |Flat(m, gs)|
    ensures Flat(m - gone, gs) == Flat(m, gs) <==> forall g :: g in gs && g in gone ==> Held(m, g) == []
  {
    if gs != [] {
      FlatDropped(m, gone, gs[1..]);
      assert gs == [gs[0]] + gs[1..];
      if gs[0] in gone && Held(m, gs[0]) != [] {
        assert |Flat(m - gone, gs)| < |Flat(m, gs)|;
      } else {
        assert Held(m - gone, gs[0]) == Held(m, gs[0]);
        var h := Held(m, gs[0]);
        assert Flat(m, gs)[|h|..] == Flat(m, gs[1..]);
        assert Flat(m - gone, gs)[|h|..] == Flat(m - gone, gs[1..]);
      }
    }
  }

  lemma SparedCons(l: Level, r: SceneRef, rest: seq<SceneRef>, s: string, gone: set<string>)
    ensures Spared(l, [r] + rest, s, gone) <==>
            && (r.scene != s && r.scene in l.actions ==> forall g :: g in r.groups && g in gone ==>
              Held(l.groups, g) == [])
            && Spared(l, rest, s, gone)
  {
    var refs := [r] + rest;
    assert forall q :: q in refs <==> q == r || q in rest;
    if Spared(l, refs, s, gone) {
      assert r in refs;
      assert forall q :: q in rest ==> q in refs;
    }
  }

  lemma SameTail<T>(a: seq<T>, b: seq<T>, x: seq<T>, y: seq<T>)
    requires |a| == |b|
    ensures a + x == b + y <==> a == b && x == y
  {
    if a + x == b + y {
      assert a == (a + x)[..|a|] && b == (b + y)[..|b|];
      assert x == (a + x)[|a|..] && y == (b + y)[|b|..];
    }
  }

  lemma {:induction false} ReadDropped(l: Level, l': Level, refs: seq<SceneRef>, s: string, gone: set<string>)
    requires l'.actions == l.actions - {s} && l'.groups == l.groups - gone
    ensures ReadRefs(l', refs) == WithoutScene(ReadRefs(l, refs), s) <==> Spared(l, refs, s, gone)
    ensures |ReadRefs(l', refs)| == |WithoutScene(ReadRefs(l, refs), s)|
  {
    if refs != [] {
      var r := refs[0];
      assert refs == [r] + refs[1..];
      ReadDropped(l, l', refs[1..], s, gone);
      SparedCons(l, r, refs[1..], s, gone);
      WithoutSceneAppend(ReadRef(l, r), ReadRefs(l, refs[1..]), s);
      if r.scene != s && r.scene in l.actions {
        FlatDropped(l.groups, gone, r.groups);
        var xs, ys := ReadRefs(l', refs[1..]), WithoutScene(ReadRefs(l, refs[1..]), s);
        assert WithoutScene(ReadRef(l, r), s) == ReadRef(l, r);
        assert ReadRefs(l', refs) == ReadRef(l', r) + xs;
        assert WithoutScene(ReadRefs(l, refs), s) == ReadRef(l, r) + ys;
        SameTail(ReadRef(l', r), ReadRef(l, r), xs, ys);
      } else {
        assert ReadRef(l', r) == [];
        assert ReadRefs(l', refs) == ReadRefs(l', refs[1..]);
        assert WithoutScene(ReadRef(l, r), s) == [];
        assert WithoutScene(ReadRefs(l, refs), s) == WithoutScene(ReadRefs(l, refs[1..]), s);
      }
    }
  }

  /**
   What a delete may leave: its base entries may keep their old value (their key, or a
   group's, could not be read), everything else is as a full delete leaves it.
   */
  ghost predicate Deleted(kind: Kind, l: Level, s: string, l': Level) {
    var full := AfterDelete(kind, l, s);
    && l'.groups == full.groups
    && l'.actions == full.actions
    && forall d :: Get(l'.base, d) == Get(l.base, d) || Get(l'.base, d) == Get(full.base, d)
  }

  /** A delete that stopped at an error has only stored emptied lists. */
  ghost predicate DeleteStopped(kind: Kind, l: Level, s: string, l': Level) {
    && l'.groups == l.groups
    && l'.actions == l.actions
    && forall d :: Get(l'.base, d) == Get(l.base, d) ||
                   (Get(l'.base, d) == Some(Scenes([])) && Get(AfterDelete(kind, l, s).base, d) == Some(Scenes([])))
  }

  lemma NoSceneNoInfo(l: Level, refs: seq<SceneRef>, s: string)
    requires s !in l.actions
    ensures WithoutScene(ReadRefs(l, refs), s) == ReadRefs(l, refs)
  {
    ReadIsLive(l, refs);
    AllOther(ReadRefs(l, refs), s);
  }

  lemma {:induction false} AllOther(infos: seq<SceneInfo>, s: string)
    requires forall i :: 0 <= i < |infos| ==> infos[i].scene != s
    ensures WithoutScene(infos, s) == infos
  {
    if infos != [] {
      assert forall i :: 0 <= i < |infos[1..]| ==> infos[1..][i] == infos[i + 1];
      AllOther(infos[1..], s);
    }
  }

  lemma EmptiedList(l: Level, refs: seq<SceneRef>, s: string)
    requires RemoveFirst(refs, s) == []
    ensures WithoutScene(ReadRefs(l, refs), s) == []
  {
    if refs != [] {
      assert refs == [refs[0]];
      assert ReadRefs(l, refs) == ReadRef(l, refs[0]) + ReadRefs(l, []);
      assert ReadRefs(l, refs) == ReadRef(l, refs[0]);
    }
  }

  /**
   After a successful delete a device's read is a miss or its previous answer without
   the scene, whatever its list was; for an entry that stayed cached, exactly when no
   other live scene of its list loses conditions with the deleted groups.
   */
  lemma DeleteThenRead(kind: Kind, l: Level, s: string, l': Level, d: string)
    requires Deleted(kind, l, s, l')
    ensures !Returns(Read(l', d), s)
    ensures var gone := if s in l.actions then set g | g in l.actions[s].groups else {};
            && (Spared(l, OldRefs(l.base, d), s, gone) ==> Read(l', d).NotFound? || Read(l', d) == Minus(Read(l, d), s))
            && (Get(l'.base, d) == Get(l.base, d) ==>
                  (Read(l', d) == Minus(Read(l, d), s) <==> Spared(l, OldRefs(l.base, d), s, gone)))
  {
    ReadIsLive(l', OldRefs(l'.base, d));
    if d in l.base && l.base[d].Scenes? {
      var refs := l.base[d].refs;
      if s in l.actions {
        var gone := set g | g in l.actions[s].groups;
        ReadDropped(l, l', refs, s, gone);
        if Get(l'.base, d) != Get(l.base, d) {
          assert Get(l'.base, d) == Get(AfterDelete(kind, l, s).base, d);
          assert d in Sources(kind, l.groups, l.actions[s].groups);
          if RemoveFirst(refs, s) == [] {
            EmptiedList(l, refs, s);
            assert Read(l', d) == Found([]);
          } else {
            assert d !in l'.base;
          }
        } else {
          assert Read(l', d) == Found(ReadRefs(l', refs));
        }
      } else {
        assert Get(l'.base, d) == Get(l.base, d);
        assert d in l'.base && l'.base[d] == l.base[d];
        assert l' == l by {
          SameMap(l'.base, l.base);
        }
        NoSceneNoInfo(l, refs, s);
      }
    } else if d in l.base {
      assert Get(AfterDelete(kind, l, s).base, d) == Some(NoTask);
      assert d in l'.base && l'.base[d] == NoTask;
    } else {
      assert Get(AfterDelete(kind, l, s).base, d) == None;
      assert d !in l'.base;
    }
  }

  lemma SameMap<K(!new), V>(m: map<K, V>, n: map<K, V>)
    requires forall k :: Get(m, k) == Get(n, k)
    ensures m == n
  {
    forall k
      ensures k in m <==> k in n
      ensures k in m ==> m[k] == n[k]
    {
      assert Get(m, k) == Get(n, k);
    }
  }

  /** A failed delete changes a read at most by dropping the scene from it. */
  lemma DeleteStoppedThenRead(kind: Kind, l: Level, s: string, l': Level, d: string)
    requires DeleteStopped(kind, l, s, l')
    ensures Read(l', d) == Read(l, d) || Read(l', d) == Minus(Read(l, d), s)
  {
    assert Get(l'.base, d) == Get(l.base, d) || Get(l'.base, d) == Some(Scenes([]));
    if d in l'.base && Get(l'.base, d) == Get(l.base, d) {
      if l.base[d].Scenes? {
        SameContent(l, l', l.base[d].refs);
      }
    } else if d in l'.base {
      assert Get(AfterDelete(kind, l, s).base, d) == Some(Scenes([]));
      if s in l.actions && d in Sources(kind, l.groups, l.actions[s].groups) {
        EmptiedList(l, l.base[d].refs, s);
      }
    }
  }

  lemma {:induction false} SameContent(l: Level, l': Level, refs: seq<SceneRef>)
    requires l'.groups == l.groups && l'.actions == l.actions
    ensures ReadRefs(l', refs) == ReadRefs(l, refs)
  {
    if refs != [] {
      SameContent(l, l', refs[1..]);
    }
  }

  // ---------------------------------------------------------------- set, then read

  /** No base entry names one of the group ids being written. */
  ghost predicate Fresh(l: Level, order: seq<string>) {
    forall d, r, g :: d in l.base && r in OldRefs(l.base, d) && g in r.groups ==> g !in order
  }

  /** Setting the scene leaves what the list already said about it: it is not listed, or its actions stay. */
  ghost predicate Settled(l: Level, refs: seq<SceneRef>, s: string, acts: seq<Action>) {
    (forall r :: r in refs ==> r.scene != s) || (s in l.actions && l.actions[s].actions == acts)
  }

  lemma {:induction false} ReadAfterSet(l: Level, l': Level, refs: seq<SceneRef>, s: string, acts: seq<Action>)
    requires l'.actions.Keys == l.actions.Keys + {s} && l'.actions[s].actions == acts
    requires forall t :: t in l.actions && t != s ==> l'.actions[t] == l.actions[t]
    requires forall r, g :: r in refs && g in r.groups ==> Held(l'.groups, g) == Held(l.groups, g)
    ensures |ReadRefs(l', refs)| >= |ReadRefs(l, refs)|
    ensures ReadRefs(l', refs) == ReadRefs(l, refs) <==> Settled(l, refs, s, acts)
  {
    if refs != [] {
      var r := refs[0];
      assert refs == [r] + refs[1..];
      ReadAfterSet(l, l', refs[1..], s, acts);
      FlatSame(l'.groups, l.groups, r.groups);
      var x, y := ReadRefs(l', refs), ReadRefs(l, refs);
      if r.scene in l.actions {
        assert x[0] == ReadRef(l', r)[0] && y[0] == ReadRef(l, r)[0];
        assert x[1..] == ReadRefs(l', refs[1..]) && y[1..] == ReadRefs(l, refs[1..]);
        assert x == [x[0]] + x[1..] && y == [y[0]] + y[1..];
      } else if r.scene == s {
        assert |x| > |y|;
      } else {
        assert x == ReadRefs(l', refs[1..]) && y == ReadRefs(l, refs[1..]);
      }
    }
  }

  /** The conditions a set scene reads back with: all those of the relevant groups. */
  lemma SetConditions(kind: Kind, l: Level, s: string, conds: seq<Condition>, acts: seq<Action>, order: seq<string>)
    requires Lists(order, Relevant(kind, conds)) && Triggers(kind, conds) != {}
    ensures var own := Flat(AfterSet(kind, l, s, conds, acts, order).groups, order);
            && multiset(own) == multiset(Pick(conds, Relevant(kind, conds)))
            && forall g :: g in Relevant(kind, conds) ==> InGroup(own, g) == InGroup(conds, g)
  {
    var groups := AfterSet(kind, l, s, conds, acts, order).groups;
    SetFills(l.groups, conds, order);
    FlatPermutes(groups, conds, order);
    assert Members(order) == Relevant(kind, conds);
    forall g | g in Relevant(kind, conds)
      ensures InGroup(Flat(groups, order), g) == InGroup(conds, g)
    {
      assert g in order;
      FlatKeepsOrder(groups, conds, order, g);
    }
  }

  lemma SetFills(groups: map<string, seq<Condition>>, conds: seq<Condition>, order: seq<string>)
    ensures Filled(groups + GroupEntries(conds, order), conds, order)
  {
  }

  /**
   Setting a scene with fresh group ids. A triggering device reads its previous scenes in
   order, then this scene; every other device reads what it read before. Both hold exactly
   when the device's list does not already name the scene with other actions.
   */
  lemma SetThenRead(kind: Kind, l: Level, s: string, conds: seq<Condition>, acts: seq<Action>, order: seq<string>,
        d: string)
    requires Lists(order, Relevant(kind, conds)) && Fresh(l, order) && Triggers(kind, conds) != {}
    ensures var l' := AfterSet(kind, l, s, conds, acts, order);
            var added := SceneInfo(s, Flat(l'.groups, order), acts);
            Settled(l, OldRefs(l.base, d), s, acts) <==>
              if d in Triggers(kind, conds) then Read(l', d) == Found(ReadRefs(l, OldRefs(l.base, d)) + [added])
              else Read(l', d) == Read(l, d)
  {
    var l' := AfterSet(kind, l, s, conds, acts, order);
    var refs := OldRefs(l.base, d);
    SetLeaves(kind, l, s, conds, acts, order, d);
    ReadAfterSet(l, l', refs, s, acts);
    if d in Triggers(kind, conds) {
      ReadOneMore(l', refs, SceneRef(s, order));
      SameHead(ReadRefs(l', refs), ReadRefs(l, refs), SceneInfo(s, Flat(l'.groups, order), acts));
    }
  }

  /** What a set leaves of the level: other scenes' actions, the groups a list names, the device's entry. */
  lemma SetLeaves(kind: Kind, l: Level, s: string, conds: seq<Condition>, acts: seq<Action>, order: seq<string>,
        d: string)
    requires Fresh(l, order) && Triggers(kind, conds) != {}
    ensures var l' := AfterSet(kind, l, s, conds, acts, order);
            && l'.actions == l.actions[s := ActionEntry(order, acts)]
            && (forall r, g :: r in OldRefs(l.base, d) && g in r.groups ==> Held(l'.groups, g) == Held(l.groups, g))
            && Get(l'.base, d) ==
               if d in Triggers(kind, conds) then Some(Scenes(OldRefs(l.base, d) + [SceneRef(s, order)]))
                                  else Get(l.base, d)
  {
    var l' := AfterSet(kind, l, s, conds, acts, order);
    forall r, g | r in OldRefs(l.base, d) && g in r.groups
      ensures Held(l'.groups, g) == Held(l.groups, g)
    {
      assert d in l.base;
      assert g !in order;
    }
  }

  /** A list with one more entry, for a live scene. */
  lemma ReadOneMore(l: Level, refs: seq<SceneRef>, mine: SceneRef)
    requires mine.scene in l.actions
    ensures ReadRefs(l, refs + [mine]) ==
            ReadRefs(l, refs) + [SceneInfo(mine.scene, Flat(l.groups, mine.groups), l.actions[mine.scene].actions)]
  {
    ReadRefsAppend(l, refs, [mine]);
    assert ReadRefs(l, [mine]) == ReadRef(l, mine) + ReadRefs(l, []);
  }

  lemma SameHead<T>(x: seq<T>, y: seq<T>, t: T)
    ensures x + [t] == y + [t] <==> x == y
  {
    if x + [t] == y + [t] {
      assert |x| == |y|;
      SameTail(x, y, [t], [t]);
    }
  }
}
