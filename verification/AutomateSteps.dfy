/** One-iteration facts about the loops of the automation cache, and the outcomes of its calls. */
module AutomateSteps {
  import opened Prelude
  import opened AutomateStore
  import opened AutomateTheorems
  import opened AutomateRuns

  // ---------------------------------------------------------------- loop steps

  lemma FlatMore(m: map<string, seq<Condition>>, gs: seq<string>, i: nat)
    requires i < |gs|
    ensures Flat(m, gs[..i + 1]) == Flat(m, gs[..i]) + Held(m, gs[i])
  {
    assert gs[..i + 1] == gs[..i] + [gs[i]];
    FlatAppend(m, gs[..i], [gs[i]]);
    assert Flat(m, [gs[i]]) == Held(m, gs[i]) + Flat(m, []);
  }

  lemma FlatNext(m: map<string, seq<Condition>>, gs: seq<string>, g: string)
    ensures Flat(m, gs + [g]) == Flat(m, gs) + Held(m, g)
  {
    FlatAppend(m, gs, [g]);
    assert Flat(m, [g]) == Held(m, g) + Flat(m, []);
  }

  /** The conditions of the groups that were read, those at the places `at`; all of them if none was missed. */
  ghost predicate GroupsRead(m: map<string, seq<Condition>>, gs: seq<string>, conditions: seq<Condition>, at: seq<nat>,
        read: seq<string>) {
    && Selects(gs, at, read) && conditions == Flat(m, read)
    && |read| <= |gs| && (|read| == |gs| ==> read == gs)
  }

  lemma GroupsReadMore(m: map<string, seq<Condition>>, gs: seq<string>, j: nat, before: seq<Condition>, at: seq<nat>,
        read: seq<string>, taken: bool, conditions: seq<Condition>) returns (at': seq<nat>, read': seq<string>)
    requires j < |gs| && GroupsRead(m, gs[..j], before, at, read)
    requires conditions == if taken then before + Held(m, gs[j]) else before
    ensures GroupsRead(m, gs[..j + 1], conditions, at', read')
    ensures |read'| == |read| + if taken then 1 else 0
  {
    assert gs[..j + 1][..j] == gs[..j] && gs[..j + 1] == gs[..j] + [gs[j]];
    at' := SelectsLast(gs[..j + 1], at, read, taken);
    FlatNext(m, read, gs[j]);
    assert read + [] == read;
    read' := if taken then read + [gs[j]] else read;
  }

  lemma ReadMore(l: Level, refs: seq<SceneRef>, i: nat)
    requires i < |refs|
    ensures ReadRefs(l, refs[..i + 1]) == ReadRefs(l, refs[..i]) + ReadRef(l, refs[i])
  {
    assert refs[..i + 1] == refs[..i] + [refs[i]];
    ReadRefsAppend(l, refs[..i], [refs[i]]);
    assert ReadRefs(l, [refs[i]]) == ReadRef(l, refs[i]) + ReadRefs(l, []);
  }

  lemma SourcesMore(kind: Kind, m: map<string, seq<Condition>>, gs: seq<string>, i: nat)
    requires i < |gs|
    ensures forall d :: d in Sources(kind, m, gs[..i + 1]) <==>
              d in Sources(kind, m, gs[..i]) || exists c :: c in Held(m, gs[i]) && Source(kind, c) == Some(d)
  {
    FlatMore(m, gs, i);
  }

  /** With fewer groups there are fewer triggering devices. */
  lemma {:induction false} SourcesFewer(kind: Kind, m: map<string, seq<Condition>>, unread: set<string>, g: string,
        gs: seq<string>)
    ensures Sources(kind, m - (unread + {g}), gs) <= Sources(kind, m - unread, gs)
  {
    FlatFewer(m - unread, m - (unread + {g}), gs);
  }

  lemma {:induction false} FlatFewer(m: map<string, seq<Condition>>, n: map<string, seq<Condition>>, gs: seq<string>)
    requires forall g :: g in n ==> g in m && n[g] == m[g]
    ensures forall c :: c in Flat(n, gs) ==> c in Flat(m, gs)
  {
    if gs != [] {
      FlatFewer(m, n, gs[1..]);
    }
  }

  lemma {:induction false} RemovedFirst(refs: seq<SceneRef>, s: string, i: nat)
    requires i < |refs| && refs[i].scene == s && forall j :: 0 <= j < i ==> refs[j].scene != s
    ensures RemoveFirst(refs, s) == refs[..i] + refs[i + 1..]
  {
    if i > 0 {
      assert refs[1..][i - 1] == refs[i];
      assert forall j :: 0 <= j < i - 1 ==> refs[1..][j] == refs[j + 1];
      RemovedFirst(refs[1..], s, i - 1);
      assert refs[1..][..i - 1] == refs[1..i];
      assert refs[1..][i..] == refs[i + 1..];
      assert refs[..i] == [refs[0]] + refs[1..i];
    }
  }

  lemma {:induction false} NoneRemoved(refs: seq<SceneRef>, s: string)
    requires forall j :: 0 <= j < |refs| ==> refs[j].scene != s
    ensures RemoveFirst(refs, s) == refs
  {
    if refs != [] {
      assert forall j :: 0 <= j < |refs| - 1 ==> refs[1..][j] == refs[j + 1];
      NoneRemoved(refs[1..], s);
    }
  }

  // ---------------------------------------------------------------- reads with unreadable keys

  /** These are the conditions of some of the groups, each whole and in the order of the list. */
  ghost predicate WholeGroups(l: Level, gs: seq<string>, conditions: seq<Condition>) {
    exists at, read :: Selects(gs, at, read) && conditions == Flat(l.groups, read)
  }

  /** The scene is listed and live, comes with its stored actions, and with the conditions of some of its groups. */
  ghost predicate PartOfRefs(l: Level, refs: seq<SceneRef>, info: SceneInfo) {
    && info.scene in l.actions && info.actions == l.actions[info.scene].actions
    && exists r :: r in refs && r.scene == info.scene && WholeGroups(l, r.groups, info.conditions)
  }

  /** What a read may return when some group or action keys could not be read. */
  ghost predicate PartOf(l: Level, d: string, a: Answer) {
    && (a.NotFound? <==> Read(l, d).NotFound?)
    && (a.NotTask? <==> Read(l, d).NotTask?)
    && (a.Found? ==> forall i :: 0 <= i < |a.scenes| ==> PartOfRefs(l, OldRefs(l.base, d), a.scenes[i]))
  }

  /** Every live scene of the list is answered in full, but for those in the places missed. */
  ghost predicate AnsweredBut(l: Level, refs: seq<SceneRef>, infos: seq<SceneInfo>, missed: set<nat>) {
    forall i: nat :: i < |refs| && i !in missed && refs[i].scene in l.actions ==>
      SceneInfo(refs[i].scene, Flat(l.groups, refs[i].groups), l.actions[refs[i].scene].actions) in infos
  }

  lemma AnsweredMore(l: Level, refs: seq<SceneRef>, i: nat, before: seq<SceneInfo>, infos: seq<SceneInfo>,
        missed: set<nat>)
    requires i < |refs| && before <= infos && AnsweredBut(l, refs[..i], before, missed - {i})
    requires i !in missed ==> infos == before + ReadRef(l, refs[i])
    ensures AnsweredBut(l, refs[..i + 1], infos, missed)
  {
    if i !in missed && refs[i].scene in l.actions {
      assert ReadRef(l, refs[i])[0] in infos;
    }
    forall k: nat | k < i && k !in missed && refs[k].scene in l.actions
      ensures SceneInfo(refs[k].scene, Flat(l.groups, refs[k].groups), l.actions[refs[k].scene].actions) in infos
    {
      assert refs[..i][k] == refs[k];
    }
  }

  // ---------------------------------------------------------------- outcomes of a delete

  /** The entry is a list that keeps other scenes. */
  predicate Doomed(base: map<string, BaseEntry>, s: string, d: string) {
    d in base && base[d].Scenes? && RemoveFirst(base[d].refs, s) != []
  }

  predicate Clearable(base: map<string, BaseEntry>, s: string, d: string) {
    d in base && base[d].Scenes? && RemoveFirst(base[d].refs, s) == []
  }

  /** Only lists with nothing else in them have been stored back empty. */
  ghost predicate Emptied(base: map<string, BaseEntry>, base': map<string, BaseEntry>, s: string, ids: seq<string>) {
    forall d :: Get(base', d) == Get(base, d) ||
        (d in ids && Clearable(base, s, d) && Get(base', d) == Some(Scenes([])))
  }

  /** All but the skipped lists have been stored back empty or put on the list of keys to delete. */
  ghost predicate Swept(base: map<string, BaseEntry>, base': map<string, BaseEntry>, keys: set<string>, s: string,
        ids: seq<string>, skipped: set<string>) {
    forall d :: d in ids && d !in skipped ==>
      && (Clearable(base, s, d) ==> Get(base', d) == Some(Scenes([])))
      && (Doomed(base, s, d) ==> d in keys)
  }

  /** What one device's list came to. */
  ghost predicate Treated(base: map<string, BaseEntry>, base': map<string, BaseEntry>, s: string, d: string,
        doomed: bool) {
    && (Clearable(base, s, d) ==> Get(base', d) == Some(Scenes([])))
    && (Doomed(base, s, d) ==> doomed)
  }

  /** One more device, from a state in which some lists have been stored back empty. */
  lemma EmptiedMore(base: map<string, BaseEntry>, mid: map<string, BaseEntry>, base': map<string, BaseEntry>, s: string,
        ids: seq<string>, d: string, doomed: bool)
    requires Emptied(base, mid, s, ids) && Emptied(mid, base', s, [d]) && (doomed ==> Doomed(mid, s, d))
    ensures Emptied(base, base', s, ids + [d])
    ensures doomed ==> Doomed(base, s, d)
    ensures forall e :: Get(mid, e) == Some(Scenes([])) ==> Get(base', e) == Some(Scenes([]))
  {
    assert Get(mid, d) == Get(base, d) || (Clearable(base, s, d) && Get(mid, d) == Some(Scenes([])));
    forall e
      ensures Get(base', e) == Get(base, e) ||
              (e in ids + [d] && Clearable(base, s, e) && Get(base', e) == Some(Scenes([])))
      ensures Get(mid, e) == Some(Scenes([])) ==> Get(base', e) == Some(Scenes([]))
    {
      assert Get(mid, e) == Get(base, e) || (e in ids && Clearable(base, s, e) && Get(mid, e) == Some(Scenes([])));
      assert Get(base', e) == Get(mid, e) || (e == d && Clearable(mid, s, e) && Get(base', e) == Some(Scenes([])));
    }
  }

  lemma EmptiedAll(base: map<string, BaseEntry>, base': map<string, BaseEntry>, s: string, ids: seq<string>, n: nat)
    requires n <= |ids| && Emptied(base, base', s, ids[..n])
    ensures Emptied(base, base', s, ids)
  {
    assert forall d :: d in ids[..n] ==> d in ids;
  }

  lemma SweptMore(base: map<string, BaseEntry>, mid: map<string, BaseEntry>, base': map<string, BaseEntry>,
        keys: set<string>, s: string, ids: seq<string>, d: string, skipped: set<string>, doomed: bool)
    requires Emptied(base, mid, s, ids) && (d !in skipped ==> Treated(mid, base', s, d, doomed))
    requires forall e :: Get(mid, e) == Some(Scenes([])) ==> Get(base', e) == Some(Scenes([]))
    requires doomed ==> d in keys
    requires forall e :: e in ids && e !in skipped ==>
               && (Clearable(base, s, e) ==> Get(mid, e) == Some(Scenes([])))
               && (Doomed(base, s, e) ==> e in keys)
    ensures Swept(base, base', keys, s, ids + [d], skipped)
  {
    assert Get(mid, d) == Get(base, d) || (Clearable(base, s, d) && Get(mid, d) == Some(Scenes([])));
    assert Get(mid, d) == Some(Scenes([])) ==> Clearable(mid, s, d);
  }

  lemma EmptiedStops(kind: Kind, l: Level, s: string, ids: seq<string>, l': Level)
    requires s in l.actions && l'.groups == l.groups && l'.actions == l.actions
    requires forall d :: d in ids ==> d in Sources(kind, l.groups, l.actions[s].groups)
    requires Emptied(l.base, l'.base, s, ids)
    ensures DeleteStopped(kind, l, s, l')
  {
  }

  /** What a delete could not read: group entries, and base entries of devices. */
  datatype Missed = Missed(groups: set<string>, devices: set<string>)

  const NONE_MISSED := Missed({}, {})

  function Count(m: Missed): nat {
    |m.groups| + |m.devices|
  }

  /** But for what it missed, the delete left every base entry as it should. */
  ghost predicate Cleared(kind: Kind, l: Level, s: string, l': Level, m: Missed) {
    s in l.actions ==>
      forall d :: d in Sources(kind, l.groups - m.groups, l.actions[s].groups) && d !in m.devices ==>
        Get(l'.base, d) == Get(AfterDelete(kind, l, s).base, d)
  }

  /** Removing the collected keys together with the scene's own keys completes the delete. */
  lemma DeleteFinished(kind: Kind, l: Level, s: string, ids: seq<string>, base: map<string, BaseEntry>,
        keys: set<string>, m: Missed)
    requires s in l.actions
    requires forall d :: d in ids ==> d in Sources(kind, l.groups, l.actions[s].groups)
    requires forall d :: d in Sources(kind, l.groups - m.groups, l.actions[s].groups) ==> d in ids
    requires Emptied(l.base, base, s, ids)
    requires forall d :: d in keys ==> Doomed(l.base, s, d) && d in ids
    requires Swept(l.base, base, keys, s, ids, m.devices)
    ensures var l' := Level(base - keys, l.groups - (set g | g in l.actions[s].groups), l.actions - {s});
            && Deleted(kind, l, s, l')
            && Cleared(kind, l, s, l', m)
            && (m == NONE_MISSED ==> l' == AfterDelete(kind, l, s))
  {
    var full := AfterDelete(kind, l, s);
    forall d
      ensures Get(base - keys, d) == Get(l.base, d) || Get(base - keys, d) == Get(full.base, d)
      ensures d in ids && d !in m.devices ==> Get(base - keys, d) == Get(full.base, d)
    {
      assert Get(base, d) == Get(l.base, d) ||
          (d in ids && Clearable(l.base, s, d) && Get(base, d) == Some(Scenes([])));
    }
    if m == NONE_MISSED {
      assert l.groups - {} == l.groups;
      forall d
        ensures Get(base - keys, d) == Get(full.base, d)
      {
        assert Get(base, d) == Get(l.base, d) ||
            (d in ids && Clearable(l.base, s, d) && Get(base, d) == Some(Scenes([])));
      }
      SameMap(base - keys, full.base);
    }
  }

  // ---------------------------------------------------------------- grouping steps

  lemma {:induction false} PickMore(conds: seq<Condition>, i: nat, gs: set<string>)
    requires i < |conds|
    ensures Pick(conds[..i + 1], gs) == Pick(conds[..i], gs) + (if conds[i].group in gs then [conds[i]] else [])
  {
    assert conds[..i + 1] == conds[..i] + [conds[i]];
    PickAppend(conds[..i], [conds[i]], gs);
    assert Pick([conds[i]], gs) == (if conds[i].group in gs then [conds[i]] else []) + Pick([], gs);
  }

  lemma {:induction false} NoneInGroup(conds: seq<Condition>, g: string)
    requires forall c :: c in conds ==> c.group != g
    ensures InGroup(conds, g) == []
  {
    if conds != [] {
      NoneInGroup(conds[1..], g);
    }
  }

  lemma GroupEntriesMore(groups: map<string, seq<Condition>>, conds: seq<Condition>, gs: seq<string>, g: string)
    ensures groups + GroupEntries(conds, gs + [g]) == (groups + GroupEntries(conds, gs))[g := InGroup(conds, g)]
  {
  }

  lemma GroupedAt(conds: seq<Condition>, i: nat, g: string)
    requires i < |conds|
    ensures InGroup(conds[..i + 1], g) ==
            Held(Grouped(conds[..i]), g) + (if conds[i].group == g then [conds[i]] else [])
  {
    PickMore(conds, i, {g});
    if g !in GroupsOf(conds[..i]) {
      assert forall c :: c in conds[..i] ==> c.group in GroupsOf(conds[..i]);
      NoneInGroup(conds[..i], g);
    }
  }

  lemma GroupsOfMore(conds: seq<Condition>, i: nat, g: string)
    requires i < |conds|
    ensures g in GroupsOf(conds[..i + 1]) <==> g in GroupsOf(conds[..i]) || g == conds[i].group
  {
    assert conds[..i + 1] == conds[..i] + [conds[i]];
    if g in GroupsOf(conds[..i]) {
      var e :| e in conds[..i] && e.group == g;
      assert e in conds[..i + 1];
    }
    assert conds[i] in conds[..i + 1];
  }

  lemma GroupedMore(conds: seq<Condition>, i: nat)
    requires i < |conds|
    ensures var m := Grouped(conds[..i]);
            Grouped(conds[..i + 1]) == m[conds[i].group := Held(m, conds[i].group) + [conds[i]]]
  {
    var c, m, n := conds[i], Grouped(conds[..i]), Grouped(conds[..i + 1]);
    var m' := m[c.group := Held(m, c.group) + [c]];
    forall g
      ensures Get(n, g) == Get(m', g)
    {
      GroupsOfMore(conds, i, g);
      GroupedAt(conds, i, g);
      assert g in n <==> g in GroupsOf(conds[..i + 1]);
      assert g in m <==> g in GroupsOf(conds[..i]);
      if g == c.group {
        assert n[g] == Held(m, g) + [c];
      } else if g in n {
        assert n[g] == Held(m, g) + [] == m[g];
        assert m'[g] == m[g];
      } else {
        assert g !in m';
      }
    }
    SameMap(n, m');
  }

  lemma TriggersMore(kind: Kind, conds: seq<Condition>, i: nat)
    requires i < |conds|
    ensures Triggers(kind, conds[..i + 1]) ==
            Triggers(kind, conds[..i]) + (if Source(kind, conds[i]).Some? then {Source(kind, conds[i]).value} else {})
  {
    assert conds[..i + 1] == conds[..i] + [conds[i]];
  }

  lemma RelevantGroup(kind: Kind, conds: seq<Condition>, g: string)
    ensures g in Relevant(kind, conds) <==> exists c :: c in InGroup(conds, g) && Source(kind, c).Some?
  {
    InPick(conds, {g});
  }

  lemma RelevantGrouped(kind: Kind, conds: seq<Condition>)
    ensures Relevant(kind, conds) <= Grouped(conds).Keys
  {
  }

  lemma RelevantHasTrigger(kind: Kind, conds: seq<Condition>)
    ensures Relevant(kind, conds) != {} ==> Triggers(kind, conds) != {}
  {
    if Relevant(kind, conds) != {} {
      var c :| c in conds && Source(kind, c).Some?;
      assert Source(kind, c).value in Triggers(kind, conds);
    }
  }

  /** Nothing to cache under this prefix: the set is complete as it is. */
  lemma NothingToSet(kind: Kind, l: Level, c: Call)
    requires c.SetScene? && Triggers(kind, c.conds) == {}
    ensures SetDone(kind, l, c, [], l) && Next(kind, l, c, true, l)
  {
    RelevantHasTrigger(kind, c.conds);
    assert SetDone(kind, l, c, [], l);
  }

  // ---------------------------------------------------------------- outcomes of a set

  lemma SetStopsEarly(kind: Kind, l: Level, c: Call, order: seq<string>, l': Level)
    requires c.SetScene? && Triggers(kind, c.conds) != {}
    requires NoDup(order) && forall g :: g in order ==> g in Relevant(kind, c.conds)
    requires l' == l.(groups := l.groups + GroupEntries(c.conds, order))
    ensures Next(kind, l, c, false, l')
  {
    assert SetStopped(kind, l, c, order, l');
  }

  lemma SetEnds(kind: Kind, l: Level, c: Call, order: seq<string>, l': Level, ok: bool)
    requires c.SetScene? && Lists(order, Relevant(kind, c.conds)) && Triggers(kind, c.conds) != {}
    requires l'.groups == l.groups + GroupEntries(c.conds, order)
    requires l'.actions == l.actions[c.scene := ActionEntry(order, c.acts)]
    requires forall d :: Get(l'.base, d) == Get(l.base, d) ||
               (d in Triggers(kind, c.conds) && Get(l'.base, d) ==
                   Some(Scenes(OldRefs(l.base, d) + [SceneRef(c.scene, order)])))
    ensures SetDone(kind, l, c, order, l')
    ensures Next(kind, l, c, ok, l')
  {
    assert SetDone(kind, l, c, order, l');
    assert SetStopped(kind, l, c, order, l');
  }

  // ---------------------------------------------------------------- outcomes of a fill

  /** The scenes filled so far, of those in `done`. */
  ghost predicate Filling(refs: seq<SceneRef>, done: seq<string>, sceneGroups: map<string, set<string>>) {
    && NoDup(SceneNames(refs))
    && (forall s :: s in SceneNames(refs) <==> s in done && s in sceneGroups)
    && (forall r :: r in refs ==> r.scene in sceneGroups && Lists(r.groups, sceneGroups[r.scene]))
  }

  lemma FillingMore(refs: seq<SceneRef>, done: seq<string>, sceneGroups: map<string, set<string>>, r: SceneRef)
    requires Filling(refs, done, sceneGroups) && r.scene !in done
    requires r.scene in sceneGroups && Lists(r.groups, sceneGroups[r.scene])
    ensures Filling(refs + [r], done + [r.scene], sceneGroups)
  {
    assert SceneNames(refs + [r]) == SceneNames(refs) + [r.scene];
  }

  lemma FillingSkip(refs: seq<SceneRef>, done: seq<string>, sceneGroups: map<string, set<string>>, s: string)
    requires Filling(refs, done, sceneGroups) && s !in sceneGroups
    ensures Filling(refs, done + [s], sceneGroups)
  {
  }

  lemma FillingDone(conds: seq<Condition>, acts: seq<Action>, refs: seq<SceneRef>, order: seq<string>,
        sceneGroups: map<string, set<string>>)
    requires Filling(refs, order, sceneGroups) && Lists(order, ActingScenes(acts))
    requires sceneGroups.Keys == ScenesOf(conds)
    requires forall s :: s in sceneGroups ==> sceneGroups[s] == GroupsOf(OfScene(conds, s))
    ensures FillOrder(conds, acts, refs)
  {
  }

  lemma {:induction false} OfSceneAppend(a: seq<Condition>, b: seq<Condition>, s: string)
    ensures OfScene(a + b, s) == OfScene(a, s) + OfScene(b, s)
  {
    if a == [] {
      assert a + b == b;
    } else {
      var head := if a[0].scene == s then [a[0]] else [];
      OfSceneAppend(a[1..], b, s);
      assert OfScene(a + b, s) == head + OfScene(a[1..] + b, s) by {
        assert (a + b)[0] == a[0] && (a + b)[1..] == a[1..] + b;
      }
      assert OfScene(a, s) == head + OfScene(a[1..], s);
    }
  }

  lemma ScenesMore(conds: seq<Condition>, i: nat)
    requires i < |conds|
    ensures ScenesOf(conds[..i + 1]) == ScenesOf(conds[..i]) + {conds[i].scene}
  {
    assert conds[..i + 1] == conds[..i] + [conds[i]];
  }

  lemma SceneGroupsMore(conds: seq<Condition>, i: nat, s: string)
    requires i < |conds|
    ensures GroupsOf(OfScene(conds[..i + 1], s)) ==
            GroupsOf(OfScene(conds[..i], s)) + (if conds[i].scene == s then {conds[i].group} else {})
    ensures s !in ScenesOf(conds[..i]) ==> GroupsOf(OfScene(conds[..i], s)) == {}
  {
    var c, mine := conds[i], OfScene(conds[..i], s);
    assert conds[..i + 1] == conds[..i] + [c];
    OfSceneAppend(conds[..i], [c], s);
    assert OfScene([c], s) == (if c.scene == s then [c] else []) + OfScene([], s);
    InOfScene(conds[..i], s);
  }

  lemma ActingMore(acts: seq<Action>, i: nat)
    requires i < |acts|
    ensures ActingScenes(acts[..i + 1]) == ActingScenes(acts[..i]) + {acts[i].scene}
  {
    assert acts[..i + 1] == acts[..i] + [acts[i]];
  }

  lemma {:induction false} ActionsAppend(a: seq<Action>, b: seq<Action>, s: string)
    ensures ActionsOf(a + b, s) == ActionsOf(a, s) + ActionsOf(b, s)
  {
    if a == [] {
      assert a + b == b;
    } else {
      var head := if a[0].scene == s then [a[0]] else [];
      ActionsAppend(a[1..], b, s);
      assert ActionsOf(a + b, s) == head + ActionsOf(a[1..] + b, s) by {
        assert (a + b)[0] == a[0] && (a + b)[1..] == a[1..] + b;
      }
      assert ActionsOf(a, s) == head + ActionsOf(a[1..], s);
    }
  }

  lemma {:induction false} NoActions(acts: seq<Action>, s: string)
    requires s !in ActingScenes(acts)
    ensures ActionsOf(acts, s) == []
  {
    if acts != [] {
      assert acts[0] in acts && forall a :: a in acts[1..] ==> a in acts;
      NoActions(acts[1..], s);
    }
  }

  lemma ActionsMore(acts: seq<Action>, i: nat, s: string)
    requires i < |acts|
    ensures ActionsOf(acts[..i + 1], s) == ActionsOf(acts[..i], s) + (if acts[i].scene == s then [acts[i]] else [])
    ensures s !in ActingScenes(acts[..i]) ==> ActionsOf(acts[..i], s) == []
  {
    assert acts[..i + 1] == acts[..i] + [acts[i]];
    ActionsAppend(acts[..i], [acts[i]], s);
    assert ActionsOf([acts[i]], s) == (if acts[i].scene == s then [acts[i]] else []) + ActionsOf([], s);
    if s !in ActingScenes(acts[..i]) {
      NoActions(acts[..i], s);
    }
  }

  /** Each scene with its groups. */
  ghost predicate GroupTable(m: map<string, set<string>>, conds: seq<Condition>) {
    m.Keys == ScenesOf(conds) && forall s :: s in m ==> m[s] == GroupsOf(OfScene(conds, s))
  }

  lemma GroupTableMore(m: map<string, set<string>>, conds: seq<Condition>, i: nat)
    requires i < |conds| && GroupTable(m, conds[..i])
    ensures var c := conds[i];
            GroupTable(m[c.scene := (if c.scene in m then m[c.scene] else {}) + {c.group}], conds[..i + 1])
  {
    var c := conds[i];
    var n := m[c.scene := (if c.scene in m then m[c.scene] else {}) + {c.group}];
    ScenesMore(conds, i);
    forall s | s in n
      ensures n[s] == GroupsOf(OfScene(conds[..i + 1], s))
    {
      SceneGroupsMore(conds, i, s);
    }
  }

  /** Each scene with its actions. */
  ghost predicate ActionTable(m: map<string, seq<Action>>, acts: seq<Action>) {
    m.Keys == ActingScenes(acts) && forall s :: s in m ==> m[s] == ActionsOf(acts, s)
  }

  lemma ActionTableMore(m: map<string, seq<Action>>, acts: seq<Action>, i: nat)
    requires i < |acts| && ActionTable(m, acts[..i])
    ensures var a := acts[i];
            ActionTable(m[a.scene := (if a.scene in m then m[a.scene] else []) + [a]], acts[..i + 1])
  {
    var a := acts[i];
    var n := m[a.scene := (if a.scene in m then m[a.scene] else []) + [a]];
    ActingMore(acts, i);
    forall s | s in n
      ensures n[s] == ActionsOf(acts[..i + 1], s)
    {
      ActionsMore(acts, i, s);
    }
  }

  lemma PlusUpdate<K, V>(m: map<K, V>, n: map<K, V>, k: K, v: V)
    ensures m + n[k := v] == (m + n)[k := v]
  {
  }

  lemma RefsMore(acts: seq<Action>, refs: seq<SceneRef>, r: SceneRef)
    ensures FillActions(acts, refs + [r]) ==
        FillActions(acts, refs)[r.scene := ActionEntry(r.groups, ActionsOf(acts, r.scene))]
    ensures SceneNames(refs + [r]) == SceneNames(refs) + [r.scene]
  {
    assert (refs + [r])[..|refs|] == refs;
  }

  lemma FillStops(kind: Kind, l: Level, c: Call, refs: seq<SceneRef>, l': Level)
    requires c.FillDevice? && l'.base == l.base && l'.groups == l.groups + Grouped(c.conds)
    requires l'.actions == l.actions + FillActions(c.acts, refs)
    requires PartlyFilled(c.conds, c.acts, refs)
    ensures Next(kind, l, c, false, l')
  {
    assert FillStopped(l, c, refs, l');
  }

  lemma FillingPart(conds: seq<Condition>, acts: seq<Action>, refs: seq<SceneRef>, done: seq<string>,
        sceneGroups: map<string, set<string>>)
    requires Filling(refs, done, sceneGroups) && (forall s :: s in done ==> s in ActingScenes(acts))
    requires GroupTable(sceneGroups, conds)
    ensures PartlyFilled(conds, acts, refs)
  {
  }

  lemma FillGroupsStops(kind: Kind, l: Level, c: Call, l': Level)
    requires c.FillDevice? && l'.base == l.base && l'.actions == l.actions
    requires forall g :: Get(l'.groups, g) == Get(l.groups, g) || Get(l'.groups, g) == Get(Grouped(c.conds), g)
    ensures Next(kind, l, c, false, l')
  {
    assert FillStopped(l, c, [], l');
  }
}
