/**
 What the calls on the automation cache leave, in the terms of the caller: conditions with
 their triggers, and the entries of the three tables.
 */
module AutomateEffects {
  import opened Prelude
  import opened AutomateStore
  import opened AutomateTheorems
  import opened AutomateSteps
  import Runs = AutomateRuns

  // ---------------------------------------------------------------- selections of the input

  /** The actions of a scene: exactly the input's actions for it, in input order. */
  lemma {:induction false} ActionsExact(acts: seq<Action>, s: string) returns (at: seq<nat>)
    ensures Selects(acts, at, ActionsOf(acts, s))
    ensures forall i :: 0 <= i < |acts| ==> (i in at <==> acts[i].scene == s)
  {
    if acts == [] {
      at := [];
    } else {
      var rest := ActionsExact(acts[1..], s);
      var head := acts[0].scene == s;
      SelectsMore(acts, rest, ActionsOf(acts[1..], s), head);
      at := WithHead(rest, head);
      forall i | 0 <= i < |acts|
        ensures i in at <==> acts[i].scene == s
      {
        InWithHead(rest, head, i);
        assert i > 0 ==> acts[1..][i - 1] == acts[i];
      }
    }
  }

  /** The conditions of a group: exactly the input's conditions of it, in input order. */
  lemma {:induction false} GroupExact(conds: seq<Condition>, g: string) returns (at: seq<nat>)
    ensures Selects(conds, at, InGroup(conds, g))
    ensures forall i :: 0 <= i < |conds| ==> (i in at <==> conds[i].group == g)
  {
    if conds == [] {
      at := [];
    } else {
      var rest := GroupExact(conds[1..], g);
      var head := conds[0].group == g;
      SelectsMore(conds, rest, InGroup(conds[1..], g), head);
      at := WithHead(rest, head);
      forall i | 0 <= i < |conds|
        ensures i in at <==> conds[i].group == g
      {
        InWithHead(rest, head, i);
        assert i > 0 ==> conds[1..][i - 1] == conds[i];
      }
    }
  }

  lemma {:induction false} PickCounts(conds: seq<Condition>, gs: set<string>, c: Condition)
    ensures multiset(Pick(conds, gs))[c] == if c.group in gs then multiset(conds)[c] else 0
  {
    if conds != [] {
      PickCounts(conds[1..], gs, c);
      assert conds == [conds[0]] + conds[1..];
    }
  }

  /** The list holds exactly the actions of the scene, in input order. */
  ghost predicate ActionsFor(acts: seq<Action>, s: string, r: seq<Action>) {
    exists at :: Selects(acts, at, r) && forall i :: 0 <= i < |acts| ==> (i in at <==> acts[i].scene == s)
  }

  /** The list holds exactly the conditions of the group, in input order. */
  ghost predicate ConditionsFor(conds: seq<Condition>, g: string, r: seq<Condition>) {
    exists at :: Selects(conds, at, r) && forall i :: 0 <= i < |conds| ==> (i in at <==> conds[i].group == g)
  }

  lemma ActionsAreFor(acts: seq<Action>, s: string)
    ensures ActionsFor(acts, s, ActionsOf(acts, s))
  {
    var at := ActionsExact(acts, s);
  }

  lemma ConditionsAreFor(conds: seq<Condition>, g: string)
    ensures ConditionsFor(conds, g, InGroup(conds, g))
  {
    var at := GroupExact(conds, g);
  }

  // ---------------------------------------------------------------- read

  /** The answer's scene is this listed one, with its groups' conditions and the actions stored for it. */
  ghost predicate Shows(l: Level, r: SceneRef, info: SceneInfo) {
    r.scene in l.actions && info == SceneInfo(r.scene, Flat(l.groups, r.groups), l.actions[r.scene].actions)
  }

  ghost predicate ShowsAll(l: Level, live: seq<SceneRef>, infos: seq<SceneInfo>) {
    |infos| == |live| && forall i :: 0 <= i < |live| ==> Shows(l, live[i], infos[i])
  }

  /** The listed scenes with a live action entry, in list order. */
  lemma {:induction false} LiveScenes(l: Level, refs: seq<SceneRef>) returns (at: seq<nat>, live: seq<SceneRef>)
    ensures Selects(refs, at, live)
    ensures forall i :: 0 <= i < |refs| ==> (i in at <==> refs[i].scene in l.actions)
    ensures ShowsAll(l, live, ReadRefs(l, refs))
  {
    if refs == [] {
      at, live := [], [];
    } else {
      var rest, tail := LiveScenes(l, refs[1..]);
      var head := refs[0].scene in l.actions;
      SelectsMore(refs, rest, tail, head);
      at, live := WithHead(rest, head), if head then [refs[0]] + tail else tail;
      forall i | 0 <= i < |refs|
        ensures i in at <==> refs[i].scene in l.actions
      {
        InWithHead(rest, head, i);
        assert i > 0 ==> refs[1..][i - 1] == refs[i];
      }
      ShowsMore(l, refs, tail);
    }
  }

  lemma ShowsMore(l: Level, refs: seq<SceneRef>, tail: seq<SceneRef>)
    requires refs != [] && ShowsAll(l, tail, ReadRefs(l, refs[1..]))
    ensures ShowsAll(l, if refs[0].scene in l.actions then [refs[0]] + tail else tail, ReadRefs(l, refs))
  {
  }

  /** A device without an entry is not found, a marked one has no task, any other answers its live scenes in order. */
  lemma AnswerExact(l: Level, d: string) returns (at: seq<nat>, live: seq<SceneRef>)
    ensures Read(l, d).NotFound? <==> d !in l.base
    ensures Read(l, d).NotTask? <==> d in l.base && l.base[d] == NoTask
    ensures Read(l, d).Found? <==> d in l.base && l.base[d].Scenes?
    ensures Read(l, d).Found? ==>
              && Selects(l.base[d].refs, at, live)
              && (forall i :: 0 <= i < |l.base[d].refs| ==> (i in at <==> l.base[d].refs[i].scene in l.actions))
              && ShowsAll(l, live, Read(l, d).scenes)
  {
    at, live := LiveScenes(l, if d in l.base && l.base[d].Scenes? then l.base[d].refs else []);
  }

  // ---------------------------------------------------------------- set

  lemma TriggersExact(kind: Kind, conds: seq<Condition>, d: string)
    ensures d in Triggers(kind, conds) <==>
              exists c :: c in conds && c.trigger == if kind.One? then OneDevice(d) else DeviceConfig(d)
  {
  }

  lemma RelevantExact(kind: Kind, conds: seq<Condition>)
    ensures forall g :: g in Relevant(kind, conds) <==>
              exists c :: c in conds && c.group == g &&
                          (if kind.One? then c.trigger.OneDevice? else c.trigger.DeviceConfig?)
  {
  }

  /** The entries after a set that is triggered from the sources `ds` through the groups `order`. */
  ghost predicate SetIn(l: Level, l': Level, s: string, conds: seq<Condition>, acts: seq<Action>, order: seq<string>,
        ds: set<string>) {
    && (forall d :: Get(l'.base, d) ==
                    if d !in ds then Get(l.base, d)
                    else if d in l.base && l.base[d].Scenes? then Some(Scenes(l.base[d].refs + [SceneRef(s, order)]))
                    else Some(Scenes([SceneRef(s, order)])))
    && (forall g :: g !in order ==> Get(l'.groups, g) == Get(l.groups, g))
    && (forall g :: g in order ==> g in l'.groups && ConditionsFor(conds, g, l'.groups[g]))
    && (forall t :: Get(l'.actions, t) ==
                    if t == s && ds != {} then Some(ActionEntry(order, acts)) else Get(l.actions, t))
  }

  lemma SetEntries(kind: Kind, l: Level, s: string, conds: seq<Condition>, acts: seq<Action>, order: seq<string>)
    requires Lists(order, Relevant(kind, conds))
    ensures SetIn(l, AfterSet(kind, l, s, conds, acts, order), s, conds, acts, order, Triggers(kind, conds))
  {
    var l' := AfterSet(kind, l, s, conds, acts, order);
    RelevantHasTrigger(kind, conds);
    forall d
      ensures Get(l'.base, d) ==
              if d !in Triggers(kind, conds) then Get(l.base, d)
              else if d in l.base && l.base[d].Scenes? then Some(Scenes(l.base[d].refs + [SceneRef(s, order)]))
              else Some(Scenes([SceneRef(s, order)]))
    {
      assert [] + [SceneRef(s, order)] == [SceneRef(s, order)];
    }
    forall g | g in order
      ensures g in l'.groups && ConditionsFor(conds, g, l'.groups[g])
    {
      assert g in Relevant(kind, conds);
      ConditionsAreFor(conds, g);
    }
  }

  /**
   A set without faults, under one prefix: each device (or configuration) that some condition
   is triggered by gets the scene appended to its list; the groups stored are exactly those
   with a condition of this kind of trigger, each with all its conditions; if no condition has
   it, nothing changes.
   */
  lemma SetLeaves(kind: Kind, l: Level, s: string, conds: seq<Condition>, acts: seq<Action>, order: seq<string>)
    requires Lists(order, Relevant(kind, conds))
    ensures NoDup(order)
    ensures forall g :: g in order <==>
              exists c :: c in conds && c.group == g &&
                          (if kind.One? then c.trigger.OneDevice? else c.trigger.DeviceConfig?)
    ensures exists ds: set<string> ::
              && SetIn(l, AfterSet(kind, l, s, conds, acts, order), s, conds, acts, order, ds)
              && forall d :: d in ds <==>
                   exists c :: c in conds && c.trigger == if kind.One? then OneDevice(d) else DeviceConfig(d)
    ensures (forall c :: c in conds ==> !(if kind.One? then c.trigger.OneDevice? else c.trigger.DeviceConfig?)) ==>
              AfterSet(kind, l, s, conds, acts, order) == l
  {
    SetEntries(kind, l, s, conds, acts, order);
    RelevantExact(kind, conds);
    forall d
      ensures d in Triggers(kind, conds) <==>
                exists c :: c in conds && c.trigger == if kind.One? then OneDevice(d) else DeviceConfig(d)
    {
      TriggersExact(kind, conds, d);
    }
    if d :| d in Triggers(kind, conds) {
      TriggersExact(kind, conds, d);
    }
  }

  /**
   Reading it back: a triggering device answers its earlier scenes and then this one, with the
   actions given and exactly the conditions of the groups that hold a condition of its kind.
   */
  lemma SetAnswers(kind: Kind, l: Level, s: string, conds: seq<Condition>, acts: seq<Action>, order: seq<string>,
        d: string) returns (info: SceneInfo)
    requires Lists(order, Relevant(kind, conds)) && Fresh(l, order) && Settled(l, OldRefs(l.base, d), s, acts)
    requires exists c :: c in conds && c.trigger == if kind.One? then OneDevice(d) else DeviceConfig(d)
    ensures info.scene == s && info.actions == acts
    ensures forall c :: multiset(info.conditions)[c] ==
              if exists e :: e in conds && e.group == c.group &&
                             (if kind.One? then e.trigger.OneDevice? else e.trigger.DeviceConfig?)
              then multiset(conds)[c] else 0
    ensures var before := Read(l, d);
            Read(AfterSet(kind, l, s, conds, acts, order), d) ==
                Found((if before.Found? then before.scenes else []) + [info])
  {
    var l' := AfterSet(kind, l, s, conds, acts, order);
    info := SceneInfo(s, Flat(l'.groups, order), acts);
    TriggersExact(kind, conds, d);
    SetThenRead(kind, l, s, conds, acts, order, d);
    SetCounts(kind, l, s, conds, acts, order);
  }

  lemma SetCounts(kind: Kind, l: Level, s: string, conds: seq<Condition>, acts: seq<Action>, order: seq<string>)
    requires Lists(order, Relevant(kind, conds)) && Triggers(kind, conds) != {}
    ensures forall c :: multiset(Flat(AfterSet(kind, l, s, conds, acts, order).groups, order))[c] ==
              if exists e :: e in conds && e.group == c.group &&
                             (if kind.One? then e.trigger.OneDevice? else e.trigger.DeviceConfig?)
              then multiset(conds)[c] else 0
  {
    SetConditions(kind, l, s, conds, acts, order);
    RelevantExact(kind, conds);
    forall c {
      PickCounts(conds, Relevant(kind, conds), c);
    }
  }

  // ---------------------------------------------------------------- delete

  /** Some cached condition of the scene's groups is triggered by the device (or configuration). */
  ghost predicate Triggered(kind: Kind, l: Level, s: string, d: string) {
    s in l.actions && exists g, c ::
      && g in l.actions[s].groups && g in l.groups && c in l.groups[g]
      && c.trigger == if kind.One? then OneDevice(d) else DeviceConfig(d)
  }

  lemma {:induction false} InFlat(m: map<string, seq<Condition>>, gs: seq<string>)
    ensures forall c :: c in Flat(m, gs) <==> exists g :: g in gs && g in m && c in m[g]
  {
    if gs != [] {
      InFlat(m, gs[1..]);
      assert forall g :: g in gs <==> g == gs[0] || g in gs[1..];
    }
  }

  lemma SourcesExact(kind: Kind, l: Level, s: string, d: string)
    requires s in l.actions
    ensures d in Sources(kind, l.groups, l.actions[s].groups) <==> Triggered(kind, l, s, d)
  {
    var gs := l.actions[s].groups;
    InFlat(l.groups, gs);
    if d in Sources(kind, l.groups, gs) {
      var c :| c in Flat(l.groups, gs) && Source(kind, c) == Some(d);
      var g :| g in gs && g in l.groups && c in l.groups[g];
      assert c.trigger == if kind.One? then OneDevice(d) else DeviceConfig(d);
    }
    if Triggered(kind, l, s, d) {
      var g, c :| g in gs && g in l.groups && c in l.groups[g] &&
                  c.trigger == if kind.One? then OneDevice(d) else DeviceConfig(d);
      assert c in Flat(l.groups, gs) && Source(kind, c) == Some(d);
    }
  }

  lemma {:induction false} RemovesOne(refs: seq<SceneRef>, s: string)
    ensures |RemoveFirst(refs, s)| == |refs| - if exists i :: 0 <= i < |refs| && refs[i].scene == s then 1 else 0
  {
    if refs != [] {
      RemovesOne(refs[1..], s);
      assert forall i :: 0 < i < |refs| ==> refs[1..][i - 1] == refs[i];
      assert (exists i :: 0 <= i < |refs| && refs[i].scene == s) <==>
          refs[0].scene == s || exists i :: 0 <= i < |refs[1..]| && refs[1..][i].scene == s by {
        if i :| 0 <= i < |refs| && refs[i].scene == s && refs[0].scene != s {
          assert refs[1..][i - 1].scene == s;
        }
      }
    }
  }

  /**
   A delete without faults. A scene without an action entry is left alone. Otherwise its
   action entry and its groups go; of the lists of the devices its cached conditions are
   triggered by, those holding nothing but this scene are stored empty and the others dropped;
   every other entry stays.
   */
  lemma DeleteLeaves(kind: Kind, l: Level, s: string)
    ensures var l' := AfterDelete(kind, l, s);
            && (s !in l.actions ==> l' == l)
            && (forall t :: Get(l'.actions, t) == if t == s then None else Get(l.actions, t))
            && (forall g :: Get(l'.groups, g) ==
                            if s in l.actions && g in l.actions[s].groups then None else Get(l.groups, g))
            && forall d :: Get(l'.base, d) ==
                           if !Triggered(kind, l, s, d) || d !in l.base || l.base[d].NoTask? then Get(l.base, d)
                           else if l.base[d].refs == [] || (|l.base[d].refs| == 1 && l.base[d].refs[0].scene == s)
                           then Some(Scenes([]))
                           else None
  {
    forall d
      ensures s in l.actions ==>
                (d in Sources(kind, l.groups, l.actions[s].groups) <==> Triggered(kind, l, s, d))
      ensures d in l.base && l.base[d].Scenes? ==>
                (RemoveFirst(l.base[d].refs, s) == [] <==>
                 l.base[d].refs == [] || (|l.base[d].refs| == 1 && l.base[d].refs[0].scene == s))
    {
      if s in l.actions {
        SourcesExact(kind, l, s, d);
      }
      if d in l.base && l.base[d].Scenes? {
        RemovesOne(l.base[d].refs, s);
      }
    }
  }

  // ---------------------------------------------------------------- fill

  lemma GroupedAll(conds: seq<Condition>, g: string)
    ensures if exists c :: c in conds && c.group == g
            then g in Grouped(conds) && ConditionsFor(conds, g, Grouped(conds)[g])
            else g !in Grouped(conds)
  {
    ConditionsAreFor(conds, g);
  }

  lemma FilledGroups(l: Level, d: string, conds: seq<Condition>, acts: seq<Action>, refs: seq<SceneRef>, g: string)
    ensures var l' := AfterFill(l, d, conds, acts, refs);
            if exists c :: c in conds && c.group == g then g in l'.groups && ConditionsFor(conds, g, l'.groups[g])
            else Get(l'.groups, g) == Get(l.groups, g)
  {
    GroupedAll(conds, g);
    assert AfterFill(l, d, conds, acts, refs).groups == l.groups + Grouped(conds);
  }

  lemma FilledActions(l: Level, d: string, conds: seq<Condition>, acts: seq<Action>, refs: seq<SceneRef>, s: string)
    requires FillOrder(conds, acts, refs)
    ensures var l' := AfterFill(l, d, conds, acts, refs);
            if (exists c :: c in conds && c.scene == s) && (exists a :: a in acts && a.scene == s)
            then s in l'.actions && ActionsFor(acts, s, l'.actions[s].actions)
            else Get(l'.actions, s) == Get(l.actions, s)
  {
    assert s in ScenesOf(conds) <==> exists c :: c in conds && c.scene == s;
    assert s in ActingScenes(acts) <==> exists a :: a in acts && a.scene == s;
    Runs.FillActionsHold(acts, refs, s);
    ActionsAreFor(acts, s);
  }

  /** The filled list: the scenes with a condition and an action once each, and the groups of each scene once each. */
  lemma FilledList(conds: seq<Condition>, acts: seq<Action>, refs: seq<SceneRef>)
    requires FillOrder(conds, acts, refs)
    ensures NoDup(SceneNames(refs))
    ensures forall s :: s in SceneNames(refs) <==>
              (exists c :: c in conds && c.scene == s) && (exists a :: a in acts && a.scene == s)
    ensures forall r :: r in refs ==>
              && NoDup(r.groups)
              && forall g :: g in r.groups <==> exists c :: c in conds && c.scene == r.scene && c.group == g
  {
    forall r | r in refs
      ensures forall g :: g in r.groups <==> exists c :: c in conds && c.scene == r.scene && c.group == g
    {
      InOfScene(conds, r.scene);
    }
  }

  /**
   A fill writes the device's own list, the groups its conditions name, each whole, and the
   scenes with both an action and a condition, each with its actions; every other device's
   list, group and action entry stays.
   */
  lemma FillLeaves(l: Level, d: string, conds: seq<Condition>, acts: seq<Action>, refs: seq<SceneRef>)
    requires FillOrder(conds, acts, refs)
    ensures var l' := AfterFill(l, d, conds, acts, refs);
            && (forall e :: Get(l'.base, e) == if e == d then Some(Scenes(refs)) else Get(l.base, e))
            && (forall g :: if exists c :: c in conds && c.group == g
                            then g in l'.groups && ConditionsFor(conds, g, l'.groups[g])
                            else Get(l'.groups, g) == Get(l.groups, g))
            && forall s :: if (exists c :: c in conds && c.scene == s) && (exists a :: a in acts && a.scene == s)
                           then s in l'.actions && ActionsFor(acts, s, l'.actions[s].actions)
                           else Get(l'.actions, s) == Get(l.actions, s)
  {
    forall g {
      FilledGroups(l, d, conds, acts, refs, g);
    }
    forall s {
      FilledActions(l, d, conds, acts, refs, s);
    }
  }
}
