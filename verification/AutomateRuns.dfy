/**
 Runs of one level of the automation cache: sets, fills, deletes, no-task marks, each of
 which may stop at a Redis error, and the expiry of any keys at any time.
 */
module AutomateRuns {
  import opened Prelude
  import opened AutomateStore
  import opened AutomateTheorems

  datatype Call =
    | SetScene(scene: string, conds: seq<Condition>, acts: seq<Action>)
    | FillDevice(device: string, conds: seq<Condition>, acts: seq<Action>)
    | MarkNoTask(device: string)
    | DeleteScene(scene: string)
    | Expire

  /** A successful set; a device whose entry could not be read keeps its entry. */
  ghost predicate SetDone(kind: Kind, l: Level, c: Call, order: seq<string>, l': Level)
    requires c.SetScene?
  {
    var full := AfterSet(kind, l, c.scene, c.conds, c.acts, order);
    && Lists(order, Relevant(kind, c.conds))
    && l'.groups == full.groups
    && l'.actions == full.actions
    && forall d :: Get(l'.base, d) == Get(l.base, d) || Get(l'.base, d) == Get(full.base, d)
  }

  /** But for the skipped ones, every triggering device has the scene in its list. */
  ghost predicate SetOn(kind: Kind, l: Level, c: Call, order: seq<string>, l': Level, skipped: set<string>)
    requires c.SetScene?
  {
    forall d :: d in Triggers(kind, c.conds) && d !in skipped ==>
      Get(l'.base, d) == Some(Scenes(OldRefs(l.base, d) + [SceneRef(c.scene, order)]))
  }

  /** The actions a call stores for a scene, if it gets that far. */
  function Writes(kind: Kind, c: Call, s: string): Option<seq<Action>> {
    match c
    case SetScene(t, conds, acts) => if s == t && Triggers(kind, conds) != {} then Some(acts) else None
    case FillDevice(_, conds, acts) =>
      if s in ActingScenes(acts) * ScenesOf(conds) then Some(ActionsOf(acts, s)) else None
    case _ => None
  }

  /**
   A set that stopped at an error: some of the groups are stored and nothing else, or all of them
   and the actions, and only some devices are left out.
   */
  ghost predicate SetStopped(kind: Kind, l: Level, c: Call, order: seq<string>, l': Level)
    requires c.SetScene?
  {
    && Triggers(kind, c.conds) != {}
    && (|| SetDone(kind, l, c, order, l')
        || (l' == l.(groups := l.groups + GroupEntries(c.conds, order)) &&
            NoDup(order) && forall g :: g in order ==> g in Relevant(kind, c.conds)))
  }

  /** Some of the scenes to fill, each once, each with its groups. */
  ghost predicate PartlyFilled(conds: seq<Condition>, acts: seq<Action>, refs: seq<SceneRef>) {
    && NoDup(SceneNames(refs))
    && (forall s :: s in SceneNames(refs) ==> s in ActingScenes(acts) * ScenesOf(conds))
    && forall r :: r in refs ==> Lists(r.groups, GroupsOf(OfScene(conds, r.scene)))
  }

  /**
   A fill that stopped at an error: some of the groups are stored and nothing else, or all of them
   and some of the scenes. The device's own entry is written last.
   */
  ghost predicate FillStopped(l: Level, c: Call, refs: seq<SceneRef>, l': Level)
    requires c.FillDevice?
  {
    && l'.base == l.base
    && (|| (l'.actions == l.actions &&
            forall g :: Get(l'.groups, g) == Get(l.groups, g) || Get(l'.groups, g) == Get(Grouped(c.conds), g))
        || (l'.groups == l.groups + Grouped(c.conds) && l'.actions == l.actions + FillActions(c.acts, refs) &&
            PartlyFilled(c.conds, c.acts, refs)))
  }

  ghost predicate Next(kind: Kind, l: Level, c: Call, ok: bool, l': Level) {
    match c
    case SetScene(_, _, _) =>
      if ok then exists order :: SetDone(kind, l, c, order, l') else exists order :: SetStopped(kind, l, c, order, l')
    case FillDevice(d, conds, acts) =>
      if ok then exists refs :: FillOrder(conds, acts, refs) && l' == AfterFill(l, d, conds, acts, refs)
      else exists refs :: FillStopped(l, c, refs, l')
    case MarkNoTask(d) => l' == if ok then l.(base := l.base[d := NoTask]) else l
    case DeleteScene(s) => if ok then Deleted(kind, l, s, l') else DeleteStopped(kind, l, s, l')
    case Expire =>
      && (forall d :: d in l'.base ==> Get(l'.base, d) == Get(l.base, d))
      && (forall g :: g in l'.groups ==> Get(l'.groups, g) == Get(l.groups, g))
      && (forall s :: s in l'.actions ==> Get(l'.actions, s) == Get(l.actions, s))
  }

  datatype Event = Event(call: Call, ok: bool, post: Level)

  function Final(events: seq<Event>): Level {
    if events == [] then EMPTY else events[|events| - 1].post
  }

  ghost predicate Run(kind: Kind, events: seq<Event>) {
    events != [] ==>
      var before, e := events[..|events| - 1], events[|events| - 1];
      Run(kind, before) && Next(kind, Final(before), e.call, e.ok, e.post)
  }

  /**
   `acts` is what the last write for the scene stored: no successful delete of it, and no
   successful write of other actions, came after. A failed write may or may not count.
   */
  ghost predicate LastWritten(kind: Kind, events: seq<Event>, s: string, acts: seq<Action>) {
    events != [] &&
      var before, e := events[..|events| - 1], events[|events| - 1];
      var w := Writes(kind, e.call, s);
      || w == Some(acts)
      || (!(e.ok && (w.Some? || e.call == DeleteScene(s))) && LastWritten(kind, before, s, acts))
  }

  lemma {:induction false} FillActionsHold(acts: seq<Action>, refs: seq<SceneRef>, s: string)
    ensures s in FillActions(acts, refs) <==> s in SceneNames(refs)
    ensures s in FillActions(acts, refs) ==> FillActions(acts, refs)[s].actions == ActionsOf(acts, s)
  {
    if refs != [] {
      var n := |refs| - 1;
      FillActionsHold(acts, refs[..n], s);
      assert SceneNames(refs) == SceneNames(refs[..n]) + [refs[n].scene];
    }
  }

  /** One call's effect on one scene's action entry. */
  lemma NextActions(kind: Kind, l: Level, c: Call, ok: bool, l': Level, s: string)
    requires Next(kind, l, c, ok, l') && s in l'.actions
    ensures Writes(kind, c, s) == Some(l'.actions[s].actions) ||
            (!(ok && (Writes(kind, c, s).Some? || c == DeleteScene(s))) &&
             s in l.actions && l'.actions[s] == l.actions[s])
  {
    match c
    case SetScene(t, conds, acts) =>
      if ok {
        var order :| SetDone(kind, l, c, order, l');
      } else {
        var order :| SetStopped(kind, l, c, order, l');
      }
    case FillDevice(d, conds, acts) =>
      if ok {
        var refs :| FillOrder(conds, acts, refs) && l' == AfterFill(l, d, conds, acts, refs);
        FillActionsHold(acts, refs, s);
      } else {
        var refs :| FillStopped(l, c, refs, l');
        FillActionsHold(acts, refs, s);
      }
    case MarkNoTask(d) =>
    case DeleteScene(t) =>
    case Expire =>
      assert Get(l'.actions, s) == Get(l.actions, s);
  }

  /** In every run, whatever expires and fails, a live action entry holds the last actions written. */
  lemma {:induction false} RunLastWritten(kind: Kind, events: seq<Event>, s: string)
    requires Run(kind, events) && s in Final(events).actions
    ensures LastWritten(kind, events, s, Final(events).actions[s].actions)
  {
    if events != [] {
      var before, e := events[..|events| - 1], events[|events| - 1];
      NextActions(kind, Final(before), e.call, e.ok, e.post, s);
      if Writes(kind, e.call, s) != Some(e.post.actions[s].actions) {
        RunLastWritten(kind, before, s);
      }
    }
  }

  /** In every run, each scene a read returns comes with the last actions written for it. */
  lemma ReadsAreCurrent(kind: Kind, events: seq<Event>, d: string, i: nat)
    requires Run(kind, events)
    requires var a := Read(Final(events), d); a.Found? && i < |a.scenes|
    ensures var info := Read(Final(events), d).scenes[i];
            info.scene in Final(events).actions && LastWritten(kind, events, info.scene, info.actions)
  {
    var l := Final(events);
    ReadIsLive(l, l.base[d].refs);
    RunLastWritten(kind, events, Read(l, d).scenes[i].scene);
  }

  lemma {:induction false} NotWrittenSince(kind: Kind, events: seq<Event>, cut: nat, s: string)
    requires 0 < cut <= |events|
    requires events[cut - 1].ok && events[cut - 1].call == DeleteScene(s)
    requires forall i :: cut <= i < |events| ==> Writes(kind, events[i].call, s) == None
    ensures forall acts :: !LastWritten(kind, events, s, acts)
  {
    if cut < |events| {
      NotWrittenSince(kind, events[..|events| - 1], cut, s);
    }
  }

  lemma DeletedStaysGone(kind: Kind, events: seq<Event>, cut: nat, s: string)
    requires Run(kind, events) && 0 < cut <= |events|
    requires events[cut - 1].ok && events[cut - 1].call == DeleteScene(s)
    requires forall i :: cut <= i < |events| ==> Writes(kind, events[i].call, s) == None
    ensures s !in Final(events).actions
  {
    NotWrittenSince(kind, events, cut, s);
    if s in Final(events).actions {
      RunLastWritten(kind, events, s);
      assert false;
    }
  }

  /** Once a delete of the scene has succeeded, no read returns it until some call sets it again. */
  lemma DeletedStaysUnread(kind: Kind, events: seq<Event>, cut: nat, s: string, d: string)
    requires Run(kind, events) && 0 < cut <= |events|
    requires events[cut - 1].ok && events[cut - 1].call == DeleteScene(s)
    requires forall i :: cut <= i < |events| ==> Writes(kind, events[i].call, s) == None
    ensures !Returns(Read(Final(events), d), s)
  {
    DeletedStaysGone(kind, events, cut, s);
    if Read(Final(events), d).Found? {
      ReadIsLive(Final(events), Final(events).base[d].refs);
    }
  }

  // ---------------------------------------------------------------- a scene that comes back

  lemma RunThen(kind: Kind, events: seq<Event>, e: Event)
    requires Run(kind, events) && Next(kind, Final(events), e.call, e.ok, e.post)
    ensures Run(kind, events + [e]) && Final(events + [e]) == e.post
  {
    assert (events + [e])[..|events|] == events;
  }

  lemma FourSteps(kind: Kind, e0: Event, e1: Event, e2: Event, e3: Event)
    requires Next(kind, EMPTY, e0.call, e0.ok, e0.post) && Next(kind, e0.post, e1.call, e1.ok, e1.post)
    requires Next(kind, e1.post, e2.call, e2.ok, e2.post) && Next(kind, e2.post, e3.call, e3.ok, e3.post)
    ensures Run(kind, [e0, e1, e2, e3])
  {
    RunThen(kind, [], e0);
    RunThen(kind, [] + [e0], e1);
    RunThen(kind, [] + [e0] + [e1], e2);
    RunThen(kind, [] + [e0] + [e1] + [e2], e3);
    assert [e0, e1, e2, e3] == [] + [e0] + [e1] + [e2] + [e3];
  }

  const ON_D1 := Condition("c1", "s", "g1", OneDevice("d1"))
  const ON_D2 := Condition("c2", "s", "g2", OneDevice("d2"))

  /** A scene with one condition in a group of its own, set on the device of that condition. */
  lemma SetOne(l: Level, c: Condition, acts: seq<Action>, d: string)
    requires c.trigger == OneDevice(d)
    ensures AfterSet(One, l, c.scene, [c], acts, [c.group]) ==
            Level(l.base[d := Scenes(OldRefs(l.base, d) + [SceneRef(c.scene, [c.group])])], l.groups[c.group := [c]],
                  l.actions[c.scene := ActionEntry([c.group], acts)])
    ensures Next(One, l, SetScene(c.scene, [c], acts), true, AfterSet(One, l, c.scene, [c], acts, [c.group]))
  {
    var conds := [c];
    assert c in conds;
    assert Triggers(One, conds) == {d};
    assert Relevant(One, conds) == {c.group};
    assert conds[1..] == [];
    assert InGroup(conds, c.group) == [c] + Pick(conds[1..], {c.group});
    assert InGroup(conds, c.group) == [c];
    var entries := GroupEntries(conds, [c.group]);
    assert entries.Keys == {c.group} && entries[c.group] == [c];
    assert entries == map[c.group := [c]];
    var after := AfterSet(One, l, c.scene, conds, acts, [c.group]);
    assert after.base == l.base[d := Scenes(OldRefs(l.base, d) + [SceneRef(c.scene, [c.group])])];
    assert after.groups == l.groups[c.group := [c]];
    assert Lists([c.group], Relevant(One, conds));
    assert SetDone(One, l, SetScene(c.scene, conds, acts), [c.group],
        AfterSet(One, l, c.scene, conds, acts, [c.group]));
  }

  const R1 := SceneRef("s", ["g1"])
  const R2 := SceneRef("s", ["g2"])

  /** The scene on the first device; what is left of it; and the scene on the second device. */
  function First(acts: seq<Action>): Level {
    Level(map["d1" := Scenes([R1])], map["g1" := [ON_D1]], map["s" := ActionEntry(["g1"], acts)])
  }

  const LEFT := Level(map["d1" := Scenes([R1])], map[], map[])

  function Second(acts: seq<Action>): Level {
    Level(map["d1" := Scenes([R1]), "d2" := Scenes([R2])], map["g2" := [ON_D2]], map["s" := ActionEntry(["g2"], acts)])
  }

  lemma ComesBackSteps(acts: seq<Action>)
    ensures Next(One, EMPTY, SetScene("s", [ON_D1], acts), true, First(acts))
    ensures Next(One, First(acts), Expire, true, LEFT)
    ensures Next(One, LEFT, DeleteScene("s"), true, LEFT)
    ensures Next(One, LEFT, SetScene("s", [ON_D2], acts), true, Second(acts))
  {
    SetOne(EMPTY, ON_D1, acts, "d1");
    SetOne(LEFT, ON_D2, acts, "d2");
    assert OldRefs(EMPTY.base, "d1") + [R1] == [R1] && OldRefs(LEFT.base, "d2") + [R2] == [R2];
  }

  lemma ComesBackReads(acts: seq<Action>)
    ensures Read(LEFT, "d1") == Found([])
    ensures Read(Second(acts), "d1") == Found([SceneInfo("s", [], acts)])
  {
    var l := Second(acts);
    assert ReadRefs(LEFT, [R1]) == ReadRef(LEFT, R1) + ReadRefs(LEFT, []);
    assert ReadRefs(l, [R1]) == ReadRef(l, R1) + ReadRefs(l, []);
    assert Flat(l.groups, ["g1"]) == Held(l.groups, "g1") + Flat(l.groups, []);
  }

  /**
   A scene is set on one device, its action and group entries expire, it is deleted, with
   success, and set again on another device only.
   */
  function ComesBack(acts: seq<Action>): seq<Event> {
    [Event(SetScene("s", [ON_D1], acts), true, First(acts)), Event(Expire, true, LEFT),
     Event(DeleteScene("s"), true, LEFT), Event(SetScene("s", [ON_D2], acts), true, Second(acts))]
  }

  lemma ComesBackRun(acts: seq<Action>)
    ensures Run(One, ComesBack(acts))
  {
    ComesBackSteps(acts);
    FourSteps(One, Event(SetScene("s", [ON_D1], acts), true, First(acts)), Event(Expire, true, LEFT),
        Event(DeleteScene("s"), true, LEFT), Event(SetScene("s", [ON_D2], acts), true, Second(acts)));
  }

  /**
   The first device then reads the scene again, without conditions: the delete found no
   action entry and so left the old list alone, and the second set revived its entry.
   */
  lemma DeletedSceneComesBack(acts: seq<Action>)
    ensures Run(One, ComesBack(acts))
    ensures Read(Final(ComesBack(acts)[..3]), "d1") == Found([])
    ensures Read(Final(ComesBack(acts)), "d1") == Found([SceneInfo("s", [], acts)])
  {
    ComesBackRun(acts);
    ComesBackReads(acts);
  }
}
