/**
 The automation cache object. `device` is the switch the public calls flip before each
 half of their work; it selects the key prefix, hence the level, a Redis command acts on.
 `faults` holds the fate of the Redis commands to come (true: it returns an error).
 Calls are taken one at a time.
 */
module AutomateCache {
  import opened Prelude
  import opened AutomateStore
  import opened AutomateTheorems
  import opened AutomateRuns
  import opened AutomateSteps
  import Object = AutomateObject
  import IndexList

  /** How many of the commands fail. */
  function Errors(faults: seq<bool>): nat {
    if faults == [] then 0 else (if faults[0] then 1 else 0) + Errors(faults[1..])
  }

  class AutomateCache {
    var device: Kind
    var one: Level
    var multiple: Level
    var faults: seq<bool>

    function At(kind: Kind): Level
      reads this
    {
      if kind.One? then one else multiple
    }

    ghost function View(): Object.Both
      reads this
    {
      Object.Both(one, multiple)
    }

    ghost predicate Quiet()
      reads this
    {
      true !in faults
    }

    /** The prefix that is not selected. */
    function Other(): Level
      reads this
    {
      if device.One? then multiple else one
    }

    constructor ()
      ensures device == One && View() == Object.NOTHING && Quiet()
    {
      device, one, multiple, faults := One, EMPTY, EMPTY, [];
    }

    method Fails() returns (failed: bool)
      modifies `faults
      ensures old(Quiet()) ==> !failed && Quiet()
      ensures Errors(old(faults)) == Errors(faults) + if failed then 1 else 0
    {
      failed := faults != [] && faults[0];
      if faults != [] {
        faults := faults[1..];
      }
    }

    /** One writing Redis command on the selected prefix: it takes effect or fails. */
    method Write(l: Level) returns (ok: bool)
      modifies this
      ensures device == old(device) && Other() == old(Other())
      ensures At(device) == if ok then l else old(At(device))
      ensures old(Quiet()) ==> ok && Quiet()
      ensures Errors(old(faults)) == Errors(faults) + if ok then 0 else 1
    {
      var failed := Fails();
      if !failed {
        if device.One? {
          one := l;
        } else {
          multiple := l;
        }
      }
      return !failed;
    }

    // -------------------------------------------------------------- reading

    /**
     The conditions of a listed scene's groups; a group that cannot be read is passed over,
     alone. `read` are the groups read, at the places `at`.
     */
    method ReadGroups(gs: seq<string>) returns (conditions: seq<Condition>, ghost at: seq<nat>, ghost read: seq<string>)
      modifies `faults
      ensures GroupsRead(At(device).groups, gs, conditions, at, read)
      ensures |gs| - |read| + Errors(faults) <= Errors(old(faults))
      ensures old(Quiet()) ==> Quiet() && |read| == |gs|
    {
      var l := At(device);
      conditions, at, read := [], [], [];
      for j := 0 to |gs|
        invariant GroupsRead(l.groups, gs[..j], conditions, at, read)
        invariant j - |read| + Errors(faults) <= Errors(old(faults))
        invariant old(Quiet()) ==> Quiet() && |read| == j
      {
        var failed := Fails();
        ghost var before := conditions;
        if !failed && gs[j] in l.groups {
          conditions := conditions + l.groups[gs[j]];
        }
        at, read := GroupsReadMore(l.groups, gs, j, before, at, read, !failed, conditions);
      }
      assert gs[..|gs|] == gs;
    }

    /** One listed scene: nothing if it has no action entry, or none that can be read. */
    method ReadScene(r: SceneRef) returns (infos: seq<SceneInfo>, ghost missed: bool)
      modifies `faults
      ensures forall refs, j :: r in refs && 0 <= j < |infos| ==> PartOfRefs(At(device), refs, infos[j])
      ensures !missed ==> infos == ReadRef(At(device), r)
      ensures (if missed then 1 else 0) + Errors(faults) <= Errors(old(faults))
      ensures old(Quiet()) ==> Quiet() && !missed
    {
      var l := At(device);
      var conditions;
      ghost var at, read;
      conditions, at, read := ReadGroups(r.groups);
      var failed := Fails();
      missed := |read| < |r.groups| || failed;
      assert WholeGroups(l, r.groups, conditions);
      infos := [];
      if !failed && r.scene in l.actions {
        infos := [SceneInfo(r.scene, conditions, l.actions[r.scene].actions)];
      }
    }

    /**
     A group or action entry that cannot be read is passed over, and with it at most the scene it
     belongs to: every live scene of the list whose entries were read is answered in full.
     `missed` holds the places in the list where something was not read.
     */
    method GetCacheByDId(d: string) returns (a: Answer, ok: bool, ghost missed: set<nat>)
      modifies `faults
      ensures ok && missed == {} ==> a == Read(At(device), d)
      ensures ok ==> PartOf(At(device), d, a)
      ensures ok && a.Found? ==> AnsweredBut(At(device), OldRefs(At(device).base, d), a.scenes, missed)
      ensures |missed| + Errors(faults) <= Errors(old(faults))
      ensures !ok ==> a.NotFound?
      ensures old(Quiet()) ==> ok && Quiet() && missed == {}
    {
      a, missed := NotFound, {};
      var l := At(device);
      var failed := Fails();
      if failed {
        return a, false, missed;
      }
      if d !in l.base {
        return NotFound, true, missed;
      }
      if l.base[d].NoTask? {
        return NotTask, true, missed;
      }
      var refs, infos := l.base[d].refs, [];
      for i := 0 to |refs|
        invariant missed == {} ==> infos == ReadRefs(l, refs[..i])
        invariant forall j :: 0 <= j < |infos| ==> PartOfRefs(l, refs, infos[j])
        invariant AnsweredBut(l, refs[..i], infos, missed)
        invariant |missed| + Errors(faults) <= Errors(old(faults))
        invariant old(Quiet()) ==> Quiet() && missed == {}
      {
        ghost var partly, before := false, infos;
        var more;
        more, partly := ReadScene(refs[i]);
        assert refs[i] in refs;
        infos := infos + more;
        ReadMore(l, refs, i);
        if partly {
          missed := missed + {i};
        }
        AnsweredMore(l, refs, i, before, infos, missed);
      }
      assert refs[..|refs|] == refs;
      return Found(infos), true, missed;
    }

    method GetCacheByDeviceId(deviceId: string, configId: string) returns (a: Answer, ok: bool, ghost missed: set<nat>)
      modifies `device, `faults
      ensures ok && missed == {} ==> a == if configId == "" then Read(one, deviceId) else Read(multiple, configId)
      ensures ok ==> PartOf(Object.On(View(), Object.Chosen(configId)), Object.Key(deviceId, configId), a)
      ensures ok && a.Found? ==>
                var (l, d) := if configId == "" then (one, deviceId) else (multiple, configId);
                AnsweredBut(l, OldRefs(l.base, d), a.scenes, missed)
      ensures |missed| + Errors(faults) <= Errors(old(faults))
      ensures device == if configId == "" then One else Multiple
      ensures old(Quiet()) ==> ok && Quiet() && missed == {}
    {
      if configId == "" {
        device := One;
        a, ok, missed := GetCacheByDId(deviceId);
      } else {
        device := Multiple;
        a, ok, missed := GetCacheByDId(configId);
      }
    }

    // -------------------------------------------------------------- deleting a scene

    /** Drops the first entry for the scene by shifting the rest of the slice down. */
    static method DropScene(refs: seq<SceneRef>, s: string) returns (r: seq<SceneRef>)
      ensures r == RemoveFirst(refs, s)
    {
      var cells := new SceneRef[|refs|](i requires 0 <= i < |refs| => refs[i]);
      assert cells[..] == refs;
      for i := 0 to |refs|
        invariant cells[..] == refs
        invariant forall j :: 0 <= j < i ==> refs[j].scene != s
      {
        if cells[i].scene == s {
          IndexList.ShiftLeft(cells, i, |refs|);
          RemovedFirst(refs, s, i);
          return cells[..|refs| - 1];
        }
      }
      NoneRemoved(refs, s);
      return cells[..];
    }

    /** The triggering devices of one group's conditions. */
    static method SourcesIn(kind: Kind, infos: seq<Condition>) returns (ids: seq<string>)
      ensures forall d :: d in ids <==> exists c :: c in infos && Source(kind, c) == Some(d)
    {
      ids := [];
      for j := 0 to |infos|
        invariant forall d :: d in ids <==> exists k :: 0 <= k < j && Source(kind, infos[k]) == Some(d)
      {
        var source := Source(kind, infos[j]);
        if source.Some? {
          ids := ids + [source.value];
        }
      }
    }

    /**
     The devices whose cached conditions belong to the scene's groups. A group that cannot be
     read is passed over, alone.
     */
    method CollectDevices(gs: seq<string>) returns (ids: seq<string>, ghost unread: set<string>)
      modifies `faults
      ensures forall d :: d in ids ==> d in Sources(device, At(device).groups, gs)
      ensures forall d :: d in Sources(device, At(device).groups - unread, gs) ==> d in ids
      ensures |unread| + Errors(faults) <= Errors(old(faults))
      ensures old(Quiet()) ==> Quiet() && unread == {}
    {
      var l := At(device);
      ids, unread := [], {};
      for i := 0 to |gs|
        invariant forall d :: d in ids ==> d in Sources(device, l.groups, gs[..i])
        invariant forall d :: d in Sources(device, l.groups - unread, gs[..i]) ==> d in ids
        invariant |unread| + Errors(faults) <= Errors(old(faults))
        invariant old(Quiet()) ==> Quiet() && unread == {}
      {
        var failed := Fails();
        SourcesMore(device, l.groups, gs, i);
        SourcesMore(device, l.groups - unread, gs, i);
        if !failed && gs[i] in l.groups {
          var more := SourcesIn(device, l.groups[gs[i]]);
          ids := ids + more;
        } else if failed {
          SourcesFewer(device, l.groups, unread, gs[i], gs[..i + 1]);
          unread := unread + {gs[i]};
          SourcesMore(device, l.groups - unread, gs, i);
          SourcesFewer(device, l.groups, unread - {gs[i]}, gs[i], gs[..i]);
        }
      }
      assert gs[..|gs|] == gs;
    }

    /** The first-level entry of one device; it is passed over if it cannot be read. */
    method ClearDevice(s: string, d: string) returns (ok: bool, doomed: bool, ghost skipped: bool)
      modifies this
      ensures device == old(device) && Other() == old(Other())
      ensures At(device).groups == old(At(device).groups) && At(device).actions == old(At(device).actions)
      ensures Emptied(old(At(device).base), At(device).base, s, [d])
      ensures doomed ==> Doomed(old(At(device).base), s, d)
      ensures ok && !skipped ==> Treated(old(At(device).base), At(device).base, s, d, doomed)
      ensures (if skipped then 1 else 0) + Errors(faults) <= Errors(old(faults))
      ensures old(Quiet()) ==> ok && Quiet() && !skipped
    {
      var now := At(device);
      var failed := Fails();
      skipped := failed;
      if failed || d !in now.base || now.base[d].NoTask? {
        return true, false, skipped;
      }
      var left := DropScene(now.base[d].refs, s);
      doomed, ok := |left| > 0, true;
      if !doomed {
        ok := Write(now.(base := now.base[d := Scenes([])]));
      }
    }

    /**
     First-level entries of the given devices: a list left empty is stored back at once, a
     list with other scenes left is put on the list of keys to delete.
     */
    method AutomateDeviceCacheDeleteHandel(s: string, ids: seq<string>)
      returns (ok: bool, keys: set<string>, ghost skipped: set<string>)
      modifies this
      ensures device == old(device) && Other() == old(Other())
      ensures At(device).groups == old(At(device).groups) && At(device).actions == old(At(device).actions)
      ensures Emptied(old(At(device).base), At(device).base, s, ids)
      ensures forall d :: d in keys ==> Doomed(old(At(device).base), s, d) && d in ids
      ensures ok ==> Swept(old(At(device).base), At(device).base, keys, s, ids, skipped)
      ensures |skipped| + Errors(faults) <= Errors(old(faults))
      ensures old(Quiet()) ==> ok && Quiet() && skipped == {}
    {
      ghost var l := At(device);
      keys, skipped := {}, {};
      for i := 0 to |ids|
        invariant device == old(device) && Other() == old(Other())
        invariant At(device).groups == l.groups && At(device).actions == l.actions
        invariant Emptied(l.base, At(device).base, s, ids[..i])
        invariant forall d :: d in keys ==> Doomed(l.base, s, d) && d in ids[..i]
        invariant Swept(l.base, At(device).base, keys, s, ids[..i], skipped)
        invariant |skipped| + Errors(faults) <= Errors(old(faults))
        invariant old(Quiet()) ==> Quiet() && skipped == {}
      {
        ghost var now := At(device).base;
        var doomed;
        ghost var unread;
        ok, doomed, unread := ClearDevice(s, ids[i]);
        assert ids[..i + 1] == ids[..i] + [ids[i]];
        EmptiedMore(l.base, now, At(device).base, s, ids[..i], ids[i], doomed);
        if unread {
          skipped := skipped + {ids[i]};
        }
        if !ok {
          EmptiedAll(l.base, At(device).base, s, ids, i + 1);
          return;
        }
        if doomed {
          keys := keys + {ids[i]};
        }
        SweptMore(l.base, now, At(device).base, keys, s, ids[..i], ids[i], skipped, doomed);
      }
      assert ids[..|ids|] == ids;
      ok := true;
    }

    /** What cannot be read is passed over, at most one entry for each failed command. */
    method DeleteCacheBySceneAutId(s: string) returns (ok: bool, ghost missed: Missed)
      modifies this
      ensures device == old(device) && Other() == old(Other())
      ensures Next(device, old(At(device)), DeleteScene(s), ok, At(device))
      ensures ok ==> Cleared(device, old(At(device)), s, At(device), missed)
      ensures Count(missed) + Errors(faults) <= Errors(old(faults))
      ensures old(Quiet()) ==> ok && Quiet() && At(device) == AfterDelete(device, old(At(device)), s)
    {
      var l := At(device);
      missed := NONE_MISSED;
      var failed := Fails();
      if failed {
        return false, missed;
      }
      if s !in l.actions {
        return true, missed;
      }
      var gs := l.actions[s].groups;
      var ids;
      ghost var unread, skipped;
      ids, unread := CollectDevices(gs);
      var keys;
      ok, keys, skipped := AutomateDeviceCacheDeleteHandel(s, ids);
      missed := Missed(unread, skipped);
      EmptiedStops(device, l, s, ids, At(device));
      if !ok {
        return;
      }
      var now := At(device);
      ok := Write(Level(now.base - keys, now.groups - (set g | g in gs), now.actions - {s}));
      if ok {
        DeleteFinished(device, l, s, ids, now.base, keys, missed);
      }
    }

    method DeleteCacheBySceneAutomationId(s: string) returns (ok: bool, ghost m: Missed, ghost o: Missed)
      modifies this
      ensures Object.Next(old(View()), Object.Delete(s), ok, View())
      ensures ok ==> device == One && Deleted(One, old(one), s, one) && Deleted(Multiple, old(multiple), s, multiple)
      ensures ok ==> Cleared(One, old(one), s, one, o) && Cleared(Multiple, old(multiple), s, multiple, m)
      ensures Count(m) + Count(o) + Errors(faults) <= Errors(old(faults))
      ensures !ok ==> (device == Multiple && one == old(one) && DeleteStopped(Multiple, old(multiple), s, multiple)) ||
                      (device == One && DeleteStopped(One, old(one), s, one) &&
                          Deleted(Multiple, old(multiple), s, multiple))
      ensures old(Quiet()) ==>
                ok && Quiet() && one == AfterDelete(One, old(one), s) &&
                    multiple == AfterDelete(Multiple, old(multiple), s)
    {
      m, o := NONE_MISSED, NONE_MISSED;
      device := Multiple;
      ok, m := DeleteCacheBySceneAutId(s);
      if !ok {
        return;
      }
      device := One;
      ok, o := DeleteCacheBySceneAutId(s);
    }

    // -------------------------------------------------------------- setting one scene

    static method Group(kind: Kind, conds: seq<Condition>) returns (m: map<string, seq<Condition>>, ds: set<string>)
      ensures m == Grouped(conds)
      ensures ds == Triggers(kind, conds)
    {
      m, ds := map[], {};
      for i := 0 to |conds|
        invariant m == Grouped(conds[..i])
        invariant ds == Triggers(kind, conds[..i])
      {
        var c := conds[i];
        GroupedMore(conds, i);
        TriggersMore(kind, conds, i);
        m := m[c.group := Held(m, c.group) + [c]];
        var source := Source(kind, c);
        if source.Some? {
          ds := ds + {source.value};
        }
      }
      assert conds[..|conds|] == conds;
    }

    /** Is there a condition of the prefix's trigger type? */
    static method AnyTriggers(kind: Kind, conds: seq<Condition>) returns (found: bool)
      ensures found <==> exists c :: c in conds && Source(kind, c).Some?
    {
      for i := 0 to |conds|
        invariant forall j :: 0 <= j < i ==> Source(kind, conds[j]).None?
      {
        if Source(kind, conds[i]).Some? {
          return true;
        }
      }
      return false;
    }

    /** Stores the relevant groups, in the order the map yields them. */
    method StoreGroups(conds: seq<Condition>, m: map<string, seq<Condition>>) returns (ok: bool, order: seq<string>)
      requires m == Grouped(conds)
      modifies this
      ensures device == old(device) && Other() == old(Other())
      ensures At(device).base == old(At(device).base) && At(device).actions == old(At(device).actions)
      ensures At(device).groups == old(At(device).groups) + GroupEntries(conds, order)
      ensures NoDup(order) && forall g :: g in order ==> g in Relevant(device, conds)
      ensures ok ==> Lists(order, Relevant(device, conds))
      ensures Errors(faults) <= Errors(old(faults))
      ensures old(Quiet()) ==> ok && Quiet()
    {
      var l, rest := At(device), m.Keys;
      order := [];
      while rest != {}
        invariant device == old(device) && Other() == old(Other())
        invariant At(device).base == l.base && At(device).actions == l.actions
        invariant At(device).groups == l.groups + GroupEntries(conds, order)
        invariant rest <= m.Keys && NoDup(order)
        invariant forall g :: g in order <==> g in Relevant(device, conds) && g !in rest
        invariant Errors(faults) <= Errors(old(faults))
        invariant old(Quiet()) ==> Quiet()
        decreases |rest|
      {
        var g :| g in rest;
        var relevant := AnyTriggers(device, m[g]);
        RelevantGroup(device, conds, g);
        rest := rest - {g};
        if relevant {
          var now := At(device);
          ok := Write(now.(groups := now.groups[g := m[g]]));
          if !ok {
            return;
          }
          GroupEntriesMore(l.groups, conds, order, g);
          order := order + [g];
        }
      }
      RelevantGrouped(device, conds);
      ok := true;
    }

    /** Appends the scene to one device's list, unless its entry cannot be read. */
    method AppendScene(d: string, ref: SceneRef) returns (ok: bool, ghost skipped: bool)
      modifies this
      ensures device == old(device) && Other() == old(Other())
      ensures At(device).groups == old(At(device).groups) && At(device).actions == old(At(device).actions)
      ensures At(device).base == if ok && !skipped
                                 then old(At(device).base)[d := Scenes(OldRefs(old(At(device).base), d) + [ref])]
                                 else old(At(device).base)
      ensures (if skipped then 1 else 0) + Errors(faults) <= Errors(old(faults))
      ensures old(Quiet()) ==> ok && Quiet() && !skipped
    {
      var now := At(device);
      var failed := Fails();
      ok, skipped := true, failed;
      if !failed {
        ok := Write(now.(base := now.base[d := Scenes(OldRefs(now.base, d) + [ref])]));
      }
    }

    /** Appends the scene to the list of every triggering device. */
    method StoreDevices(ds: set<string>, ref: SceneRef) returns (ok: bool, ghost skipped: set<string>)
      modifies this
      ensures device == old(device) && Other() == old(Other())
      ensures At(device).groups == old(At(device).groups) && At(device).actions == old(At(device).actions)
      ensures forall d :: Get(At(device).base, d) == Get(old(At(device).base), d) ||
                          (d in ds && Get(At(device).base, d) == Some(Scenes(OldRefs(old(At(device).base), d) + [ref])))
      ensures ok ==> forall d :: d in ds && d !in skipped ==>
                Get(At(device).base, d) == Some(Scenes(OldRefs(old(At(device).base), d) + [ref]))
      ensures |skipped| + Errors(faults) <= Errors(old(faults))
      ensures old(Quiet()) ==> ok && Quiet() && skipped == {}
    {
      skipped := {};
      ghost var base := At(device).base;
      var rest := ds;
      while rest != {}
        invariant device == old(device) && Other() == old(Other())
        invariant At(device).groups == old(At(device).groups) && At(device).actions == old(At(device).actions)
        invariant rest <= ds
        invariant forall d :: Get(At(device).base, d) == Get(base, d) ||
                    (d in ds && d !in rest && Get(At(device).base, d) == Some(Scenes(OldRefs(base, d) + [ref])))
        invariant forall d :: d in ds && d !in rest && d !in skipped ==>
                    Get(At(device).base, d) == Some(Scenes(OldRefs(base, d) + [ref]))
        invariant |skipped| + Errors(faults) <= Errors(old(faults))
        invariant old(Quiet()) ==> Quiet() && skipped == {}
        decreases |rest|
      {
        var d :| d in rest;
        rest := rest - {d};
        assert Get(At(device).base, d) == Get(base, d);
        ghost var unread;
        ok, unread := AppendScene(d, ref);
        if !ok {
          return;
        }
        if unread {
          skipped := skipped + {d};
        }
      }
      ok := true;
    }

    /** A device whose entry cannot be read is passed over, at most one for each failed command. */
    method SetCacheBySceneAutId(s: string, conds: seq<Condition>, acts: seq<Action>)
      returns (ok: bool, ghost order: seq<string>, ghost skipped: set<string>)
      modifies this
      ensures device == old(device) && Other() == old(Other())
      ensures ok ==> SetDone(device, old(At(device)), SetScene(s, conds, acts), order, At(device))
      ensures Next(device, old(At(device)), SetScene(s, conds, acts), ok, At(device))
      ensures ok ==> SetOn(device, old(At(device)), SetScene(s, conds, acts), order, At(device), skipped)
      ensures |skipped| + Errors(faults) <= Errors(old(faults))
      ensures old(Quiet()) ==> ok && Quiet() && At(device) == AfterSet(device, old(At(device)), s, conds, acts, order)
    {
      var l := At(device);
      ghost var call := SetScene(s, conds, acts);
      var m, ds := Group(device, conds);
      if ds == {} {
        NothingToSet(device, l, call);
        return true, [], {};
      }
      var gs;
      skipped := {};
      ok, gs := StoreGroups(conds, m);
      order := gs;
      var now := At(device);
      if !ok {
        SetStopsEarly(device, l, call, gs, At(device));
        return;
      }
      ok := Write(now.(actions := now.actions[s := ActionEntry(gs, acts)]));
      if !ok {
        SetStopsEarly(device, l, call, gs, At(device));
        return;
      }
      ok, skipped := StoreDevices(ds, SceneRef(s, gs));
      SetEnds(device, l, call, gs, At(device), ok);
      if old(Quiet()) {
        SameMap(At(device).base, AfterSet(device, l, s, conds, acts, gs).base);
      }
    }

    /** Both prefixes, the device configurations first. `m` and `o` are the map orders of the two halves. */
    method SetCacheBySceneAutomationId(s: string, conds: seq<Condition>, acts: seq<Action>)
      returns (ok: bool, ghost m: seq<string>, ghost o: seq<string>, ghost skipM: set<string>, ghost skipO: set<string>)
      modifies this
      ensures Object.Next(old(View()), Object.Set(s, conds, acts), ok, View())
      ensures ok ==> device == One && SetDone(Multiple, old(multiple), SetScene(s, conds, acts), m, multiple) &&
                     SetDone(One, old(one), SetScene(s, conds, acts), o, one)
      ensures ok ==> SetOn(Multiple, old(multiple), SetScene(s, conds, acts), m, multiple, skipM) &&
                     SetOn(One, old(one), SetScene(s, conds, acts), o, one, skipO)
      ensures |skipM| + |skipO| + Errors(faults) <= Errors(old(faults))
      ensures !ok ==> (device == Multiple && one == old(one) &&
                       Next(Multiple, old(multiple), SetScene(s, conds, acts), false, multiple)) ||
                      (device == One && Next(Multiple, old(multiple), SetScene(s, conds, acts), true, multiple) &&
                       Next(One, old(one), SetScene(s, conds, acts), false, one))
      ensures old(Quiet()) ==>
                ok && Quiet() && multiple == AfterSet(Multiple, old(multiple), s, conds, acts, m) &&
                one == AfterSet(One, old(one), s, conds, acts, o)
    {
      m, o, skipM, skipO := [], [], {}, {};
      device := Multiple;
      ok, m, skipM := SetCacheBySceneAutId(s, conds, acts);
      if !ok {
        return;
      }
      device := One;
      ok, o, skipO := SetCacheBySceneAutId(s, conds, acts);
    }

    // -------------------------------------------------------------- filling one device

    static method SceneGroups(conds: seq<Condition>) returns (m: map<string, set<string>>)
      ensures GroupTable(m, conds)
    {
      m := map[];
      for i := 0 to |conds|
        invariant GroupTable(m, conds[..i])
      {
        var c := conds[i];
        ghost var before := m;
        m := m[c.scene := (if c.scene in m then m[c.scene] else {}) + {c.group}];
        GroupTableMore(before, conds, i);
      }
      assert conds[..|conds|] == conds;
    }

    static method SceneActions(acts: seq<Action>) returns (m: map<string, seq<Action>>)
      ensures ActionTable(m, acts)
    {
      m := map[];
      for i := 0 to |acts|
        invariant ActionTable(m, acts[..i])
      {
        var a := acts[i];
        ghost var before := m;
        m := m[a.scene := (if a.scene in m then m[a.scene] else []) + [a]];
        ActionTableMore(before, acts, i);
      }
      assert acts[..|acts|] == acts;
    }

    /** A set's members in the order an iteration yields them. */
    static method Iterate(s: set<string>) returns (order: seq<string>)
      ensures Lists(order, s)
    {
      var rest := s;
      order := [];
      while rest != {}
        invariant rest <= s && NoDup(order)
        invariant forall g :: g in order <==> g in s && g !in rest
        decreases |rest|
      {
        var g :| g in rest;
        order, rest := order + [g], rest - {g};
      }
    }

    method FillGroups(m: map<string, seq<Condition>>) returns (ok: bool)
      modifies this
      ensures device == old(device) && Other() == old(Other())
      ensures At(device).base == old(At(device).base) && At(device).actions == old(At(device).actions)
      ensures forall g ::
                Get(At(device).groups, g) == Get(old(At(device).groups), g) || Get(At(device).groups, g) == Get(m, g)
      ensures ok ==> At(device).groups == old(At(device).groups) + m
      ensures old(Quiet()) ==> ok && Quiet()
    {
      var l := At(device);
      var order := Iterate(m.Keys);
      for i := 0 to |order|
        invariant device == old(device) && Other() == old(Other())
        invariant At(device).base == l.base && At(device).actions == l.actions
        invariant forall g :: Get(At(device).groups, g) == if g in order[..i] then Get(m, g) else Get(l.groups, g)
        invariant old(Quiet()) ==> Quiet()
      {
        var now := At(device);
        assert forall g :: g in order[..i + 1] <==> g in order[..i] || g == order[i];
        ok := Write(now.(groups := now.groups[order[i] := m[order[i]]]));
        if !ok {
          return;
        }
      }
      assert order[..|order|] == order;
      SameMap(At(device).groups, l.groups + m);
      ok := true;
    }

    method FillScenes(conds: seq<Condition>, acts: seq<Action>, sceneGroups: map<string, set<string>>,
          sceneActions: map<string, seq<Action>>)
      returns (ok: bool, refs: seq<SceneRef>)
      requires GroupTable(sceneGroups, conds) && ActionTable(sceneActions, acts)
      modifies this
      ensures device == old(device) && Other() == old(Other())
      ensures At(device).base == old(At(device).base) && At(device).groups == old(At(device).groups)
      ensures At(device).actions == old(At(device).actions) + FillActions(acts, refs)
      ensures PartlyFilled(conds, acts, refs)
      ensures ok ==> FillOrder(conds, acts, refs)
      ensures old(Quiet()) ==> ok && Quiet()
    {
      var l := At(device);
      var order := Iterate(sceneActions.Keys);
      refs := [];
      for i := 0 to |order|
        invariant device == old(device) && Other() == old(Other())
        invariant At(device).base == l.base && At(device).groups == l.groups
        invariant At(device).actions == l.actions + FillActions(acts, refs)
        invariant Filling(refs, order[..i], sceneGroups)
        invariant old(Quiet()) ==> Quiet()
      {
        var s, now := order[i], At(device);
        assert order[..i + 1] == order[..i] + [s];
        if s in sceneGroups {
          var groupIds := Iterate(sceneGroups[s]);
          ok := Write(now.(actions := now.actions[s := ActionEntry(groupIds, sceneActions[s])]));
          if !ok {
            FillingPart(conds, acts, refs, order[..i], sceneGroups);
            return;
          }
          RefsMore(acts, refs, SceneRef(s, groupIds));
          PlusUpdate(l.actions, FillActions(acts, refs), s, ActionEntry(groupIds, sceneActions[s]));
          assert s !in order[..i];
          FillingMore(refs, order[..i], sceneGroups, SceneRef(s, groupIds));
          refs := refs + [SceneRef(s, groupIds)];
        } else {
          FillingSkip(refs, order[..i], sceneGroups, s);
        }
      }
      assert order[..|order|] == order;
      FillingPart(conds, acts, refs, order, sceneGroups);
      FillingDone(conds, acts, refs, order, sceneGroups);
      ok := true;
    }

    method SetCache(d: string, conds: seq<Condition>, acts: seq<Action>) returns (ok: bool, ghost refs: seq<SceneRef>)
      modifies this
      ensures device == old(device) && Other() == old(Other())
      ensures ok ==> FillOrder(conds, acts, refs) && At(device) == AfterFill(old(At(device)), d, conds, acts, refs)
      ensures Next(device, old(At(device)), FillDevice(d, conds, acts), ok, At(device))
      ensures old(Quiet()) ==> ok && Quiet()
    {
      ghost var l, call := At(device), FillDevice(d, conds, acts);
      var m, _ := Group(device, conds);
      var sceneGroups := SceneGroups(conds);
      ok := FillGroups(m);
      refs := [];
      if !ok {
        FillGroupsStops(device, l, call, At(device));
        return;
      }
      var sceneActions := SceneActions(acts);
      var rs;
      ok, rs := FillScenes(conds, acts, sceneGroups, sceneActions);
      refs := rs;
      if !ok {
        FillStops(device, l, call, rs, At(device));
        return;
      }
      var now := At(device);
      ok := Write(now.(base := now.base[d := Scenes(rs)]));
      if !ok {
        FillStops(device, l, call, rs, At(device));
      }
    }

    method SetCacheByDeviceId(deviceId: string, configId: string, conds: seq<Condition>, acts: seq<Action>)
      returns (ok: bool, ghost refs: seq<SceneRef>)
      modifies this
      ensures Object.Next(old(View()), Object.Fill(deviceId, configId, conds, acts), ok, View())
      ensures ok ==> FillOrder(conds, acts, refs)
      ensures configId == "" ==> multiple == old(multiple) &&
                                 (ok ==> one == AfterFill(old(one), deviceId, conds, acts, refs))
      ensures configId != "" ==> one == old(one) &&
                                 (ok ==> multiple == AfterFill(old(multiple), configId, conds, acts, refs))
      ensures old(Quiet()) ==> ok && Quiet()
    {
      device := if configId == "" then One else Multiple;
      ok, refs := SetCache(if configId == "" then deviceId else configId, conds, acts);
    }

    method SetCacheByDeviceIdWithNoTask(deviceId: string, configId: string) returns (ok: bool)
      modifies this
      ensures Object.Next(old(View()), Object.Mark(deviceId, configId), ok, View())
      ensures configId == "" ==> multiple == old(multiple) &&
                                 one == if ok then old(one).(base := old(one).base[deviceId := NoTask]) else old(one)
      ensures configId != "" ==> one == old(one) &&
                                 multiple == if ok then old(multiple).(base := old(multiple).base[configId := NoTask])
                                             else old(multiple)
      ensures old(Quiet()) ==> ok && Quiet()
    {
      device := if configId == "" then One else Multiple;
      var d, now := if configId == "" then deviceId else configId, At(device);
      ok := Write(now.(base := now.base[d := NoTask]));
    }
  }
}
