/**
 The alarm cache over its Redis tables. Every Redis command may fail: `faults` holds
 the fate of the commands to come (true: the command returns an error), and is
 fault-free once exhausted. Calls run one at a time, under the package mutex.
 */
module AlarmCache {
  import opened Prelude
  import opened IndexList
  import opened AlarmIndex

  datatype Outcome = Done | RedisError | OutOfRange

  class AlarmCache {
    var groups: map<string, Group>
    var index: Index
    var faults: seq<bool>

    ghost function View(): State
      reads this
    {
      State(groups, index)
    }

    ghost predicate Valid()
      reads this
    {
      Proper(index)
    }

    /** No command to come will fail. */
    ghost predicate Quiet()
      reads this
    {
      true !in faults
    }

    constructor ()
      ensures Valid() && View() == EMPTY && Quiet()
    {
      groups, index, faults := map[], map[], [];
    }

    method Fails() returns (failed: bool)
      modifies `faults
      ensures old(Quiet()) ==> !failed && Quiet()
    {
      failed := faults != [] && faults[0];
      if faults != [] {
        faults := faults[1..];
      }
    }

    method GroupCacheAdd(k: Key, g: string) returns (ok: bool)
      modifies `index, `faults
      ensures index == if ok then Add(old(index), k, g) else old(index)
      ensures old(Quiet()) ==> ok && Quiet()
    {
      var failed := Fails();
      if failed {
        return false;
      }
      var ids, found := Append(Ids(index, k), g);
      if found {
        return true;
      }
      failed := Fails();
      if failed {
        return false;
      }
      index := index[k := ids];
      return true;
    }

    /**
     Deletion from one list, on any list at all: it runs out of range on the lists
     of Overruns, and otherwise stores what the shifting loop leaves.
     */
    method SweepList(k: Key, g: string) returns (r: Outcome)
      modifies `index, `faults
      ensures r.Done? ==> index == Put(old(index), k, Swept(Ids(old(index), k), g))
      ensures !r.Done? ==> index == old(index)
      ensures r.Done? ==> !Overruns(Ids(old(index), k), g)
      ensures r.OutOfRange? ==> Overruns(Ids(old(index), k), g)
      ensures old(Quiet()) ==> !r.RedisError? && Quiet()
    {
      var failed := Fails();
      if failed {
        return RedisError;
      }
      var ids := Ids(index, k);
      var cells := new string[|ids|](i requires 0 <= i < |ids| => ids[i]);
      assert cells[..] == ids;
      var len, overran := SweepInPlace(cells, g);
      if overran {
        return OutOfRange;
      }
      failed := Fails();
      if failed {
        return RedisError;
      }
      if len > 0 {
        index := index[k := cells[..len]];
      } else {
        index := index - {k};
      }
      return Done;
    }

    /** On the lists the cache itself builds, deletion never leaves the slice and drops exactly the id. */
    method GroupCacheDel(k: Key, g: string) returns (ok: bool)
      requires Valid()
      modifies `index, `faults
      ensures index == if ok then Del(old(index), k, g) else old(index)
      ensures old(Quiet()) ==> ok && Quiet()
    {
      var ids := Ids(index, k);
      NoDupDeletable(ids, g);
      SweptExactly(ids, g);
      var r := SweepList(k, g);
      return r.Done?;
    }

    /** The loop of SetDevice. */
    method AddDeviceKeys(group: string, devices: seq<string>) returns (ok: bool, ghost done: seq<Key>)
      modifies `index, `faults
      ensures index == AddAll(old(index), done, group)
      ensures done <= DeviceKeys(devices) && (ok ==> done == DeviceKeys(devices))
      ensures old(Quiet()) ==> ok && Quiet()
    {
      ghost var ix := index;
      done := [];
      for i := 0 to |devices|
        invariant done == DeviceKeys(devices[..i]) && index == AddAll(ix, done, group)
        invariant old(Quiet()) ==> Quiet()
      {
        ok := GroupCacheAdd(DeviceKey(devices[i]), group);
        DeviceKeysPrefix(devices, i);
        if !ok {
          return;
        }
        AddMore(ix, done, DeviceKey(devices[i]), group);
        DeviceKeysMore(devices, i);
        done := DeviceKeys(devices[..i + 1]);
      }
      assert devices[..|devices|] == devices;
      ok := true;
    }

    /** The loop of SetAlarm. */
    method AddAlarmKeys(group: string, alarms: seq<string>, device: string) returns (ok: bool, ghost done: seq<Key>)
      modifies `index, `faults
      ensures index == AddAll(old(index), done, group)
      ensures done <= AlarmColumn(alarms, device) && (ok ==> done == AlarmColumn(alarms, device))
      ensures old(Quiet()) ==> ok && Quiet()
    {
      ghost var ix := index;
      done := [];
      for i := 0 to |alarms|
        invariant done == AlarmColumn(alarms[..i], device) && index == AddAll(ix, done, group)
        invariant old(Quiet()) ==> Quiet()
      {
        ok := GroupCacheAdd(AlarmKey(alarms[i], device), group);
        AlarmColumnPrefix(alarms, i, device);
        if !ok {
          return;
        }
        AddMore(ix, done, AlarmKey(alarms[i], device), group);
        AlarmColumnMore(alarms, i, device);
        done := AlarmColumn(alarms[..i + 1], device);
      }
      assert alarms[..|alarms|] == alarms;
      ok := true;
    }

    method SetDevice(group: string, scene: string, devices: seq<string>, contents: seq<string>) returns (ok: bool)
      requires Valid()
      modifies this
      ensures Valid()
      ensures Step(old(View()), Op.SetDevice(group, scene, devices, contents), ok, View())
      ensures old(Quiet()) ==> ok && Quiet()
    {
      ghost var st, op := View(), Op.SetDevice(group, scene, devices, contents);
      var failed := Fails();
      if failed {
        return false;
      }
      var info: Group;
      if group in groups {
        failed := Fails();
        if failed {
          return false;
        }
        info := groups[group].(contents := contents);
      } else {
        info := Group(scene, [], devices, contents);
      }
      failed := Fails();
      if failed {
        return false;
      }
      groups := groups[group := info];
      ghost var done;
      ok, done := AddDeviceKeys(group, devices);
      PrefixOfPrefix(done, DeviceKeys(devices), Visits(st, op));
      if !ok {
        Interrupted(st, op, done, View());
        return;
      }
      ok := GroupCacheAdd(SceneKey(scene), group);
      if !ok {
        Interrupted(st, op, done, View());
        return;
      }
      AddMore(st.index, done, SceneKey(scene), group);
      SettingCompleted(st, op, View());
    }

    method SetAlarm(group: string, alarms: seq<string>, device: string) returns (ok: bool)
      requires Valid()
      modifies this
      ensures Valid()
      ensures Step(old(View()), Op.SetAlarm(group, alarms, device), ok, View())
      ensures old(Quiet()) ==> ok && Quiet()
    {
      ghost var st, op := View(), Op.SetAlarm(group, alarms, device);
      var failed := Fails();
      if failed {
        return false;
      }
      var info := if group in groups then groups[group] else NO_GROUP;
      info := info.(alarms := alarms);
      failed := Fails();
      if failed {
        return false;
      }
      groups := groups[group := info];
      ghost var done;
      ok, done := AddAlarmKeys(group, alarms, device);
      if !ok {
        Interrupted(st, op, done, View());
        return;
      }
      SettingCompleted(st, op, View());
    }

    method GetByGroupId(group: string) returns (info: Group, ok: bool)
      modifies `faults
      ensures ok ==> info == if group in groups then groups[group] else Group("", [], [], [])
      ensures old(Quiet()) ==> ok && Quiet()
    {
      var failed := Fails();
      info := if !failed && group in groups then groups[group] else NO_GROUP;
      ok := !failed;
    }

    method GetBySceneAutomationId(scene: string) returns (ids: seq<string>, ok: bool)
      modifies `faults
      ensures ok ==> ids == if SceneKey(scene) in index then index[SceneKey(scene)] else []
      ensures old(Quiet()) ==> ok && Quiet()
    {
      var failed := Fails();
      ids := if failed then [] else Ids(index, SceneKey(scene));
      ok := !failed;
    }

    /** First loop of DeleteBygroupId: every (alarm, device) pair of the record. */
    method DropAlarmKeys(group: string, alarms: seq<string>, devices: seq<string>)
      returns (ok: bool, ghost done: seq<Key>)
      requires Valid()
      modifies `index, `faults
      ensures Valid() && index == DelAll(old(index), done, group)
      ensures done <= AlarmKeys(alarms, devices) && (ok ==> done == AlarmKeys(alarms, devices))
      ensures old(Quiet()) ==> ok && Quiet()
    {
      ghost var ix := index;
      done := [];
      for i := 0 to |alarms|
        invariant done == AlarmKeys(alarms[..i], devices)
        invariant Valid() && index == DelAll(ix, done, group)
        invariant old(Quiet()) ==> Quiet()
      {
        ghost var row;
        ok, row := DropAlarmRow(group, alarms[i], devices);
        DelAllAppend(ix, done, row, group);
        PairsPrefix(alarms, i, devices, row);
        done := done + row;
        if !ok {
          return;
        }
        AlarmKeysMore(alarms, i, devices);
      }
      assert alarms[..|alarms|] == alarms;
      ok := true;
    }

    /** Its inner loop, for one alarm id. */
    method DropAlarmRow(group: string, alarm: string, devices: seq<string>) returns (ok: bool, ghost done: seq<Key>)
      requires Valid()
      modifies `index, `faults
      ensures Valid() && index == DelAll(old(index), done, group)
      ensures done <= AlarmRow(alarm, devices) && (ok ==> done == AlarmRow(alarm, devices))
      ensures old(Quiet()) ==> ok && Quiet()
    {
      ghost var ix := index;
      done := [];
      for j := 0 to |devices|
        invariant done == AlarmRow(alarm, devices[..j])
        invariant Valid() && index == DelAll(ix, done, group)
        invariant old(Quiet()) ==> Quiet()
      {
        ok := GroupCacheDel(AlarmKey(alarm, devices[j]), group);
        AlarmRowPrefix(alarm, devices, j);
        if !ok {
          return;
        }
        DelMore(ix, done, AlarmKey(alarm, devices[j]), group);
        AlarmRowMore(alarm, devices, j);
        done := AlarmRow(alarm, devices[..j + 1]);
      }
      assert devices[..|devices|] == devices;
      ok := true;
    }

    /** Second loop of DeleteBygroupId: every device of the record. */
    method DropDeviceKeys(group: string, devices: seq<string>) returns (ok: bool, ghost done: seq<Key>)
      requires Valid()
      modifies `index, `faults
      ensures Valid() && index == DelAll(old(index), done, group)
      ensures done <= DeviceKeys(devices) && (ok ==> done == DeviceKeys(devices))
      ensures old(Quiet()) ==> ok && Quiet()
    {
      ghost var ix := index;
      done := [];
      for j := 0 to |devices|
        invariant done == DeviceKeys(devices[..j])
        invariant Valid() && index == DelAll(ix, done, group)
        invariant old(Quiet()) ==> Quiet()
      {
        ok := GroupCacheDel(DeviceKey(devices[j]), group);
        DeviceKeysPrefix(devices, j);
        if !ok {
          return;
        }
        DelMore(ix, done, DeviceKey(devices[j]), group);
        DeviceKeysMore(devices, j);
        done := DeviceKeys(devices[..j + 1]);
      }
      assert devices[..|devices|] == devices;
      ok := true;
    }

    /** All index keys of the record: the two loops, then the scene's list. */
    method DropIndexKeys(group: string, info: Group) returns (ok: bool, ghost done: seq<Key>)
      requires Valid()
      modifies `index, `faults
      ensures Valid() && index == DelAll(old(index), done, group)
      ensures done <= RecordKeys(info) && (ok ==> done == RecordKeys(info))
      ensures old(Quiet()) ==> ok && Quiet()
    {
      ghost var ix, rest := index, [];
      ok, done := DropAlarmKeys(group, info.alarms, info.devices);
      if !ok {
        return;
      }
      ok, rest := DropDeviceKeys(group, info.devices);
      DelAllAppend(ix, done, rest, group);
      done := done + rest;
      if !ok {
        return;
      }
      ok := GroupCacheDel(SceneKey(info.scene), group);
      if !ok {
        return;
      }
      DelMore(ix, done, SceneKey(info.scene), group);
      done := done + [SceneKey(info.scene)];
    }

    method DeleteBygroupId(group: string) returns (ok: bool)
      requires Valid()
      modifies this
      ensures Valid()
      ensures Step(old(View()), Delete(group), ok, View())
      ensures old(Quiet()) ==> ok && Quiet()
    {
      ghost var st, op := View(), Delete(group);
      var info;
      info, ok := GetByGroupId(group);
      if !ok {
        return;
      }
      assert info == Record(st, group);
      ghost var done;
      ok, done := DropIndexKeys(group, info);
      DeleteUnderway(st, group, ok, done, View());
      if !ok {
        return;
      }
      var failed := Fails();
      if failed {
        return false;
      }
      groups := groups - {group};
      return true;
    }
  }

  lemma AddMore(ix: Index, done: seq<Key>, k: Key, g: string)
    ensures AddAll(ix, done + [k], g) == Add(AddAll(ix, done, g), k, g)
  {
    assert (done + [k])[..|done|] == done;
  }

  lemma DelMore(ix: Index, done: seq<Key>, k: Key, g: string)
    requires Proper(ix)
    ensures DelAll(ix, done + [k], g) == Del(DelAll(ix, done, g), k, g)
    ensures Proper(DelAll(ix, done + [k], g))
  {
    assert (done + [k])[..|done|] == done;
    DelAllIds(ix, done + [k], g);
  }

  lemma {:induction false} DelAllAppend(ix: Index, a: seq<Key>, b: seq<Key>, g: string)
    ensures DelAll(ix, a + b, g) == DelAll(DelAll(ix, a, g), b, g)
  {
    if b == [] {
      assert a + b == a;
    } else {
      var n := |b| - 1;
      assert (a + b)[..|a + b| - 1] == a + b[..n];
      DelAllAppend(ix, a, b[..n], g);
    }
  }

  /** The pairs of the first alarm ids and part of the next one's. */
  lemma PairsPrefix(alarms: seq<string>, i: nat, ds: seq<string>, row: seq<Key>)
    requires i < |alarms| && row <= AlarmRow(alarms[i], ds)
    ensures AlarmKeys(alarms[..i], ds) + row <= AlarmKeys(alarms, ds)
  {
    AlarmKeysMore(alarms, i, ds);
    AlarmKeysPrefix(alarms, i + 1, ds);
    PrefixOfPrefix(AlarmKeys(alarms[..i], ds) + row, AlarmKeys(alarms[..i + 1], ds), AlarmKeys(alarms, ds));
  }

  lemma PrefixOfPrefix<T>(a: seq<T>, b: seq<T>, c: seq<T>)
    requires a <= b && b <= c
    ensures a <= c
  {
    assert a == b[..|a|] == c[..|a|];
  }

  lemma {:induction false} DeviceKeysPrefix(ds: seq<string>, j: nat)
    requires j <= |ds|
    ensures DeviceKeys(ds[..j]) <= DeviceKeys(ds)
  {
    if j == |ds| {
      assert ds[..j] == ds;
    } else {
      assert ds[..|ds| - 1][..j] == ds[..j];
      DeviceKeysPrefix(ds[..|ds| - 1], j);
    }
  }

  lemma {:induction false} AlarmRowPrefix(a: string, ds: seq<string>, j: nat)
    requires j <= |ds|
    ensures AlarmRow(a, ds[..j]) <= AlarmRow(a, ds)
  {
    if j == |ds| {
      assert ds[..j] == ds;
    } else {
      assert ds[..|ds| - 1][..j] == ds[..j];
      AlarmRowPrefix(a, ds[..|ds| - 1], j);
    }
  }

  lemma {:induction false} AlarmColumnPrefix(alarms: seq<string>, i: nat, d: string)
    requires i <= |alarms|
    ensures AlarmColumn(alarms[..i], d) <= AlarmColumn(alarms, d)
  {
    if i == |alarms| {
      assert alarms[..i] == alarms;
    } else {
      assert alarms[..|alarms| - 1][..i] == alarms[..i];
      AlarmColumnPrefix(alarms[..|alarms| - 1], i, d);
    }
  }

  lemma {:induction false} AlarmKeysPrefix(alarms: seq<string>, i: nat, ds: seq<string>)
    requires i <= |alarms|
    ensures AlarmKeys(alarms[..i], ds) <= AlarmKeys(alarms, ds)
  {
    if i == |alarms| {
      assert alarms[..i] == alarms;
    } else {
      assert alarms[..|alarms| - 1][..i] == alarms[..i];
      AlarmKeysPrefix(alarms[..|alarms| - 1], i, ds);
    }
  }

  lemma DeviceKeysMore(ds: seq<string>, i: nat)
    requires i < |ds|
    ensures DeviceKeys(ds[..i + 1]) == DeviceKeys(ds[..i]) + [DeviceKey(ds[i])]
  {
    assert ds[..i + 1][..i] == ds[..i];
  }

  lemma AlarmColumnMore(alarms: seq<string>, i: nat, d: string)
    requires i < |alarms|
    ensures AlarmColumn(alarms[..i + 1], d) == AlarmColumn(alarms[..i], d) + [AlarmKey(alarms[i], d)]
  {
    assert alarms[..i + 1][..i] == alarms[..i];
  }

  lemma AlarmRowMore(a: string, ds: seq<string>, i: nat)
    requires i < |ds|
    ensures AlarmRow(a, ds[..i + 1]) == AlarmRow(a, ds[..i]) + [AlarmKey(a, ds[i])]
  {
    assert ds[..i + 1][..i] == ds[..i];
  }

  lemma AlarmKeysMore(alarms: seq<string>, i: nat, ds: seq<string>)
    requires i < |alarms|
    ensures AlarmKeys(alarms[..i + 1], ds) == AlarmKeys(alarms[..i], ds) + AlarmRow(alarms[i], ds)
  {
    assert alarms[..i + 1][..i] == alarms[..i];
  }

  lemma SettingCompleted(st: State, op: Op, st': State)
    requires Proper(st.index) && !op.Delete?
    requires st' == State(st.groups[op.group := Stored(st, op)], AddAll(st.index, Visits(st, op), op.group))
    ensures Step(st, op, true, st') && Proper(st'.index)
  {
    AfterIds(st, op, Visits(st, op));
  }

  /** A delete that stops here has failed; one that has visited everything is complete once the record is gone. */
  lemma DeleteUnderway(st: State, g: string, all: bool, done: seq<Key>, st': State)
    requires Proper(st.index) && st' == State(st.groups, DelAll(st.index, done, g))
    requires done <= RecordKeys(Record(st, g)) && (all ==> done == RecordKeys(Record(st, g)))
    ensures Step(st, Delete(g), false, st') && Proper(st'.index)
    ensures all ==> Step(st, Delete(g), true, State(st'.groups - {g}, st'.index))
  {
    Interrupted(st, Delete(g), done, st');
  }

  /** A call that stopped at an error after visiting `done`. */
  lemma Interrupted(st: State, op: Op, done: seq<Key>, st': State)
    requires Proper(st.index)
    requires done <= Visits(st, op) && st' == After(st, op, done)
    ensures Step(st, op, false, st')
    ensures Proper(st'.index)
  {
    AfterIds(st, op, done);
  }
}
