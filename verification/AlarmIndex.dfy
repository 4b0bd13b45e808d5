/**
 What the alarm cache is for, on values: a table of groups, and lists of group ids
 under device, (alarm, device) and scene keys that mirror it.
 */
module AlarmIndex {
  import opened Prelude
  import opened IndexList

  datatype Key = DeviceKey(device: string) | AlarmKey(alarm: string, target: string) | SceneKey(scene: string)
  type Index = map<Key, seq<string>>

  datatype Group = Group(scene: string, alarms: seq<string>, devices: seq<string>, contents: seq<string>)
  const NO_GROUP := Group("", [], [], [])

  datatype State = State(groups: map<string, Group>, index: Index)

  /** The ids under a key; a missing key reads as the empty list. */
  function Ids(ix: Index, k: Key): seq<string> {
    if k in ix then ix[k] else []
  }

  predicate Proper(ix: Index) {
    forall k :: k in ix ==> ix[k] != [] && NoDup(ix[k])
  }

  function Put(ix: Index, k: Key, ids: seq<string>): Index {
    if ids == [] then ix - {k} else ix[k := ids]
  }

  function Add(ix: Index, k: Key, g: string): Index {
    if g in Ids(ix, k) then ix else ix[k := Ids(ix, k) + [g]]
  }

  function Del(ix: Index, k: Key, g: string): Index {
    Put(ix, k, Without(Ids(ix, k), g))
  }

  function AddAll(ix: Index, ks: seq<Key>, g: string): Index {
    if ks == [] then ix else Add(AddAll(ix, ks[..|ks| - 1], g), ks[|ks| - 1], g)
  }

  function DelAll(ix: Index, ks: seq<Key>, g: string): Index {
    if ks == [] then ix else Del(DelAll(ix, ks[..|ks| - 1], g), ks[|ks| - 1], g)
  }

  /** Proper indexes are determined by what their keys list. */
  lemma SameIds(ix: Index, iy: Index)
    requires Proper(ix) && Proper(iy)
    requires forall k :: Ids(ix, k) == Ids(iy, k)
    ensures ix == iy
  {
    forall k
      ensures k in ix <==> k in iy
      ensures k in ix ==> ix[k] == iy[k]
    {
      assert Ids(ix, k) == Ids(iy, k);
    }
    assert ix.Keys == iy.Keys;
  }

  lemma {:induction false} AddAllIds(ix: Index, ks: seq<Key>, g: string)
    requires Proper(ix)
    ensures Proper(AddAll(ix, ks, g))
    ensures forall k :: Ids(AddAll(ix, ks, g), k) == if k in ks then AddId(Ids(ix, k), g) else Ids(ix, k)
  {
    if ks != [] {
      AddAllIds(ix, ks[..|ks| - 1], g);
      assert ks == ks[..|ks| - 1] + [ks[|ks| - 1]];
    }
  }

  lemma {:induction false} DelAllIds(ix: Index, ks: seq<Key>, g: string)
    requires Proper(ix)
    ensures Proper(DelAll(ix, ks, g))
    ensures forall k :: Ids(DelAll(ix, ks, g), k) == if k in ks then Without(Ids(ix, k), g) else Ids(ix, k)
  {
    if ks != [] {
      var init, last := ks[..|ks| - 1], ks[|ks| - 1];
      DelAllIds(ix, init, g);
      assert ks == init + [last];
      WithoutTwice(Ids(ix, last), g);
      WithoutNoDup(Ids(DelAll(ix, init, g), last), g);
    }
  }

  // ---------------------------------------------------------------- keys of a call

  function DeviceKeys(ds: seq<string>): seq<Key> {
    if ds == [] then [] else DeviceKeys(ds[..|ds| - 1]) + [DeviceKey(ds[|ds| - 1])]
  }

  function AlarmRow(a: string, ds: seq<string>): seq<Key> {
    if ds == [] then [] else AlarmRow(a, ds[..|ds| - 1]) + [AlarmKey(a, ds[|ds| - 1])]
  }

  function AlarmKeys(alarms: seq<string>, ds: seq<string>): seq<Key> {
    if alarms == [] then [] else AlarmKeys(alarms[..|alarms| - 1], ds) + AlarmRow(alarms[|alarms| - 1], ds)
  }

  function AlarmColumn(alarms: seq<string>, d: string): seq<Key> {
    if alarms == [] then [] else AlarmColumn(alarms[..|alarms| - 1], d) + [AlarmKey(alarms[|alarms| - 1], d)]
  }

  lemma {:induction false} InDeviceKeys(ds: seq<string>)
    ensures forall k :: k in DeviceKeys(ds) <==> k.DeviceKey? && k.device in ds
  {
    if ds != [] {
      InDeviceKeys(ds[..|ds| - 1]);
      assert ds == ds[..|ds| - 1] + [ds[|ds| - 1]];
    }
  }

  lemma {:induction false} InAlarmRow(a: string, ds: seq<string>)
    ensures forall k :: k in AlarmRow(a, ds) <==> k.AlarmKey? && k.alarm == a && k.target in ds
  {
    if ds != [] {
      InAlarmRow(a, ds[..|ds| - 1]);
      assert ds == ds[..|ds| - 1] + [ds[|ds| - 1]];
    }
  }

  lemma {:induction false} InAlarmColumn(alarms: seq<string>, d: string)
    ensures forall k :: k in AlarmColumn(alarms, d) <==> k.AlarmKey? && k.alarm in alarms && k.target == d
  {
    if alarms != [] {
      InAlarmColumn(alarms[..|alarms| - 1], d);
      assert alarms == alarms[..|alarms| - 1] + [alarms[|alarms| - 1]];
    }
  }

  lemma {:induction false} InAlarmKeys(alarms: seq<string>, ds: seq<string>)
    ensures forall k :: k in AlarmKeys(alarms, ds) <==> k.AlarmKey? && k.alarm in alarms && k.target in ds
  {
    if alarms != [] {
      InAlarmKeys(alarms[..|alarms| - 1], ds);
      InAlarmRow(alarms[|alarms| - 1], ds);
      assert alarms == alarms[..|alarms| - 1] + [alarms[|alarms| - 1]];
    }
  }

  datatype Op =
    | SetDevice(group: string, scene: string, devices: seq<string>, contents: seq<string>)
    | SetAlarm(group: string, alarms: seq<string>, device: string)
    | Delete(group: string)

  function Record(st: State, g: string): Group {
    if g in st.groups then st.groups[g] else NO_GROUP
  }

  /** Does the group's own record account for its id under this key? */
  predicate Recorded(rec: Group, k: Key) {
    match k
    case DeviceKey(d) => d in rec.devices
    case AlarmKey(a, d) => a in rec.alarms && d in rec.devices
    case SceneKey(s) => s == rec.scene
  }

  /** The keys a record accounts for, in the order a delete visits them. */
  function RecordKeys(rec: Group): seq<Key> {
    AlarmKeys(rec.alarms, rec.devices) + DeviceKeys(rec.devices) + [SceneKey(rec.scene)]
  }

  /** The index keys a call visits, in the order it visits them. */
  function Visits(st: State, op: Op): seq<Key> {
    match op
    case SetDevice(g, s, ds, _) => DeviceKeys(ds) + [SceneKey(s)]
    case SetAlarm(g, alarms, d) => AlarmColumn(alarms, d)
    case Delete(g) => RecordKeys(Record(st, g))
  }

  /** Which keys those are. */
  predicate Touches(st: State, op: Op, k: Key) {
    match op
    case SetDevice(_, s, ds, _) => k == SceneKey(s) || (k.DeviceKey? && k.device in ds)
    case SetAlarm(_, alarms, d) => k.AlarmKey? && k.alarm in alarms && k.target == d
    case Delete(g) => Recorded(Record(st, g), k)
  }

  lemma InVisits(st: State, op: Op)
    ensures forall k :: k in Visits(st, op) <==> Touches(st, op, k)
  {
    match op
    case SetDevice(g, s, ds, _) => InDeviceKeys(ds);
    case SetAlarm(g, alarms, d) => InAlarmColumn(alarms, d);
    case Delete(g) =>
      var rec := Record(st, g);
      InAlarmKeys(rec.alarms, rec.devices);
      InDeviceKeys(rec.devices);
  }

  /** The group record a setting call stores. */
  function Stored(st: State, op: Op): Group
    requires !op.Delete?
  {
    match op
    case SetDevice(g, s, ds, cs) =>
      if g in st.groups then st.groups[g].(contents := cs) else Group(s, [], ds, cs)
    case SetAlarm(g, alarms, _) => Record(st, g).(alarms := alarms)
  }

  /** The state once the record is dealt with and the keys `done` have been visited. */
  function After(st: State, op: Op, done: seq<Key>): State {
    if op.Delete? then State(st.groups, DelAll(st.index, done, op.group))
    else State(st.groups[op.group := Stored(st, op)], AddAll(st.index, done, op.group))
  }

  /** The state after a call that met no Redis error. */
  function Complete(st: State, op: Op): State {
    var all := After(st, op, Visits(st, op));
    if op.Delete? then all.(groups := all.groups - {op.group}) else all
  }

  /** A call returns nil and completes, or stops at an error, before any write or after the first of its visits. */
  ghost predicate Step(st: State, op: Op, ok: bool, st': State) {
    if ok then st' == Complete(st, op)
    else
      || st' == st
      || exists done: seq<Key> :: done <= Visits(st, op) && st' == After(st, op, done)
  }

  // ---------------------------------------------------------------- invariants

  /** If the group has a record, the record accounts for every mention of the group. */
  ghost predicate AccountedFor(st: State, g: string) {
    g in st.groups ==> forall k :: g in Ids(st.index, k) ==> Recorded(st.groups[g], k)
  }

  /** So it is for every group. */
  ghost predicate Accounted(st: State) {
    Proper(st.index) && forall g :: AccountedFor(st, g)
  }

  /** No list mentions a group without a record. */
  ghost predicate NoOrphans(st: State) {
    forall k, g :: g in Ids(st.index, k) ==> g in st.groups
  }

  /** Every mention of a group in the index is accounted for by its record. */
  ghost predicate Covered(st: State) {
    Accounted(st) && NoOrphans(st)
  }

  /** Device and scene lists hold exactly the groups whose records say so. */
  ghost predicate Mirrored(st: State) {
    && Covered(st)
    && forall g, k: Key :: g in st.groups && !k.AlarmKey? && Recorded(st.groups[g], k) ==> g in Ids(st.index, k)
  }

  /** The record a call stores accounts for the keys it visits and for what already mentions its group. */
  ghost predicate Settles(st: State, op: Op) {
    op.Delete? || forall k :: Touches(st, op, k) || op.group in Ids(st.index, k) ==> Recorded(Stored(st, op), k)
  }

  lemma AfterIds(st: State, op: Op, done: seq<Key>)
    requires Proper(st.index)
    ensures Proper(After(st, op, done).index)
    ensures forall k :: Ids(After(st, op, done).index, k) ==
                        if k !in done then Ids(st.index, k)
                        else if op.Delete? then Without(Ids(st.index, k), op.group)
                        else AddId(Ids(st.index, k), op.group)
  {
    if op.Delete? {
      DelAllIds(st.index, done, op.group);
    } else {
      AddAllIds(st.index, done, op.group);
    }
  }

  /** What a visited key lists afterwards. */
  function Visited(op: Op, ids: seq<string>): seq<string> {
    if op.Delete? then Without(ids, op.group) else AddId(ids, op.group)
  }

  /** A step changes only touched keys, each in the way a completed call would. */
  lemma StepIds(st: State, op: Op, ok: bool, st': State)
    requires Proper(st.index) && Step(st, op, ok, st')
    ensures Proper(st'.index)
    ensures forall k :: Ids(st'.index, k) == Ids(st.index, k) ||
                        (Touches(st, op, k) && Ids(st'.index, k) == Visited(op, Ids(st.index, k)))
    ensures ok ==> forall k :: Touches(st, op, k) ==> Ids(st'.index, k) == Visited(op, Ids(st.index, k))
    ensures st' == st || st'.groups == if !op.Delete? then st.groups[op.group := Stored(st, op)]
                                       else if ok then st.groups - {op.group} else st.groups
  {
    if ok {
      InVisits(st, op);
      AfterIds(st, op, Visits(st, op));
    } else if st' != st {
      var done :| done <= Visits(st, op) && st' == After(st, op, done);
      InVisits(st, op);
      assert forall k :: k in done ==> k in Visits(st, op);
      AfterIds(st, op, done);
    }
  }

  /**
   A call, wherever an error cuts it short, keeps its own group's accounts if it settles, and
   every other group's anyway.
   */
  lemma StepKeepsAccount(st: State, op: Op, ok: bool, st': State, g: string)
    requires Proper(st.index) && Step(st, op, ok, st') && AccountedFor(st, g)
    requires op.group == g ==> Settles(st, op)
    ensures AccountedFor(st', g)
  {
    StepIds(st, op, ok, st');
    if g in st'.groups {
      forall k | g in Ids(st'.index, k)
        ensures Recorded(st'.groups[g], k)
      {
        if g != op.group || op.Delete? {
          assert g in Ids(st.index, k) && g in st.groups;
        } else if st' != st {
          assert Touches(st, op, k) || g in Ids(st.index, k);
        }
      }
    }
  }

  /** A completed setting call leaves its group accounted for iff it settles, from any state of the cache. */
  lemma AccountedIffSettles(st: State, op: Op)
    requires Proper(st.index) && !op.Delete?
    ensures AccountedFor(Complete(st, op), op.group) <==> Settles(st, op)
  {
    var st' := Complete(st, op);
    StepIds(st, op, true, st');
    assert st'.groups[op.group] == Stored(st, op);
    forall k
      ensures op.group in Ids(st'.index, k) <==> Touches(st, op, k) || op.group in Ids(st.index, k)
    {
    }
    if AccountedFor(st', op.group) {
      forall k | Touches(st, op, k) || op.group in Ids(st.index, k)
        ensures Recorded(Stored(st, op), k)
      {
        assert op.group in Ids(st'.index, k);
      }
    }
  }

  /** Settling calls keep full coverage. */
  lemma StepKeepsCovered(st: State, op: Op, ok: bool, st': State)
    requires Covered(st) && Settles(st, op) && Step(st, op, ok, st')
    ensures Covered(st')
  {
    StepIds(st, op, ok, st');
    forall g
      ensures AccountedFor(st', g)
    {
      StepKeepsAccount(st, op, ok, st', g);
    }
    forall k, g | g in Ids(st'.index, k)
      ensures g in st'.groups
    {
      if g != op.group || op.Delete? {
        assert g in Ids(st.index, k);
        assert AccountedFor(st, g);
      }
    }
  }

  /** Completed calls keep the device and scene lists exact iff they settle and set no alarms on an unknown group. */
  lemma CompleteMirroredIff(st: State, op: Op)
    requires Mirrored(st)
    ensures Mirrored(Complete(st, op)) <==> Settles(st, op) && (op.SetAlarm? ==> op.group in st.groups)
  {
    var st' := Complete(st, op);
    StepIds(st, op, true, st');
    assert AccountedFor(st, op.group);
    if Settles(st, op) && (op.SetAlarm? ==> op.group in st.groups) {
      StepKeepsCovered(st, op, true, st');
    } else {
      if !op.Delete? {
        AccountedIffSettles(st, op);
      }
      assert Mirrored(st') ==> AccountedFor(st', op.group);
      assert op.SetAlarm? && op.group !in st.groups ==>
          Recorded(st'.groups[op.group], SceneKey("")) && op.group !in Ids(st'.index, SceneKey(""));
    }
  }

  // ---------------------------------------------------------------- runs

  /** A call, or the expiry of any keys. */
  datatype Event = Call(op: Op, ok: bool, post: State) | Expire(post: State)

  const EMPTY := State(map[], map[])

  function Final(events: seq<Event>): State {
    FinalFrom(EMPTY, events)
  }

  /** What is left when some keys have expired. */
  ghost predicate Remnant(st: State, st': State) {
    && (forall g :: g in st'.groups ==> g in st.groups && st'.groups[g] == st.groups[g])
    && (forall k :: k in st'.index ==> k in st.index && st'.index[k] == st.index[k])
  }

  ghost predicate Next(st: State, e: Event) {
    match e
    case Call(op, ok, post) => Step(st, op, ok, post)
    case Expire(post) => Remnant(st, post)
  }

  function FinalFrom(st: State, events: seq<Event>): State {
    if events == [] then st else events[|events| - 1].post
  }

  /** Any calls, with errors anywhere, and expiries of any keys. */
  ghost predicate RunFrom(st: State, events: seq<Event>) {
    events != [] ==>
      var before, e := events[..|events| - 1], events[|events| - 1];
      RunFrom(st, before) && Next(FinalFrom(st, before), e)
  }

  ghost predicate Run(events: seq<Event>) {
    RunFrom(EMPTY, events)
  }

  /** Every call on the group settles; calls on other groups do as they please. */
  ghost predicate SettledFrom(st: State, events: seq<Event>, g: string) {
    events != [] ==>
      var before, e := events[..|events| - 1], events[|events| - 1];
      SettledFrom(st, before, g) && (e.Call? && e.op.group == g ==> Settles(FinalFrom(st, before), e.op))
  }

  ghost predicate Settled(events: seq<Event>, g: string) {
    SettledFrom(EMPTY, events, g)
  }

  /** No expiry takes a record while a list still mentions its group. */
  ghost predicate RecordsLast(events: seq<Event>) {
    forall e :: e in events && e.Expire? ==> NoOrphans(e.post)
  }

  lemma ExpiryKeepsAccount(st: State, st': State, g: string)
    requires AccountedFor(st, g) && Remnant(st, st')
    ensures AccountedFor(st', g)
  {
    if g in st'.groups {
      forall k | g in Ids(st'.index, k)
        ensures Recorded(st'.groups[g], k)
      {
        assert g in Ids(st.index, k);
      }
    }
  }

  /** An expiry leaves the index covered iff it takes no record of a group that is still mentioned. */
  lemma ExpiryCoveredIff(st: State, st': State)
    requires Covered(st) && Remnant(st, st')
    ensures Covered(st') <==> forall k, g :: g in Ids(st'.index, k) ==> g in st'.groups
  {
    forall g
      ensures AccountedFor(st', g)
    {
      assert AccountedFor(st, g);
      ExpiryKeepsAccount(st, st', g);
    }
  }

  /** In every run at all, an index key exists only with a non-empty list without duplicates. */
  lemma {:induction false} RunProper(st: State, events: seq<Event>)
    requires Proper(st.index) && RunFrom(st, events)
    ensures Proper(FinalFrom(st, events).index)
  {
    if events != [] {
      var before, e := events[..|events| - 1], events[|events| - 1];
      RunProper(st, before);
      match e
      case Call(op, ok, post) => StepIds(FinalFrom(st, before), op, ok, post);
      case Expire(post) =>
    }
  }

  /**
   In every run in which the calls on one group settle, that group's record accounts for
   every mention of it, whatever is called on other groups, fails or expires.
   */
  lemma {:induction false} RunAccountedFor(events: seq<Event>, g: string)
    requires Run(events) && Settled(events, g)
    ensures AccountedFor(Final(events), g)
  {
    if events != [] {
      var before, e := events[..|events| - 1], events[|events| - 1];
      RunAccountedFor(before, g);
      RunProper(EMPTY, before);
      match e
      case Call(op, ok, post) => StepKeepsAccount(Final(before), op, ok, post, g);
      case Expire(post) => ExpiryKeepsAccount(Final(before), post, g);
    }
  }

  /** If all calls settle and records outlive the lists that mention them, the index is covered all along. */
  lemma {:induction false} RunCovered(events: seq<Event>)
    requires Run(events) && RecordsLast(events) && forall g :: Settled(events, g)
    ensures Covered(Final(events))
  {
    if events != [] {
      var before, e := events[..|events| - 1], events[|events| - 1];
      assert e in events && forall f :: f in before ==> f in events;
      forall g
        ensures Settled(before, g)
      {
        assert Settled(events, g);
      }
      RunCovered(before);
      match e
      case Call(op, ok, post) =>
        assert Settled(events, op.group);
        StepKeepsCovered(Final(before), op, ok, post);
      case Expire(post) => ExpiryCoveredIff(Final(before), post);
    }
  }

  // ---------------------------------------------------------------- the lists as a mirror of the records

  /** One list mentions the group iff the group's record says so. */
  ghost predicate MirroredAt(st: State, g: string, k: Key) {
    g in Ids(st.index, k) <==> g in st.groups && Recorded(st.groups[g], k)
  }

  /**
   The event does not come between the group and this list: calls on the group settle and
   complete, and the two expire together.
   */
  ghost predicate Undisturbing(st: State, e: Event, g: string, k: Key) {
    match e
    case Call(op, ok, _) => op.group == g ==> ok && Settles(st, op) && (op.SetAlarm? ==> g in st.groups)
    case Expire(post) => g in Ids(st.index, k) ==> (k in post.index <==> g in post.groups)
  }

  ghost predicate Undisturbed(events: seq<Event>, g: string, k: Key) {
    events != [] ==>
      var before, e := events[..|events| - 1], events[|events| - 1];
      Undisturbed(before, g, k) && Undisturbing(Final(before), e, g, k)
  }

  lemma NextMirrored(st: State, e: Event, g: string, k: Key)
    requires Proper(st.index) && Next(st, e) && !k.AlarmKey? && MirroredAt(st, g, k) && Undisturbing(st, e, g, k)
    ensures MirroredAt(e.post, g, k)
  {
    match e
    case Call(op, ok, post) => StepIds(st, op, ok, post);
    case Expire(post) =>
  }

  /**
   A device or scene list mirrors a group's record in every run that comes between neither,
   whatever else fails or expires.
   */
  lemma {:induction false} RunMirroredAt(events: seq<Event>, g: string, k: Key)
    requires Run(events) && !k.AlarmKey? && Undisturbed(events, g, k)
    ensures MirroredAt(Final(events), g, k)
  {
    if events != [] {
      var before, e := events[..|events| - 1], events[|events| - 1];
      RunMirroredAt(before, g, k);
      RunProper(EMPTY, before);
      NextMirrored(Final(before), e, g, k);
    }
  }

  /** An expiry keeps the lists exact iff it takes no mentioned record, and no list without the records it mirrors. */
  lemma ExpiryMirroredIff(st: State, st': State)
    requires Mirrored(st) && Remnant(st, st')
    ensures Mirrored(st') <==>
            && (forall k, g :: g in Ids(st'.index, k) ==> g in st'.groups)
            && forall k: Key, g :: !k.AlarmKey? && g in Ids(st.index, k) && k !in st'.index ==> g !in st'.groups
  {
    ExpiryCoveredIff(st, st');
    if forall k: Key, g :: !k.AlarmKey? && g in Ids(st.index, k) && k !in st'.index ==> g !in st'.groups {
      forall g, k: Key | g in st'.groups && !k.AlarmKey? && Recorded(st'.groups[g], k)
        ensures g in Ids(st'.index, k)
      {
        assert g in Ids(st.index, k);
      }
    }
    if Mirrored(st') {
      forall k: Key, g | !k.AlarmKey? && g in Ids(st.index, k) && k !in st'.index
        ensures g !in st'.groups
      {
        assert AccountedFor(st, g) && Recorded(st.groups[g], k);
        assert Ids(st'.index, k) == [];
      }
    }
  }

  /** The device lists are the exact inverse of the groups' device sets. */
  ghost predicate DevicesInverse(st: State) {
    forall g, d :: g in Ids(st.index, DeviceKey(d)) <==> g in st.groups && d in st.groups[g].devices
  }

  /** The scene lists are the exact inverse of the groups' scenes. */
  ghost predicate ScenesInverse(st: State) {
    forall g, s :: g in Ids(st.index, SceneKey(s)) <==> g in st.groups && s == st.groups[g].scene
  }

  /** In undisturbed runs the device and scene lists are the exact inverse of the groups. */
  lemma RunMirrored(events: seq<Event>)
    requires Run(events) && forall g, k :: Undisturbed(events, g, k)
    ensures DevicesInverse(Final(events)) && ScenesInverse(Final(events))
  {
    var st := Final(events);
    forall g, d
      ensures g in Ids(st.index, DeviceKey(d)) <==> g in st.groups && d in st.groups[g].devices
    {
      RunMirroredAt(events, g, DeviceKey(d));
    }
    forall g, s
      ensures g in Ids(st.index, SceneKey(s)) <==> g in st.groups && s == st.groups[g].scene
    {
      RunMirroredAt(events, g, SceneKey(s));
    }
  }

  // ---------------------------------------------------------------- erasure

  ghost predicate Mentioned(ix: Index, g: string) {
    exists k :: g in Ids(ix, k)
  }

  /** The index with one group id cut out of every list. */
  function Erase(ix: Index, g: string): Index {
    map k | k in ix && Without(ix[k], g) != [] :: Without(ix[k], g)
  }

  lemma EraseIds(ix: Index, g: string)
    requires Proper(ix)
    ensures Proper(Erase(ix, g))
    ensures forall k :: Ids(Erase(ix, g), k) == Without(Ids(ix, k), g)
  {
    forall k | k in ix {
      WithoutNoDup(ix[k], g);
    }
  }

  lemma EraseUnmentioned(ix: Index, g: string)
    requires Proper(ix) && !Mentioned(ix, g)
    ensures Erase(ix, g) == ix
  {
    EraseIds(ix, g);
    forall k
      ensures Ids(Erase(ix, g), k) == Ids(ix, k)
    {
      WithoutAbsent(Ids(ix, k), g);
    }
    SameIds(Erase(ix, g), ix);
  }

  /** A completed delete cuts the id out wherever the record accounts for it, and nowhere else. */
  lemma DeleteExact(st: State, g: string)
    requires Proper(st.index)
    ensures var st' := Complete(st, Delete(g));
            && st'.groups == st.groups - {g}
            && Proper(st'.index)
            && forall k :: Ids(st'.index, k) ==
                           if Recorded(Record(st, g), k) then Without(Ids(st.index, k), g) else Ids(st.index, k)
  {
    StepIds(st, Delete(g), true, Complete(st, Delete(g)));
  }

  /** A completed delete erases the group iff every mention of it was recorded. */
  lemma DeleteErasesIff(st: State, g: string)
    requires Proper(st.index)
    ensures !Mentioned(Complete(st, Delete(g)).index, g) <==>
            forall k :: g in Ids(st.index, k) ==> Recorded(Record(st, g), k)
  {
    DeleteExact(st, g);
  }

  /** If the record accounts for every mention of its group, delete is full erasure. */
  lemma DeleteIsErase(st: State, g: string)
    requires Proper(st.index) && forall k :: g in Ids(st.index, k) ==> Recorded(Record(st, g), k)
    ensures Complete(st, Delete(g)) == State(st.groups - {g}, Erase(st.index, g))
  {
    DeleteExact(st, g);
    EraseIds(st.index, g);
    forall k
      ensures Ids(Complete(st, Delete(g)).index, k) == Without(Ids(st.index, k), g)
    {
      if g !in Ids(st.index, k) {
        WithoutAbsent(Ids(st.index, k), g);
      }
    }
    SameIds(Complete(st, Delete(g)).index, Erase(st.index, g));
  }

  /** A record that is missing reads as one of the scene "". */
  ghost predicate Forgotten(st: State, g: string) {
    g !in st.groups && forall k :: g in Ids(st.index, k) ==> k == SceneKey("")
  }

  lemma DeleteErasesAccounted(st: State, g: string)
    requires Proper(st.index) && AccountedFor(st, g)
    ensures !Mentioned(Complete(st, Delete(g)).index, g) <==> g in st.groups || Forgotten(st, g)
  {
    DeleteErasesIff(st, g);
    if g !in st.groups {
      assert forall k :: Recorded(NO_GROUP, k) <==> k == SceneKey("");
    }
  }

  /**
   In every run in which the calls on the group settle, whatever is called on other groups,
   fails or expires, a completed delete erases the group iff its record is still there to
   say where, or nothing mentions the group any more.
   */
  lemma RunDeleteErasesIff(events: seq<Event>, g: string)
    requires Run(events) && Settled(events, g)
    ensures !Mentioned(Complete(Final(events), Delete(g)).index, g) <==>
            g in Final(events).groups || Forgotten(Final(events), g)
  {
    RunProper(EMPTY, events);
    RunAccountedFor(events, g);
    DeleteErasesAccounted(Final(events), g);
  }

  /** On covered states delete is the full erasure. */
  lemma DeleteErases(st: State, g: string)
    requires Covered(st)
    ensures Complete(st, Delete(g)) == State(st.groups - {g}, Erase(st.index, g))
    ensures !Mentioned(Complete(st, Delete(g)).index, g)
    ensures forall k, h :: h != g ==> (h in Ids(Complete(st, Delete(g)).index, k) <==> h in Ids(st.index, k))
  {
    assert AccountedFor(st, g);
    DeleteIsErase(st, g);
    EraseIds(st.index, g);
  }

  /** A call on one group leaves no trace outside that group's id, errors included. */
  lemma StepInvisible(st: State, op: Op, ok: bool, st': State)
    requires Proper(st.index) && Step(st, op, ok, st')
    ensures Proper(st'.index)
    ensures st'.groups - {op.group} == st.groups - {op.group}
    ensures Erase(st'.index, op.group) == Erase(st.index, op.group)
  {
    var g := op.group;
    StepIds(st, op, ok, st');
    EraseIds(st.index, g);
    EraseIds(st'.index, g);
    forall k
      ensures Ids(Erase(st'.index, g), k) == Ids(Erase(st.index, g), k)
    {
      VisitedInvisible(op, Ids(st.index, k));
    }
    SameIds(Erase(st'.index, g), Erase(st.index, g));
  }

  lemma VisitedInvisible(op: Op, ids: seq<string>)
    ensures Without(Visited(op, ids), op.group) == Without(ids, op.group)
    ensures Visited(op, Visited(op, ids)) == Visited(op, ids)
  {
    WithoutTwice(ids, op.group);
    WithoutAppend(ids, [op.group], op.group);
    assert Without([op.group], op.group) == [];
  }

  predicate CallsOn(events: seq<Event>, g: string) {
    forall e :: e in events ==> e.Call? && e.op.group == g
  }

  /** Calls on one group leave no trace outside that group's id. */
  lemma {:induction false} RunOnGroup(st: State, g: string, events: seq<Event>)
    requires Proper(st.index) && RunFrom(st, events) && CallsOn(events, g)
    ensures Proper(FinalFrom(st, events).index)
    ensures FinalFrom(st, events).groups - {g} == st.groups - {g}
    ensures Erase(FinalFrom(st, events).index, g) == Erase(st.index, g)
  {
    if events != [] {
      var before, e := events[..|events| - 1], events[|events| - 1];
      assert e in events && forall f :: f in before ==> f in events;
      RunOnGroup(st, g, before);
      StepInvisible(FinalFrom(st, before), e.op, e.ok, e.post);
    }
  }

  lemma {:induction false} SettledAccounted(st: State, g: string, events: seq<Event>)
    requires Proper(st.index) && RunFrom(st, events) && SettledFrom(st, events, g) && AccountedFor(st, g)
    ensures AccountedFor(FinalFrom(st, events), g)
  {
    if events != [] {
      var before, e := events[..|events| - 1], events[|events| - 1];
      SettledAccounted(st, g, before);
      RunProper(st, before);
      match e
      case Call(op, ok, post) => StepKeepsAccount(FinalFrom(st, before), op, ok, post, g);
      case Expire(post) => ExpiryKeepsAccount(FinalFrom(st, before), post, g);
    }
  }

  /**
   One completed delete undoes any calls on a group that was new, wherever they failed, and
   restores the state before them, exactly when every mention they left is recorded.
   */
  lemma DeleteUndoesIff(st: State, g: string, events: seq<Event>)
    requires Proper(st.index) && g !in st.groups && !Mentioned(st.index, g)
    requires RunFrom(st, events) && CallsOn(events, g)
    ensures var end := FinalFrom(st, events);
            Complete(end, Delete(g)) == st <==> forall k :: g in Ids(end.index, k) ==> Recorded(Record(end, g), k)
  {
    var end := FinalFrom(st, events);
    RunOnGroup(st, g, events);
    DeleteErasesIff(end, g);
    UnknownErased(st, g);
    if forall k :: g in Ids(end.index, k) ==> Recorded(Record(end, g), k) {
      DeleteIsErase(end, g);
    }
  }

  /** Settling calls leave only recorded mentions, so a delete undoes them. */
  lemma DeleteUndoes(st: State, g: string, events: seq<Event>)
    requires Proper(st.index) && g !in st.groups && !Mentioned(st.index, g)
    requires RunFrom(st, events) && CallsOn(events, g) && SettledFrom(st, events, g)
    ensures Complete(FinalFrom(st, events), Delete(g)) == st
  {
    var end := FinalFrom(st, events);
    RunOnGroup(st, g, events);
    SettledAccounted(st, g, events);
    RecordedOrGone(st, g, events);
    DeleteUndoesIff(st, g, events);
  }

  /** Without expiries a group is mentioned only while it has a record. */
  lemma {:induction false} RecordedOrGone(st: State, g: string, events: seq<Event>)
    requires Proper(st.index) && g !in st.groups && !Mentioned(st.index, g)
    requires RunFrom(st, events) && CallsOn(events, g) && SettledFrom(st, events, g)
    ensures Mentioned(FinalFrom(st, events).index, g) ==> g in FinalFrom(st, events).groups
  {
    if events != [] {
      var before, e := events[..|events| - 1], events[|events| - 1];
      assert e in events && forall f :: f in before ==> f in events;
      var mid := FinalFrom(st, before);
      RecordedOrGone(st, g, before);
      RunOnGroup(st, g, before);
      SettledAccounted(st, g, before);
      StepIds(mid, e.op, e.ok, e.post);
      if e.op.Delete? && e.ok {
        assert AccountedFor(mid, g);
        DeleteErasesIff(mid, g);
      }
    }
  }

  lemma UnknownErased(st: State, g: string)
    requires Proper(st.index) && g !in st.groups && !Mentioned(st.index, g)
    ensures State(st.groups - {g}, Erase(st.index, g)) == st
  {
    EraseUnmentioned(st.index, g);
    assert st.groups - {g} == st.groups;
  }

  lemma SameVisits(st: State, op: Op, st': State)
    requires st'.groups == if op.Delete? then st.groups else st.groups[op.group := Stored(st, op)]
    ensures forall k :: Touches(st', op, k) == Touches(st, op, k)
    ensures !op.Delete? ==> Stored(st', op) == Stored(st, op)
  {
  }

  /** A completed call visits every touched key, once and for all. */
  lemma CompleteIds(st: State, op: Op, k: Key)
    requires Proper(st.index)
    ensures Ids(Complete(st, op).index, k) ==
            if Touches(st, op, k) then Visited(op, Ids(st.index, k)) else Ids(st.index, k)
  {
    StepIds(st, op, true, Complete(st, op));
  }

  lemma StepIdsAt(st: State, op: Op, ok: bool, st': State, k: Key)
    requires Proper(st.index) && Step(st, op, ok, st')
    ensures Proper(st'.index)
    ensures Ids(st'.index, k) == Ids(st.index, k) ||
            (Touches(st, op, k) && Ids(st'.index, k) == Visited(op, Ids(st.index, k)))
  {
    StepIds(st, op, ok, st');
  }

  lemma RetriedTouches(st: State, op: Op, st': State, k: Key)
    requires Proper(st.index) && Step(st, op, false, st') && st' != st
    ensures Touches(st', op, k) == Touches(st, op, k)
  {
    StepIds(st, op, false, st');
    SameVisits(st, op, st');
  }

  lemma RetriedIds(st: State, op: Op, st': State, k: Key)
    requires Proper(st.index) && Step(st, op, false, st') && st' != st
    ensures Ids(Complete(st', op).index, k) == Ids(Complete(st, op).index, k)
  {
    StepIdsAt(st, op, false, st', k);
    RetriedTouches(st, op, st', k);
    CompleteIds(st, op, k);
    CompleteIds(st', op, k);
    VisitedInvisible(op, Ids(st.index, k));
  }

  lemma CompleteProper(st: State, op: Op)
    requires Proper(st.index)
    ensures Proper(Complete(st, op).index)
  {
    StepIds(st, op, true, Complete(st, op));
  }

  lemma CompleteGroups(st: State, op: Op)
    ensures Complete(st, op).groups ==
            if op.Delete? then st.groups - {op.group} else st.groups[op.group := Stored(st, op)]
  {
  }

  lemma RetriedGroups(st: State, op: Op, st': State)
    requires Proper(st.index) && Step(st, op, false, st')
    ensures Proper(st'.index)
    ensures Complete(st', op).groups == Complete(st, op).groups
  {
    StepIds(st, op, false, st');
    CompleteGroups(st, op);
    CompleteGroups(st', op);
    if st' != st {
      SameVisits(st, op, st');
    }
  }

  /** Retrying a call that stopped at an error ends where the call would have ended. */
  lemma RetryCompletes(st: State, op: Op, st': State)
    requires Proper(st.index) && Step(st, op, false, st')
    ensures Complete(st', op) == Complete(st, op)
  {
    RetriedGroups(st, op, st');
    if st' != st {
      forall k
        ensures Ids(Complete(st', op).index, k) == Ids(Complete(st, op).index, k)
      {
        RetriedIds(st, op, st', k);
      }
      CompleteProper(st, op);
      CompleteProper(st', op);
      SameIds(Complete(st', op).index, Complete(st, op).index);
    }
  }

  // ---------------------------------------------------------------- what a call leaves in the tables

  /** The list under the key gained the id at its end, unless it was there. */
  ghost predicate Gained(ix: Index, ix': Index, k: Key, g: string) {
    k in ix' && ix'[k] == if k !in ix then [g] else if g in ix[k] then ix[k] else ix[k] + [g]
  }

  /** The list lost the id, if it was there; a list with nothing else is gone. */
  ghost predicate Lost(ix: Index, ix': Index, k: Key, g: string) {
    if k in ix && g in ix[k] then
      if |ix[k]| == 1 then k !in ix'
      else k in ix' && exists i :: 0 <= i < |ix[k]| && ix[k][i] == g && ix'[k] == ix[k][..i] + ix[k][i + 1..]
    else Get(ix', k) == Get(ix, k)
  }

  lemma GainedIds(ix: Index, ix': Index, k: Key, g: string)
    requires Proper(ix) && Proper(ix') && Ids(ix', k) == AddId(Ids(ix, k), g)
    ensures Gained(ix, ix', k, g)
  {
    assert g in Ids(ix', k);
  }

  lemma SameGot(ix: Index, ix': Index, k: Key)
    requires Proper(ix) && Proper(ix') && Ids(ix', k) == Ids(ix, k)
    ensures Get(ix', k) == Get(ix, k)
  {
  }

  lemma WithoutBetween(a: seq<string>, g: string, b: seq<string>)
    requires g !in a && g !in b
    ensures Without(a + [g] + b, g) == a + b
  {
    calc {
      Without(a + [g] + b, g);
      { WithoutAppend(a + [g], b, g); WithoutAbsent(b, g); }
      Without(a + [g], g) + b;
      { WithoutAppend(a, [g], g); WithoutAbsent(a, g); assert Without([g], g) == []; }
      a + [] + b;
    }
  }

  lemma WithoutOne(s: seq<string>, g: string) returns (i: nat)
    requires NoDup(s) && g in s
    ensures i < |s| && s[i] == g && Without(s, g) == s[..i] + s[i + 1..]
  {
    i :| 0 <= i < |s| && s[i] == g;
    assert forall j :: 0 <= j < i ==> s[j] != s[i];
    assert forall j :: i < j < |s| ==> s[i] != s[j];
    assert s == s[..i] + [g] + s[i + 1..];
    WithoutBetween(s[..i], g, s[i + 1..]);
  }

  lemma LostIds(ix: Index, ix': Index, k: Key, g: string)
    requires Proper(ix) && Proper(ix') && Ids(ix', k) == Without(Ids(ix, k), g)
    ensures Lost(ix, ix', k, g)
  {
    if k in ix && g in ix[k] {
      var i := WithoutOne(ix[k], g);
      assert |Ids(ix', k)| == |ix[k]| - 1;
    } else {
      WithoutAbsent(Ids(ix, k), g);
    }
  }

  /**
   A completed SetDevice renews the contents of a known group and stores scene, devices and
   contents of an unknown one; the device lists and the scene list gain the group, no other
   list changes.
   */
  lemma SetDeviceLeaves(st: State, g: string, s: string, ds: seq<string>, cs: seq<string>)
    requires Proper(st.index)
    ensures var st' := Complete(st, SetDevice(g, s, ds, cs));
            && g in st'.groups && st'.groups - {g} == st.groups - {g}
            && (g in st.groups ==>
                  var r := st.groups[g];
                  st'.groups[g] == Group(r.scene, r.alarms, r.devices, cs))
            && (g !in st.groups ==> st'.groups[g] == Group(s, [], ds, cs))
            && forall k :: if k == SceneKey(s) || (exists d :: d in ds && k == DeviceKey(d))
                           then Gained(st.index, st'.index, k, g) else Get(st'.index, k) == Get(st.index, k)
  {
    var op := SetDevice(g, s, ds, cs);
    var st' := Complete(st, op);
    StepIds(st, op, true, st');
    forall k
      ensures if k == SceneKey(s) || (exists d :: d in ds && k == DeviceKey(d))
              then Gained(st.index, st'.index, k, g) else Get(st'.index, k) == Get(st.index, k)
    {
      CompleteIds(st, op, k);
      if Touches(st, op, k) {
        GainedIds(st.index, st'.index, k, g);
      } else {
        SameGot(st.index, st'.index, k);
      }
    }
  }

  /**
   A completed SetAlarm replaces the record's alarm ids, keeps the rest of it, and adds the
   group to the lists of those ids on this device and to no other.
   */
  lemma SetAlarmLeaves(st: State, g: string, alarms: seq<string>, d: string)
    requires Proper(st.index)
    ensures var st' := Complete(st, SetAlarm(g, alarms, d));
            && g in st'.groups && st'.groups - {g} == st.groups - {g}
            && (g in st.groups ==>
                  var r := st.groups[g];
                  st'.groups[g] == Group(r.scene, alarms, r.devices, r.contents))
            && (g !in st.groups ==> st'.groups[g] == Group("", alarms, [], []))
            && forall k :: if exists a :: a in alarms && k == AlarmKey(a, d)
                           then Gained(st.index, st'.index, k, g) else Get(st'.index, k) == Get(st.index, k)
  {
    var op := SetAlarm(g, alarms, d);
    var st' := Complete(st, op);
    StepIds(st, op, true, st');
    forall k
      ensures if exists a :: a in alarms && k == AlarmKey(a, d)
              then Gained(st.index, st'.index, k, g) else Get(st'.index, k) == Get(st.index, k)
    {
      CompleteIds(st, op, k);
      if Touches(st, op, k) {
        assert k == AlarmKey(k.alarm, d);
        GainedIds(st.index, st'.index, k, g);
      } else {
        SameGot(st.index, st'.index, k);
      }
    }
  }

  /** What a completed delete does to one list. */
  lemma DeleteLeavesAt(st: State, g: string, k: Key)
    requires Proper(st.index)
    ensures var ix := Complete(st, Delete(g)).index;
            if Recorded(Record(st, g), k) then Lost(st.index, ix, k, g) else Get(ix, k) == Get(st.index, k)
  {
    var st' := Complete(st, Delete(g));
    DeleteExact(st, g);
    if Recorded(Record(st, g), k) {
      LostIds(st.index, st'.index, k, g);
    } else {
      SameGot(st.index, st'.index, k);
    }
  }

  /**
   A completed delete removes the record and takes the group out of the lists of its devices,
   of each of its alarm ids on each of them, and of its scene; for an unknown group only the
   scene "" is visited.
   */
  lemma DeleteLeaves(st: State, g: string)
    requires Proper(st.index)
    ensures var st' := Complete(st, Delete(g));
            var r := if g in st.groups then st.groups[g] else Group("", [], [], []);
            && st'.groups == st.groups - {g}
            && forall k :: if k == SceneKey(r.scene) || (k.DeviceKey? && k.device in r.devices) ||
                              (k.AlarmKey? && k.alarm in r.alarms && k.target in r.devices)
                           then Lost(st.index, st'.index, k, g) else Get(st'.index, k) == Get(st.index, k)
  {
    forall k {
      DeleteLeavesAt(st, g, k);
    }
  }

  /**
   A call cut short leaves every list as it was or as the completed call would, and the same
   of the records; a delete that fails takes no record away.
   */
  lemma StoppedBetween(st: State, op: Op, st': State)
    requires Proper(st.index) && Step(st, op, false, st')
    ensures st'.groups == st.groups || (!op.Delete? && st'.groups == Complete(st, op).groups)
    ensures forall k :: Get(st'.index, k) == Get(st.index, k) || Get(st'.index, k) == Get(Complete(st, op).index, k)
  {
    StepIds(st, op, false, st');
    CompleteProper(st, op);
    forall k
      ensures Get(st'.index, k) == Get(st.index, k) || Get(st'.index, k) == Get(Complete(st, op).index, k)
    {
      CompleteIds(st, op, k);
      if Ids(st'.index, k) == Ids(st.index, k) {
        SameGot(st.index, st'.index, k);
      } else {
        SameGot(Complete(st, op).index, st'.index, k);
      }
    }
  }

  /** The event stored the group's record. */
  ghost predicate Stores(st: State, e: Event, g: string) {
    e.Call? && e.op.group == g && !e.op.Delete? && (e.ok || e.post != st)
  }

  /** The calls that stored the group's record, since it last had none. */
  ghost function Life(events: seq<Event>, g: string): seq<Op> {
    if events == [] then []
    else
      var before, e := events[..|events| - 1], events[|events| - 1];
      if g !in e.post.groups then []
      else if Stores(Final(before), e, g) then Life(before, g) + [e.op]
      else Life(before, g)
  }

  /** The contents the last SetDevice brought. */
  function LastContents(ops: seq<Op>): seq<string> {
    if ops == [] then []
    else if ops[|ops| - 1].SetDevice? then ops[|ops| - 1].contents
    else LastContents(ops[..|ops| - 1])
  }

  /** The alarm ids the last SetAlarm brought. */
  function LastAlarms(ops: seq<Op>): seq<string> {
    if ops == [] then []
    else if ops[|ops| - 1].SetAlarm? then ops[|ops| - 1].alarms
    else LastAlarms(ops[..|ops| - 1])
  }

  /** The record is what these calls made of it. */
  ghost predicate MadeBy(r: Group, ops: seq<Op>) {
    && ops != []
    && (ops[0].SetDevice? ==> r.scene == ops[0].scene && r.devices == ops[0].devices)
    && (ops[0].SetAlarm? ==> r.scene == "" && r.devices == [])
    && r.contents == LastContents(ops) && r.alarms == LastAlarms(ops)
  }

  lemma MadeMore(st: State, op: Op, ops: seq<Op>)
    requires !op.Delete? && (if op.group in st.groups then MadeBy(st.groups[op.group], ops) else ops == [])
    ensures MadeBy(Stored(st, op), ops + [op])
  {
    assert (ops + [op])[..|ops|] == ops;
  }

  lemma RecordAfter(st: State, e: Event, g: string)
    requires Proper(st.index) && Next(st, e) && g in e.post.groups
    ensures if Stores(st, e, g) then e.post.groups[g] == Stored(st, e.op)
            else g in st.groups && e.post.groups[g] == st.groups[g]
  {
    if e.Call? {
      StepIds(st, e.op, e.ok, e.post);
    }
  }

  /**
   In every run, whatever fails and expires, a live record has the scene and the devices of the
   call that created it, the contents of the last SetDevice since and the alarm ids of the last
   SetAlarm since.
   */
  lemma {:induction false} RunRecord(events: seq<Event>, g: string)
    requires Run(events) && g in Final(events).groups
    ensures MadeBy(Final(events).groups[g], Life(events, g))
    ensures forall op :: op in Life(events, g) ==> op.group == g && !op.Delete?
  {
    var before, e := events[..|events| - 1], events[|events| - 1];
    var st := Final(before);
    RunProper(EMPTY, before);
    RecordAfter(st, e, g);
    if g in st.groups {
      RunRecord(before, g);
    }
    if Stores(st, e, g) {
      MadeMore(st, e.op, Life(before, g));
    }
  }

  // ---------------------------------------------------------------- when calls settle

  /** A completed setting call keeps the index covered iff it settles. */
  lemma SettingCoveredIff(st: State, op: Op)
    requires Covered(st) && !op.Delete?
    ensures Covered(Complete(st, op)) <==> Settles(st, op)
  {
    AccountedIffSettles(st, op);
    if Settles(st, op) {
      StepKeepsCovered(st, op, true, Complete(st, op));
    } else {
      assert !AccountedFor(Complete(st, op), op.group);
    }
  }

  /**
   SetDevice settles iff it brings no new device and no new scene to a known group, or if to
   an unknown one, no list mentions that group beyond what the call brings.
   */
  lemma SetDeviceSettlesIff(st: State, op: Op)
    requires AccountedFor(st, op.group) && op.SetDevice?
    ensures Settles(st, op) <==>
            if op.group in st.groups then
              op.scene == st.groups[op.group].scene && forall d :: d in op.devices ==> d in st.groups[op.group].devices
            else
              forall k :: op.group in Ids(st.index, k) ==>
                  k == SceneKey(op.scene) || (k.DeviceKey? && k.device in op.devices)
  {
    if op.group in st.groups {
      assert Touches(st, op, SceneKey(op.scene));
      if Settles(st, op) {
        assert Recorded(Stored(st, op), SceneKey(op.scene));
        forall d | d in op.devices
          ensures d in st.groups[op.group].devices
        {
          assert Touches(st, op, DeviceKey(d)) && Recorded(Stored(st, op), DeviceKey(d));
        }
      }
    } else if Settles(st, op) {
      forall k | op.group in Ids(st.index, k)
        ensures k == SceneKey(op.scene) || (k.DeviceKey? && k.device in op.devices)
      {
        assert Recorded(Stored(st, op), k);
      }
    }
  }

  /**
   SetAlarm settles iff every alarm id the group is still indexed under is in the new list
   and, unless that list is empty, the device is one of the group's; on a group without a
   record, iff the list is empty and nothing but the scene "" mentions the group.
   */
  lemma SetAlarmSettlesIff(st: State, op: Op)
    requires AccountedFor(st, op.group) && op.SetAlarm?
    ensures Settles(st, op) <==>
            if op.group in st.groups then
              && (forall a, d :: op.group in Ids(st.index, AlarmKey(a, d)) ==> a in op.alarms)
              && (op.alarms != [] ==> op.device in st.groups[op.group].devices)
            else op.alarms == [] && Forgotten(st, op.group)
  {
    var g := op.group;
    if op.alarms != [] {
      assert Touches(st, op, AlarmKey(op.alarms[0], op.device));
    }
    if Settles(st, op) {
      forall a, d | g in Ids(st.index, AlarmKey(a, d))
        ensures a in op.alarms
      {
        assert Recorded(Stored(st, op), AlarmKey(a, d));
      }
      if op.alarms != [] {
        assert Recorded(Stored(st, op), AlarmKey(op.alarms[0], op.device));
      }
      if g !in st.groups {
        forall k | g in Ids(st.index, k)
          ensures k == SceneKey("")
        {
          assert Recorded(Stored(st, op), k);
        }
      }
    } else {
      var k :| (Touches(st, op, k) || g in Ids(st.index, k)) && !Recorded(Stored(st, op), k);
      if g in st.groups && !Touches(st, op, k) {
        assert Recorded(st.groups[g], k) && k == AlarmKey(k.alarm, k.target);
      }
    }
  }

  /** On covered states: SetDevice keeps coverage iff it brings no new device and no new scene to a known group. */
  lemma SetDeviceCoveredIff(st: State, op: Op)
    requires Covered(st) && op.SetDevice?
    ensures Covered(Complete(st, op)) <==>
            (op.group in st.groups ==>
               && op.scene == st.groups[op.group].scene
               && forall d :: d in op.devices ==> d in st.groups[op.group].devices)
  {
    assert AccountedFor(st, op.group);
    SettingCoveredIff(st, op);
    SetDeviceSettlesIff(st, op);
  }

  /**
   On covered states: SetAlarm keeps coverage iff it drops no indexed alarm id and names one of
   the group's devices, if any id.
   */
  lemma SetAlarmCoveredIff(st: State, op: Op)
    requires Covered(st) && op.SetAlarm?
    ensures Covered(Complete(st, op)) <==>
            && (forall a, d :: op.group in Ids(st.index, AlarmKey(a, d)) ==> a in op.alarms)
            && (op.alarms != [] ==> op.device in Record(st, op.group).devices)
  {
    assert AccountedFor(st, op.group);
    SettingCoveredIff(st, op);
    SetAlarmSettlesIff(st, op);
  }

  const GONE := State(map[], map[DeviceKey("d") := ["g"], SceneKey("s") := ["g"]])

  lemma Extend(events: seq<Event>, e: Event, g: string)
    requires Run(events) && Next(Final(events), e)
    ensures Run(events + [e]) && Final(events + [e]) == e.post
    ensures Settled(events + [e], g) <==>
        Settled(events, g) && (e.Call? && e.op.group == g ==> Settles(Final(events), e.op))
  {
    assert (events + [e])[..|events|] == events;
  }

  /** A group is set, its record expires, it is deleted. */
  function Orphaned(): seq<Event> {
    var op := SetDevice("g", "s", ["d"], []);
    [] + [Call(op, true, Complete(EMPTY, op))] + [Expire(GONE)] + [Call(Delete("g"), true, Complete(GONE, Delete("g")))]
  }

  /** A record that expires before the lists that mention its group: a completed delete then leaves them. */
  lemma OrphanSurvivesDelete()
    ensures Run(Orphaned()) && Settled(Orphaned(), "g") && Mentioned(Final(Orphaned()).index, "g")
  {
    var op := SetDevice("g", "s", ["d"], []);
    var e1, e2 := Call(op, true, Complete(EMPTY, op)), Expire(GONE);
    OneDeviceSet();
    Extend([], e1, "g");
    Extend([] + [e1], e2, "g");
    Extend([] + [e1] + [e2], Call(Delete("g"), true, Complete(GONE, Delete("g"))), "g");
    DeleteExact(GONE, "g");
    assert "g" in Ids(Complete(GONE, Delete("g")).index, DeviceKey("d"));
  }

  /** The lists of one device and one scene, when a first group is set. */
  lemma OneListed(k: Key)
    requires k == DeviceKey("d") || k == SceneKey("s")
    ensures Ids(Complete(EMPTY, SetDevice("g", "s", ["d"], [])).index, k) == ["g"]
  {
    var op := SetDevice("g", "s", ["d"], []);
    CompleteIds(EMPTY, op, k);
    assert Touches(EMPTY, op, k);
    assert AddId([], "g") == [] + ["g"];
  }

  lemma OneDeviceSet()
    ensures Remnant(Complete(EMPTY, SetDevice("g", "s", ["d"], [])), GONE)
  {
    OneListed(DeviceKey("d"));
    OneListed(SceneKey("s"));
  }

  const FIRST := SetDevice("g", "s", ["d"], [])
  const ALARM := SetAlarm("g", ["a"], "d")

  /** A group is set, its alarm is set, its record expires alone, and it is set again as before. */
  function SetAgain(): seq<Event> {
    var s1 := Complete(EMPTY, FIRST);
    var s2 := Complete(s1, ALARM);
    var s3 := State(map[], s2.index);
    [] + [Call(FIRST, true, s1)] + [Call(ALARM, true, s2)] + [Expire(s3)] + [Call(FIRST, true, Complete(s3, FIRST))]
  }

  lemma AlarmIsListed()
    ensures var s1 := Complete(EMPTY, FIRST);
            Settles(EMPTY, FIRST) && Settles(s1, ALARM) && "g" in Ids(Complete(s1, ALARM).index, AlarmKey("a", "d"))
    ensures Proper(Complete(Complete(EMPTY, FIRST), ALARM).index)
  {
    var s1 := Complete(EMPTY, FIRST);
    StepIds(EMPTY, FIRST, true, s1);
    StepIds(s1, ALARM, true, Complete(s1, ALARM));
    assert s1.groups["g"] == Group("s", [], ["d"], []);
    assert Touches(s1, ALARM, AlarmKey("a", "d"));
    forall k | Touches(s1, ALARM, k) || "g" in Ids(s1.index, k)
      ensures Recorded(Stored(s1, ALARM), k)
    {
      assert "g" in Ids(s1.index, k) ==> Touches(EMPTY, FIRST, k);
    }
  }

  /**
   The second record knows nothing of the alarm: it is there, and a completed delete still
   leaves the group under its alarm key. The last call does not settle.
   */
  lemma ResetSurvivesDelete()
    ensures Run(SetAgain()) && "g" in Final(SetAgain()).groups
    ensures "g" in Ids(Complete(Final(SetAgain()), Delete("g")).index, AlarmKey("a", "d"))
    ensures !Settled(SetAgain(), "g") && Settled(SetAgain()[..3], "g")
  {
    var s1 := Complete(EMPTY, FIRST);
    var s2 := Complete(s1, ALARM);
    var s3 := State(map[], s2.index);
    var s4 := Complete(s3, FIRST);
    var e1, e2, e3, e4 := Call(FIRST, true, s1), Call(ALARM, true, s2), Expire(s3), Call(FIRST, true, s4);
    AlarmIsListed();
    Extend([], e1, "g");
    Extend([] + [e1], e2, "g");
    Extend([] + [e1] + [e2], e3, "g");
    Extend([] + [e1] + [e2] + [e3], e4, "g");
    assert SetAgain()[..3] == [] + [e1] + [e2] + [e3];
    StepIds(s3, FIRST, true, s4);
    assert "g" in Ids(s3.index, AlarmKey("a", "d")) && !Recorded(Stored(s3, FIRST), AlarmKey("a", "d"));
    DeleteExact(s4, "g");
  }

  /** A second SetDevice with another device: only the contents are stored, so the device's list is never cleared. */
  lemma NewDeviceSurvivesDelete()
    ensures var s1 := Complete(EMPTY, SetDevice("g", "s", ["d"], []));
            var s2 := Complete(s1, SetDevice("g", "s", ["e"], []));
            !Settles(s1, SetDevice("g", "s", ["e"], [])) && "g" in Ids(Complete(s2, Delete("g")).index, DeviceKey("e"))
  {
    var op, again := SetDevice("g", "s", ["d"], []), SetDevice("g", "s", ["e"], []);
    var s1 := Complete(EMPTY, op);
    var s2 := Complete(s1, again);
    StepIds(EMPTY, op, true, s1);
    StepIds(s1, again, true, s2);
    assert Touches(s1, again, DeviceKey("e"));
    assert "g" in Ids(s2.index, DeviceKey("e"));
    assert s2.groups["g"] == Group("s", [], ["d"], []);
    DeleteExact(s2, "g");
  }

  /** The caller's own pattern: a second SetAlarm that drops an id leaves it indexed for good. */
  lemma DroppedAlarmSurvivesDelete()
    ensures var s1 := Complete(EMPTY, SetDevice("g", "s", ["d"], []));
            var s2 := Complete(s1, SetAlarm("g", ["a"], "d"));
            var s3 := Complete(s2, SetAlarm("g", ["b"], "d"));
            "g" in Ids(Complete(s3, Delete("g")).index, AlarmKey("a", "d"))
  {
    var s1 := Complete(EMPTY, SetDevice("g", "s", ["d"], []));
    var s2 := Complete(s1, SetAlarm("g", ["a"], "d"));
    var s3 := Complete(s2, SetAlarm("g", ["b"], "d"));
    StepIds(EMPTY, SetDevice("g", "s", ["d"], []), true, s1);
    StepIds(s1, SetAlarm("g", ["a"], "d"), true, s2);
    StepIds(s2, SetAlarm("g", ["b"], "d"), true, s3);
    assert Touches(s1, SetAlarm("g", ["a"], "d"), AlarmKey("a", "d"));
    assert "g" in Ids(s3.index, AlarmKey("a", "d"));
    DeleteExact(s3, "g");
  }
}
