/**
 The automation cache on values. A Level is the content of one key prefix ("one" for
 single devices, "multiple" for device configurations): base entries list the scenes
 of a device, group entries hold conditions, action entries the actions of a scene.
 */
module AutomateStore {
  import opened Prelude

  datatype Kind = One | Multiple

  datatype Trigger = OneDevice(device: string) | DeviceConfig(config: string) | OtherTrigger(code: string)
  datatype Condition = Condition(id: string, scene: string, group: string, trigger: Trigger)
  datatype Action = Action(id: string, scene: string)

  datatype SceneRef = SceneRef(scene: string, groups: seq<string>)
  datatype BaseEntry = NoTask | Scenes(refs: seq<SceneRef>)
  datatype ActionEntry = ActionEntry(groups: seq<string>, actions: seq<Action>)

  datatype Level = Level(
    base: map<string, BaseEntry>,
    groups: map<string, seq<Condition>>,
    actions: map<string, ActionEntry>)

  const EMPTY := Level(map[], map[], map[])

  /** The device (or device configuration) a condition triggers on, under a prefix. */
  function Source(kind: Kind, c: Condition): Option<string> {
    match c.trigger
    case OneDevice(d) => if kind.One? then Some(d) else None
    case DeviceConfig(d) => if kind.Multiple? then Some(d) else None
    case OtherTrigger(_) => None
  }

  // ---------------------------------------------------------------- reading

  datatype SceneInfo = SceneInfo(scene: string, conditions: seq<Condition>, actions: seq<Action>)
  datatype Answer = NotFound | NotTask | Found(scenes: seq<SceneInfo>)

  function Held(groups: map<string, seq<Condition>>, g: string): seq<Condition> {
    if g in groups then groups[g] else []
  }

  /** The conditions of the listed groups, one group after the other. */
  function Flat(groups: map<string, seq<Condition>>, gs: seq<string>): seq<Condition> {
    if gs == [] then [] else Held(groups, gs[0]) + Flat(groups, gs[1..])
  }

  function ReadRef(l: Level, r: SceneRef): seq<SceneInfo> {
    if r.scene in l.actions then [SceneInfo(r.scene, Flat(l.groups, r.groups), l.actions[r.scene].actions)] else []
  }

  /** Scenes without a live action entry are skipped. */
  function ReadRefs(l: Level, refs: seq<SceneRef>): seq<SceneInfo> {
    if refs == [] then [] else ReadRef(l, refs[0]) + ReadRefs(l, refs[1..])
  }

  function Read(l: Level, d: string): Answer {
    if d !in l.base then NotFound
    else if l.base[d].NoTask? then NotTask
    else Found(ReadRefs(l, l.base[d].refs))
  }

  predicate Returns(a: Answer, s: string) {
    a.Found? && exists i :: 0 <= i < |a.scenes| && a.scenes[i].scene == s
  }

  lemma {:induction false} ReadRefsAppend(l: Level, a: seq<SceneRef>, b: seq<SceneRef>)
    ensures ReadRefs(l, a + b) == ReadRefs(l, a) + ReadRefs(l, b)
  {
    if a == [] {
      assert a + b == b;
    } else {
      assert (a + b)[1..] == a[1..] + b;
      ReadRefsAppend(l, a[1..], b);
    }
  }

  lemma {:induction false} FlatAppend(m: map<string, seq<Condition>>, a: seq<string>, b: seq<string>)
    ensures Flat(m, a + b) == Flat(m, a) + Flat(m, b)
  {
    if a == [] {
      assert a + b == b;
    } else {
      var head := Held(m, a[0]);
      FlatAppend(m, a[1..], b);
      assert Flat(m, a + b) == head + Flat(m, a[1..] + b) by {
        assert (a + b)[0] == a[0] && (a + b)[1..] == a[1..] + b;
      }
      assert Flat(m, a) == head + Flat(m, a[1..]);
    }
  }

  /** Every scene a read returns has a live action entry, and comes with its actions. */
  lemma {:induction false} ReadIsLive(l: Level, refs: seq<SceneRef>)
    ensures forall i :: 0 <= i < |ReadRefs(l, refs)| ==>
              var info := ReadRefs(l, refs)[i];
              info.scene in l.actions && info.actions == l.actions[info.scene].actions
  {
    if refs != [] {
      ReadIsLive(l, refs[1..]);
    }
  }

  // ---------------------------------------------------------------- filters of the input

  /** The conditions of the groups in `gs`, in input order. */
  function Pick(conds: seq<Condition>, gs: set<string>): seq<Condition> {
    if conds == [] then []
    else (if conds[0].group in gs then [conds[0]] else []) + Pick(conds[1..], gs)
  }

  function InGroup(conds: seq<Condition>, g: string): seq<Condition> {
    Pick(conds, {g})
  }

  function OfScene(conds: seq<Condition>, s: string): seq<Condition> {
    if conds == [] then []
    else (if conds[0].scene == s then [conds[0]] else []) + OfScene(conds[1..], s)
  }

  function ActionsOf(acts: seq<Action>, s: string): seq<Action> {
    if acts == [] then []
    else (if acts[0].scene == s then [acts[0]] else []) + ActionsOf(acts[1..], s)
  }

  lemma {:induction false} InPick(conds: seq<Condition>, gs: set<string>)
    ensures forall c :: c in Pick(conds, gs) <==> c in conds && c.group in gs
  {
    if conds != [] {
      InPick(conds[1..], gs);
    }
  }

  lemma {:induction false} InOfScene(conds: seq<Condition>, s: string)
    ensures forall c :: c in OfScene(conds, s) <==> c in conds && c.scene == s
  {
    if conds != [] {
      InOfScene(conds[1..], s);
    }
  }

  function GroupsOf(conds: seq<Condition>): set<string> {
    set c | c in conds :: c.group
  }

  /** The grouping the source builds: each group id with its conditions. */
  function Grouped(conds: seq<Condition>): map<string, seq<Condition>> {
    map g | g in GroupsOf(conds) :: InGroup(conds, g)
  }

  // ---------------------------------------------------------------- deleting a scene

  /** The list without the first entry for the scene. */
  function RemoveFirst(refs: seq<SceneRef>, s: string): seq<SceneRef> {
    if refs == [] then []
    else if refs[0].scene == s then refs[1..]
    else [refs[0]] + RemoveFirst(refs[1..], s)
  }

  /** Devices triggering the given groups, by their cached conditions. */
  function Sources(kind: Kind, groups: map<string, seq<Condition>>, gs: seq<string>): set<string> {
    set c | c in Flat(groups, gs) && Source(kind, c).Some? :: Source(kind, c).value
  }

  /** A list left empty is stored back; any other list is dropped from the cache. */
  function BaseAfterDelete(b: BaseEntry, s: string): Option<BaseEntry> {
    if b.NoTask? then Some(b)
    else if RemoveFirst(b.refs, s) == [] then Some(Scenes([]))
    else None
  }

  function BaseAfter(base: map<string, BaseEntry>, ds: set<string>, s: string): map<string, BaseEntry> {
    map d | d in base && (d in ds ==> BaseAfterDelete(base[d], s).Some?) ::
      if d in ds then BaseAfterDelete(base[d], s).value else base[d]
  }

  function AfterDelete(kind: Kind, l: Level, s: string): Level {
    if s !in l.actions then l
    else
      var gs := l.actions[s].groups;
      Level(BaseAfter(l.base, Sources(kind, l.groups, gs), s), l.groups - (set g | g in gs), l.actions - {s})
  }

  // ---------------------------------------------------------------- setting one scene

  function Triggers(kind: Kind, conds: seq<Condition>): set<string> {
    set c | c in conds && Source(kind, c).Some? :: Source(kind, c).value
  }

  /** The groups that hold a condition of the prefix's trigger type. */
  function Relevant(kind: Kind, conds: seq<Condition>): set<string> {
    set c | c in conds && Source(kind, c).Some? :: c.group
  }

  /** `gs` lists the members of `s` once each, in some order: a map iteration. */
  ghost predicate Lists(gs: seq<string>, s: set<string>) {
    NoDup(gs) && forall g :: g in gs <==> g in s
  }

  function OldRefs(base: map<string, BaseEntry>, d: string): seq<SceneRef> {
    if d in base && base[d].Scenes? then base[d].refs else []
  }

  /** The group entries for the listed groups. */
  function GroupEntries(conds: seq<Condition>, gs: seq<string>): map<string, seq<Condition>> {
    map g | g in gs :: InGroup(conds, g)
  }

  /** `order` is the order in which the relevant groups came out of the map. */
  function AfterSet(kind: Kind, l: Level, s: string, conds: seq<Condition>, acts: seq<Action>,
        order: seq<string>): Level {
    var ds := Triggers(kind, conds);
    if ds == {} then l
    else Level(
      map d | d in l.base.Keys + ds :: if d in ds then Scenes(OldRefs(l.base, d) + [SceneRef(s, order)]) else l.base[d],
      l.groups + GroupEntries(conds, order),
      l.actions[s := ActionEntry(order, acts)])
  }

  // ---------------------------------------------------------------- filling one device

  function ScenesOf(conds: seq<Condition>): set<string> {
    set c | c in conds :: c.scene
  }

  function ActingScenes(acts: seq<Action>): set<string> {
    set a | a in acts :: a.scene
  }

  function SceneNames(refs: seq<SceneRef>): (names: seq<string>)
    ensures |names| == |refs| && forall i :: 0 <= i < |refs| ==> names[i] == refs[i].scene
  {
    seq(|refs|, i requires 0 <= i < |refs| => refs[i].scene)
  }

  /** The scenes with an action and a condition, each with its groups; both in map order. */
  ghost predicate FillOrder(conds: seq<Condition>, acts: seq<Action>, refs: seq<SceneRef>) {
    && Lists(SceneNames(refs), ActingScenes(acts) * ScenesOf(conds))
    && forall r :: r in refs ==> Lists(r.groups, GroupsOf(OfScene(conds, r.scene)))
  }

  function FillActions(acts: seq<Action>, refs: seq<SceneRef>): map<string, ActionEntry> {
    if refs == [] then map[]
    else
      var r := refs[|refs| - 1];
      FillActions(acts, refs[..|refs| - 1])[r.scene := ActionEntry(r.groups, ActionsOf(acts, r.scene))]
  }

  function AfterFill(l: Level, d: string, conds: seq<Condition>, acts: seq<Action>, refs: seq<SceneRef>): Level {
    Level(l.base[d := Scenes(refs)], l.groups + Grouped(conds), l.actions + FillActions(acts, refs))
  }
}
