/**
 Protocol plugins and the two dictionary tables that mirror them: each plugin has a
 dictionary row (device-type code, protocol) and a language row carrying its name.
 */
module ProtocolPlugins {
  import opened Prelude

  /** `rest` stands for the columns that are only copied. */
  datatype Plugin = Plugin(name: string, deviceType: int, protocol: string, rest: string)
  datatype Dict = Dict(code: string, value: string)
  datatype Lang = Lang(dict: string, code: string, text: string)

  datatype Tables = Tables(plugins: map<string, Plugin>, dicts: map<string, Dict>, langs: map<string, Lang>)

  const DIRECT := "DRIECT_ATTACHED_PROTOCOL"
  const GATEWAY := "GATEWAY_PROTOCOL"

  function Code(deviceType: int): string {
    if deviceType == 1 then DIRECT else GATEWAY
  }

  function Entry(p: Plugin): Dict {
    Dict(Code(p.deviceType), p.protocol)
  }

  // ---------------------------------------------------------------- what the database enforces

  ghost predicate Constraints(t: Tables) {
    && (forall d, e :: d in t.dicts && e in t.dicts && t.dicts[d] == t.dicts[e] ==> d == e)
    && (forall l :: l in t.langs ==> t.langs[l].dict in t.dicts)
    && (forall k, l ::
          k in t.langs && l in t.langs && t.langs[k].dict == t.langs[l].dict && t.langs[k].code == t.langs[l].code ==>
            k == l)
  }

  /** The plugin's dictionary row and its only language row. */
  ghost predicate Mirrors(t: Tables, p: Plugin, d: string, l: string) {
    && d in t.dicts && t.dicts[d] == Entry(p)
    && l in t.langs && t.langs[l].dict == d && t.langs[l].text == p.name
    && forall k :: k in t.langs && t.langs[k].dict == d ==> k == l
  }

  ghost predicate Mirrored(t: Tables, p: Plugin) {
    exists d, l :: Mirrors(t, p, d, l)
  }

  /** Plugins, dictionary rows and language rows agree one to one; other dictionary rows may exist beside. */
  ghost predicate Agree(t: Tables) {
    && Constraints(t)
    && (forall i :: i in t.plugins ==> Mirrored(t, t.plugins[i]))
    && (forall i, j :: i in t.plugins && j in t.plugins && Entry(t.plugins[i]) == Entry(t.plugins[j]) ==> i == j)
  }

  // ---------------------------------------------------------------- the transactions

  datatype Request =
    Request(id: string, name: string, deviceType: int, protocol: string, language: string, rest: string)
  datatype Ids = Ids(dict: string, lang: string, plugin: string)

  predicate Fresh(t: Tables, ids: Ids) {
    ids.dict !in t.dicts && ids.lang !in t.langs && ids.plugin !in t.plugins
  }

  predicate Taken(t: Tables, d: Dict) {
    d in t.dicts.Values
  }

  function PluginOf(r: Request): Plugin {
    Plugin(r.name, r.deviceType, r.protocol, r.rest)
  }

  function Created(t: Tables, r: Request, ids: Ids): Tables {
    Tables(
      t.plugins[ids.plugin := PluginOf(r)],
      t.dicts[ids.dict := Entry(PluginOf(r))],
      t.langs[ids.lang := Lang(ids.dict, r.language, r.name)])
  }

  function KeysOf(dicts: map<string, Dict>, d: Dict): set<string> {
    set k | k in dicts && dicts[k] == d
  }

  function LangsOf(langs: map<string, Lang>, d: string): set<string> {
    set l | l in langs && langs[l].dict == d
  }

  /** DELETE of a dictionary row takes its language rows along; the explicit delete finds none left. */
  function Deleted(t: Tables, id: string, d: string): Tables {
    Tables(t.plugins - {id}, t.dicts - {d}, t.langs - LangsOf(t.langs, d))
  }

  /** UPDATE from a struct: empty strings are not written. */
  function Relabel(l: Lang, r: Request): Lang {
    Lang(l.dict, if r.language != "" then r.language else l.code, if r.name != "" then r.name else l.text)
  }

  function Relabelled(langs: map<string, Lang>, d: string, r: Request): map<string, Lang> {
    map l | l in langs :: if langs[l].dict == d then Relabel(langs[l], r) else langs[l]
  }

  /** `l` is the language row found first for the dictionary row. */
  function Updated(t: Tables, r: Request, d: string, l: Lang): Tables
    requires r.id in t.plugins
  {
    var langs := if t.plugins[r.id].name != r.name || l.code != r.language then Relabelled(t.langs, d, r) else t.langs;
    Tables(t.plugins[r.id := PluginOf(r)], t.dicts[d := Entry(PluginOf(r))], langs)
  }

  /**
   Relabelling every language row of one dictionary row alike breaks the unique (row, language)
   constraint if there are several.
   */
  predicate Clashes(langs: map<string, Lang>, d: string, r: Request) {
    r.language != "" && exists k, l :: k in LangsOf(langs, d) && l in LangsOf(langs, d) && k != l
  }

  /** May this row be saved under the unique (code, value) constraint? */
  predicate Saves(t: Tables, d: string, entry: Dict) {
    KeysOf(t.dicts, entry) <= {d}
  }

  // ---------------------------------------------------------------- agreement is kept

  lemma MirrorsElsewhere(t: Tables, t': Tables, p: Plugin, d: string, l: string, dead: string)
    requires Mirrors(t, p, d, l) && d != dead
    requires forall e :: e != dead ==> Get(t'.dicts, e) == Get(t.dicts, e)
    requires forall k :: k in t'.langs && t'.langs[k].dict != dead ==> Get(t.langs, k) == Get(t'.langs, k)
    requires forall k :: k in t.langs && t.langs[k].dict != dead ==> Get(t.langs, k) == Get(t'.langs, k)
    ensures Mirrors(t', p, d, l)
  {
    assert Get(t'.dicts, d) == Get(t.dicts, d);
    assert Get(t.langs, l) == Get(t'.langs, l);
  }

  lemma CreateConstraints(t: Tables, r: Request, ids: Ids)
    requires Constraints(t) && Fresh(t, ids) && !Taken(t, Entry(PluginOf(r)))
    ensures Constraints(Created(t, r, ids))
  {
    assert forall d :: d in t.dicts ==> t.dicts[d] in t.dicts.Values;
  }

  lemma CreatedMirrors(t: Tables, r: Request, ids: Ids)
    requires Constraints(t) && Fresh(t, ids)
    ensures Mirrors(Created(t, r, ids), PluginOf(r), ids.dict, ids.lang)
  {
    assert forall l :: l in t.langs ==> t.langs[l].dict in t.dicts;
  }

  /** An earlier plugin keeps its rows, and they are not the new ones. */
  lemma CreateSpares(t: Tables, r: Request, ids: Ids, i: string)
    requires Agree(t) && Fresh(t, ids) && !Taken(t, Entry(PluginOf(r))) && i in t.plugins
    ensures Mirrored(Created(t, r, ids), t.plugins[i])
    ensures Entry(t.plugins[i]) != Entry(PluginOf(r))
  {
    var d, l :| Mirrors(t, t.plugins[i], d, l);
    MirrorsElsewhere(t, Created(t, r, ids), t.plugins[i], d, l, ids.dict);
    assert t.dicts[d] in t.dicts.Values;
  }

  lemma CreateAgrees(t: Tables, r: Request, ids: Ids)
    requires Agree(t) && Fresh(t, ids) && !Taken(t, Entry(PluginOf(r)))
    ensures Agree(Created(t, r, ids))
  {
    CreateConstraints(t, r, ids);
    CreatedMirrors(t, r, ids);
    forall i | i in t.plugins
      ensures Mirrored(Created(t, r, ids), t.plugins[i]) && Entry(t.plugins[i]) != Entry(PluginOf(r))
    {
      CreateSpares(t, r, ids, i);
    }
  }

  lemma DeleteConstraints(t: Tables, id: string, d: string)
    requires Constraints(t)
    ensures Constraints(Deleted(t, id, d))
  {
    var t' := Deleted(t, id, d);
    assert forall l :: l in t'.langs ==> l in t.langs && t'.langs[l] == t.langs[l] && t.langs[l].dict != d;
  }

  lemma DeleteSpares(t: Tables, id: string, d: string, i: string)
    requires Agree(t) && id in t.plugins && d in t.dicts && t.dicts[d] == Entry(t.plugins[id])
    requires i in t.plugins && i != id
    ensures Mirrored(Deleted(t, id, d), t.plugins[i])
  {
    var e, l :| Mirrors(t, t.plugins[i], e, l);
    assert e != d;
    MirrorsElsewhere(t, Deleted(t, id, d), t.plugins[i], e, l, d);
  }

  lemma DeleteAgrees(t: Tables, id: string, d: string)
    requires Agree(t) && id in t.plugins && d in t.dicts && t.dicts[d] == Entry(t.plugins[id])
    ensures Agree(Deleted(t, id, d))
  {
    DeleteConstraints(t, id, d);
    forall i | i in t.plugins && i != id
      ensures Mirrored(Deleted(t, id, d), t.plugins[i])
    {
      DeleteSpares(t, id, d, i);
    }
  }

  /** The updated plugin is still mirrored iff its new name is written, or was blank already. */
  lemma UpdatedMirroredIff(t: Tables, r: Request, d: string, l: string)
    requires Constraints(t) && r.id in t.plugins && Mirrors(t, t.plugins[r.id], d, l)
    requires Saves(t, d, Entry(PluginOf(r)))
    ensures Mirrored(Updated(t, r, d, t.langs[l]), PluginOf(r)) <==> r.name != "" || t.plugins[r.id].name == ""
  {
    var t' := Updated(t, r, d, t.langs[l]);
    SavesMeans(t, d, Entry(PluginOf(r)));
    assert t'.langs[l].text == if r.name != "" then r.name else t.plugins[r.id].name;
    assert forall k :: k in t'.langs ==> t'.langs[k].dict == t.langs[k].dict;
    assert Mirrors(t', PluginOf(r), d, l) <==> t'.langs[l].text == r.name;
    if e, k :| Mirrors(t', PluginOf(r), e, k) {
      assert e == d && k == l;
    }
  }

  /**
   A committed update keeps the agreement exactly when it does not try to blank the name:
   an empty name is written to the plugin but not to its language row.
   */
  lemma UpdateAgreesIff(t: Tables, r: Request, d: string, l: string)
    requires Agree(t) && r.id in t.plugins && Mirrors(t, t.plugins[r.id], d, l)
    requires Saves(t, d, Entry(PluginOf(r)))
    ensures Agree(Updated(t, r, d, t.langs[l])) <==> r.name != "" || t.plugins[r.id].name == ""
  {
    var t' := Updated(t, r, d, t.langs[l]);
    assert LangsOf(t.langs, d) == {l};
    UpdateConstraints(t, r, d, t.langs[l]);
    UpdatedMirroredIff(t, r, d, l);
    assert t'.plugins == t.plugins[r.id := PluginOf(r)];
    forall i | i in t.plugins && i != r.id
      ensures Mirrored(t', t.plugins[i]) && Entry(t.plugins[i]) != Entry(PluginOf(r))
    {
      UpdateOthers(t, r, d, l, i);
    }
    assert t'.plugins[r.id] == PluginOf(r);
  }

  /** The unique (code, value) constraint, read the other way. */
  lemma SavesMeans(t: Tables, d: string, entry: Dict)
    requires Saves(t, d, entry)
    ensures forall e :: e in t.dicts && e != d ==> t.dicts[e] != entry
  {
    forall e | e in t.dicts && t.dicts[e] == entry
      ensures e == d
    {
      assert e in KeysOf(t.dicts, entry);
    }
  }

  lemma UpdateConstraints(t: Tables, r: Request, d: string, l: Lang)
    requires Constraints(t) && r.id in t.plugins && d in t.dicts
    requires Saves(t, d, Entry(PluginOf(r))) && !Clashes(t.langs, d, r)
    ensures Constraints(Updated(t, r, d, l))
  {
    var t' := Updated(t, r, d, l);
    SavesMeans(t, d, Entry(PluginOf(r)));
    assert forall k :: k in t.langs ==> t'.langs[k].dict == t.langs[k].dict;
    assert forall k :: k in t.langs && t.langs[k].dict != d ==> t'.langs[k] == t.langs[k];
    assert forall k :: k in t.langs && t.langs[k].dict == d ==> k in LangsOf(t.langs, d);
  }

  lemma UpdateOthers(t: Tables, r: Request, d: string, l: string, i: string)
    requires Agree(t) && r.id in t.plugins && Mirrors(t, t.plugins[r.id], d, l)
    requires Saves(t, d, Entry(PluginOf(r)))
    requires i in t.plugins && i != r.id
    ensures Mirrored(Updated(t, r, d, t.langs[l]), t.plugins[i])
    ensures Entry(t.plugins[i]) != Entry(PluginOf(r))
  {
    var t' := Updated(t, r, d, t.langs[l]);
    SavesMeans(t, d, Entry(PluginOf(r)));
    var e, k :| Mirrors(t, t.plugins[i], e, k);
    assert e != d;
    MirrorsElsewhere(t, t', t.plugins[i], e, k, d);
  }

  /** Deleting a plugin that was just created restores all three tables. */
  lemma DeleteUndoesCreate(t: Tables, r: Request, ids: Ids)
    requires Agree(t) && Fresh(t, ids) && !Taken(t, Entry(PluginOf(r)))
    ensures Deleted(Created(t, r, ids), ids.plugin, ids.dict) == t
  {
    var t' := Created(t, r, ids);
    NewLangs(t, r, ids);
    NewKeyRemoved(t.langs, ids.lang, Lang(ids.dict, r.language, r.name));
    NewKeyRemoved(t.dicts, ids.dict, Entry(PluginOf(r)));
    NewKeyRemoved(t.plugins, ids.plugin, PluginOf(r));
  }

  lemma NewLangs(t: Tables, r: Request, ids: Ids)
    requires Constraints(t) && Fresh(t, ids)
    ensures LangsOf(Created(t, r, ids).langs, ids.dict) == {ids.lang}
  {
    assert forall l :: l in t.langs ==> t.langs[l].dict in t.dicts;
  }

  lemma NewKeyRemoved<K, V>(m: map<K, V>, k: K, v: V)
    requires k !in m
    ensures m[k := v] - {k} == m
  {
  }

  // ---------------------------------------------------------------- the rows outright

  /** Directly attached and gateway protocols never share a dictionary pair. */
  lemma TypesApart(p: Plugin, q: Plugin)
    requires p.deviceType == 1 && q.deviceType == 2
    ensures Entry(p) == Dict("DRIECT_ATTACHED_PROTOCOL", p.protocol) && Entry(q) == Dict("GATEWAY_PROTOCOL", q.protocol)
    ensures Entry(p) != Entry(q)
  {
    assert "DRIECT_ATTACHED_PROTOCOL"[0] == 'D' && "GATEWAY_PROTOCOL"[0] == 'G';
  }

  /** A created plugin: its own row, a dictionary row for its type and protocol, and a language row with its name. */
  lemma CreateLeaves(t: Tables, r: Request, ids: Ids)
    requires Fresh(t, ids) && (r.deviceType == 1 || r.deviceType == 2)
    ensures var t', code := Created(t, r, ids),
                            if r.deviceType == 1 then "DRIECT_ATTACHED_PROTOCOL" else "GATEWAY_PROTOCOL";
            && t'.plugins == t.plugins[ids.plugin := Plugin(r.name, r.deviceType, r.protocol, r.rest)]
            && t'.dicts == t.dicts[ids.dict := Dict(code, r.protocol)]
            && t'.langs == t.langs[ids.lang := Lang(ids.dict, r.language, r.name)]
  {
  }

  /** A deleted plugin: its row, the dictionary row of its pair and every language row of that are gone, no other. */
  lemma DeleteLeaves(t: Tables, id: string, d: string)
    ensures var t' := Deleted(t, id, d);
            && (forall i :: Get(t'.plugins, i) == if i == id then None else Get(t.plugins, i))
            && (forall e :: Get(t'.dicts, e) == if e == d then None else Get(t.dicts, e))
            && (forall l :: Get(t'.langs, l) ==
                            if l in t.langs && t.langs[l].dict == d then None else Get(t.langs, l))
  {
  }

  /**
   An updated plugin: its row takes every column asked for, its dictionary row the new pair;
   its language rows take the name and the language where these are not blank, if the name or
   the language of the first one found is to change; all other rows stay.
   */
  lemma UpdateLeaves(t: Tables, r: Request, d: string, l: Lang)
    requires r.id in t.plugins
    ensures var t', code := Updated(t, r, d, l),
                            if r.deviceType == 1 then "DRIECT_ATTACHED_PROTOCOL" else "GATEWAY_PROTOCOL";
            var relabels := t.plugins[r.id].name != r.name || l.code != r.language;
            && t'.plugins == t.plugins[r.id := Plugin(r.name, r.deviceType, r.protocol, r.rest)]
            && t'.dicts == t.dicts[d := Dict(code, r.protocol)]
            && forall k :: Get(t'.langs, k) ==
                 if k in t.langs && t.langs[k].dict == d && relabels then
                   Some(Lang(d, if r.language == "" then t.langs[k].code else r.language,
                             if r.name == "" then t.langs[k].text else r.name))
                 else Get(t.langs, k)
  {
  }

  // ---------------------------------------------------------------- runs

  datatype Call = Create(r: Request, ids: Ids) | Update(r: Request) | Delete(id: string)

  /**
   The rows an update works on: the dictionary row found for the stored plugin, which may take
   the new pair, and a language row of it.
   */
  ghost predicate Targets(t: Tables, r: Request, d: string, l: string) {
    && r.id in t.plugins && d in t.dicts && t.dicts[d] == Entry(t.plugins[r.id])
    && l in LangsOf(t.langs, d) && Saves(t, d, Entry(PluginOf(r)))
  }

  /** What a call may leave committed: nothing new, after an error or a lost commit, or its full effect. */
  ghost predicate Step(t: Tables, c: Call, t': Tables) {
    t' == t ||
    match c
    case Create(r, ids) => Fresh(t, ids) && !Taken(t, Entry(PluginOf(r))) && t' == Created(t, r, ids)
    case Update(r) => exists d, l :: Targets(t, r, d, l) && t' == Updated(t, r, d, t.langs[l])
    case Delete(id) =>
      id in t.plugins && exists d :: d in t.dicts && t.dicts[d] == Entry(t.plugins[id]) && t' == Deleted(t, id, d)
  }

  /** Under agreement the rows an update works on are the plugin's own. */
  lemma OwnRows(t: Tables, i: string, d: string, l: string)
    requires Agree(t) && i in t.plugins && d in t.dicts && t.dicts[d] == Entry(t.plugins[i]) && l in LangsOf(t.langs, d)
    ensures Mirrors(t, t.plugins[i], d, l)
  {
    var e, k :| Mirrors(t, t.plugins[i], e, k);
    assert e == d && k == l;
  }

  lemma StepAgrees(t: Tables, c: Call, t': Tables)
    requires Agree(t) && Step(t, c, t')
    requires c.Update? ==> c.r.name != ""
    ensures Agree(t')
  {
    if t' != t {
      match c
      case Create(r, ids) => CreateAgrees(t, r, ids);
      case Update(r) =>
        var d, l :| Targets(t, r, d, l) && t' == Updated(t, r, d, t.langs[l]);
        OwnRows(t, r.id, d, l);
        UpdateAgreesIff(t, r, d, l);
      case Delete(id) =>
        var d :| d in t.dicts && t.dicts[d] == Entry(t.plugins[id]) && t' == Deleted(t, id, d);
        DeleteAgrees(t, id, d);
    }
  }

  /** One recorded call and the tables committed after it. */
  datatype Event = Event(call: Call, post: Tables)

  function Final(start: Tables, events: seq<Event>): Tables {
    if events == [] then start else events[|events| - 1].post
  }

  ghost predicate Run(start: Tables, events: seq<Event>) {
    events != [] ==>
      var before, e := events[..|events| - 1], events[|events| - 1];
      Run(start, before) && Step(Final(start, before), e.call, e.post)
  }

  /** Over every run whose updates carry a name (the request's validation demands one), the three tables agree. */
  lemma {:induction false} RunAgrees(start: Tables, events: seq<Event>)
    requires Agree(start) && Run(start, events)
    requires forall e :: e in events && e.call.Update? ==> e.call.r.name != ""
    ensures Agree(Final(start, events))
  {
    if events != [] {
      var before, e := events[..|events| - 1], events[|events| - 1];
      assert e in events && forall f :: f in before ==> f in events;
      RunAgrees(start, before);
      StepAgrees(Final(start, before), e.call, e.post);
    }
  }

  // ---------------------------------------------------------------- the calls

  /** The committed tables. `faults`: the fate of the statements to come (true: the database returns an error). */
  class Database {
    var committed: Tables
    var faults: seq<bool>

    ghost predicate Valid()
      reads this
    {
      Constraints(committed)
    }

    constructor ()
      ensures Valid() && Agree(committed) && committed == Tables(map[], map[], map[]) && Quiet()
    {
      committed, faults := Tables(map[], map[], map[]), [];
    }

    ghost predicate Quiet()
      reads this
    {
      true !in faults
    }

    method Fails() returns (failed: bool)
      modifies `faults
      ensures old(Quiet()) ==> !failed && Quiet()
    {
      failed := faults != [] && faults[0];
      if faults != [] {
        faults := faults[1..];
      }
    }

    /** An error of the commit is returned to the caller here; the ids are fresh UUIDs. */
    method CreateProtocolPluginWithDict(r: Request, ids: Ids) returns (ok: bool)
      requires Valid() && Fresh(committed, ids)
      modifies this
      ensures Valid()
      ensures Step(old(committed), Create(r, ids), committed)
      ensures ok ==> (r.deviceType == 1 || r.deviceType == 2) && !Taken(old(committed), Entry(PluginOf(r)))
      ensures committed == if ok then Created(old(committed), r, ids) else old(committed)
      ensures old(Quiet()) ==>
                && Quiet()
                && (ok <==> (r.deviceType == 1 || r.deviceType == 2) && !Taken(old(committed), Entry(PluginOf(r))))
    {
      var dictCode;
      if r.deviceType == 1 {
        dictCode := DIRECT;
      } else if r.deviceType == 2 {
        dictCode := GATEWAY;
      } else {
        return false;
      }
      var failed := Fails();
      if failed {
        return false;
      }
      var tx := committed;
      var entry := Dict(dictCode, r.protocol);
      failed := Fails();
      if failed || Taken(tx, entry) {
        return false;
      }
      tx := tx.(dicts := tx.dicts[ids.dict := entry]);
      failed := Fails();
      if failed {
        return false;
      }
      tx := tx.(langs := tx.langs[ids.lang := Lang(ids.dict, r.language, r.name)]);
      failed := Fails();
      if failed {
        return false;
      }
      tx := tx.(plugins := tx.plugins[ids.plugin := PluginOf(r)]);
      failed := Fails();
      if failed {
        return false;
      }
      CreateConstraints(committed, r, ids);
      committed := tx;
      return true;
    }

    /** The commit's error is dropped, so the call reports success whether the commit fails or not. */
    method DeleteProtocolPluginWithDict(id: string, commitFails: bool) returns (ok: bool)
      requires Valid()
      modifies this
      ensures Valid()
      ensures Step(old(committed), Delete(id), committed)
      ensures !ok || commitFails ==> committed == old(committed)
      ensures ok ==> (id !in committed.plugins <==> !commitFails)
      ensures ok ==> id in old(committed).plugins && Taken(old(committed), Entry(old(committed).plugins[id]))
      ensures ok && !commitFails ==>
                exists d :: d in old(committed).dicts && old(committed).dicts[d] == Entry(old(committed).plugins[id]) &&
                            committed == Deleted(old(committed), id, d)
      ensures old(Quiet()) ==>
                && Quiet()
                && (ok <==> id in old(committed).plugins && Taken(old(committed), Entry(old(committed).plugins[id])))
    {
      var failed := Fails();
      if failed {
        return false;
      }
      var tx := committed;
      failed := Fails();
      if failed || id !in tx.plugins {
        return false;
      }
      var entry := Entry(tx.plugins[id]);
      failed := Fails();
      if failed || !Taken(tx, entry) {
        return false;
      }
      var d :| d in tx.dicts && tx.dicts[d] == entry;
      // the statement names the pair, not the row; the pair is unique
      assert KeysOf(tx.dicts, entry) == {d};
      failed := Fails();
      if failed {
        return false;
      }
      tx := tx.(dicts := tx.dicts - KeysOf(tx.dicts, entry), langs := tx.langs - LangsOf(tx.langs, d));
      failed := Fails();
      if failed {
        return false;
      }
      assert LangsOf(tx.langs, d) == {};
      tx := tx.(langs := tx.langs - LangsOf(tx.langs, d));
      failed := Fails();
      if failed {
        return false;
      }
      tx := tx.(plugins := tx.plugins - {id});
      if commitFails {
        return true;
      }
      assert tx == Deleted(committed, id, d);
      DeleteConstraints(committed, id, d);
      committed := tx;
      return true;
    }

    /** Drops the commit's error too. Returns, for the record, the dictionary row and language row it worked on. */
    method UpdateProtocolPluginWithDict(r: Request, commitFails: bool)
      returns (ok: bool, ghost d: string, ghost l: string)
      requires Valid()
      modifies this
      ensures Valid()
      ensures Step(old(committed), Update(r), committed)
      ensures !ok || commitFails ==> committed == old(committed)
      ensures ok ==> Targets(old(committed), r, d, l)
      ensures ok && !commitFails ==> committed == Updated(old(committed), r, d, old(committed).langs[l])
      ensures old(Quiet()) ==> Quiet() && (Agree(old(committed)) && Free(old(committed), r) ==> ok)
    {
      d, l := "", "";
      if Agree(committed) && Free(committed, r) {
        UpdateAdmitted(committed, r);
      }
      var failed := Fails();
      if failed {
        return false, d, l;
      }
      var tx := committed;
      failed := Fails();
      if failed || r.id !in tx.plugins {
        return false, d, l;
      }
      var before := tx.plugins[r.id];
      failed := Fails();
      if failed {
        return false, d, l;
      }
      tx := tx.(plugins := tx.plugins[r.id := PluginOf(r)]);
      var entry := Entry(before);
      failed := Fails();
      if failed || !Taken(tx, entry) {
        return false, d, l;
      }
      var row :| row in tx.dicts && tx.dicts[row] == entry;
      d := row;
      failed := Fails();
      if failed || !Saves(tx, row, Entry(PluginOf(r))) {
        return false, d, l;
      }
      tx := tx.(dicts := tx.dicts[row := Entry(PluginOf(r))]);
      failed := Fails();
      if failed || LangsOf(tx.langs, row) == {} {
        return false, d, l;
      }
      var tag :| tag in LangsOf(tx.langs, row);
      l := tag;
      if before.name != r.name || tx.langs[tag].code != r.language {
        failed := Fails();
        if failed || Clashes(tx.langs, row, r) {
          return false, d, l;
        }
        tx := tx.(langs := Relabelled(tx.langs, row, r));
      }
      if commitFails {
        return true, d, l;
      }
      UpdateCommitted(committed, r, row, tag, tx);
      committed := tx;
      return true, d, l;
    }
  }

  const ASKED := Request("p", "name", 1, "mqtt", "zh", "")
  const IDS := Ids("d", "l", "p")

  /**
   A plugin is created and then deleted, with a commit that fails: the call reports success,
   and the plugin is still there.
   */
  method LostDeleteReportsSuccess() returns (ok: bool, tables: Tables)
    ensures ok && "p" in tables.plugins && tables.plugins["p"].name == "name"
  {
    var db := new Database();
    var created := db.CreateProtocolPluginWithDict(ASKED, IDS);
    assert "d" in db.committed.dicts && db.committed.dicts["d"] in db.committed.dicts.Values;
    ok := db.DeleteProtocolPluginWithDict("p", true);
    tables := db.committed;
  }

  /** Renamed with a commit that fails, it keeps its old name, and the call reports success. */
  method LostUpdateReportsSuccess() returns (ok: bool, tables: Tables)
    ensures ok && "p" in tables.plugins && tables.plugins["p"].name == "name"
  {
    var db := new Database();
    var created := db.CreateProtocolPluginWithDict(ASKED, IDS);
    CreateAgrees(Tables(map[], map[], map[]), ASKED, IDS);
    ghost var d, l;
    ok, d, l := db.UpdateProtocolPluginWithDict(ASKED.(name := "new name"), true);
    tables := db.committed;
  }

  /** The plugin exists and no other plugin holds the pair it is moving to. */
  predicate Free(t: Tables, r: Request) {
    r.id in t.plugins && (Entry(PluginOf(r)) == Entry(t.plugins[r.id]) || !Taken(t, Entry(PluginOf(r))))
  }

  lemma UpdateAdmitted(t: Tables, r: Request)
    requires Agree(t) && Free(t, r)
    ensures Taken(t, Entry(t.plugins[r.id]))
    ensures forall d :: d in t.dicts && t.dicts[d] == Entry(t.plugins[r.id]) ==>
              Saves(t, d, Entry(PluginOf(r))) && LangsOf(t.langs, d) != {} && !Clashes(t.langs, d, r)
  {
    var e, l :| Mirrors(t, t.plugins[r.id], e, l);
    assert t.dicts[e] in t.dicts.Values;
    forall d | d in t.dicts && t.dicts[d] == Entry(t.plugins[r.id])
      ensures Saves(t, d, Entry(PluginOf(r))) && LangsOf(t.langs, d) != {} && !Clashes(t.langs, d, r)
    {
      assert d == e && l in LangsOf(t.langs, d);
      forall k | k in KeysOf(t.dicts, Entry(PluginOf(r)))
        ensures k == d
      {
        assert t.dicts[k] in t.dicts.Values;
      }
    }
  }

  lemma UpdateCommitted(t: Tables, r: Request, d: string, l: string, t': Tables)
    requires Constraints(t) && Targets(t, r, d, l) && t' == Updated(t, r, d, t.langs[l])
    requires t.plugins[r.id].name != r.name || t.langs[l].code != r.language ==> !Clashes(t.langs, d, r)
    ensures Constraints(t') && Step(t, Update(r), t')
  {
    if t.plugins[r.id].name == r.name && t.langs[l].code == r.language {
      SavesMeans(t, d, Entry(PluginOf(r)));
    } else {
      UpdateConstraints(t, r, d, t.langs[l]);
    }
  }
}
