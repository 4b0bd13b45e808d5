/**
 Device status with a cache beside the table: reads fill the cache, a status change
 updates the row, drops the cache entry and appends to the status history.
 Calls run one after the other; history entries are saved in call order.
 */
module DeviceStatus {
  import opened Prelude

  datatype Device = Device(online: int, tenant: string, lastOffline: int, rest: string)

  /** A cached value may fail to parse; it is then as good as missing. */
  datatype Cached = Json(device: Device) | Garbage
  datatype Change = Change(device: string, tenant: string, status: int)

  datatype State = State(rows: map<string, Device>, cache: map<string, Cached>, history: seq<Change>)

  /** The device as a call sees it: the cache entry if it is readable, else the row. */
  function Seen(st: State, id: string, redisDown: bool): Option<Device> {
    if !redisDown && id in st.cache && st.cache[id].Json? then Some(st.cache[id].device) else Get(st.rows, id)
  }

  /** The row after a change: going offline also stamps the time. */
  function Switched(d: Device, status: int, now: int): Device {
    if status == 0 then d.(online := status, lastOffline := now) else d.(online := status)
  }

  datatype Faults = Faults(redisGet: bool, dbGet: bool, redisSet: bool, dbWrite: bool, redisDel: bool, save: bool)
  const NONE := Faults(false, false, false, false, false, false)

  datatype Reply = Changed | Unchanged | Failed

  class Store {
    var rows: map<string, Device>
    var cache: map<string, Cached>
    var history: seq<Change>

    ghost function View(): State
      reads this
    {
      State(rows, cache, history)
    }

    constructor (rows: map<string, Device>)
      ensures View() == State(rows, map[], [])
    {
      this.rows, cache, history := rows, map[], [];
    }

    method GetDeviceCacheById(id: string, f: Faults) returns (d: Option<Device>)
      modifies `cache
      ensures d.Some? ==> d == Seen(old(View()), id, f.redisGet)
      ensures View() == Filled(old(View()), id, f)
      ensures f == NONE ==> d == Seen(old(View()), id, false)
      ensures d.Some? ==>
                if !f.redisGet && id in old(cache) && old(cache)[id].Json? then
                  d.value == old(cache)[id].device && cache == old(cache)
                else
                  id in rows && d.value == rows[id] && cache == old(cache)[id := Json(rows[id])]
      ensures d.None? ==> cache == old(cache)
    {
      if !f.redisGet && id in cache && cache[id].Json? {
        return Some(cache[id].device);
      }
      if f.dbGet || id !in rows {
        return None;
      }
      if f.redisSet {
        return None;
      }
      cache := cache[id := Json(rows[id])];
      return Some(rows[id]);
    }

    method UpdateDeviceStatus(id: string, status: int, now: int, f: Faults) returns (r: Reply)
      modifies this
      ensures r == Answer(old(View()), id, status, f)
      ensures View() == if r.Changed? then Update(old(View()), id, status, now, f) else old(View())
      ensures r.Changed? ==>
                && id in old(rows)
                && var d := old(rows)[id];
                   rows == old(rows)[id := Device(status, d.tenant, if status == 0 then now else d.lastOffline, d.rest)]
      ensures r.Changed? ==> cache == if f.redisDel then old(cache) else old(cache) - {id}
      ensures r.Changed? ==>
                var cached := !f.redisGet && id in old(cache) && old(cache)[id].Json?;
                var tenant := if cached then old(cache)[id].device.tenant else old(rows)[id].tenant;
                history == if f.save then old(history) else old(history) + [Change(id, tenant, status)]
    {
      var device := None;
      if !f.redisGet && id in cache && cache[id].Json? {
        device := Some(cache[id].device);
      }
      if device.None? {
        if f.dbGet || id !in rows {
          return Failed;
        }
        device := Some(rows[id]);
      }
      if device.value.online == status {
        return Unchanged;
      }
      if f.dbWrite {
        return Failed;
      }
      if id !in rows {
        return Failed;  // no rows affected
      }
      rows := rows[id := Switched(rows[id], status, now)];
      if !f.redisDel {
        cache := cache - {id};
      }
      if !f.save {
        history := history + [Change(id, device.value.tenant, status)];
      }
      return Changed;
    }

    method DelDeviceCache(id: string, f: Faults) returns (ok: bool)
      modifies `cache
      ensures ok == !f.redisDel
      ensures cache == if ok then old(cache) - {id} else old(cache)
    {
      if f.redisDel {
        return false;
      }
      cache := cache - {id};
      return true;
    }
  }

  // ---------------------------------------------------------------- the calls on values

  function Filled(st: State, id: string, f: Faults): State {
    if (!f.redisGet && id in st.cache && st.cache[id].Json?) || f.dbGet || id !in st.rows || f.redisSet then st
    else st.(cache := st.cache[id := Json(st.rows[id])])
  }

  function Answer(st: State, id: string, status: int, f: Faults): Reply {
    var hit := !f.redisGet && id in st.cache && st.cache[id].Json?;
    if !hit && (f.dbGet || id !in st.rows) then Failed
    else if Seen(st, id, f.redisGet).value.online == status then Unchanged
    else if f.dbWrite || id !in st.rows then Failed
    else Changed
  }

  function Update(st: State, id: string, status: int, now: int, f: Faults): State {
    if id !in st.rows || Seen(st, id, f.redisGet).None? then st
    else State(
      st.rows[id := Switched(st.rows[id], status, now)],
      if f.redisDel then st.cache else st.cache - {id},
      if f.save then st.history else st.history + [Change(id, Seen(st, id, f.redisGet).value.tenant, status)])
  }

  /**
   The reply outright. The device is taken from the cache if it can be read there, else from
   the table; one that has the status already is left alone, any other is changed if the
   database lets it.
   */
  lemma AnswerIs(st: State, id: string, status: int, f: Faults)
    ensures var cached := !f.redisGet && id in st.cache && st.cache[id].Json?;
            && (Answer(st, id, status, f).Unchanged? <==>
                  if cached then st.cache[id].device.online == status
                  else !f.dbGet && id in st.rows && st.rows[id].online == status)
            && (Answer(st, id, status, f).Changed? <==>
                  && id in st.rows && !f.dbWrite
                  && if cached then st.cache[id].device.online != status
                     else !f.dbGet && st.rows[id].online != status)
  {
  }

  // ---------------------------------------------------------------- agreement

  /** A readable cache entry is the row. */
  ghost predicate Coherent(st: State) {
    forall id :: id in st.cache && st.cache[id].Json? ==> Get(st.rows, id) == Some(st.cache[id].device)
  }

  /** The statuses recorded for one device, in order. */
  function Statuses(h: seq<Change>, id: string): seq<int> {
    if h == [] then []
    else
      var n := |h| - 1;
      Statuses(h[..n], id) + (if h[n].device == id then [h[n].status] else [])
  }

  predicate Alternates(s: seq<int>) {
    forall i :: 0 < i < |s| ==> s[i - 1] != s[i]
  }

  /** The device's history alternates and ends with its present status. */
  ghost predicate Recorded(st: State, id: string) {
    var s := Statuses(st.history, id);
    Alternates(s) && (s != [] ==> id in st.rows && s[|s| - 1] == st.rows[id].online)
  }

  ghost predicate Agree(st: State) {
    Coherent(st) && forall id :: Recorded(st, id)
  }

  lemma OneMoreChange(h: seq<Change>, c: Change, id: string)
    ensures Statuses(h + [c], id) == Statuses(h, id) + (if c.device == id then [c.status] else [])
  {
    assert (h + [c])[..|h|] == h;
  }

  datatype Call =
    | Read(id: string, f: Faults)
    | SetStatus(id: string, status: int, now: int, f: Faults)
    | Drop(id: string, f: Faults)

  /** The state a call leaves, as the methods above state it. */
  function Do(st: State, c: Call): State {
    match c
    case Read(id, f) => Filled(st, id, f)
    case SetStatus(id, status, now, f) =>
      if Answer(st, id, status, f).Changed? then Update(st, id, status, now, f) else st
    case Drop(id, f) => if f.redisDel then st else st.(cache := st.cache - {id})
  }

  /**
   What a changing call keeps: unless a failed deletion leaves a readable entry behind, and
   unless the change is the one missing from a history, the agreement holds afterwards.
   */
  predicate Clean(st: State, c: Call)
    requires c.SetStatus?
  {
    Answer(st, c.id, c.status, c.f).Changed? ==>
      && (c.f.redisDel ==> !(c.id in st.cache && st.cache[c.id].Json?))
      && (c.f.save ==> Statuses(st.history, c.id) == [])
  }

  /** A status call keeps cache, row and history in agreement exactly then. */
  lemma StatusAgreesIff(st: State, c: Call)
    requires Agree(st) && c.SetStatus?
    ensures Agree(Do(st, c)) <==> Clean(st, c)
  {
    var st', id := Do(st, c), c.id;
    if Answer(st, id, c.status, c.f).Changed? {
      var change := Change(id, Seen(st, id, c.f.redisGet).value.tenant, c.status);
      OneMoreChange(st.history, change, id);
      assert Recorded(st, id);
      SeenIsRow(st, id, c.f.redisGet);
      assert Coherent(st') <==> (c.f.redisDel ==> !(id in st.cache && st.cache[id].Json?)) by {
        assert id in st'.cache ==> c.f.redisDel && st'.cache[id] == st.cache[id];
      }
      assert Recorded(st', id) <==> (c.f.save ==> Statuses(st.history, id) == []);
      forall i | i != id
        ensures Recorded(st', i)
      {
        assert Recorded(st, i);
        OneMoreChange(st.history, change, i);
      }
    }
  }

  /** Reads and drops always do. */
  lemma CallAgreesIff(st: State, c: Call)
    requires Agree(st)
    ensures Agree(Do(st, c)) <==> (c.SetStatus? ==> Clean(st, c))
  {
    if c.SetStatus? {
      StatusAgreesIff(st, c);
    } else {
      forall i
        ensures Recorded(Do(st, c), i)
      {
        assert Recorded(st, i);
      }
    }
  }

  lemma SeenIsRow(st: State, id: string, redisDown: bool)
    requires Coherent(st) && id in st.rows
    ensures Seen(st, id, redisDown) == Some(st.rows[id])
  {
    if id in st.cache && st.cache[id].Json? {
      assert Get(st.rows, id) == Some(st.cache[id].device);
    }
  }

  function After(rows: map<string, Device>, calls: seq<Call>): State {
    if calls == [] then State(rows, map[], []) else Do(After(rows, calls[..|calls| - 1]), calls[|calls| - 1])
  }

  /** Every status call of the run is clean where it is made. */
  predicate CleanRun(rows: map<string, Device>, calls: seq<Call>) {
    calls != [] ==>
      var before, c := calls[..|calls| - 1], calls[|calls| - 1];
      CleanRun(rows, before) && (c.SetStatus? ==> Clean(After(rows, before), c))
  }

  /** A call whose cache deletion and history save succeed is clean. */
  lemma {:induction false} FaultlessClean(rows: map<string, Device>, calls: seq<Call>)
    requires forall c :: c in calls && c.SetStatus? ==> !c.f.redisDel && !c.f.save
    ensures CleanRun(rows, calls)
  {
    if calls != [] {
      var before, c := calls[..|calls| - 1], calls[|calls| - 1];
      assert c in calls && forall d :: d in before ==> d in calls;
      FaultlessClean(rows, before);
    }
  }

  /**
   In every run of clean calls, so in every run in which cache deletions and history saves
   succeed, cached devices are their rows, every device's history alternates, and it ends
   with the device's status.
   */
  lemma {:induction false} RunAgrees(rows: map<string, Device>, calls: seq<Call>)
    requires CleanRun(rows, calls)
    ensures Agree(After(rows, calls))
  {
    if calls != [] {
      var before, c := calls[..|calls| - 1], calls[|calls| - 1];
      RunAgrees(rows, before);
      CallAgreesIff(After(rows, before), c);
    }
  }

  /** Does the row's status change in this call? */
  predicate Flips(st: State, id: string, status: int, now: int, f: Faults) {
    var st' := Do(st, SetStatus(id, status, now, f));
    id in st.rows && id in st'.rows && st'.rows[id].online != st.rows[id].online
  }

  /**
   For a known device and no database error: the reply reports exactly the actual changes
   iff a row that has the status already is seen to have it; and the row ends with the
   status asked for iff a row that has it not is seen not to have it.
   */
  lemma TruthfulIff(st: State, id: string, status: int, now: int, f: Faults)
    requires id in st.rows && !f.dbGet && !f.dbWrite
    ensures (Answer(st, id, status, f).Changed? <==> Flips(st, id, status, now, f)) <==>
            (st.rows[id].online == status ==> Seen(st, id, f.redisGet).value.online == status)
    ensures Do(st, SetStatus(id, status, now, f)).rows[id].online == status <==>
            (st.rows[id].online != status ==> Seen(st, id, f.redisGet).value.online != status)
  {
  }

  lemma CoherentTruthful(st: State, id: string, status: int, now: int, f: Faults)
    requires Coherent(st)
    ensures Answer(st, id, status, f).Changed? <==> Flips(st, id, status, now, f)
  {
    if id in st.cache && st.cache[id].Json? {
      assert Get(st.rows, id) == Some(st.cache[id].device);
    }
  }

  lemma Then(rows: map<string, Device>, calls: seq<Call>, c: Call)
    ensures After(rows, calls + [c]) == Do(After(rows, calls), c)
  {
    assert (calls + [c])[..|calls|] == calls;
  }

  const LOST := NONE.(redisDel := true)

  /** A device is cached, comes online while the cache deletion fails, and comes online again. */
  function OnlineTwice(id: string): seq<Call> {
    [] + [Read(id, NONE)] + [SetStatus(id, 1, 0, LOST)] + [SetStatus(id, 1, 0, NONE)]
  }

  /** One failed cache deletion is enough: the next call repeats a change that already happened. */
  lemma FailedDeleteRepeats(id: string, d: Device)
    requires d.online == 0
    ensures Statuses(After(map[id := d], OnlineTwice(id)).history, id) == [1, 1]
  {
    var rows := map[id := d];
    Then(rows, [], Read(id, NONE));
    Then(rows, [] + [Read(id, NONE)], SetStatus(id, 1, 0, LOST));
    Then(rows, [] + [Read(id, NONE)] + [SetStatus(id, 1, 0, LOST)], SetStatus(id, 1, 0, NONE));
    TwiceChanged(id, d);
    var change := Change(id, d.tenant, 1);
    OneMoreChange([], change, id);
    OneMoreChange([] + [change], change, id);
  }

  /** The same three calls on states. */
  lemma TwiceChanged(id: string, d: Device)
    requires d.online == 0
    ensures var change := Change(id, d.tenant, 1);
            var s1 := State(map[id := d], map[id := Json(d)], []);
            var s2 := State(map[id := d.(online := 1)], map[id := Json(d)], [] + [change]);
            && Do(State(map[id := d], map[], []), Read(id, NONE)) == s1
            && Do(s1, SetStatus(id, 1, 0, LOST)) == s2
            && Do(s2, SetStatus(id, 1, 0, NONE)).history == [] + [change] + [change]
  {
    assert map[id := d][id := d.(online := 1)] == map[id := d.(online := 1)];
  }
}
