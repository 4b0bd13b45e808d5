/**
 Dispatch of one-time tasks by any number of workers whose steps interleave freely:
 take the lease, read the due tasks, mark them executed, release.
 */
module OneTimeTasks {
  import opened Prelude
  import opened TaskLease

  datatype Progress = NEX | EXE | EXP
  datatype Task = Task(due: nat, enabled: bool, progress: Progress)

  /**
   Where a worker stands inside the critical section. `since` records the tasks that other
   workers handed out after this one read its list.
   */
  datatype Phase = Holding | HasRead(ids: seq<string>, since: set<string>) | Wrote

  datatype State = State(
    lease: Lease,
    tasks: map<string, Task>,
    known: set<string>,          // every task id ever created
    phases: map<Worker, Phase>,
    handed: seq<string>)         // every id returned to a caller, in order

  const START := State(FREE, map[], {}, map[], [])

  datatype Step =
    | Pass(d: nat)
    | Acquire(w: Worker)
    | Query(w: Worker, limit: nat, ids: seq<string>)
    | Write(w: Worker)
    | Leave(w: Worker)           // the deferred release, on every way out
    | Die(w: Worker)
    | Create(id: string, task: Task)
    | Switch(id: string, enabled: bool)
    | SaveExpired(ids: seq<string>)
    | Remove(id: string)

  predicate Due(st: State, id: string) {
    id in st.tasks && st.tasks[id].due <= st.lease.now && st.tasks[id].enabled && st.tasks[id].progress.NEX?
  }

  function DueTime(st: State, id: string): nat {
    if id in st.tasks then st.tasks[id].due else 0
  }

  /** A result the query may give: the earliest due tasks, at most `limit` of them. */
  ghost predicate QueryResult(st: State, limit: nat, ids: seq<string>) {
    && NoDup(ids) && |ids| <= limit
    && (forall id :: id in ids ==> Due(st, id))
    && (forall i, j :: 0 <= i < j < |ids| ==> DueTime(st, ids[i]) <= DueTime(st, ids[j]))
    && (forall id :: Due(st, id) && id !in ids ==>
          |ids| == limit && forall i :: 0 <= i < |ids| ==> DueTime(st, ids[i]) <= DueTime(st, id))
  }

  ghost predicate Enabled(st: State, a: Step) {
    match a
    case Pass(_) => true
    case Acquire(w) => w !in st.phases && !Locked(st.lease)
    case Query(w, limit, ids) => w in st.phases && st.phases[w].Holding? && QueryResult(st, limit, ids)
    case Write(w) => w in st.phases && st.phases[w].HasRead? && st.phases[w].ids != []
    case Leave(w) => w in st.phases
    case Die(w) => w in st.phases
    case Create(id, task) => id !in st.known && task.progress.NEX?
    case Switch(id, _) => id in st.tasks
    case SaveExpired(_) => true
    case Remove(_) => true
  }

  function Mark(tasks: map<string, Task>, ids: seq<string>, p: Progress): map<string, Task> {
    map id | id in tasks :: if id in ids then tasks[id].(progress := p) else tasks[id]
  }

  /** The other workers learn, for the record, what was handed out after they read. */
  function Note(phases: map<Worker, Phase>, w: Worker, ids: seq<string>): map<Worker, Phase> {
    map v | v in phases ::
      if v == w then Wrote
      else if phases[v].HasRead? then HasRead(phases[v].ids, phases[v].since + (set id | id in ids))
      else phases[v]
  }

  function Do(st: State, a: Step): State {
    match a
    case Pass(d) => st.(lease := TaskLease.Pass(st.lease, d))
    case Acquire(w) => st.(lease := Take(st.lease, w), phases := st.phases[w := Holding])
    case Query(w, _, ids) => st.(phases := st.phases[w := HasRead(ids, {})])
    case Write(w) =>
      var ids := if w in st.phases && st.phases[w].HasRead? then st.phases[w].ids else [];
      st.(tasks := Mark(st.tasks, ids, EXE), phases := Note(st.phases, w, ids), handed := st.handed + ids)
    case Leave(w) => st.(lease := Release(st.lease, w), phases := st.phases - {w})
    case Die(w) => st.(lease := Crash(st.lease, w), phases := st.phases - {w})
    case Create(id, task) => st.(tasks := st.tasks[id := task], known := st.known + {id})
    case Switch(id, e) => if id in st.tasks then st.(tasks := st.tasks[id := st.tasks[id].(enabled := e)]) else st
    case SaveExpired(ids) => st.(tasks := Mark(st.tasks, ids, EXP))
    case Remove(id) => st.(tasks := st.tasks - {id})
  }

  function Final(run: seq<Step>): State {
    if run == [] then START else Do(Final(run[..|run| - 1]), run[|run| - 1])
  }

  ghost predicate Run(run: seq<Step>) {
    run != [] ==> Run(run[..|run| - 1]) && Enabled(Final(run[..|run| - 1]), run[|run| - 1])
  }

  /** Every write of the run happens before the writer's lease ends. */
  predicate WritesInTime(run: seq<Step>) {
    run != [] ==>
      var before, a := run[..|run| - 1], run[|run| - 1];
      WritesInTime(before) && (a.Write? ==> InTime(Final(before).lease, a.w))
  }

  /** Every worker that leaves the critical section alive does so before its lease ends. */
  predicate LeavesInTime(run: seq<Step>) {
    run != [] ==>
      var before, a := run[..|run| - 1], run[|run| - 1];
      LeavesInTime(before) && (a.Leave? ==> InTime(Final(before).lease, a.w))
  }

  // ---------------------------------------------------------------- every run

  /** Holds in every run, timely or not. */
  ghost predicate Sound(st: State) {
    && st.lease.deadlines.Keys == st.phases.Keys
    && (forall id :: id in st.tasks || id in st.handed ==> id in st.known)
    && (forall id :: id in st.handed && id in st.tasks ==> !st.tasks[id].progress.NEX?)
    && forall w :: w in st.phases && st.phases[w].HasRead? ==> Reading(st, st.phases[w])
  }

  /** What a worker that has read its list knows: a listed task is handed out iff that happened since. */
  ghost predicate Reading(st: State, p: Phase)
    requires p.HasRead?
  {
    && NoDup(p.ids)
    && forall id :: id in p.ids ==> id in st.known && (id in st.handed <==> id in p.since)
  }

  lemma StepSound(st: State, a: Step)
    requires Sound(st) && Enabled(st, a)
    ensures Sound(Do(st, a))
  {
    var st' := Do(st, a);
    forall w | w in st'.phases && st'.phases[w].HasRead?
      ensures Reading(st', st'.phases[w])
    {
      if a.Query? && a.w == w {
        assert forall id :: id in a.ids ==> Due(st, id);
      } else if a.Write? {
        assert w in st.phases && st.phases[w].HasRead? && Reading(st, st.phases[w]);
        assert st'.phases[w].ids == st.phases[w].ids;
      } else {
        assert st'.phases[w] == st.phases[w];
      }
    }
  }

  lemma {:induction false} RunSound(run: seq<Step>)
    requires Run(run)
    ensures Sound(Final(run))
  {
    if run != [] {
      RunSound(run[..|run| - 1]);
      StepSound(Final(run[..|run| - 1]), run[|run| - 1]);
    }
  }

  /** No step takes a task back to "not executed". */
  lemma NeverBack(st: State, a: Step, id: string)
    requires Sound(st) && Enabled(st, a) && id in st.tasks && !st.tasks[id].progress.NEX?
    ensures id in Do(st, a).tasks ==> !Do(st, a).tasks[id].progress.NEX?
  {
  }

  // ---------------------------------------------------------------- what happens to one task

  /** What each step does to the stored tasks; every task it does not speak of stays exactly as it is. */
  lemma StepLeaves(st: State, a: Step, id: string)
    requires Enabled(st, a)
    ensures match a
            case Write(w) => Get(Do(st, a).tasks, id) ==
                if id in st.tasks && id in st.phases[w].ids then Some(Task(st.tasks[id].due, st.tasks[id].enabled, EXE))
                else Get(st.tasks, id)
            case SaveExpired(ids) => Get(Do(st, a).tasks, id) ==
                if id in st.tasks && id in ids then Some(Task(st.tasks[id].due, st.tasks[id].enabled, EXP))
                else Get(st.tasks, id)
            case Switch(i, enabled) => Get(Do(st, a).tasks, id) ==
                if id == i then Some(Task(st.tasks[id].due, enabled, st.tasks[id].progress)) else Get(st.tasks, id)
            case Create(i, task) => Get(Do(st, a).tasks, id) == if id == i then Some(task) else Get(st.tasks, id)
            case Remove(i) => Get(Do(st, a).tasks, id) == if id == i then None else Get(st.tasks, id)
            case _ => Get(Do(st, a).tasks, id) == Get(st.tasks, id)
  {
  }

  /** The ids that were given to SaveExpired while they were stored. */
  ghost function Expired(run: seq<Step>): set<string> {
    if run == [] then {}
    else
      var before, a := run[..|run| - 1], run[|run| - 1];
      Expired(before) + if a.SaveExpired? then set id | id in a.ids && id in Final(before).tasks else {}
  }

  lemma {:induction false} ExpiredKnown(run: seq<Step>)
    requires Run(run)
    ensures Expired(run) <= Final(run).known
  {
    if run != [] {
      var before := run[..|run| - 1];
      ExpiredKnown(before);
      RunSound(before);
    }
  }

  /** In any run at all, a stored task is still to be executed iff it was neither handed out nor saved as expired. */
  lemma {:induction false} StillToDoIff(run: seq<Step>, id: string)
    requires Run(run) && id in Final(run).tasks
    ensures Final(run).tasks[id].progress.NEX? <==> id !in Final(run).handed && id !in Expired(run)
  {
    if run != [] {
      var before, a := run[..|run| - 1], run[|run| - 1];
      RunSound(before);
      ExpiredKnown(before);
      StepLeaves(Final(before), a, id);
      if id in Final(before).tasks {
        StillToDoIff(before, id);
      }
    }
  }

  /** What a query may return: due, enabled, unexecuted tasks, earliest first, none left out for a later one. */
  lemma QueryReturns(st: State, limit: nat, ids: seq<string>)
    requires QueryResult(st, limit, ids)
    ensures |ids| <= limit && NoDup(ids)
    ensures forall id :: id in ids ==>
              id in st.tasks && st.tasks[id].due <= st.lease.now && st.tasks[id].enabled && st.tasks[id].progress == NEX
    ensures forall i, j :: 0 <= i < j < |ids| ==> st.tasks[ids[i]].due <= st.tasks[ids[j]].due
    ensures forall id ::
              id in st.tasks && st.tasks[id].due <= st.lease.now && st.tasks[id].enabled &&
              st.tasks[id].progress == NEX && id !in ids ==>
                |ids| == limit && forall i :: 0 <= i < |ids| ==> st.tasks[ids[i]].due <= st.tasks[id].due
  {
    forall i | 0 <= i < |ids|
      ensures ids[i] in st.tasks && DueTime(st, ids[i]) == st.tasks[ids[i]].due
    {
      assert ids[i] in ids && Due(st, ids[i]);
    }
    forall id | id in st.tasks && st.tasks[id].due <= st.lease.now && st.tasks[id].enabled &&
        st.tasks[id].progress == NEX && id !in ids
      ensures |ids| == limit && forall i :: 0 <= i < |ids| ==> st.tasks[ids[i]].due <= st.tasks[id].due
    {
      assert Due(st, id) && DueTime(st, id) == st.tasks[id].due;
    }
  }

  /**
   In any run at all, a write repeats a task exactly when some other worker handed one of
   its tasks out after this worker had read its list.
   */
  lemma WriteRepeatsIff(run: seq<Step>, w: Worker)
    requires Run(run) && NoDup(Final(run).handed) && Enabled(Final(run), Write(w))
    ensures NoDup(Do(Final(run), Write(w)).handed) <==>
            forall id :: id in Final(run).phases[w].ids ==> id !in Final(run).phases[w].since
  {
    RunSound(run);
    var st := Final(run);
    assert Reading(st, st.phases[w]);
    NoDupAppend(st.handed, st.phases[w].ids);
  }

  // ---------------------------------------------------------------- timely runs

  ghost predicate Safe(st: State) {
    && Sound(st)
    && Exclusive(st.lease)
    && NoDup(st.handed)
    && forall w :: InTime(st.lease, w) && st.phases[w].HasRead? ==> st.phases[w].since == {}
  }

  lemma StepSafe(st: State, a: Step)
    requires Safe(st) && Enabled(st, a)
    requires a.Write? || a.Leave? ==> InTime(st.lease, a.w)
    ensures Safe(Do(st, a))
  {
    StepSound(st, a);
    match a {
      case Pass(d) => PassKeeps(st.lease, d);
      case Acquire(w) => TakeKeeps(st.lease, w);
      case Write(w) =>
        assert Reading(st, st.phases[w]);
        NoDupAppend(st.handed, st.phases[w].ids);
        forall v | InTime(st.lease, v)
          ensures v == w
        {
        }
      case Leave(w) =>
        ReleaseKeepsIff(st.lease, w);
        assert forall v :: InTime(Release(st.lease, w), v) ==> InTime(st.lease, v) && v != w;
      case Die(w) =>
        CrashKeeps(st.lease, w);
        assert forall v :: InTime(Crash(st.lease, w), v) ==> InTime(st.lease, v) && v != w;
      case _ =>
    }
  }

  /** No one-time task is returned twice if every worker writes and leaves before its lease ends. */
  lemma {:induction false} DispatchedOnce(run: seq<Step>)
    requires Run(run) && WritesInTime(run) && LeavesInTime(run)
    ensures Safe(Final(run)) && NoDup(Final(run).handed)
  {
    if run != [] {
      DispatchedOnce(run[..|run| - 1]);
      StepSafe(Final(run[..|run| - 1]), run[|run| - 1]);
    }
  }

  lemma Extend(run: seq<Step>, a: Step)
    requires Run(run) && Enabled(Final(run), a)
    ensures Run(run + [a]) && Final(run + [a]) == Do(Final(run), a)
    ensures WritesInTime(run + [a]) <==> WritesInTime(run) && (a.Write? ==> InTime(Final(run).lease, a.w))
    ensures LeavesInTime(run + [a]) <==> LeavesInTime(run) && (a.Leave? ==> InTime(Final(run).lease, a.w))
  {
    assert (run + [a])[..|run|] == run;
  }

  const T := map["t" := Task(0, true, NEX)]

  /** A free lease is taken and the one due task read. */
  lemma TakesAndReads(run: seq<Step>, w: Worker) returns (longer: seq<Step>)
    requires Run(run) && Final(run).tasks == T && w !in Final(run).phases && !Locked(Final(run).lease)
    ensures Run(longer)
    ensures WritesInTime(longer) <==> WritesInTime(run)
    ensures LeavesInTime(longer) <==> LeavesInTime(run)
    ensures var st := Final(run);
            Final(longer) == st.(lease := Take(st.lease, w), phases := st.phases[w := HasRead(["t"], {})])
  {
    Extend(run, Acquire(w));
    var mid := run + [Acquire(w)];
    ReadsT(Final(mid), w);
    Extend(mid, Query(w, 1, ["t"]));
    longer := mid + [Query(w, 1, ["t"])];
    TakenAndRead(Final(run), w);
  }

  lemma ReadsT(st: State, w: Worker)
    requires st.tasks == T && w in st.phases && st.phases[w] == Holding
    ensures Enabled(st, Query(w, 1, ["t"]))
  {
    assert forall id :: Due(st, id) ==> id == "t";
  }

  lemma TakenAndRead(st: State, w: Worker)
    ensures Do(Do(st, Acquire(w)), Query(w, 1, ["t"])) ==
            st.(lease := Take(st.lease, w), phases := st.phases[w := HasRead(["t"], {})])
  {
  }

  /** One due task; a first worker reads it and lets its lease run out. */
  lemma FirstReads() returns (run: seq<Step>)
    ensures Run(run) && WritesInTime(run) && LeavesInTime(run)
    ensures Final(run) == State(Lease(TTL, Some(TTL), map[1 := TTL]), T, {"t"}, map[1 := HasRead(["t"], {})], [])
  {
    var create := Create("t", Task(0, true, NEX));
    Extend([], create);
    run := [] + [create];
    run := TakesAndReads(run, 1);
    Extend(run, Pass(TTL));
    run := run + [Pass(TTL)];
  }

  /** Then a second worker takes the lease and reads the same task. */
  lemma Overrun() returns (run: seq<Step>)
    ensures Run(run) && WritesInTime(run) && LeavesInTime(run)
    ensures Final(run) == State(Lease(TTL, Some(2 * TTL), map[1 := TTL, 2 := 2 * TTL]), T, {"t"},
                                map[1 := HasRead(["t"], {}), 2 := HasRead(["t"], {})], [])
  {
    run := FirstReads();
    run := TakesAndReads(run, 2);
  }

  /** Leaving in time is not enough: a late write repeats a task. */
  lemma LateWriteRepeats() returns (run: seq<Step>)
    ensures Run(run) && LeavesInTime(run) && Final(run).handed == ["t", "t"]
  {
    run := Overrun();
    Extend(run, Write(2));
    run := run + [Write(2)];
    assert Final(run).phases[1] == HasRead(["t"], {"t"});
    Extend(run, Write(1));
    run := run + [Write(1)];
    assert Final(run).handed == ["t"] + ["t"];
  }

  /** The overdue release deletes the second worker's key. */
  lemma OverdueRelease() returns (run: seq<Step>)
    ensures Run(run) && WritesInTime(run)
    ensures Final(run) == State(Lease(TTL, None, map[2 := 2 * TTL]), T, {"t"}, map[2 := HasRead(["t"], {})], [])
  {
    run := Overrun();
    Extend(run, Leave(1));
    run := run + [Leave(1)];
  }

  /** So a third worker gets the lease while the second is still in time, and reads the same row. */
  lemma ThirdReads() returns (run: seq<Step>)
    ensures Run(run) && WritesInTime(run)
    ensures Final(run) == State(Lease(TTL, Some(2 * TTL), map[2 := 2 * TTL, 3 := 2 * TTL]), T, {"t"},
                                map[2 := HasRead(["t"], {}), 3 := HasRead(["t"], {})], [])
  {
    run := OverdueRelease();
    run := TakesAndReads(run, 3);
  }

  /** Writing in time is not enough: a late release lets a third worker in beside the second. */
  lemma LateReleaseRepeats() returns (run: seq<Step>)
    ensures Run(run) && WritesInTime(run) && Final(run).handed == ["t", "t"]
  {
    run := ThirdReads();
    Extend(run, Write(2));
    run := run + [Write(2)];
    assert Final(run).phases[3] == HasRead(["t"], {"t"});
    Extend(run, Write(3));
    run := run + [Write(3)];
    assert Final(run).handed == ["t"] + ["t"];
  }

  // ---------------------------------------------------------------- one call

  /** A call that returns tasks extends any run by four enabled steps, so what holds of runs holds of calls. */
  lemma CallExtendsRun(run: seq<Step>, w: Worker, limit: nat, ids: seq<string>)
    requires Run(run) && w !in Final(run).phases && !Locked(Final(run).lease)
    requires QueryResult(Final(run), limit, ids) && ids != []
    ensures var longer := run + [Acquire(w), Query(w, limit, ids), Write(w), Leave(w)];
            && Run(longer)
            && Final(longer) == Do(Do(Do(Do(Final(run), Acquire(w)), Query(w, limit, ids)), Write(w)), Leave(w))
            && (WritesInTime(longer) <==> WritesInTime(run))
            && (LeavesInTime(longer) <==> LeavesInTime(run))
  {
    CallReads(run, w, limit, ids);
    var mid := run + [Acquire(w)] + [Query(w, limit, ids)];
    Extend(mid, Write(w));
    Extend(mid + [Write(w)], Leave(w));
    assert run + [Acquire(w), Query(w, limit, ids), Write(w), Leave(w)] == mid + [Write(w)] + [Leave(w)];
  }

  /** Its first two steps: the lease is fresh, so the rest is in time. */
  lemma CallReads(run: seq<Step>, w: Worker, limit: nat, ids: seq<string>)
    requires Run(run) && w !in Final(run).phases && !Locked(Final(run).lease)
    requires QueryResult(Final(run), limit, ids)
    ensures var longer := run + [Acquire(w)] + [Query(w, limit, ids)];
            var st := Do(Do(Final(run), Acquire(w)), Query(w, limit, ids));
            && Run(longer) && Final(longer) == st
            && st.phases == Final(run).phases[w := HasRead(ids, {})] && InTime(st.lease, w)
            && (WritesInTime(longer) <==> WritesInTime(run))
            && (LeavesInTime(longer) <==> LeavesInTime(run))
  {
    SameResult(Final(run), w, limit, ids);
    TakenState(Final(run), w, limit, ids);
    Extend(run, Acquire(w));
    Extend(run + [Acquire(w)], Query(w, limit, ids));
  }

  lemma TakenState(st: State, w: Worker, limit: nat, ids: seq<string>)
    ensures var mid := Do(st, Acquire(w)); w in mid.phases && mid.phases[w].Holding?
    ensures var st' := Do(Do(st, Acquire(w)), Query(w, limit, ids));
            st'.phases == st.phases[w := HasRead(ids, {})] && InTime(st'.lease, w)
  {
  }

  lemma SameResult(st: State, w: Worker, limit: nat, ids: seq<string>)
    requires QueryResult(st, limit, ids)
    ensures QueryResult(Do(st, Acquire(w)), limit, ids)
  {
    var st' := Do(st, Acquire(w));
    assert forall id :: Due(st', id) <==> Due(st, id);
    assert forall id :: DueTime(st', id) == DueTime(st, id);
  }

  datatype Reply = NoLock | QueryError | Empty | WriteError | Tasks(ids: seq<string>)

  /** The shared store as one worker's call sees it, undisturbed. */
  class Store {
    var st: State

    constructor ()
      ensures st == START
    {
      st := START;
    }

    /**
     The whole call. `found` is what the query returns, or None when it fails. A call that
     does not get the lock, whether it is taken or Redis fails, changes nothing: in
     particular it does not release.
     */
    method GetOnceTaskListWithLock(w: Worker, limit: nat, redisDown: bool, found: Option<seq<string>>, writeDown: bool)
      returns (r: Reply)
      requires w !in st.phases
      requires found.Some? ==> QueryResult(st, limit, found.value)
      modifies this
      ensures r.NoLock? <==> redisDown || Locked(old(st).lease)
      ensures r.NoLock? ==> st == old(st)
      ensures !r.NoLock? ==> !Locked(st.lease) && w !in st.phases
      ensures r.Tasks? ==> found == Some(r.ids) && r.ids != [] && st.handed == old(st).handed + r.ids
      ensures r.Tasks? ==> st == Do(Do(Do(Do(old(st), Acquire(w)), Query(w, limit, r.ids)), Write(w)), Leave(w))
      ensures forall id :: Get(st.tasks, id) ==
                if r.Tasks? && id in r.ids && id in old(st).tasks
                then Some(Task(old(st).tasks[id].due, old(st).tasks[id].enabled, EXE)) else Get(old(st).tasks, id)
      ensures r.Tasks? ==> |r.ids| <= limit && forall id :: id in r.ids ==>
                id in old(st).tasks && old(st).tasks[id].due <= old(st).lease.now &&
                old(st).tasks[id].enabled && old(st).tasks[id].progress == NEX
      ensures st.known == old(st).known && st.phases.Keys == old(st).phases.Keys
      ensures !r.Tasks? ==> st.handed == old(st).handed && st.phases == old(st).phases
      ensures !r.NoLock? ==> (r.QueryError? <==> found.None?) && (r.Empty? <==> found == Some([]))
      ensures !r.NoLock? && found.Some? && found.value != [] ==> (r.Tasks? <==> !writeDown)
      ensures !r.Tasks? && !r.NoLock? ==> st == Do(Do(old(st), Acquire(w)), Leave(w))
    {
      if redisDown || Locked(st.lease) {
        return NoLock;
      }
      st := Do(st, Acquire(w));
      if found.None? {
        st := Do(st, Leave(w));
        return QueryError;
      }
      var result := found.value;
      if |result| == 0 {
        st := Do(st, Leave(w));
        return Empty;
      }
      if writeDown {
        st := Do(st, Leave(w));
        return WriteError;
      }
      var taskId: seq<string> := [];
      for i := 0 to |result|
        invariant taskId == result[..i]
      {
        taskId := taskId + [result[i]];
      }
      assert taskId == result;
      st := Do(st, Query(w, limit, taskId));
      st := Do(st, Write(w));
      st := Do(st, Leave(w));
      return Tasks(result);
    }
  }
}
