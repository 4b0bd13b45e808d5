/**
 Dispatch of periodic tasks under the same kind of lease. A worker walks its list one row
 at a time: compute the next execution time, keep the row for the caller, store the time.
 A missing time stands for Go's zero time: such a row is due, is rescheduled, and is not
 returned. Times are nanoseconds of the scheduler's zone.
 */
module PeriodicTasks {
  import opened Prelude
  import opened TaskLease
  import NextTime

  datatype Task = Task(due: Option<nat>, enabled: bool)
  datatype Row = Row(id: string, due: Option<nat>)

  /** `since` records the rows that other workers returned after this one read its list. */
  datatype Phase = Holding | Walking(todo: seq<Row>, out: seq<Row>, since: set<Row>)

  datatype State = State(
    lease: Lease,
    tasks: map<string, Task>,
    known: set<string>,          // every task id ever created
    phases: map<Worker, Phase>,
    returned: seq<Row>)          // every row returned with a nil error, in order

  const START := State(FREE, map[], {}, map[], [])

  datatype Step =
    | Pass(d: nat)
    | Acquire(w: Worker)
    | Query(w: Worker, rows: seq<Row>)
    | Walk(w: Worker, next: Option<nat>, written: bool)
    | Finish(w: Worker)          // return the rows and release
    | Fail(w: Worker)            // return an error and release
    | Die(w: Worker)
    | Create(id: string, task: Task)
    | Switch(id: string, enabled: bool)
    | Remove(id: string)

  predicate Due(st: State, r: Row) {
    && r.id in st.tasks && st.tasks[r.id].due == r.due && st.tasks[r.id].enabled
    && (r.due.Some? ==> r.due.value <= st.lease.now)
  }

  predicate DistinctIds(rows: seq<Row>) {
    forall i, j :: 0 <= i < j < |rows| ==> rows[i].id != rows[j].id
  }

  predicate AtWork(st: State, w: Worker) {
    w in st.phases && st.phases[w].Walking?
  }

  ghost predicate Enabled(st: State, a: Step) {
    match a
    case Pass(_) => true
    case Acquire(w) => w !in st.phases && !Locked(st.lease)
    case Query(w, rows) =>
      && w in st.phases && st.phases[w].Holding?
      && DistinctIds(rows) && forall r :: r in rows ==> Due(st, r)
    case Walk(w, next, _) =>
      // the scheduler's answer is the zero time or does not lie in the past
      && AtWork(st, w) && st.phases[w].todo != []
      && (next.Some? ==> st.lease.now <= next.value)
    case Finish(w) => AtWork(st, w) && st.phases[w].todo == []
    case Fail(w) => w in st.phases
    case Die(w) => w in st.phases
    case Create(id, _) => id !in st.known
    case Switch(id, _) => id in st.tasks
    case Remove(_) => true
  }

  function Reschedule(tasks: map<string, Task>, id: string, next: Option<nat>): map<string, Task> {
    if id in tasks then tasks[id := tasks[id].(due := next)] else tasks
  }

  /** The other workers learn, for the record, what was returned after they read. */
  function Note(phases: map<Worker, Phase>, rows: seq<Row>): map<Worker, Phase> {
    map v | v in phases ::
      if phases[v].Walking? then phases[v].(since := phases[v].since + (set r | r in rows)) else phases[v]
  }

  function Keep(out: seq<Row>, r: Row): seq<Row> {
    if r.due.Some? then out + [r] else out
  }

  function Do(st: State, a: Step): State {
    match a
    case Pass(d) => st.(lease := TaskLease.Pass(st.lease, d))
    case Acquire(w) => st.(lease := Take(st.lease, w), phases := st.phases[w := Holding])
    case Query(w, rows) => st.(phases := st.phases[w := Walking(rows, [], {})])
    case Walk(w, next, written) =>
      if AtWork(st, w) && st.phases[w].todo != [] then
        var p := st.phases[w];
        var r := p.todo[0];
        st.(tasks := if written then Reschedule(st.tasks, r.id, next) else st.tasks,
            phases := st.phases[w := Walking(p.todo[1..], Keep(p.out, r), p.since)])
      else st
    case Finish(w) =>
      var out := if AtWork(st, w) then st.phases[w].out else [];
      st.(lease := Release(st.lease, w), phases := Note(st.phases - {w}, out), returned := st.returned + out)
    case Fail(w) => st.(lease := Release(st.lease, w), phases := st.phases - {w})
    case Die(w) => st.(lease := Crash(st.lease, w), phases := st.phases - {w})
    case Create(id, task) => st.(tasks := st.tasks[id := task], known := st.known + {id})
    case Switch(id, e) => if id in st.tasks then st.(tasks := st.tasks[id := st.tasks[id].(enabled := e)]) else st
    case Remove(id) => st.(tasks := st.tasks - {id})
  }

  function Final(run: seq<Step>): State {
    if run == [] then START else Do(Final(run[..|run| - 1]), run[|run| - 1])
  }

  ghost predicate Run(run: seq<Step>) {
    run != [] ==> Run(run[..|run| - 1]) && Enabled(Final(run[..|run| - 1]), run[|run| - 1])
  }

  /** What each step does to the stored tasks; a task it does not speak of stays exactly as it is. */
  lemma StepLeaves(st: State, a: Step, id: string)
    requires Enabled(st, a)
    ensures match a
            case Walk(w, next, written) => Get(Do(st, a).tasks, id) ==
                if written && id in st.tasks && id == st.phases[w].todo[0].id
                then Some(Task(next, st.tasks[id].enabled))
                else Get(st.tasks, id)
            case Switch(i, enabled) => Get(Do(st, a).tasks, id) ==
                if id == i then Some(Task(st.tasks[id].due, enabled)) else Get(st.tasks, id)
            case Create(i, task) => Get(Do(st, a).tasks, id) == if id == i then Some(task) else Get(st.tasks, id)
            case Remove(i) => Get(Do(st, a).tasks, id) == if id == i then None else Get(st.tasks, id)
            case _ => Get(Do(st, a).tasks, id) == Get(st.tasks, id)
  {
  }

  // ---------------------------------------------------------------- walks that make a row due again

  /** The row was returned, or is kept by a worker that will return it. */
  ghost predicate Kept(st: State, q: Row) {
    q in st.returned || exists w :: AtWork(st, w) && q in st.phases[w].out
  }

  /** The walk leaves its task due at the time of a row that is kept: its own, or an earlier one. */
  ghost predicate Reopens(st: State, a: Step)
    requires Enabled(st, a)
  {
    a.Walk? &&
    var r := st.phases[a.w].todo[0];
    && r.id in st.tasks
    && var due := if a.written then a.next else st.tasks[r.id].due;
       due.Some? && (due == r.due || (a.written && Kept(st, Row(r.id, due))))
  }

  /** The time stored for the row's task has moved past the row. */
  predicate Past(st: State, q: Row) {
    && q.id in st.known && q.due.Some? && q.due.value <= st.lease.now
    && (q.id in st.tasks ==> st.tasks[q.id].due.None? || q.due.value < st.tasks[q.id].due.value)
  }

  /** A row still to be walked: the stored time is the row's or a later one. */
  predicate Reached(st: State, r: Row) {
    && r.id in st.known
    && (r.due.Some? ==>
          && r.due.value <= st.lease.now
          && (r.id in st.tasks ==> st.tasks[r.id].due.None? || r.due.value <= st.tasks[r.id].due.value))
  }

  /** What a worker at work knows: a row of its list has been returned iff that happened since it read. */
  ghost predicate Reading(st: State, p: Phase)
    requires p.Walking?
  {
    && DistinctIds(p.out + p.todo)
    && (forall r :: r in p.todo ==> Reached(st, r))
    && (forall r :: r in p.out ==> r.due.Some?)
    && forall r :: r in p.out + p.todo && r.due.Some? ==> (r in st.returned <==> r in p.since)
  }

  /** Holds in every run without reopening walks, timely or not. */
  ghost predicate Sound(st: State) {
    && st.lease.deadlines.Keys == st.phases.Keys
    && st.tasks.Keys <= st.known
    && (forall q :: Kept(st, q) ==> Past(st, q))
    && forall w :: AtWork(st, w) ==> Reading(st, st.phases[w])
  }

  /** Moving the head of `todo` to `out`, or dropping it, keeps the ids distinct. */
  lemma StillDistinct(out: seq<Row>, todo: seq<Row>)
    requires todo != [] && DistinctIds(out + todo)
    ensures DistinctIds(Keep(out, todo[0]) + todo[1..])
    ensures forall q :: q in todo[1..] ==> q.id != todo[0].id
  {
    var all := out + todo;
    if todo[0].due.Some? {
      assert out + [todo[0]] + todo[1..] == all;
    } else {
      var rest := out + todo[1..];
      assert forall i :: 0 <= i < |rest| ==> rest[i] == all[if i < |out| then i else i + 1];
    }
    forall q | q in todo[1..]
      ensures q.id != todo[0].id
    {
      var i :| 0 <= i < |todo| - 1 && todo[1..][i] == q;
      assert all[|out|] == todo[0] && all[|out| + 1 + i] == q;
    }
  }

  lemma QuerySound(st: State, a: Step)
    requires Sound(st) && a.Query? && Enabled(st, a)
    ensures Sound(Do(st, a))
  {
    var st', rows := Do(st, a), a.rows;
    assert [] + rows == rows;
    forall r | r in rows && r.due.Some?
      ensures r !in st.returned
    {
      assert Due(st, r);
      if r in st.returned {
        assert Kept(st, r);
      }
    }
    forall r | r in rows
      ensures Reached(st', r)
    {
      assert Due(st, r);
    }
    forall q | Kept(st', q)
      ensures Past(st', q)
    {
      assert Kept(st, q);
    }
    forall v | AtWork(st', v) && v != a.w
      ensures Reading(st', st'.phases[v])
    {
      assert AtWork(st, v);
      SameReading(st, st', st.phases[v]);
    }
  }

  /** A worker's knowledge survives when time goes on and the stored times do not fall behind. */
  lemma SameReading(st: State, st': State, p: Phase)
    requires p.Walking? && Reading(st, p)
    requires st'.returned == st.returned && st.known <= st'.known && st.lease.now <= st'.lease.now
    requires forall r :: r in p.todo && r.id in st'.tasks && r.id in st.known ==> Reached(st', r)
    requires forall r :: r in p.todo && r.id !in st'.tasks ==> Reached(st', r)
    ensures Reading(st', p)
  {
  }

  lemma WalkKept(st: State, a: Step, q: Row)
    requires Sound(st) && a.Walk? && Enabled(st, a) && Kept(Do(st, a), q)
    ensures Kept(st, q) || (q == st.phases[a.w].todo[0] && q.due.Some?)
  {
    var st', p := Do(st, a), st.phases[a.w];
    if q !in st.returned {
      var v :| AtWork(st', v) && q in st'.phases[v].out;
      if v == a.w {
        assert q in p.out || q == p.todo[0];
      } else {
        assert AtWork(st, v) && q in st.phases[v].out;
      }
    }
  }

  lemma WalkPast(st: State, a: Step, q: Row)
    requires Sound(st) && a.Walk? && Enabled(st, a) && !Reopens(st, a) && Kept(Do(st, a), q)
    ensures Past(Do(st, a), q)
  {
    var r := st.phases[a.w].todo[0];
    assert Reading(st, st.phases[a.w]) && r in st.phases[a.w].todo && Reached(st, r);
    WalkKept(st, a, q);
    if Kept(st, q) {
      assert Past(st, q);
    }
  }

  /** Walking changes one stored time, to none or to one that is not in the past. */
  lemma WalkReached(st: State, a: Step, r: Row)
    requires a.Walk? && Enabled(st, a) && Reached(st, r)
    ensures Reached(Do(st, a), r)
  {
  }

  lemma WalkSound(st: State, a: Step)
    requires Sound(st) && a.Walk? && Enabled(st, a) && !Reopens(st, a)
    ensures Sound(Do(st, a))
  {
    var st', p := Do(st, a), st.phases[a.w];
    var p' := st'.phases[a.w];
    assert Reading(st, p);
    forall q | Kept(st', q)
      ensures Past(st', q)
    {
      WalkPast(st, a, q);
    }
    StillDistinct(p.out, p.todo);
    forall r | r in p'.out + p'.todo
      ensures r in p.out + p.todo
    {
      if r in p'.todo {
        assert r in p.todo;
      }
    }
    forall v | AtWork(st', v)
      ensures Reading(st', st'.phases[v])
    {
      forall r | r in st.phases[v].todo
        ensures Reached(st', r)
      {
        assert Reading(st, st.phases[v]);
        WalkReached(st, a, r);
      }
      if v != a.w {
        SameReading(st, st', st.phases[v]);
      }
    }
  }

  lemma FinishSound(st: State, a: Step)
    requires Sound(st) && a.Finish? && Enabled(st, a)
    ensures Sound(Do(st, a))
  {
    var st', out := Do(st, a), st.phases[a.w].out;
    forall q | Kept(st', q)
      ensures Past(st', q)
    {
      if q !in st'.returned {
        var v :| AtWork(st', v) && q in st'.phases[v].out;
        assert AtWork(st, v) && q in st.phases[v].out;
      } else if q in out {
        assert AtWork(st, a.w);
      }
      assert Kept(st, q);
    }
    forall v | AtWork(st', v)
      ensures Reading(st', st'.phases[v])
    {
      assert AtWork(st, v) && Reading(st, st.phases[v]);
      assert st'.phases[v].todo == st.phases[v].todo && st'.phases[v].out == st.phases[v].out;
      assert forall r :: Reached(st, r) ==> Reached(st', r);
    }
  }

  lemma OtherSound(st: State, a: Step)
    requires Sound(st) && Enabled(st, a) && !a.Query? && !a.Walk? && !a.Finish?
    ensures Sound(Do(st, a))
  {
    var st' := Do(st, a);
    forall q | Kept(st', q)
      ensures Past(st', q)
    {
      if q !in st.returned {
        var v :| AtWork(st', v) && q in st'.phases[v].out;
        assert AtWork(st, v) && q in st.phases[v].out;
      }
      assert Kept(st, q) && Past(st, q);
    }
    forall v | AtWork(st', v)
      ensures Reading(st', st'.phases[v])
    {
      assert AtWork(st, v) && st'.phases[v] == st.phases[v] && Reading(st, st.phases[v]);
      assert forall r :: Reached(st, r) ==> Reached(st', r);
    }
  }

  /** Every step but a reopening walk keeps what holds in every run ... */
  lemma StepSound(st: State, a: Step)
    requires Sound(st) && Enabled(st, a) && !Reopens(st, a)
    ensures Sound(Do(st, a))
  {
    match a
    case Query(_, _) => QuerySound(st, a);
    case Walk(_, _, _) => WalkSound(st, a);
    case Finish(_) => FinishSound(st, a);
    case _ => OtherSound(st, a);
  }

  /** ... and a reopening walk leaves a kept row due again. */
  lemma ReopenedIsDue(st: State, a: Step)
    requires Sound(st) && Enabled(st, a) && Reopens(st, a)
    ensures !Sound(Do(st, a))
    ensures exists q :: Kept(Do(st, a), q) && q.id in Do(st, a).tasks && Do(st, a).tasks[q.id].due == q.due
  {
    var st', p := Do(st, a), st.phases[a.w];
    var r := p.todo[0];
    var due := st'.tasks[r.id].due;
    var q := Row(r.id, due);
    if due == r.due {
      assert AtWork(st', a.w) && q in st'.phases[a.w].out;
    } else if q !in st.returned {
      var v :| AtWork(st, v) && q in st.phases[v].out;
      assert AtWork(st', v) && q in st'.phases[v].out;
    }
    assert Kept(st', q) && !Past(st', q);
  }

  predicate LeavesInTime(run: seq<Step>) {
    run != [] ==>
      var before, a := run[..|run| - 1], run[|run| - 1];
      LeavesInTime(before) && (a.Finish? || a.Fail? ==> InTime(Final(before).lease, a.w))
  }

  ghost predicate NeverReopens(run: seq<Step>)
    requires Run(run)
  {
    run != [] ==> NeverReopens(run[..|run| - 1]) && !Reopens(Final(run[..|run| - 1]), run[|run| - 1])
  }

  lemma {:induction false} RunSound(run: seq<Step>)
    requires Run(run) && NeverReopens(run)
    ensures Sound(Final(run))
  {
    if run != [] {
      RunSound(run[..|run| - 1]);
      StepSound(Final(run[..|run| - 1]), run[|run| - 1]);
    }
  }

  /**
   In any run without reopening walks, timely or not, a call returns a row again exactly
   when some other worker returned one of its rows after this worker had read its list.
   */
  lemma FinishRepeatsIff(run: seq<Step>, w: Worker)
    requires Run(run) && NeverReopens(run) && NoDup(Final(run).returned) && Enabled(Final(run), Finish(w))
    ensures NoDup(Do(Final(run), Finish(w)).returned) <==>
            forall r :: r in Final(run).phases[w].out ==> r !in Final(run).phases[w].since
  {
    RunSound(run);
    var st := Final(run);
    var p := st.phases[w];
    assert AtWork(st, w) && Reading(st, p);
    assert p.out + p.todo == p.out;
    DistinctNoDup(p.out);
    NoDupAppend(st.returned, p.out);
  }

  lemma DistinctNoDup(rows: seq<Row>)
    requires DistinctIds(rows)
    ensures NoDup(rows)
  {
  }

  // ---------------------------------------------------------------- when a walk reopens

  /** An answer later than now, once written, never reopens anything. */
  lemma LaterNeverReopens(st: State, w: Worker, next: Option<nat>)
    requires Sound(st) && Enabled(st, Walk(w, next, true)) && (next.Some? ==> st.lease.now < next.value)
    ensures !Reopens(st, Walk(w, next, true))
  {
    var r := st.phases[w].todo[0];
    assert Reading(st, st.phases[w]) && r in st.phases[w].todo && Reached(st, r);
    assert next.Some? && Kept(st, Row(r.id, next)) ==> Past(st, Row(r.id, next));
  }

  /** A row read with a time that is still stored is reopened iff its write failed or stored that very time. */
  lemma ReopensIff(st: State, w: Worker, next: Option<nat>, written: bool)
    requires Sound(st) && Enabled(st, Walk(w, next, written))
    requires var r := st.phases[w].todo[0]; r.due.Some? && r.id in st.tasks && st.tasks[r.id].due == r.due
    ensures Reopens(st, Walk(w, next, written)) <==> !written || next == st.phases[w].todo[0].due
  {
    var r := st.phases[w].todo[0];
    assert Reading(st, st.phases[w]) && r in st.phases[w].todo && Reached(st, r);
    assert next.Some? && Kept(st, Row(r.id, next)) ==> Past(st, Row(r.id, next));
  }

  /** A due row kept for the caller is due again afterwards iff its write failed or stored the row's own time. */
  lemma StaysDueIff(st: State, w: Worker, next: Option<nat>, written: bool)
    requires Enabled(st, Walk(w, next, written)) && Due(st, st.phases[w].todo[0]) && st.phases[w].todo[0].due.Some?
    ensures var r := st.phases[w].todo[0];
            && Do(st, Walk(w, next, written)).phases[w].out == st.phases[w].out + [r]
            && (Due(Do(st, Walk(w, next, written)), r) <==> !written || next == r.due)
  {
  }

  // ---------------------------------------------------------------- timely runs

  ghost predicate Safe(st: State) {
    && Sound(st)
    && Exclusive(st.lease)
    && NoDup(st.returned)
    && forall w :: InTime(st.lease, w) && st.phases[w].Walking? ==> st.phases[w].since == {}
  }

  lemma StepSafe(st: State, a: Step)
    requires Safe(st) && Enabled(st, a) && !Reopens(st, a)
    requires a.Finish? || a.Fail? ==> InTime(st.lease, a.w)
    ensures Safe(Do(st, a))
  {
    StepSound(st, a);
    match a {
      case Pass(d) => PassKeeps(st.lease, d);
      case Acquire(w) => TakeKeeps(st.lease, w);
      case Finish(w) =>
        var p := st.phases[w];
        assert AtWork(st, w) && Reading(st, p);
        assert p.out + p.todo == p.out;
        DistinctNoDup(p.out);
        NoDupAppend(st.returned, p.out);
        ReleaseKeepsIff(st.lease, w);
        assert forall v :: InTime(Release(st.lease, w), v) ==> InTime(st.lease, v) && v != w;
      case Fail(w) =>
        ReleaseKeepsIff(st.lease, w);
        assert forall v :: InTime(Release(st.lease, w), v) ==> InTime(st.lease, v) && v != w;
      case Die(w) =>
        CrashKeeps(st.lease, w);
        assert forall v :: InTime(Crash(st.lease, w), v) ==> InTime(st.lease, v) && v != w;
      case _ =>
    }
  }

  /**
   No row is returned twice for one stored execution time if no walk reopens a row and every
   worker that leaves alive does so before its lease ends.
   */
  lemma {:induction false} ReturnedOnce(run: seq<Step>)
    requires Run(run) && LeavesInTime(run) && NeverReopens(run)
    ensures Safe(Final(run)) && NoDup(Final(run).returned)
  {
    if run != [] {
      ReturnedOnce(run[..|run| - 1]);
      StepSafe(Final(run[..|run| - 1]), run[|run| - 1]);
    }
  }

  /** Every write succeeds and every answer is the zero time or later than now. */
  predicate AlwaysLater(run: seq<Step>) {
    run != [] ==>
      var before, a := run[..|run| - 1], run[|run| - 1];
      AlwaysLater(before) && (a.Walk? ==> a.written && (a.next.Some? ==> Final(before).lease.now < a.next.value))
  }

  /** Every row is walked, and every returning call left, before the worker's lease ends. */
  predicate ReturnsInTime(run: seq<Step>) {
    run != [] ==>
      var before, a := run[..|run| - 1], run[|run| - 1];
      ReturnsInTime(before) && (a.Walk? || a.Finish? ==> InTime(Final(before).lease, a.w))
  }

  /** Successful writes of later times never reopen, so then leaving in time is enough. */
  lemma {:induction false} LaterRunNeverReopens(run: seq<Step>)
    requires Run(run) && AlwaysLater(run)
    ensures NeverReopens(run)
  {
    if run != [] {
      var before, a := run[..|run| - 1], run[|run| - 1];
      LaterRunNeverReopens(before);
      RunSound(before);
      if a.Walk? {
        LaterNeverReopens(Final(before), a.w, a.next);
      }
    }
  }

  lemma ReturnedOnceLater(run: seq<Step>)
    requires Run(run) && LeavesInTime(run) && AlwaysLater(run)
    ensures NoDup(Final(run).returned)
  {
    LaterRunNeverReopens(run);
    ReturnedOnce(run);
  }

  /**
   The write succeeds, with a time that is not the row's own; a row without a time gets one
   later than now, or none.
   */
  predicate Moves(st: State, a: Step)
    requires a.Walk? && AtWork(st, a.w) && st.phases[a.w].todo != []
  {
    var r := st.phases[a.w].todo[0];
    && a.written
    && if r.due.Some? then a.next != r.due else a.next.Some? ==> st.lease.now < a.next.value
  }

  ghost predicate AlwaysMoves(run: seq<Step>)
    requires Run(run)
  {
    run != [] ==>
      var before, a := run[..|run| - 1], run[|run| - 1];
      AlwaysMoves(before) && (a.Walk? ==> Moves(Final(before), a))
  }

  /** What a worker in time has still to walk is stored as it was read. */
  ghost predicate Synced(st: State) {
    forall w, r :: InTime(st.lease, w) && AtWork(st, w) && r in st.phases[w].todo && r.id in st.tasks ==>
      st.tasks[r.id].due == r.due
  }

  lemma StepSynced(st: State, a: Step)
    requires Safe(st) && Synced(st) && Enabled(st, a)
    requires a.Walk? ==> InTime(st.lease, a.w)
    ensures Synced(Do(st, a))
  {
    var st' := Do(st, a);
    forall w, r | InTime(st'.lease, w) && AtWork(st', w) && r in st'.phases[w].todo && r.id in st'.tasks
      ensures st'.tasks[r.id].due == r.due
    {
      if a.Query? && a.w == w {
        assert Due(st, r);
      } else {
        assert AtWork(st, w) && InTime(st.lease, w) && Reading(st, st.phases[w]);
        if a.Walk? && a.w == w {
          StillDistinct(st.phases[w].out, st.phases[w].todo);
        }
        assert r in st.phases[w].todo && Reached(st, r);
      }
    }
  }

  lemma MovingNeverReopens(st: State, a: Step)
    requires Safe(st) && Synced(st) && Enabled(st, a) && a.Walk? && InTime(st.lease, a.w) && Moves(st, a)
    ensures !Reopens(st, a)
  {
    var r := st.phases[a.w].todo[0];
    if r.due.None? {
      LaterNeverReopens(st, a.w, a.next);
    } else if r.id in st.tasks {
      assert AtWork(st, a.w) && r in st.phases[a.w].todo;
      ReopensIff(st, a.w, a.next, a.written);
    }
  }

  /**
   With every walk and every way out in time, it is enough that each write succeeds and
   moves the task off the time its row was read with, even if only to the present instant.
   */
  lemma {:induction false} ReturnedOnceMoving(run: seq<Step>)
    requires Run(run) && LeavesInTime(run) && ReturnsInTime(run) && AlwaysMoves(run)
    ensures NeverReopens(run) && Safe(Final(run)) && Synced(Final(run)) && NoDup(Final(run).returned)
  {
    if run != [] {
      var before, a := run[..|run| - 1], run[|run| - 1];
      ReturnedOnceMoving(before);
      StepSynced(Final(before), a);
      if a.Walk? {
        MovingNeverReopens(Final(before), a);
      }
      StepSafe(Final(before), a);
    }
  }

  // ---------------------------------------------------------------- runs that return a row twice

  lemma Extend(run: seq<Step>, a: Step)
    requires Run(run) && Enabled(Final(run), a)
    ensures Run(run + [a]) && Final(run + [a]) == Do(Final(run), a)
    ensures LeavesInTime(run + [a]) <==> LeavesInTime(run) && (a.Finish? || a.Fail? ==> InTime(Final(run).lease, a.w))
    ensures AlwaysLater(run + [a]) <==>
            AlwaysLater(run) && (a.Walk? ==> a.written && (a.next.Some? ==> Final(run).lease.now < a.next.value))
    ensures ReturnsInTime(run + [a]) <==> ReturnsInTime(run) && (a.Walk? || a.Finish? ==> InTime(Final(run).lease, a.w))
  {
    assert (run + [a])[..|run|] == run;
  }

  /** A worker in the critical section reads the one task "t", due at `due`. */
  lemma Reads(run: seq<Step>, w: Worker, due: nat) returns (longer: seq<Step>)
    requires Run(run) && Final(run).tasks == map["t" := Task(Some(due), true)] && due <= Final(run).lease.now
    requires w in Final(run).phases && Final(run).phases[w] == Holding
    ensures Run(longer)
    ensures LeavesInTime(longer) <==> LeavesInTime(run)
    ensures AlwaysLater(longer) <==> AlwaysLater(run)
    ensures ReturnsInTime(longer) <==> ReturnsInTime(run)
    ensures var st := Final(run);
            Final(longer) == st.(phases := st.phases[w := Walking([Row("t", Some(due))], [], {})])
  {
    var a := Query(w, [Row("t", Some(due))]);
    assert Due(Final(run), Row("t", Some(due)));
    Extend(run, a);
    longer := run + [a];
  }

  /** The worker walks its one row, and the write succeeds or fails. */
  lemma Walks(run: seq<Step>, w: Worker, due: nat, since: set<Row>, next: nat, written: bool)
    returns (longer: seq<Step>)
    requires Run(run) && w in Final(run).phases && Final(run).lease.now <= next && "t" in Final(run).tasks
    requires Final(run).phases[w] == Walking([Row("t", Some(due))], [], since)
    ensures Run(longer)
    ensures LeavesInTime(longer) <==> LeavesInTime(run)
    ensures AlwaysLater(longer) <==> AlwaysLater(run) && written && Final(run).lease.now < next
    ensures ReturnsInTime(longer) <==> ReturnsInTime(run) && InTime(Final(run).lease, w)
    ensures var st := Final(run);
            Final(longer) == st.(tasks := if written then Reschedule(st.tasks, "t", Some(next)) else st.tasks,
                                 phases := st.phases[w := Walking([], [Row("t", Some(due))], since)])
  {
    var a := Walk(w, Some(next), written);
    Extend(run, a);
    longer := run + [a];
    assert [Row("t", Some(due))][1..] == [] && [] + [Row("t", Some(due))] == [Row("t", Some(due))];
  }

  /** One task, due at `due`; the clock shows that time. */
  lemma Begins(due: nat) returns (run: seq<Step>)
    ensures Run(run) && LeavesInTime(run) && AlwaysLater(run) && ReturnsInTime(run)
    ensures Final(run) == State(Lease(due, None, map[]), map["t" := Task(Some(due), true)], {"t"}, map[], [])
  {
    var create := Create("t", Task(Some(due), true));
    Extend([], create);
    run := [] + [create];
    Extend(run, Pass(due));
    run := run + [Pass(due)];
  }

  /** One undisturbed call that returns the row and stores `next`, or fails to. */
  lemma OneCall(run: seq<Step>, w: Worker, due: nat, next: nat, written: bool) returns (longer: seq<Step>)
    requires Run(run) && Final(run).tasks == map["t" := Task(Some(due), true)] && due <= Final(run).lease.now <= next
    requires Final(run).phases == map[] && !Locked(Final(run).lease) && Final(run).lease.deadlines == map[]
    ensures Run(longer)
    ensures LeavesInTime(longer) <==> LeavesInTime(run)
    ensures var st := Final(run);
            Final(longer) == State(Lease(st.lease.now, None, map[]),
                                   if written then map["t" := Task(Some(next), true)] else st.tasks,
                                   st.known, map[], st.returned + [Row("t", Some(due))])
  {
    Extend(run, Acquire(w));
    longer := run + [Acquire(w)];
    longer := Reads(longer, w, due);
    longer := Walks(longer, w, due, {}, next, written);
    assert InTime(Final(longer).lease, w);
    Extend(longer, Finish(w));
    longer := longer + [Finish(w)];
  }

  /**
   A row that is due exactly at the instant its daily schedule names is returned twice, by
   timely calls whose writes succeed: the schedule answers the present instant.
   */
  lemma InstantRepeats() returns (run: seq<Step>)
    ensures Run(run) && LeavesInTime(run)
    ensures var now := Final(run).lease.now;
            && NextTime.Answers(NextTime.Daily(Some(0)), NextTime.Zero, now, NextTime.At(now))
            && Final(run).tasks == map["t" := Task(Some(now), true)]
            && Final(run).returned == [Row("t", Some(now)), Row("t", Some(now))]
  {
    var t := NextTime.DAY;
    run := Begins(t);
    run := OneCall(run, 1, t, t, true);
    run := OneCall(run, 2, t, t, true);
  }

  /** So is a row whose first write failed. */
  lemma FailedWriteRepeats() returns (run: seq<Step>)
    ensures Run(run) && LeavesInTime(run)
    ensures Final(run).returned == [Row("t", Some(1)), Row("t", Some(1))]
  {
    run := Begins(1);
    run := OneCall(run, 1, 1, 2, false);
    run := OneCall(run, 2, 1, 2, true);
  }

  /** A first worker holds the lease, or has read its row, and its lease runs out. */
  lemma FirstLingers(hasRead: bool) returns (run: seq<Step>)
    ensures Run(run) && LeavesInTime(run) && AlwaysLater(run) && ReturnsInTime(run)
    ensures Final(run) == State(Lease(1 + TTL, Some(1 + TTL), map[1 := 1 + TTL]),
                                map["t" := Task(Some(1), true)], {"t"},
                                map[1 := if hasRead then Walking([Row("t", Some(1))], [], {}) else Holding], [])
  {
    run := Begins(1);
    Extend(run, Acquire(1));
    run := run + [Acquire(1)];
    if hasRead {
      run := Reads(run, 1, 1);
    }
    assert Final(run).lease == Lease(1, Some(1 + TTL), map[1 := 1 + TTL]);
    Extend(run, Pass(TTL));
    run := run + [Pass(TTL)];
  }

  /** A second worker takes the lease and reads the row. */
  lemma SecondReads(hasRead: bool) returns (run: seq<Step>)
    ensures Run(run) && LeavesInTime(run) && AlwaysLater(run) && ReturnsInTime(run)
    ensures Final(run) == State(Lease(1 + TTL, Some(1 + 2 * TTL), map[1 := 1 + TTL, 2 := 1 + 2 * TTL]),
                                map["t" := Task(Some(1), true)], {"t"},
                                map[1 := if hasRead then Walking([Row("t", Some(1))], [], {}) else Holding,
                                    2 := Walking([Row("t", Some(1))], [], {})], [])
  {
    run := FirstLingers(hasRead);
    Extend(run, Acquire(2));
    run := run + [Acquire(2)];
    run := Reads(run, 2, 1);
  }

  /**
   The overdue worker releases the second worker's key without returning anything; a third
   reads the row too. Every walk and every returning call is in time, every write succeeds
   and stores a later time.
   */
  lemma LateReleaseRepeats() returns (run: seq<Step>)
    ensures Run(run) && AlwaysLater(run) && ReturnsInTime(run)
    ensures Final(run).returned == [Row("t", Some(1)), Row("t", Some(1))]
  {
    run := SecondReads(false);
    Extend(run, Fail(1));
    run := run + [Fail(1)];
    Extend(run, Acquire(3));
    run := run + [Acquire(3)];
    run := Reads(run, 3, 1);
    run := BothReturn(run, 2, 3);
  }

  /** The overdue worker walks and returns the row the second one has returned. */
  lemma LateWalkRepeats() returns (run: seq<Step>)
    ensures Run(run) && AlwaysLater(run)
    ensures Final(run).returned == [Row("t", Some(1)), Row("t", Some(1))]
  {
    run := SecondReads(true);
    run := BothReturn(run, 2, 1);
  }

  lemma BothReturn(run: seq<Step>, v: Worker, w: Worker) returns (longer: seq<Step>)
    requires Run(run) && AlwaysLater(run) && v != w && {v, w} <= Final(run).phases.Keys
    requires Final(run).tasks == map["t" := Task(Some(1), true)] && Final(run).returned == []
    requires forall u :: u in {v, w} ==> Final(run).phases[u] == Walking([Row("t", Some(1))], [], {})
    ensures Run(longer) && AlwaysLater(longer)
    ensures ReturnsInTime(longer) <==> ReturnsInTime(run) && InTime(Final(run).lease, v) && InTime(Final(run).lease, w)
    ensures Final(longer).returned == [Row("t", Some(1)), Row("t", Some(1))]
  {
    var next := Final(run).lease.now + 1;
    longer := Walks(run, v, 1, {}, next, true);
    Extend(longer, Finish(v));
    longer := longer + [Finish(v)];
    var returned := Final(longer).phases[w].since;
    longer := Walks(longer, w, 1, returned, next, true);
    Extend(longer, Finish(w));
    longer := longer + [Finish(w)];
    assert Final(longer).returned == [Row("t", Some(1))] + [Row("t", Some(1))];
  }

  // ---------------------------------------------------------------- one call

  function Play(st: State, steps: seq<Step>): State {
    if steps == [] then st else Do(Play(st, steps[..|steps| - 1]), steps[|steps| - 1])
  }

  ghost predicate CanPlay(st: State, steps: seq<Step>) {
    steps != [] ==>
      CanPlay(st, steps[..|steps| - 1]) && Enabled(Play(st, steps[..|steps| - 1]), steps[|steps| - 1])
  }

  /** Steps that can be played where a run ends extend the run, so what holds of runs holds of calls. */
  lemma {:induction false} RunThenPlay(run: seq<Step>, steps: seq<Step>)
    requires Run(run) && CanPlay(Final(run), steps)
    ensures Run(run + steps) && Final(run + steps) == Play(Final(run), steps)
  {
    if steps == [] {
      assert run + steps == run;
    } else {
      var init, last := steps[..|steps| - 1], steps[|steps| - 1];
      RunThenPlay(run, init);
      assert (run + steps)[..|run + steps| - 1] == run + init;
    }
  }

  lemma PlayMore(st: State, steps: seq<Step>, a: Step)
    requires CanPlay(st, steps) && Enabled(Play(st, steps), a)
    ensures CanPlay(st, steps + [a]) && Play(st, steps + [a]) == Do(Play(st, steps), a)
  {
    assert (steps + [a])[..|steps|] == steps;
  }

  /**
   One row's share of a call: its schedule, what the cron library answers (None: nothing;
   Some(k): k nanoseconds after the next one), whether the write succeeds, and the time that
   passes before the row.
   */
  datatype Work = Work(schedule: NextTime.Schedule, cron: Option<nat>, written: bool, delay: nat)

  function CronOf(cron: Option<nat>, now: nat): NextTime.Next {
    if cron.Some? then NextTime.At(now + 1 + cron.value) else NextTime.Zero
  }

  /** The clock when row `i` is reached. */
  function Clock(now: nat, works: seq<Work>, i: nat): nat
    requires i < |works|
  {
    (if i == 0 then now else Clock(now, works, i - 1)) + works[i].delay
  }

  /** `next` is what the scheduler answers for the row. */
  ghost predicate Scheduled(work: Work, now: nat, next: Option<nat>) {
    NextTime.Answers(work.schedule, CronOf(work.cron, now), now,
        if next.Some? then NextTime.At(next.value) else NextTime.Zero)
  }

  ghost predicate BadSchedule(work: Work, now: nat) {
    NextTime.Answers(work.schedule, CronOf(work.cron, now), now, NextTime.Error)
  }

  /** The rows a call keeps for its caller: those with a real execution time, in order. */
  function KeptRows(rows: seq<Row>): seq<Row> {
    if rows == [] then [] else Keep(KeptRows(rows[..|rows| - 1]), rows[|rows| - 1])
  }

  /** The steps of the walk over the first rows. */
  function WalkSteps(w: Worker, works: seq<Work>, nexts: seq<Option<nat>>): seq<Step>
    requires |nexts| <= |works|
  {
    if nexts == [] then []
    else
      var i := |nexts| - 1;
      WalkSteps(w, works, nexts[..i]) + [Pass(works[i].delay), Walk(w, nexts[i], works[i].written)]
  }

  function CallSteps(w: Worker, rows: seq<Row>, works: seq<Work>, nexts: seq<Option<nat>>): seq<Step>
    requires |nexts| <= |works|
  {
    [Acquire(w), Query(w, rows)] + WalkSteps(w, works, nexts)
  }

  /** After the walk over the first rows: what is left, what is kept, and the clock. */
  ghost predicate Walked(st0: State, st: State, w: Worker, rows: seq<Row>, works: seq<Work>, k: nat)
    requires k <= |rows| == |works|
  {
    && AtWork(st, w) && st.phases[w] == Walking(rows[k..], KeptRows(rows[..k]), {})
    && st.returned == st0.returned
    && st.lease.now == if k == 0 then st0.lease.now else Clock(st0.lease.now, works, k - 1)
  }

  /** One more row: time passes, the row is walked. */
  lemma WalkedMore(st0: State, steps: seq<Step>, w: Worker, rows: seq<Row>, works: seq<Work>, k: nat, next: Option<nat>)
    requires k < |rows| == |works| && CanPlay(st0, steps) && Walked(st0, Play(st0, steps), w, rows, works, k)
    requires next.Some? ==> Clock(st0.lease.now, works, k) <= next.value
    ensures var longer := steps + [Pass(works[k].delay), Walk(w, next, works[k].written)];
            && CanPlay(st0, longer) && Walked(st0, Play(st0, longer), w, rows, works, k + 1)
            && Play(st0, longer) == Do(Do(Play(st0, steps), Pass(works[k].delay)), Walk(w, next, works[k].written))
  {
    var pass, walk := Pass(works[k].delay), Walk(w, next, works[k].written);
    PlayMore(st0, steps, pass);
    PlayMore(st0, steps + [pass], walk);
    assert steps + [pass] + [walk] == steps + [pass, walk];
    assert rows[k..][1..] == rows[k + 1..];
    assert rows[..k + 1][..k] == rows[..k];
  }

  lemma WalkStepsMore(w: Worker, rows: seq<Row>, works: seq<Work>, nexts: seq<Option<nat>>, next: Option<nat>)
    requires |nexts| < |works|
    ensures CallSteps(w, rows, works, nexts + [next]) ==
            CallSteps(w, rows, works, nexts) + [Pass(works[|nexts|].delay), Walk(w, next, works[|nexts|].written)]
  {
    assert (nexts + [next])[..|nexts|] == nexts;
  }

  lemma CallBegins(st: State, w: Worker, rows: seq<Row>, works: seq<Work>)
    requires w !in st.phases && !Locked(st.lease) && |works| == |rows|
    requires DistinctIds(rows) && forall r :: r in rows ==> Due(st, r)
    ensures CanPlay(st, CallSteps(w, rows, works, []))
    ensures Play(st, CallSteps(w, rows, works, [])) == Do(Do(st, Acquire(w)), Query(w, rows))
    ensures Walked(st, Play(st, CallSteps(w, rows, works, [])), w, rows, works, 0)
  {
    var mid := Do(st, Acquire(w));
    forall r | r in rows
      ensures Due(mid, r)
    {
      assert Due(st, r);
    }
    PlayMore(st, [], Acquire(w));
    PlayMore(st, [] + [Acquire(w)], Query(w, rows));
    assert CallSteps(w, rows, works, []) == [] + [Acquire(w)] + [Query(w, rows)];
    assert rows[..0] == [] && rows[0..] == rows;
  }

  lemma FailedCall(st: State, w: Worker)
    requires w !in st.phases && !Locked(st.lease)
    ensures CanPlay(st, [Acquire(w), Fail(w)]) && Play(st, [Acquire(w), Fail(w)]) == Do(Do(st, Acquire(w)), Fail(w))
  {
    PlayMore(st, [], Acquire(w));
    PlayMore(st, [] + [Acquire(w)], Fail(w));
    assert [Acquire(w), Fail(w)] == [] + [Acquire(w)] + [Fail(w)];
  }

  /** A call that has walked its first rows, with these answers of the scheduler. */
  ghost predicate Underway(st0: State, st: State, w: Worker, rows: seq<Row>, works: seq<Work>,
        nexts: seq<Option<nat>>) {
    && |nexts| <= |rows| == |works|
    && CanPlay(st0, CallSteps(w, rows, works, nexts)) && st == Play(st0, CallSteps(w, rows, works, nexts))
    && Walked(st0, st, w, rows, works, |nexts|)
    && AllScheduled(st0.lease.now, works, nexts)
  }

  /** These are the scheduler's answers for the first rows. */
  ghost predicate AllScheduled(now: nat, works: seq<Work>, nexts: seq<Option<nat>>)
    requires |nexts| <= |works|
  {
    forall i :: 0 <= i < |nexts| ==> Scheduled(works[i], Clock(now, works, i), nexts[i])
  }

  lemma ScheduledMore(now: nat, works: seq<Work>, nexts: seq<Option<nat>>, next: Option<nat>)
    requires |nexts| < |works| && AllScheduled(now, works, nexts)
    requires Scheduled(works[|nexts|], Clock(now, works, |nexts|), next)
    ensures AllScheduled(now, works, nexts + [next])
  {
    var longer := nexts + [next];
    forall i | 0 <= i < |longer|
      ensures Scheduled(works[i], Clock(now, works, i), longer[i])
    {
      assert longer[i] == if i < |nexts| then nexts[i] else next;
    }
  }

  lemma UnderwayMore(st0: State, st: State, w: Worker, rows: seq<Row>, works: seq<Work>, nexts: seq<Option<nat>>,
        next: Option<nat>)
    requires Underway(st0, st, w, rows, works, nexts) && |nexts| < |rows|
    requires var now := Clock(st0.lease.now, works, |nexts|);
             Scheduled(works[|nexts|], now, next) && (next.Some? ==> now <= next.value)
    ensures var st' := Do(Do(st, Pass(works[|nexts|].delay)), Walk(w, next, works[|nexts|].written));
            Underway(st0, st', w, rows, works, nexts + [next])
  {
    ScheduledMore(st0.lease.now, works, nexts, next);
    WalkedMore(st0, CallSteps(w, rows, works, nexts), w, rows, works, |nexts|, next);
    WalkStepsMore(w, rows, works, nexts, next);
  }

  lemma ClockNow(st0: State, st: State, w: Worker, rows: seq<Row>, works: seq<Work>, nexts: seq<Option<nat>>)
    requires Underway(st0, st, w, rows, works, nexts) && |nexts| < |rows|
    ensures st.lease.now + works[|nexts|].delay == Clock(st0.lease.now, works, |nexts|)
  {
  }

  lemma KeepMore(rows: seq<Row>, i: nat)
    requires i < |rows|
    ensures KeptRows(rows[..i + 1]) == Keep(KeptRows(rows[..i]), rows[i])
  {
    assert rows[..i + 1][..i] == rows[..i];
  }

  /** Exactly the rows with a real execution time are kept, in the order they were found. */
  lemma {:induction false} KeptExact(rows: seq<Row>) returns (at: seq<nat>)
    ensures Selects(rows, at, KeptRows(rows))
    ensures forall i :: 0 <= i < |rows| ==> (i in at <==> rows[i].due.Some?)
  {
    if rows == [] {
      at := [];
    } else {
      var n := |rows| - 1;
      var init := KeptExact(rows[..n]);
      at := SelectsLast(rows, init, KeptRows(rows[..n]), rows[n].due.Some?);
      assert forall i :: 0 <= i < n ==> rows[..n][i] == rows[i];
      assert n !in init;
    }
  }

  lemma KeptDue(st: State, rows: seq<Row>)
    requires forall q :: q in rows ==> Due(st, q)
    ensures forall q :: q in KeptRows(rows) ==>
              && q.due.Some? && q.due.value <= st.lease.now
              && q.id in st.tasks && st.tasks[q.id] == Task(q.due, true)
  {
    var at := KeptExact(rows);
    forall q | q in KeptRows(rows)
      ensures q.due.Some? && Due(st, q)
    {
      var i :| 0 <= i < |KeptRows(rows)| && KeptRows(rows)[i] == q;
      assert at[i] in at && q == rows[at[i]];
    }
  }

  /** The first rows' tasks have the scheduler's answers, where the write went through; nothing else is changed. */
  ghost predicate Rescheduled(tasks: map<string, Task>, tasks': map<string, Task>, rows: seq<Row>, works: seq<Work>,
        nexts: seq<Option<nat>>)
    requires |nexts| <= |rows| == |works|
  {
    && tasks'.Keys == tasks.Keys
    && (forall i :: 0 <= i < |nexts| && rows[i].id in tasks ==>
          tasks'[rows[i].id] ==
          if works[i].written then Task(nexts[i], tasks[rows[i].id].enabled) else tasks[rows[i].id])
    && forall id :: id in tasks && (forall i :: 0 <= i < |nexts| ==> rows[i].id != id) ==> tasks'[id] == tasks[id]
  }

  lemma RescheduledMore(st0: State, st: State, w: Worker, rows: seq<Row>, works: seq<Work>, nexts: seq<Option<nat>>,
        next: Option<nat>)
    requires Underway(st0, st, w, rows, works, nexts) && |nexts| < |rows| && DistinctIds(rows)
    requires Rescheduled(st0.tasks, st.tasks, rows, works, nexts)
    ensures var st' := Do(Do(st, Pass(works[|nexts|].delay)), Walk(w, next, works[|nexts|].written));
            Rescheduled(st0.tasks, st'.tasks, rows, works, nexts + [next])
  {
    var n := |nexts|;
    var st' := Do(Do(st, Pass(works[n].delay)), Walk(w, next, works[n].written));
    assert rows[n..][0] == rows[n];
    assert st'.tasks == if works[n].written then Reschedule(st.tasks, rows[n].id, next) else st.tasks;
    assert forall i :: 0 <= i < n ==> (nexts + [next])[i] == nexts[i] && rows[i].id != rows[n].id;
    assert rows[n].id in st0.tasks ==> st.tasks[rows[n].id] == st0.tasks[rows[n].id];
  }

  /** One row of the loop. */
  lemma RowWalked(st0: State, st: State, w: Worker, rows: seq<Row>, works: seq<Work>, nexts: seq<Option<nat>>,
        next: Option<nat>)
    requires Underway(st0, st, w, rows, works, nexts) && |nexts| < |rows| && DistinctIds(rows)
    requires Rescheduled(st0.tasks, st.tasks, rows, works, nexts)
    requires var now := Clock(st0.lease.now, works, |nexts|);
             Scheduled(works[|nexts|], now, next) && (next.Some? ==> now <= next.value)
    ensures var st' := Do(Do(st, Pass(works[|nexts|].delay)), Walk(w, next, works[|nexts|].written));
            Underway(st0, st', w, rows, works, nexts + [next]) &&
            Rescheduled(st0.tasks, st'.tasks, rows, works, nexts + [next])
    ensures KeptRows(rows[..|nexts| + 1]) == Keep(KeptRows(rows[..|nexts|]), rows[|nexts|])
  {
    KeepMore(rows, |nexts|);
    UnderwayMore(st0, st, w, rows, works, nexts, next);
    RescheduledMore(st0, st, w, rows, works, nexts, next);
  }

  lemma CallFails(st0: State, st: State, w: Worker, rows: seq<Row>, works: seq<Work>, nexts: seq<Option<nat>>)
    requires Underway(st0, st, w, rows, works, nexts) && |nexts| < |rows|
    ensures var steps := CallSteps(w, rows, works, nexts) + [Pass(works[|nexts|].delay), Fail(w)];
            CanPlay(st0, steps) && Play(st0, steps) == Do(Do(st, Pass(works[|nexts|].delay)), Fail(w))
  {
    var steps, pass := CallSteps(w, rows, works, nexts), Pass(works[|nexts|].delay);
    PlayMore(st0, steps, pass);
    PlayMore(st0, steps + [pass], Fail(w));
    assert steps + [pass] + [Fail(w)] == steps + [pass, Fail(w)];
  }

  lemma CallFinishes(st0: State, st: State, w: Worker, rows: seq<Row>, works: seq<Work>, nexts: seq<Option<nat>>)
    requires Underway(st0, st, w, rows, works, nexts) && |nexts| == |rows|
    ensures var steps := CallSteps(w, rows, works, nexts) + [Finish(w)];
            CanPlay(st0, steps) && Play(st0, steps) == Do(st, Finish(w))
    ensures Do(st, Finish(w)).returned == st0.returned + KeptRows(rows)
  {
    assert rows[..|rows|] == rows;
    PlayMore(st0, CallSteps(w, rows, works, nexts), Finish(w));
  }

  /** The scheduler on one row: an error, or a time that does not lie in the past. */
  method Reschedules(work: Work, now: nat) returns (bad: bool, next: Option<nat>)
    requires NextTime.WellParsed(work.schedule)
    ensures bad ==> BadSchedule(work, now)
    ensures !bad ==> Scheduled(work, now, next) && (next.Some? ==> now <= next.value)
  {
    var answer := NextTime.GetSceneExecuteTime(work.schedule, CronOf(work.cron, now), now);
    if answer.At? {
      NextTime.NeverBefore(work.schedule, CronOf(work.cron, now), now, answer);
    }
    bad := answer.Error?;
    next := if answer.At? then Some(answer.t) else None;
  }

  datatype Reply = NoLock | QueryError | Empty | ParamError(found: seq<Row>) | Tasks(rows: seq<Row>)

  /** The shared store as one worker's call sees it, undisturbed but for the clock. */
  class Store {
    var st: State

    constructor ()
      ensures st == START
    {
      st := START;
    }

    /** The loop over the rows; it stops at the first that cannot be scheduled. */
    method WalkRows(w: Worker, rows: seq<Row>, works: seq<Work>, ghost st0: State)
      returns (stopped: Option<nat>, executeResult: seq<Row>, ghost nexts: seq<Option<nat>>)
      requires Underway(st0, st, w, rows, works, []) && DistinctIds(rows) && st.tasks == st0.tasks
      requires forall k :: k in works ==> NextTime.WellParsed(k.schedule)
      modifies this
      ensures Underway(st0, st, w, rows, works, nexts)
      ensures Rescheduled(st0.tasks, st.tasks, rows, works, nexts)
      ensures stopped.None? ==> |nexts| == |rows| && executeResult == KeptRows(rows)
      ensures stopped.Some? ==>
                && stopped.value == |nexts| < |rows|
                && BadSchedule(works[|nexts|], Clock(st0.lease.now, works, |nexts|))
    {
      executeResult, nexts := [], [];
      for i := 0 to |rows|
        invariant |nexts| == i && Underway(st0, st, w, rows, works, nexts)
        invariant Rescheduled(st0.tasks, st.tasks, rows, works, nexts)
        invariant executeResult == KeptRows(rows[..i])
      {
        var v, work := rows[i], works[i];
        ClockNow(st0, st, w, rows, works, nexts);
        var bad, next := Reschedules(work, st.lease.now + work.delay);
        if bad {
          return Some(i), executeResult, nexts;
        }
        executeResult := Keep(executeResult, v);
        RowWalked(st0, st, w, rows, works, nexts, next);
        st := Do(Do(st, Pass(work.delay)), Walk(w, next, work.written));
        nexts := nexts + [next];
      }
      assert rows[..|rows|] == rows;
      stopped := None;
    }

    /**
     The whole call, as steps of the machine above that are all enabled. A scheduling error
     ends the walk: the rows before it are rescheduled already, and the whole query result
     comes back, with the error.
     */
    method GetPeriodicTaskListWithLock(w: Worker, redisDown: bool, found: Option<seq<Row>>, works: seq<Work>)
      returns (r: Reply, ghost steps: seq<Step>, ghost nexts: seq<Option<nat>>)
      requires w !in st.phases
      requires found.Some? ==> DistinctIds(found.value) && |works| == |found.value|
      requires found.Some? ==> forall q :: q in found.value ==> Due(st, q)
      requires forall k :: k in works ==> NextTime.WellParsed(k.schedule)
      modifies this
      ensures CanPlay(old(st), steps) && st == Play(old(st), steps)
      ensures r.NoLock? <==> redisDown || Locked(old(st).lease)
      ensures r.NoLock? ==> steps == []
      ensures !r.NoLock? ==> !Locked(st.lease) && w !in st.phases
      ensures !r.NoLock? ==> (r.QueryError? <==> found.None?) && (r.Empty? <==> found == Some([]))
      ensures r.QueryError? || r.Empty? ==> steps == [Acquire(w), Fail(w)]
      ensures r.Tasks? || r.ParamError? ==>
                && found.Some? && |nexts| <= |works|
                && AllScheduled(old(st).lease.now, works, nexts)
                && Rescheduled(old(st).tasks, st.tasks, found.value, works, nexts)
      ensures !r.Tasks? && !r.ParamError? ==> st.tasks == old(st).tasks && st.returned == old(st).returned
      ensures r.Tasks? ==> forall q :: q in r.rows ==>
                && q.due.Some? && q.due.value <= old(st).lease.now
                && q.id in old(st).tasks && old(st).tasks[q.id] == Task(q.due, true)
      ensures r.Tasks? ==> exists at ::
                && Selects(found.value, at, r.rows)
                && forall i :: 0 <= i < |found.value| ==> (i in at <==> found.value[i].due.Some?)
      ensures r.Tasks? ==>
                && |nexts| == |works|
                && steps == CallSteps(w, found.value, works, nexts) + [Finish(w)]
                && r.rows == KeptRows(found.value) && st.returned == old(st).returned + r.rows
      ensures r.ParamError? ==>
                && |nexts| < |works| && BadSchedule(works[|nexts|], Clock(old(st).lease.now, works, |nexts|))
                && steps == CallSteps(w, found.value, works, nexts) + [Pass(works[|nexts|].delay), Fail(w)]
                && r.found == found.value && st.returned == old(st).returned
    {
      steps, nexts := [], [];
      if redisDown || Locked(st.lease) {
        return NoLock, steps, nexts;
      }
      ghost var st0 := st;
      st := Do(st, Acquire(w));
      if found.None? {
        st := Do(st, Fail(w));
        FailedCall(st0, w);
        return QueryError, [Acquire(w), Fail(w)], nexts;
      }
      var result := found.value;
      if |result| == 0 {
        st := Do(st, Fail(w));
        FailedCall(st0, w);
        return Empty, [Acquire(w), Fail(w)], nexts;
      }
      st := Do(st, Query(w, result));
      CallBegins(st0, w, result, works);
      var stopped, executeResult;
      stopped, executeResult, nexts := WalkRows(w, result, works, st0);
      if stopped.Some? {
        CallFails(st0, st, w, result, works, nexts);
        steps := CallSteps(w, result, works, nexts) + [Pass(works[|nexts|].delay), Fail(w)];
        st := Do(Do(st, Pass(works[stopped.value].delay)), Fail(w));
        return ParamError(result), steps, nexts;
      }
      CallFinishes(st0, st, w, result, works, nexts);
      ghost var at := KeptExact(result);
      KeptDue(st0, result);
      steps := CallSteps(w, result, works, nexts) + [Finish(w)];
      st := Do(st, Finish(w));
      return Tasks(executeResult), steps, nexts;
    }
  }
}
