/**
 Starting and stopping services. Each stop runs as a goroutine of its own, which tells the
 wait group when it ends; that may be after StopAll has gone on.
 */
module ServiceManager {
  import opened Prelude

  /** The time all stops together may hold StopAll up, in milliseconds. */
  const BUDGET := 30000

  /**
   `counter` is the wait group's counter; a goroutine ending below zero panics the program.
   `running` counts the stop goroutines that are launched and have not ended.
   */
  datatype State = State(services: seq<string>, started: bool, counter: int, running: nat)

  const NEW := State([], false, 0, 0)

  datatype Call =
    | Register(name: string)
    | Start(failAt: Option<nat>)     // the first service whose Start fails
    | Stop
    | End                            // one stop goroutine ends

  /** How many services StartAll starts before it stops at an error. */
  function StartedBy(st: State, failAt: Option<nat>): nat {
    if failAt.Some? && failAt.value < |st.services| then failAt.value else |st.services|
  }

  predicate StartFails(st: State, failAt: Option<nat>) {
    failAt.Some? && failAt.value < |st.services|
  }

  function Do(st: State, c: Call): State {
    match c
    case Register(name) => st.(services := st.services + [name])
    case Start(failAt) =>
      if st.started then st
      else st.(counter := st.counter + StartedBy(st, failAt), started := !StartFails(st, failAt))
    case Stop => if !st.started then st else st.(started := false, running := st.running + |st.services|)
    case End => if st.running == 0 then st else st.(counter := st.counter - 1, running := st.running - 1)
  }

  function After(calls: seq<Call>): State {
    if calls == [] then NEW else Do(After(calls[..|calls| - 1]), calls[|calls| - 1])
  }

  // ---------------------------------------------------------------- the wait counter

  function Before(calls: seq<Call>): State
    requires calls != []
  {
    After(calls[..|calls| - 1])
  }

  /** Services whose Start succeeded, over a run. */
  function Starts(calls: seq<Call>): int {
    if calls == [] then 0
    else
      var c := calls[|calls| - 1];
      Starts(calls[..|calls| - 1]) +
      if c.Start? && !Before(calls).started then StartedBy(Before(calls), c.failAt) else 0
  }

  /** Stop goroutines that ended. */
  function Ends(calls: seq<Call>): int {
    if calls == [] then 0
    else Ends(calls[..|calls| - 1]) + if calls[|calls| - 1].End? && Before(calls).running > 0 then 1 else 0
  }

  /** Services started by calls of StartAll that then failed. */
  function Abandoned(calls: seq<Call>): int {
    if calls == [] then 0
    else
      var c := calls[|calls| - 1];
      Abandoned(calls[..|calls| - 1]) +
      if c.Start? && !Before(calls).started && StartFails(Before(calls), c.failAt) then c.failAt.value else 0
  }

  /** Services registered while the manager was started. */
  function Late(calls: seq<Call>): int {
    if calls == [] then 0
    else Late(calls[..|calls| - 1]) + if calls[|calls| - 1].Register? && Before(calls).started then 1 else 0
  }

  /** What the counter will read once everything launched has ended and everything started has been stopped. */
  function Residue(st: State): int {
    st.counter - st.running - (if st.started then |st.services| else 0)
  }

  /** The counter balances: Starts minus ends; and only failed StartAlls and late registrations ever leave a residue. */
  lemma {:induction false} Conservation(calls: seq<Call>)
    ensures After(calls).counter == Starts(calls) - Ends(calls)
    ensures Residue(After(calls)) == Abandoned(calls) - Late(calls)
  {
    if calls != [] {
      Conservation(calls[..|calls| - 1]);
    }
  }

  function Goroutines(n: nat): seq<Call> {
    if n == 0 then [] else Goroutines(n - 1) + [End]
  }

  lemma {:induction false} EndsCount(calls: seq<Call>, n: nat)
    requires n <= After(calls).running
    ensures After(calls + Goroutines(n)) ==
            After(calls).(counter := After(calls).counter - n, running := After(calls).running - n)
  {
    if n == 0 {
      assert calls + [] == calls;
    } else {
      EndsCount(calls, n - 1);
      assert (calls + Goroutines(n))[..|calls| + n - 1] == calls + Goroutines(n - 1) by {
        GoroutinesLength(n);
        GoroutinesLength(n - 1);
      }
      GoroutinesLength(n);
    }
  }

  lemma {:induction false} GoroutinesLength(n: nat)
    ensures |Goroutines(n)| == n
    ensures n > 0 ==> Goroutines(n)[n - 1] == End
  {
    if n > 0 {
      GoroutinesLength(n - 1);
    }
  }

  /** Some goroutine in flight will take the counter below zero exactly when more are in flight than it counts. */
  lemma PanicsIff(calls: seq<Call>)
    ensures (exists n: nat :: n <= After(calls).running && After(calls + Goroutines(n)).counter < 0) <==>
            After(calls).counter < After(calls).running
  {
    if After(calls).counter < After(calls).running {
      EndsCount(calls, After(calls).running);
    }
    forall n: nat | n <= After(calls).running {
      EndsCount(calls, n);
    }
  }

  /** If nothing is registered while started the counter never goes below zero, even after failed StartAlls. */
  lemma NeverNegative(calls: seq<Call>)
    requires Late(calls) == 0
    ensures After(calls).counter >= 0
    ensures After(calls).counter >= After(calls).running
  {
    Conservation(calls);
    AbandonedNat(calls);
  }

  lemma {:induction false} AbandonedNat(calls: seq<Call>)
    ensures Abandoned(calls) >= 0
  {
    if calls != [] {
      AbandonedNat(calls[..|calls| - 1]);
    }
  }

  /**
   After a stop that lets everything end, Wait returns exactly if as many services were
   registered too late as were abandoned by failed StartAlls; more of the first panics,
   more of the second blocks Wait for good.
   */
  lemma WaitReturnsIff(calls: seq<Call>)
    requires !After(calls).started && After(calls).running == 0
    ensures After(calls).counter == 0 <==> Abandoned(calls) == Late(calls)
    ensures After(calls).counter > 0 <==> Abandoned(calls) > Late(calls)
  {
    Conservation(calls);
  }

  lemma Then(calls: seq<Call>, c: Call)
    ensures After(calls + [c]) == Do(After(calls), c)
  {
    assert (calls + [c])[..|calls|] == calls;
  }

  /** Two services: the second registered late, or abandoned by a StartAll that fails on it. */
  function LateRun(a: string, b: string): seq<Call> {
    [] + [Register(a)] + [Start(None)] + [Register(b)] + [Stop]
  }

  function FailedRun(a: string, b: string): seq<Call> {
    [] + [Register(a)] + [Register(b)] + [Start(Some(1))] + [Start(None)] + [Stop]
  }

  /** A service registered while started is stopped without having been counted: the counter ends at -1, a panic. */
  lemma LateRegistrationPanics(a: string, b: string)
    ensures After(LateRun(a, b)).counter < After(LateRun(a, b)).running
    ensures After(LateRun(a, b) + [End] + [End]).counter == -1
  {
    Then([], Register(a));
    Then([] + [Register(a)], Start(None));
    Then([] + [Register(a)] + [Start(None)], Register(b));
    Then([] + [Register(a)] + [Start(None)] + [Register(b)], Stop);
    assert After(LateRun(a, b)) == State([a] + [b], false, 1, 2);
    Then(LateRun(a, b), End);
    Then(LateRun(a, b) + [End], End);
  }

  /**
   A StartAll that failed at the second service leaves one count behind, which a later start
   and stop do not take back: Wait blocks.
   */
  lemma FailedStartBlocksWait(a: string, b: string)
    ensures After(FailedRun(a, b) + [End] + [End]) == State([a] + [b], false, 1, 0)
  {
    Then([], Register(a));
    Then([] + [Register(a)], Register(b));
    Then([] + [Register(a)] + [Register(b)], Start(Some(1)));
    Then([] + [Register(a)] + [Register(b)] + [Start(Some(1))], Start(None));
    Then([] + [Register(a)] + [Register(b)] + [Start(Some(1))] + [Start(None)], Stop);
    assert After(FailedRun(a, b)) == State([a] + [b], false, 3, 2);
    Then(FailedRun(a, b), End);
    Then(FailedRun(a, b) + [End], End);
  }

  // ---------------------------------------------------------------- the order of stops

  datatype Event = Launched(name: string) | Returned(name: string) | TimedOut(name: string)

  function Elapsed(durations: seq<nat>): nat {
    if durations == [] then 0 else Elapsed(durations[..|durations| - 1]) + durations[|durations| - 1]
  }

  class ServiceManager {
    var st: State

    constructor ()
      ensures st == NEW
    {
      st := NEW;
    }

    method RegisterService(name: string)
      modifies this
      ensures st == Do(old(st), Register(name))
      ensures st.services == old(st).services + [name] && st.started == old(st).started
    {
      st := st.(services := st.services + [name]);
    }

    method StartAll(failAt: Option<nat>) returns (ok: bool)
      modifies this
      ensures st == Do(old(st), Start(failAt))
      ensures ok <==> !old(st).started && !StartFails(old(st), failAt)
      ensures ok <==> !old(st).started && (failAt.None? || failAt.value >= |old(st).services|)
      ensures ok ==> st.started && st.counter == old(st).counter + |old(st).services|
      ensures !ok ==>
                && st.started == old(st).started
                && st.counter == old(st).counter + if old(st).started then 0 else failAt.value
      ensures st.services == old(st).services && st.running == old(st).running
    {
      if st.started {
        return false;
      }
      for i := 0 to |st.services|
        invariant st == old(st).(counter := old(st).counter + i)
        invariant failAt.Some? ==> i <= failAt.value
      {
        if failAt == Some(i) {
          return false;
        }
        st := st.(counter := st.counter + 1);
      }
      st := st.(started := true);
      return true;
    }

    /**
     `durations` tells how long each stop takes, in launch order. Stops are launched in
     reverse order of registration; each has returned before the next is launched, unless
     the stops up to it have used the budget up.
     */
    method StopAll(durations: seq<nat>) returns (trace: seq<Event>)
      requires |durations| == |st.services|
      modifies this
      ensures st == Do(old(st), Stop)
      ensures !old(st).started ==> trace == []
      ensures old(st).started ==> |trace| == 2 * |durations|
      ensures old(st).started ==> forall m :: 0 <= m < |durations| ==>
                var name := old(st).services[|durations| - 1 - m];
                && trace[2 * m] == Launched(name)
                && trace[2 * m + 1] == if Elapsed(durations[..m + 1]) < 30000 then Returned(name) else TimedOut(name)
    {
      trace := [];
      if !st.started {
        return;
      }
      var n := |st.services|;
      var left := BUDGET;
      var i := n;
      while i > 0
        invariant 0 <= i <= n
        invariant st == old(st).(running := old(st).running + (n - i))
        invariant left == if Elapsed(durations[..n - i]) < BUDGET then BUDGET - Elapsed(durations[..n - i]) else 0
        invariant |trace| == 2 * (n - i)
        invariant forall m :: 0 <= m < n - i ==>
                    && trace[2 * m] == Launched(old(st).services[n - 1 - m])
                    && trace[2 * m + 1] ==
                       if Elapsed(durations[..m + 1]) < BUDGET then Returned(old(st).services[n - 1 - m])
                       else TimedOut(old(st).services[n - 1 - m])
      {
        i := i - 1;
        var m := n - 1 - i;
        var name := st.services[i];
        assert durations[..m + 1][..m] == durations[..m];
        st := st.(running := st.running + 1);
        if durations[m] < left {
          left := left - durations[m];
          trace := trace + [Launched(name), Returned(name)];
        } else {
          left := 0;
          trace := trace + [Launched(name), TimedOut(name)];
        }
      }
      st := st.(started := false);
    }

    /** A stop goroutine ends: wg.Done. */
    method GoroutineEnds()
      requires st.running > 0
      modifies this
      ensures st == Do(old(st), End)
    {
      st := st.(counter := st.counter - 1, running := st.running - 1);
    }
  }
}
