/**
 The lease that guards task dispatch: a Redis key set only if absent, expiring by itself,
 and deleted by whoever releases, whoever holds it. A worker knows only when the lease it
 took runs out.
 */
module TaskLease {
  import opened Prelude

  /** Five seconds, in nanoseconds. */
  const TTL := 5000000000

  type Worker = nat

  datatype Lease = Lease(now: nat, expiry: Option<nat>, deadlines: map<Worker, nat>)

  const FREE := Lease(0, None, map[])

  /** Does the key exist in Redis at this time? */
  predicate Locked(l: Lease) {
    l.expiry.Some? && l.now < l.expiry.value
  }

  function Pass(l: Lease, d: nat): Lease {
    l.(now := l.now + d)
  }

  function Take(l: Lease, w: Worker): Lease {
    l.(expiry := Some(l.now + TTL), deadlines := l.deadlines[w := l.now + TTL])
  }

  /** The deferred release: the key goes, no matter whose it has become. */
  function Release(l: Lease, w: Worker): Lease {
    l.(expiry := None, deadlines := l.deadlines - {w})
  }

  /** The worker dies; the key stays until it expires. */
  function Crash(l: Lease, w: Worker): Lease {
    l.(deadlines := l.deadlines - {w})
  }

  /** The worker is inside the critical section and its lease has not run out. */
  predicate InTime(l: Lease, w: Worker) {
    w in l.deadlines && l.now < l.deadlines[w]
  }

  /** A worker in time owns the key, and is the only one. */
  ghost predicate Exclusive(l: Lease) {
    && (forall w :: InTime(l, w) ==> l.expiry == Some(l.deadlines[w]))
    && (forall v, w :: InTime(l, v) && InTime(l, w) ==> v == w)
  }

  lemma PassKeeps(l: Lease, d: nat)
    requires Exclusive(l)
    ensures Exclusive(Pass(l, d))
    ensures forall w :: InTime(Pass(l, d), w) ==> InTime(l, w)
  {
    assert forall w :: InTime(Pass(l, d), w) ==> InTime(l, w);
  }

  lemma TakeKeeps(l: Lease, w: Worker)
    requires Exclusive(l) && !Locked(l) && w !in l.deadlines
    ensures Exclusive(Take(l, w))
    ensures forall v :: InTime(Take(l, w), v) <==> v == w
  {
    forall v | v != w
      ensures !InTime(Take(l, w), v)
    {
      assert InTime(l, v) ==> Locked(l);
    }
  }

  /** A lease taken now keeps others out, and its worker in time, for five seconds and no longer. */
  lemma HeldFiveSeconds(l: Lease, w: Worker, d: nat)
    ensures Locked(Pass(Take(l, w), d)) <==> d < 5000000000
    ensures InTime(Pass(Take(l, w), d), w) <==> d < 5000000000
  {
  }

  lemma CrashKeeps(l: Lease, w: Worker)
    requires Exclusive(l)
    ensures Exclusive(Crash(l, w))
  {
    assert forall v :: InTime(Crash(l, w), v) ==> InTime(l, v);
  }

  /** A release keeps exclusion exactly when it does not delete the key of another worker in time. */
  lemma ReleaseKeepsIff(l: Lease, w: Worker)
    requires Exclusive(l) && w in l.deadlines
    ensures Exclusive(Release(l, w)) <==> forall v :: InTime(l, v) ==> v == w
    ensures InTime(l, w) ==> Exclusive(Release(l, w))
  {
    if v :| InTime(l, v) && v != w {
      assert InTime(Release(l, w), v);
    }
    assert forall v :: InTime(Release(l, w), v) ==> InTime(l, v) && v != w;
  }
}
