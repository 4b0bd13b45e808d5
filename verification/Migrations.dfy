/**
 Schema migrations at boot. The database holds a version table and the effects of the
 committed scripts; a boot reads the version, runs the missing scripts and stores the new
 version in one transaction. Boots happen one at a time.
 */
module Migrations {
  import opened Prelude

  /** `log` lists the scripts whose effects are committed, in order. */
  datatype Db = Db(present: bool, versions: seq<nat>, log: seq<nat>)

  const BLANK := Db(false, [], [])

  /**
   One boot of a program: its version, the script files it ships, the scripts that fail or
   cannot be read, whether each kind of statement fails, and where it crashes. A crash or a
   panic drops the connection, which rolls the transaction back.
   */
  datatype Boot = Boot(
    program: nat,
    files: set<nat>,
    failing: set<nat>,
    unreadable: set<nat>,
    faults: Faults,
    crashAfter: Option<nat>)

  datatype Faults = Faults(look: bool, create: bool, read: bool, insert: bool, update: bool, commit: bool)

  datatype Outcome = Upgraded | UpToDate | Downgrade | Error | Crashed

  /** Scripts n+1 .. m, in order. */
  function Range(n: nat, m: nat): seq<nat> {
    if m <= n then [] else Range(n, m - 1) + [m]
  }

  /** The stored version; an empty or missing table reads as 0. */
  function Version(db: Db): nat {
    if db.versions == [] then 0 else db.versions[0]
  }

  ghost predicate Runnable(b: Boot, from: nat) {
    forall i :: from < i <= b.program ==> i in b.files && i !in b.failing && i !in b.unreadable
  }

  /** A database can boot a program unless it is newer, or was initialised by a program of version 0. */
  ghost predicate Bootable(db: Db, program: nat) {
    Version(db) <= program && db.versions != [0]
  }

  const CLEAR := Faults(false, false, false, false, false, false)

  class Database {
    var db: Db

    constructor ()
      ensures db == BLANK
    {
      db := BLANK;
    }

    /** The loop over the missing scripts, inside the open transaction. */
    method RunScripts(b: Boot, data: nat, before: seq<nat>) returns (stop: Option<Outcome>, log: seq<nat>)
      requires data < b.program
      ensures stop.None? ==> Runnable(b, data) && log == before + Range(data, b.program)
      ensures stop.Some? ==> stop.value.Error? || stop.value.Crashed?
      ensures stop.Some? && b.crashAfter.None? ==> !Runnable(b, data)
    {
      log := before;
      for i := data + 1 to b.program + 1
        invariant log == before + Range(data, i - 1)
        invariant forall k :: data < k < i ==> k in b.files && k !in b.failing && k !in b.unreadable
      {
        if b.crashAfter == Some(i) {
          return Some(Crashed), log;
        }
        if i !in b.files {
          return Some(Error), log;
        }
        if i in b.unreadable {
          return Some(Crashed), log;
        }
        if i in b.failing {
          return Some(Error), log;
        }
        log := log + [i];
        assert log == before + Range(data, i);
      }
      stop := None;
    }

    method CheckVersion(b: Boot) returns (r: Outcome)
      modifies this
      ensures Step(old(db), b, r, db)
      ensures Consistent(old(db)) && b.faults == CLEAR && b.crashAfter == None ==>
                (r.Upgraded? || r.UpToDate? <==> Bootable(old(db), b.program) && Runnable(b, Version(old(db))))
      ensures r.Downgrade? ==> Version(old(db)) > b.program
      ensures b.faults == CLEAR && b.crashAfter == None && Version(old(db)) > b.program ==> r.Downgrade?
      ensures r.Upgraded? ==>
                forall i :: Version(old(db)) < i <= b.program ==> i in b.files && i !in b.failing && i !in b.unreadable
      ensures r.Upgraded? || r.UpToDate? ==> db.versions != [] && db.versions[0] == b.program
      ensures !r.Upgraded? && !r.UpToDate? ==> db.versions == old(db).versions && db.log == old(db).log
      ensures db.present <==> old(db).present || (!b.faults.look && !b.faults.create && b.crashAfter != Some(0))
    {
      if b.crashAfter == Some(0) {
        return Crashed;
      }
      if b.faults.look {
        return Error;
      }
      if !db.present {
        if b.faults.create {
          return Error;
        }
        db := db.(present := true);
      }
      var tx := db;
      if b.faults.read {
        return Error;
      }
      var data := if db.versions == [] then 0 else db.versions[0];
      if data == 0 {
        // primary key: a second row 0 is refused
        if b.faults.insert || 0 in tx.versions {
          return Error;
        }
        tx := tx.(versions := tx.versions + [0]);
      }
      if data > b.program {
        return Downgrade;
      }
      if data < b.program {
        var stop, log := RunScripts(b, data, tx.log);
        if stop.Some? {
          return stop.value;
        }
        if b.faults.update {
          return Error;
        }
        tx := tx.(log := log, versions := Replace(tx.versions, b.program));
        if b.faults.commit {
          return Error;
        }
        db := tx;
        return Upgraded;
      }
      if b.faults.commit {
        return Error;
      }
      assert [] + Range(data, data) == [];
      db := tx;
      return UpToDate;
    }
  }

  /** UPDATE without a WHERE: every row takes the version. */
  function Replace(versions: seq<nat>, v: nat): seq<nat> {
    seq(|versions|, i => v)
  }

  // ---------------------------------------------------------------- boots on values

  /** What a boot may leave behind, as the method states it. */
  ghost predicate Step(db: Db, b: Boot, r: Outcome, db': Db) {
    match r
    case Upgraded =>
      && Version(db) < b.program && Runnable(b, Version(db)) && !(0 in db.versions && Version(db) == 0)
      && db'.log == db.log + Range(Version(db), b.program)
      && db'.versions ==
         if Version(db) == 0 then Replace(db.versions + [0], b.program) else Replace(db.versions, b.program)
    case UpToDate =>
      && Version(db) == b.program && !(0 in db.versions && Version(db) == 0) && db'.log == db.log
      && db'.versions == if b.program == 0 then db.versions + [0] else db.versions
    case _ => db'.versions == db.versions && db'.log == db.log
  }

  /** A single version row v and exactly the scripts 1..v; or nothing yet. */
  ghost predicate Consistent(db: Db) {
    if db.versions == [] then db.log == []
    else |db.versions| == 1 && db.log == Range(0, db.versions[0])
  }

  lemma {:induction false} RangeJoins(n: nat, m: nat)
    requires n <= m
    ensures Range(0, n) + Range(n, m) == Range(0, m)
    decreases m
  {
    if n < m {
      RangeJoins(n, m - 1);
      assert Range(0, n) + Range(n, m) == (Range(0, n) + Range(n, m - 1)) + [m];
    }
  }

  lemma {:induction false} RangeExact(n: nat, m: nat)
    ensures forall i :: i in Range(n, m) <==> n < i <= m
    ensures NoDup(Range(n, m))
    decreases m
  {
    if n < m {
      RangeExact(n, m - 1);
      NoDupAppend(Range(n, m - 1), [m]);
    }
  }

  lemma StepConsistent(db: Db, b: Boot, r: Outcome, db': Db)
    requires Consistent(db) && Step(db, b, r, db')
    ensures Consistent(db')
  {
    if r.Upgraded? {
      RangeJoins(Version(db), b.program);
      assert Range(0, 0) == [];
    }
  }

  datatype Event = Event(boot: Boot, result: Outcome, post: Db)

  function Final(events: seq<Event>): Db {
    if events == [] then BLANK else events[|events| - 1].post
  }

  ghost predicate Run(events: seq<Event>) {
    events != [] ==>
      var before, e := events[..|events| - 1], events[|events| - 1];
      Run(before) && Step(Final(before), e.boot, e.result, e.post)
  }

  /**
   After any boots, failed, crashed or downgraded, the committed scripts are exactly 1..v, each
   once, for the stored version v.
   */
  lemma {:induction false} RunConsistent(events: seq<Event>)
    requires Run(events)
    ensures Consistent(Final(events))
    ensures NoDup(Final(events).log) && forall i :: i in Final(events).log <==> 0 < i <= Version(Final(events))
  {
    if events != [] {
      var before, e := events[..|events| - 1], events[|events| - 1];
      RunConsistent(before);
      StepConsistent(Final(before), e.boot, e.result, e.post);
    }
    RangeExact(0, Version(Final(events)));
  }

  /**
   No sequence of boots of programs of version at least 1 ends in the state a version-0 boot
   leaves, which no later boot gets past.
   */
  lemma {:induction false} ZeroNeverStored(events: seq<Event>)
    requires Run(events) && forall e :: e in events ==> e.boot.program >= 1
    ensures 0 !in Final(events).versions
  {
    if events != [] {
      var before, e := events[..|events| - 1], events[|events| - 1];
      assert e in events && forall f :: f in before ==> f in events;
      ZeroNeverStored(before);
      RunConsistent(before);
    }
  }

  /** A first boot at version 0 stores a row 0, and from then on every boot is refused. */
  lemma VersionZeroLocksOut(b: Boot, r: Outcome, db: Db, b2: Boot, r2: Outcome, db2: Db)
    requires b.program == 0 && r.UpToDate? && Step(BLANK, b, r, db) && Step(db, b2, r2, db2)
    ensures !r2.Upgraded? && !r2.UpToDate? && db2.versions == [0]
  {
  }
}
