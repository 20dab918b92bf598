/**
 * `DoMigration` and `UndoMigration`: apply or revert one given version, behind the lock, on an
 * Extended driver only, and only when the history table says there is something to do.
 */
module Migrate {
  import opened Wrappers
  import opened Errors
  import opened Source
  import opened Queue
  import opened QueueSingle
  import opened Database
  import opened Executor

  /**
   * What `DoMigration(version)` does to the backend and returns. `lockFails` and `queryFails`
   * say whether taking the lock and the `IsMigrationApplied` query fail.
   */
  function DoOutcome(st: DbState, extended: bool, missing: bool, src: SourceDriver, version: nat,
                     lockFails: bool, queryFails: bool, stop: StopSignal, faults: seq<StepFaults>)
    : (r: (DbState, Option<Error>))
    ensures lockFails ==> r == (st, Some(ErrLock))
    ensures !lockFails && !extended ==> r == (st, Some(ErrWrongDriver))
    ensures !lockFails && extended && !missing && queryFails ==> r == (st, Some(ErrDatabase))
    ensures !lockFails && extended && !missing && !queryFails && version in st.history ==>
      r == (st, Some(ErrNoChange))
    // no other version is touched, and at most the version's up script runs
    ensures SameExcept(st.history, r.0.history, version) && r.0.version == st.version && r.0.dirty == st.dirty
    ensures r.0.ran == st.ran || (version in src.upScripts && r.0.ran == st.ran + [src.upScripts[version]])
    // a success either did nothing (a stop came first) or left the version applied and clean
    ensures r.1.None? ==> r.0 == st || (version !in st.history && version in r.0.history && !r.0.history[version])
    ensures extended && !lockFails && !missing && !queryFails && version !in st.history
            && version in src.versions && version !in src.unreadable && !stop.Stopped(0)
            && FaultsAt(faults, 0) == NoFaults ==>
      r.1.None? && r.0.history == st.history[version := false]
  {
    if lockFails then (st, Some(ErrLock))
    else if !extended then (st, Some(ErrWrongDriver))
    else if !missing && queryFails then (st, Some(ErrDatabase))
    else if !missing && version in st.history then (st, Some(ErrNoChange))
    else
      RunAllOne(st, true, missing, QueueUpSingle(src, version, stop), faults);
      RunAll(st, true, missing, QueueUpSingle(src, version, stop), faults, 0)
  }

  /** What `UndoMigration(version)` does to the backend and returns. */
  function UndoOutcome(st: DbState, extended: bool, missing: bool, src: SourceDriver, version: nat,
                       lockFails: bool, queryFails: bool, stop: StopSignal, faults: seq<StepFaults>)
    : (r: (DbState, Option<Error>))
    ensures lockFails ==> r == (st, Some(ErrLock))
    ensures !lockFails && !extended ==> r == (st, Some(ErrWrongDriver))
    ensures !lockFails && extended && !missing && queryFails ==> r == (st, Some(ErrDatabase))
    ensures !lockFails && extended && (missing || (!queryFails && version !in st.history)) ==>
      r == (st, Some(ErrNoChange))
    // no other version is touched, and at most one script runs
    ensures SameExcept(st.history, r.0.history, version) && r.0.version == st.version && r.0.dirty == st.dirty
    ensures |r.0.ran| <= |st.ran| + 1
    // a success either did nothing (a stop came first) or removed the version's row
    ensures r.1.None? ==> r.0 == st || (version in st.history && version !in r.0.history)
    ensures extended && !lockFails && !missing && !queryFails && version in st.history
            && version in src.versions && version !in src.prevFails && version !in src.unreadable
            && !stop.Stopped(0) && FaultsAt(faults, 0) == NoFaults ==>
      r.1.None? && r.0.history == st.history - {version}
  {
    if lockFails then (st, Some(ErrLock))
    else if !extended then (st, Some(ErrWrongDriver))
    else if missing then (st, Some(ErrNoChange))
    else if queryFails then (st, Some(ErrDatabase))
    else if version !in st.history then (st, Some(ErrNoChange))
    else
      RunAllOne(st, true, missing, QueueDownSingle(src, version, stop), faults);
      RunAll(st, true, missing, QueueDownSingle(src, version, stop), faults, 0)
  }

  /**
   * The one script `UndoMigration` may run is the version's down script: on a source in
   * ascending order the record's target is the previous version, below the version itself, so
   * the record carries the down file.
   */
  lemma UndoRunsDownScript(st: DbState, extended: bool, missing: bool, src: SourceDriver, version: nat,
                           lockFails: bool, queryFails: bool, stop: StopSignal, faults: seq<StepFaults>)
    requires src.Valid()
    ensures var r := UndoOutcome(st, extended, missing, src, version, lockFails, queryFails, stop, faults);
      r.0.ran == st.ran || (version in src.downScripts && r.0.ran == st.ran + [src.downScripts[version]])
  {
    var q := QueueDownSingle(src, version, stop);
    QueueDownSingleTarget(src, version, stop);
    RunAllOne(st, true, missing, q, faults);
    if q != [] && q[0].Record? {
      assert q[0] in q;
      assert q[0].migr.targetVersion < version;
    }
  }

  method DoMigration(db: Driver, src: SourceDriver, version: nat, lockFails: bool, queryFails: bool,
                     stop: StopSignal, faults: seq<StepFaults>) returns (err: Option<Error>)
    requires db.Valid()
    modifies db
    ensures db.Valid()
    ensures (db.State(), err) ==
      DoOutcome(old(db.State()), db.extended, db.tableMissing, src, version, lockFails, queryFails, stop, faults)
  {
    if lockFails {
      return Some(ErrLock);
    }
    if db.extended {
      var isApplied, e := db.IsMigrationApplied(version, queryFails);
      if e.Some? {
        return e;
      }
      if isApplied {
        return Some(ErrNoChange);
      }
      var items := QueueUpSingle(src, version, stop);
      err := RunMigrations(db, items, faults);
    } else {
      return Some(ErrWrongDriver);
    }
  }

  method UndoMigration(db: Driver, src: SourceDriver, version: nat, lockFails: bool, queryFails: bool,
                       stop: StopSignal, faults: seq<StepFaults>) returns (err: Option<Error>)
    requires db.Valid()
    modifies db
    ensures db.Valid()
    ensures (db.State(), err) ==
      UndoOutcome(old(db.State()), db.extended, db.tableMissing, src, version, lockFails, queryFails, stop, faults)
  {
    if lockFails {
      return Some(ErrLock);
    }
    if db.extended {
      var isApplied, e := db.IsMigrationApplied(version, queryFails);
      if e.Some? {
        return e;
      }
      if !isApplied {
        return Some(ErrNoChange);
      }
      var items := QueueDownSingle(src, version, stop);
      err := RunMigrations(db, items, faults);
    } else {
      return Some(ErrWrongDriver);
    }
  }
}
