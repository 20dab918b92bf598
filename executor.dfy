/**
 * `handleSingleMigration`: the per-record state machine mark dirty, run the script, mark clean
 * (or remove the row), on an Extended or a Basic driver; and the consumer that executes the
 * queued items in order.
 */
module Executor {
  import opened Wrappers
  import opened Errors
  import opened Source
  import opened Queue
  import opened Database

  /** Which of the three backend calls of one execution fail. */
  datatype StepFaults = StepFaults(markFails: bool, runFails: bool, cleanFails: bool)

  const NoFaults := StepFaults(false, false, false)

  /** Step 1: the insert of a dirty row (up), the dirty flag (down), or the dirty version pointer. */
  function MarkDirtyOp(st: DbState, extended: bool, missing: bool, migr: Migration, fails: bool): (DbState, Option<Error>)
  {
    if !extended then SetVersionOp(st, migr.targetVersion, true, fails)
    else if migr.upKind then AddDirtyOp(st, missing, migr.version, fails)
    else SetDirtyFlagOp(st, missing, migr.version, true, fails)
  }

  /** Step 2: the script, when the record has one. */
  function RunBodyOp(st: DbState, migr: Migration, fails: bool): (DbState, Option<Error>)
  {
    if migr.body.Some? then RunOp(st, migr.body.value, fails) else (st, None)
  }

  /** Step 3: the cleared flag (up), the removed row (down), or the clean version pointer. */
  function MarkCleanOp(st: DbState, extended: bool, missing: bool, migr: Migration, fails: bool): (DbState, Option<Error>)
  {
    if !extended then SetVersionOp(st, migr.targetVersion, false, fails)
    else if migr.upKind then SetDirtyFlagOp(st, missing, migr.version, false, fails)
    else RemoveOp(st, missing, migr.version, fails)
  }

  /** The version a failed marking step names: the record's own, or the Basic pointer's target. */
  function Reported(extended: bool, migr: Migration): int
  {
    if extended then migr.version else migr.targetVersion
  }

  /** One execution of `handleSingleMigration`: the new backend state and the error it returns. */
  function Execute(st: DbState, extended: bool, missing: bool, migr: Migration, faults: StepFaults): (r: (DbState, Option<Error>))
    // every error names its step and a version
    ensures r.1.Some? ==> (r.1.value.ErrStep?
      && r.1.value.reported == (if r.1.value.step == RunBody then migr.version else Reported(extended, migr)))
    // a failed marking step changes nothing and runs nothing
    ensures r.1.Some? && r.1.value.step == MarkDirty ==> r.0 == st
    // the script runs at most once, and only after the marking step succeeded
    ensures r.0.ran == st.ran || (migr.body.Some? && r.0.ran == st.ran + [migr.body.value])
    ensures r.1.None? && migr.body.Some? ==> r.0.ran == st.ran + [migr.body.value]
    // no other version's row changes; each capability touches only its own state
    ensures extended ==> (SameExcept(st.history, r.0.history, migr.version)
      && r.0.version == st.version && r.0.dirty == st.dirty)
    ensures !extended ==> r.0.history == st.history
    // a success ends applied and clean, or removed, or on a clean pointer
    ensures extended && migr.upKind && r.1.None? ==>
      migr.version !in st.history && migr.version in r.0.history && !r.0.history[migr.version]
    ensures extended && !migr.upKind && r.1.None? ==> migr.version !in r.0.history
    ensures !extended && r.1.None? ==> r.0.version == migr.targetVersion && !r.0.dirty
    // a failure after the marking step leaves the record's version dirty: nothing is rolled back
    ensures extended && r.1.Some? && r.1.value.step != MarkDirty && (migr.upKind || migr.version in st.history) ==>
      migr.version in r.0.history && r.0.history[migr.version]
    ensures !extended && r.1.Some? && r.1.value.step != MarkDirty ==>
      r.0.version == migr.targetVersion && r.0.dirty
    // without faults the only way to fail is a missing table or an up record already recorded
    ensures faults == NoFaults && (extended ==> !missing && (migr.upKind ==> migr.version !in st.history)) ==>
      r.1.None?
  {
    var marked := MarkDirtyOp(st, extended, missing, migr, faults.markFails);
    if marked.1.Some? then (marked.0, Some(ErrStep(MarkDirty, Reported(extended, migr), marked.1.value)))
    else
      var run := RunBodyOp(marked.0, migr, faults.runFails);
      if run.1.Some? then (run.0, Some(ErrStep(RunBody, migr.version, run.1.value)))
      else
        var cleaned := MarkCleanOp(run.0, extended, missing, migr, faults.cleanFails);
        if cleaned.1.Some? then (cleaned.0, Some(ErrStep(MarkClean, Reported(extended, migr), cleaned.1.value)))
        else (cleaned.0, None)
  }

  /**
   * Crash safety: on a clean history table, a failed execution past its marking step leaves
   * exactly the record's version dirty, which is what `IsDatabaseDirty` then reports.
   */
  lemma ExecuteFailureLeavesOneDirty(st: DbState, missing: bool, migr: Migration, faults: StepFaults)
    requires DirtyVersions(st.history) == {}
    requires migr.upKind || migr.version in st.history
    ensures var r := Execute(st, true, missing, migr, faults);
      r.1.Some? && r.1.value.step != MarkDirty ==> DirtyVersions(r.0.history) == {migr.version}
  {
    var r := Execute(st, true, missing, migr, faults);
    if r.1.Some? && r.1.value.step != MarkDirty {
      forall u | u != migr.version ensures u !in DirtyVersions(r.0.history) {
        assert u !in DirtyVersions(st.history);
      }
      assert migr.version in DirtyVersions(r.0.history);
    }
  }

  method HandleSingleMigration(db: Driver, migr: Migration, faults: StepFaults) returns (err: Option<Error>)
    requires db.Valid()
    modifies db
    ensures db.Valid()
    ensures (db.State(), err) == Execute(old(db.State()), db.extended, db.tableMissing, migr, faults)
  {
    var e: Option<Error>;
    if db.extended {
      if migr.upKind {
        e := db.AddDirtyMigration(migr.version, faults.markFails);
      } else {
        e := db.UpdateMigrationDirtyFlag(migr.version, true, faults.markFails);
      }
    } else {
      e := db.SetVersion(migr.targetVersion, true, faults.markFails);
    }
    if e.Some? {
      return Some(ErrStep(MarkDirty, Reported(db.extended, migr), e.value));
    }

    if migr.body.Some? {
      e := db.Run(migr.body.value, faults.runFails);
      if e.Some? {
        return Some(ErrStep(RunBody, migr.version, e.value));
      }
    }

    if db.extended {
      if migr.upKind {
        e := db.UpdateMigrationDirtyFlag(migr.version, false, faults.cleanFails);
      } else {
        e := db.RemoveMigration(migr.version, faults.cleanFails);
      }
    } else {
      e := db.SetVersion(migr.targetVersion, false, faults.cleanFails);
    }
    if e.Some? {
      return Some(ErrStep(MarkClean, Reported(db.extended, migr), e.value));
    }
    return None;
  }

  /** The faults of the execution at position `k` of the queue; none past the given ones. */
  function FaultsAt(faults: seq<StepFaults>, k: nat): StepFaults
  {
    if k < |faults| then faults[k] else NoFaults
  }

  /**
   * The consumer of a queue: execute the records in order and stop at the first item that is
   * not one (returning it as the error: `ErrNoChange` included) or at the first failed execution.
   */
  function RunAll(st: DbState, extended: bool, missing: bool, items: seq<Item>, faults: seq<StepFaults>, k: nat)
    : (r: (DbState, Option<Error>))
    requires k <= |items|
    ensures st.ran <= r.0.ran
    decreases |items| - k
  {
    if k == |items| then (st, None)
    else match items[k]
      case NoChange => (st, Some(ErrNoChange))
      case Err(e) => (st, Some(e))
      case Record(migr) =>
        var done := Execute(st, extended, missing, migr, FaultsAt(faults, k));
        if done.1.Some? then done
        else RunAll(done.0, extended, missing, items, faults, k + 1)
  }

  /** The consumer on a queue of at most one item. */
  lemma RunAllOne(st: DbState, extended: bool, missing: bool, items: seq<Item>, faults: seq<StepFaults>)
    requires |items| <= 1
    ensures items == [] ==> RunAll(st, extended, missing, items, faults, 0) == (st, None)
    ensures items != [] && items[0].Record? ==>
      RunAll(st, extended, missing, items, faults, 0) == Execute(st, extended, missing, items[0].migr, FaultsAt(faults, 0))
    ensures items != [] && items[0].Err? ==> RunAll(st, extended, missing, items, faults, 0) == (st, Some(items[0].error))
  {
    if items != [] && items[0].Record? {
      var done := Execute(st, extended, missing, items[0].migr, FaultsAt(faults, 0));
      if done.1.None? {
        assert RunAll(done.0, extended, missing, items, faults, 1) == (done.0, None);
      }
    }
  }

  method RunMigrations(db: Driver, items: seq<Item>, faults: seq<StepFaults>) returns (err: Option<Error>)
    requires db.Valid()
    modifies db
    ensures db.Valid()
    ensures (db.State(), err) == RunAll(old(db.State()), db.extended, db.tableMissing, items, faults, 0)
  {
    for k := 0 to |items|
      invariant db.Valid()
      invariant RunAll(old(db.State()), db.extended, db.tableMissing, items, faults, 0)
             == RunAll(db.State(), db.extended, db.tableMissing, items, faults, k)
    {
      match items[k]
      case NoChange =>
        return Some(ErrNoChange);
      case Err(e) =>
        return Some(e);
      case Record(migr) =>
        err := HandleSingleMigration(db, migr, FaultsAt(faults, k));
        if err.Some? {
          return;
        }
    }
    err := None;
  }
}
