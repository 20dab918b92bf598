/**
 * `queueUpSingleMigration` and `queueDownSingleMigration`: queue the one record that applies or
 * reverts a given version of the source.
 */
module QueueSingle {
  import opened Wrappers
  import opened Errors
  import opened Source
  import opened Queue
  import opened QueueUp

  /**
   * `p` is the version a revert of `v` goes back to: the greatest version of the source below
   * `v`, or -1 when there is none.
   */
  ghost predicate IsPredecessor(vs: seq<nat>, v: nat, p: int)
  {
    if p == -1 then forall u :: u in vs ==> v <= u
    else p >= 0 && p in vs && p < v && forall u :: u in vs && u < v ==> u <= p
  }

  /** Everything `queueUpSingleMigration` writes to its channel; it polls the stop once. */
  function QueueUpSingle(src: SourceDriver, version: nat, stop: StopSignal): (out: seq<Item>)
    ensures |out| <= 1 && NoChange !in out
    ensures out == [Err(ErrNoMigration(version))] <==> version !in src.versions
    ensures out == [] <==> version in src.versions && stop.Stopped(0)
    ensures forall it :: it in out && it.Record? ==> it == UpRecord(src, version)
    ensures version in src.versions && !stop.Stopped(0) && version !in src.unreadable ==>
      out == [UpRecord(src, version)]
  {
    match src.VersionExists(version)
    case Some(err) => [Err(err)]
    case None =>
      if stop.Stopped(0) then []
      else match src.NewMigration(version, version)
        case Failure(err) => [Err(err)]
        case Success(migr) => [Record(migr.(upKind := true))]
  }

  /** Everything `queueDownSingleMigration` writes to its channel; it polls the stop once. */
  function QueueDownSingle(src: SourceDriver, version: nat, stop: StopSignal): (out: seq<Item>)
    ensures |out| <= 1 && NoChange !in out
    ensures out == [Err(ErrNoMigration(version))] <==> version !in src.versions
    ensures out == [] <==> version in src.versions && stop.Stopped(0)
    ensures version in src.versions && !stop.Stopped(0) && version in src.prevFails ==>
      out == [Err(ErrSourcePrev(version))]
    ensures forall it :: it in out && it.Record? ==>
      && it.migr.version == version && !it.migr.upKind
      && it.migr.body == src.ScriptFor(version, it.migr.targetVersion)
  {
    match src.VersionExists(version)
    case Some(err) => [Err(err)]
    case None =>
      if stop.Stopped(0) then []
      else
        var prev := src.Prev(version);
        if prev.Failed? then [Err(ErrSourcePrev(version))]
        else
          var targetVersion := if prev.Found? then prev.version as int else -1;
          match src.NewMigration(version, targetVersion)
          case Failure(err) => [Err(err)]
          case Success(migr) => [Record(migr)]
  }

  /**
   * On a source in ascending order, the down record reverts to the predecessor of the version,
   * and it is queued whenever neither `Prev` nor the read of the version fails.
   */
  lemma QueueDownSingleTarget(src: SourceDriver, version: nat, stop: StopSignal)
    requires src.Valid()
    ensures forall it :: it in QueueDownSingle(src, version, stop) && it.Record? ==>
      IsPredecessor(src.versions, version, it.migr.targetVersion)
    ensures version in src.versions && !stop.Stopped(0) && version !in src.prevFails
            && version !in src.unreadable ==>
      |QueueDownSingle(src, version, stop)| == 1 && QueueDownSingle(src, version, stop)[0].Record?
  {
    if version in src.versions && version !in src.prevFails {
      PrevIsPredecessor(src, version);
    }
  }

  /**
   * The batch and the single up planners agree: when the version is pending and nothing fails,
   * a single step queues the very record a full run queues for it.
   */
  lemma QueueUpSingleInPlan(src: SourceDriver, appliedMigrs: seq<int>, version: nat)
    requires src.Valid() && src.Reliable()
    requires version in src.versions && version !in appliedMigrs
    ensures QueueUpSingle(src, version, Never) == [UpRecord(src, version)]
    ensures UpRecord(src, version) in UpPlan(src, appliedMigrs, -1, Never)
  {
    UpPlanExact(src, appliedMigrs, -1, Never);
    var p := Pending(src.versions, AppliedSet(appliedMigrs));
    PendingMembers(src.versions, AppliedSet(appliedMigrs));
    assert src.versions[..|src.versions|] == src.versions;
    var k :| 0 <= k < |p| && p[k] == version;
    UpRecordsAt(src, p);
    assert UpRecords(src, p)[k] == UpRecord(src, version);
  }
}
