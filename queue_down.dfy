/**
 * `queueDownMigrations`: walk the applied list (newest first) and queue a down record for each
 * entry, whose target is the next older applied entry, up to a limit.
 */
module QueueDown {
  import opened Wrappers
  import opened Errors
  import opened Source
  import opened Queue

  /** Go's `uint(x)` of a 64-bit `int`: two's complement wrap-around. */
  function Uint(x: int): nat
  {
    x % 0x1_0000_0000_0000_0000
  }

  /** The version a down record persists: the next entry of the list, or -1 after the last. */
  function DownTarget(appliedMigrs: seq<int>, i: nat): int
    requires i < |appliedMigrs|
  {
    if i == |appliedMigrs| - 1 then -1 else appliedMigrs[i + 1]
  }

  /** The down record for entry `i` of the applied list. */
  function DownRecord(src: SourceDriver, appliedMigrs: seq<int>, i: nat): Item
    requires i < |appliedMigrs|
  {
    var version := Uint(appliedMigrs[i]);
    var target := DownTarget(appliedMigrs, i);
    Record(Migration(version, target, false, src.ScriptFor(version, target)))
  }

  /** A down record for every entry of the applied list, in list order. */
  function DownRecords(src: SourceDriver, appliedMigrs: seq<int>): seq<Item>
  {
    seq(|appliedMigrs|, i requires 0 <= i < |appliedMigrs| => DownRecord(src, appliedMigrs, i))
  }

  /**
   * The rest of the walk at entry `i`; it has queued exactly `i` records by then. The loop
   * condition, the stop poll and the limit are checked in that order.
   */
  function DownWalk(src: SourceDriver, appliedMigrs: seq<int>, limit: int, stop: StopSignal, i: nat): seq<Item>
    requires i <= |appliedMigrs|
    decreases |appliedMigrs| - i
  {
    if i == |appliedMigrs| || stop.Stopped(i) || (limit != -1 && i >= limit) then FinishWith(i)
    else if Uint(appliedMigrs[i]) in src.unreadable then [Err(ErrRead(Uint(appliedMigrs[i])))]
    else [DownRecord(src, appliedMigrs, i)] + DownWalk(src, appliedMigrs, limit, stop, i + 1)
  }

  /** Everything `queueDownMigrations` writes to its channel before closing it. */
  function DownPlan(src: SourceDriver, appliedMigrs: seq<int>, limit: int, stop: StopSignal): seq<Item>
  {
    if |appliedMigrs| == 0 || limit == 0 then [NoChange]
    else DownWalk(src, appliedMigrs, limit, stop, 0)
  }

  method QueueDownMigrations(src: SourceDriver, appliedMigrs: seq<int>, limit: int, stop: StopSignal)
    returns (out: seq<Item>)
    ensures out == DownPlan(src, appliedMigrs, limit, stop)
  {
    if |appliedMigrs| == 0 || limit == 0 {
      return [NoChange];
    }
    ghost var plan := DownPlan(src, appliedMigrs, limit, stop);
    // what the walk still has to write from entry i on
    ghost var rest := DownWalk(src, appliedMigrs, limit, stop, 0);
    var appliedCount: nat := 0;
    var polls: nat := 0;
    out := [];
    var i := 0;
    while i < |appliedMigrs|
      invariant i <= |appliedMigrs| && appliedCount == i && polls == i
      invariant rest == DownWalk(src, appliedMigrs, limit, stop, i)
      invariant plan == out + rest
    {
      var stopped := stop.Stopped(polls);
      polls := polls + 1;
      if stopped {
        break;
      }
      if limit != -1 && appliedCount >= limit {
        break;
      }
      var version := Uint(appliedMigrs[i]);
      var targetVersion: int;
      if i == |appliedMigrs| - 1 {
        targetVersion := -1;
      } else {
        targetVersion := appliedMigrs[i + 1];
      }
      appliedCount := appliedCount + 1;
      var migr := src.NewMigration(version, targetVersion);
      if migr.Failure? {
        out := out + [Err(migr.error)];
        return;
      }
      var record := Record(migr.value);
      assert record == DownRecord(src, appliedMigrs, i);
      ghost var tail := DownWalk(src, appliedMigrs, limit, stop, i + 1);
      assert rest == [record] + tail;
      assert out + rest == (out + [record]) + tail;
      out := out + [record];
      rest := tail;
      i := i + 1;
    }
    assert rest == FinishWith(appliedCount);
    if appliedCount == 0 {
      out := out + [NoChange];
    }
  }

  /**
   * Whatever fails and whenever the stop comes, the walk writes the down records of the list
   * in list order, cut short, and at most one terminal item.
   */
  lemma {:induction false} DownWalkShape(src: SourceDriver, appliedMigrs: seq<int>, limit: int, stop: StopSignal, i: nat)
    requires i <= |appliedMigrs|
    ensures Truncated(DownWalk(src, appliedMigrs, limit, stop, i),
                      Limited(DownRecords(src, appliedMigrs), limit)[Min(i, |Limited(DownRecords(src, appliedMigrs), limit)|)..],
                      i == 0)
    decreases |appliedMigrs| - i
  {
    var all := Limited(DownRecords(src, appliedMigrs), limit);
    var out := DownWalk(src, appliedMigrs, limit, stop, i);
    if i == |appliedMigrs| || stop.Stopped(i) || (limit != -1 && i >= limit) {
    } else if Uint(appliedMigrs[i]) !in src.unreadable {
      assert i < |all|;
      DownWalkShape(src, appliedMigrs, limit, stop, i + 1);
      assert all[i..][0] == DownRecord(src, appliedMigrs, i);
      assert all[i..][1..] == all[i + 1..];
      assert out[1..] == DownWalk(src, appliedMigrs, limit, stop, i + 1);
    }
  }

  function Min(a: nat, b: nat): nat
  {
    if a < b then a else b
  }

  /** The shape of `queueDownMigrations`'s output on every input. */
  lemma DownPlanShape(src: SourceDriver, appliedMigrs: seq<int>, limit: int, stop: StopSignal)
    ensures Truncated(DownPlan(src, appliedMigrs, limit, stop), Limited(DownRecords(src, appliedMigrs), limit), true)
    ensures |appliedMigrs| == 0 || limit == 0 ==> DownPlan(src, appliedMigrs, limit, stop) == [NoChange]
  {
    if |appliedMigrs| != 0 && limit != 0 {
      DownWalkShape(src, appliedMigrs, limit, stop, 0);
    }
  }

  /**
   * When every listed script is readable, the walk from entry `i` writes the down records of
   * the entries from `i` up to the first of the end of the list, the stop and the limit.
   */
  lemma {:induction false} DownWalkExact(src: SourceDriver, appliedMigrs: seq<int>, limit: int, stop: StopSignal, i: nat)
    requires i <= |appliedMigrs|
    requires forall k :: 0 <= k < |appliedMigrs| ==> Uint(appliedMigrs[k]) !in src.unreadable
    ensures var q := Limited(DownRecords(src, appliedMigrs)[..Horizon(|appliedMigrs|, stop)], limit);
      DownWalk(src, appliedMigrs, limit, stop, i) ==
        (if i <= |q| then q[i..] else []) + (if i == 0 && q == [] then [NoChange] else [])
    decreases |appliedMigrs| - i
  {
    var q := Limited(DownRecords(src, appliedMigrs)[..Horizon(|appliedMigrs|, stop)], limit);
    if i == |appliedMigrs| || stop.Stopped(i) || (limit != -1 && i >= limit) {
      assert |q| <= i;
    } else {
      assert i < |q|;
      DownWalkExact(src, appliedMigrs, limit, stop, i + 1);
      assert q[i..] == [q[i]] + q[i + 1..];
    }
  }

  /**
   * `queueDownMigrations` when every listed script is readable: the down records of the first
   * entries of the list, as many as the limit and the stop allow, or only `ErrNoChange` when
   * that is none (an empty list, a zero limit, a stop before the first record).
   */
  lemma DownPlanExact(src: SourceDriver, appliedMigrs: seq<int>, limit: int, stop: StopSignal)
    requires forall k :: 0 <= k < |appliedMigrs| ==> Uint(appliedMigrs[k]) !in src.unreadable
    ensures var q := Limited(DownRecords(src, appliedMigrs)[..Horizon(|appliedMigrs|, stop)], limit);
      DownPlan(src, appliedMigrs, limit, stop) == q + (if q == [] then [NoChange] else [])
  {
    if |appliedMigrs| != 0 && limit != 0 {
      DownWalkExact(src, appliedMigrs, limit, stop, 0);
    }
  }

  /** The record of one entry of a list of valid versions. */
  lemma DownRecordAt(src: SourceDriver, appliedMigrs: seq<int>, k: nat)
    requires k < |appliedMigrs|
    requires 0 <= appliedMigrs[k] < 0x1_0000_0000_0000_0000
    ensures var r := DownRecords(src, appliedMigrs)[k];
      r.Record? && r.migr.version == appliedMigrs[k] && r.migr.targetVersion == DownTarget(appliedMigrs, k)
      && !r.migr.upKind
  {
    assert Uint(appliedMigrs[k]) == appliedMigrs[k];
  }

  /**
   * On a strictly descending list of valid versions, such as the history table returns, the
   * down records revert the versions newest first, each one targeting the next older applied
   * version and the oldest one targeting -1.
   */
  lemma DownRecordsOrder(src: SourceDriver, appliedMigrs: seq<int>)
    requires StrictlyDescending(appliedMigrs)
    requires forall k :: 0 <= k < |appliedMigrs| ==> 0 <= appliedMigrs[k] < 0x1_0000_0000_0000_0000
    ensures |DownRecords(src, appliedMigrs)| == |appliedMigrs|
    ensures forall k :: 0 <= k < |appliedMigrs| ==>
      var r := DownRecords(src, appliedMigrs)[k];
      r.Record? && r.migr.version == appliedMigrs[k] && !r.migr.upKind && r.migr.targetVersion < r.migr.version
    ensures forall j, k :: 0 <= j < k < |appliedMigrs| ==>
      DownRecords(src, appliedMigrs)[j].migr.version > DownRecords(src, appliedMigrs)[k].migr.version
    ensures forall k :: 0 <= k < |appliedMigrs| - 1 ==>
      DownRecords(src, appliedMigrs)[k].migr.targetVersion == DownRecords(src, appliedMigrs)[k + 1].migr.version
    ensures |appliedMigrs| > 0 ==> DownRecords(src, appliedMigrs)[|appliedMigrs| - 1].migr.targetVersion == -1
  {
    var recs := DownRecords(src, appliedMigrs);
    forall k | 0 <= k < |appliedMigrs|
      ensures recs[k].Record? && recs[k].migr.version == appliedMigrs[k] && !recs[k].migr.upKind
      ensures recs[k].migr.targetVersion == DownTarget(appliedMigrs, k)
    {
      DownRecordAt(src, appliedMigrs, k);
    }
    forall k | 0 <= k < |appliedMigrs| - 1
      ensures DownTarget(appliedMigrs, k) == appliedMigrs[k + 1] < appliedMigrs[k]
    {
    }
  }
}
