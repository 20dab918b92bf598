/**
 * `queueUpMigrations`: walk the source from its first version, skip the versions already
 * applied, and queue an up record for each of the others, up to a limit.
 */
module QueueUp {
  import opened Wrappers
  import opened Errors
  import opened Source
  import opened Queue

  /** The applied versions as a set (`appliedSet`). */
  function AppliedSet(appliedMigrs: seq<int>): set<int>
  {
    set x | x in appliedMigrs
  }

  /** The versions of `vs` that are not applied, in the order of `vs`. */
  function Pending(vs: seq<nat>, applied: set<int>): seq<nat>
  {
    if vs == [] then []
    else (if vs[0] in applied then [] else [vs[0]]) + Pending(vs[1..], applied)
  }

  /** An up record applies its own version: `targetVersion == version`, `UpKindMigration`. */
  function UpRecord(src: SourceDriver, v: nat): Item
  {
    Record(Migration(v, v, true, src.ScriptFor(v, v)))
  }

  function UpRecords(src: SourceDriver, vs: seq<nat>): seq<Item>
  {
    if vs == [] then [] else [UpRecord(src, vs[0])] + UpRecords(src, vs[1..])
  }

  /**
   * The rest of the walk once it stands at position `i` of the source having queued `count`
   * records: the loop condition on the limit, the stop poll, then either the skip of an applied
   * version or a new record, each followed by `Next`.
   */
  function UpWalk(src: SourceDriver, applied: set<int>, limit: int, stop: StopSignal, i: nat, count: nat)
    : seq<Item>
    requires i < |src.versions|
    decreases |src.versions| - i
  {
    var vs := src.versions;
    if !(limit == -1 || count < limit) || stop.Stopped(i) then FinishWith(count)
    else if vs[i] in applied then
      if vs[i] in src.nextFails then [Err(ErrSourceNext(vs[i]))]
      else if i + 1 == |vs| then FinishWith(count)
      else UpWalk(src, applied, limit, stop, i + 1, count)
    else if vs[i] in src.unreadable then [Err(ErrRead(vs[i]))]
    else
      [UpRecord(src, vs[i])] +
      (if vs[i] in src.nextFails then [Err(ErrSourceNext(vs[i]))]
       else if i + 1 == |vs| then []
       else UpWalk(src, applied, limit, stop, i + 1, count + 1))
  }

  /** Everything `queueUpMigrations` writes to its channel before closing it. */
  function UpPlan(src: SourceDriver, appliedMigrs: seq<int>, limit: int, stop: StopSignal): seq<Item>
  {
    if src.firstFails then [Err(ErrSourceFirst)]
    else if src.versions == [] then [NoChange]
    else UpWalk(src, AppliedSet(appliedMigrs), limit, stop, 0, 0)
  }

  /** Builds `appliedSet` from the applied list, one entry at a time. */
  method BuildAppliedSet(appliedMigrs: seq<int>) returns (appliedSet: set<int>)
    ensures appliedSet == AppliedSet(appliedMigrs)
  {
    appliedSet := {};
    for k := 0 to |appliedMigrs|
      invariant forall x :: x in appliedSet <==> x in appliedMigrs[..k]
    {
      assert appliedMigrs[..k + 1] == appliedMigrs[..k] + [appliedMigrs[k]];
      appliedSet := appliedSet + {appliedMigrs[k]};
    }
    assert appliedMigrs[..|appliedMigrs|] == appliedMigrs;
    assert forall x :: x in appliedSet <==> x in AppliedSet(appliedMigrs);
  }

  method QueueUpMigrations(src: SourceDriver, appliedMigrs: seq<int>, limit: int, stop: StopSignal)
    returns (out: seq<Item>)
    requires src.Valid()
    ensures out == UpPlan(src, appliedMigrs, limit, stop)
  {
    var appliedSet := BuildAppliedSet(appliedMigrs);
    var first := src.First();
    if first.NotExist? {
      return [NoChange];
    }
    if first.Failed? {
      return [Err(ErrSourceFirst)];
    }
    var targetVersion := first.version;
    ghost var plan := UpPlan(src, appliedMigrs, limit, stop);
    // what the walk still has to write from the current position on
    ghost var rest := UpWalk(src, appliedSet, limit, stop, 0, 0);
    ghost var i: nat := 0;
    var polls: nat := 0;
    var appliedCount: nat := 0;
    out := [];
    while limit == -1 || appliedCount < limit
      invariant i < |src.versions| && targetVersion == src.versions[i] && polls == i
      invariant rest == UpWalk(src, appliedSet, limit, stop, i, appliedCount)
      invariant plan == out + rest
      decreases |src.versions| - i
    {
      var stopped := stop.Stopped(polls);
      polls := polls + 1;
      if stopped {
        break;
      }
      NextAt(src, i);
      UpWalkStep(src, appliedSet, limit, stop, i, appliedCount);
      if targetVersion in appliedSet {
        var next := src.Next(targetVersion);
        if next.Failed? {
          out := out + [Err(ErrSourceNext(targetVersion))];
          return;
        }
        if next.NotExist? {
          break;
        }
        targetVersion := next.version;
        i := i + 1;
        rest := UpWalk(src, appliedSet, limit, stop, i, appliedCount);
        continue;
      }
      appliedCount := appliedCount + 1;
      var migr := src.NewMigration(targetVersion, targetVersion);
      if migr.Failure? {
        out := out + [Err(migr.error)];
        return;
      }
      var record := Record(migr.value.(upKind := true));
      assert record == UpRecord(src, targetVersion);
      ghost var tail := rest[1..];
      assert rest == [record] + tail;
      Reassociate(out, record, tail);
      out := out + [record];
      rest := tail;
      var next := src.Next(targetVersion);
      if next.NotExist? {
        break;
      }
      if next.Failed? {
        out := out + [Err(ErrSourceNext(targetVersion))];
        return;
      }
      targetVersion := next.version;
      i := i + 1;
    }
    assert rest == FinishWith(appliedCount);
    if appliedCount == 0 {
      out := out + [NoChange];
    }
  }

  lemma Reassociate<T>(a: seq<T>, x: T, b: seq<T>)
    ensures a + ([x] + b) == (a + [x]) + b
  {
  }

  /** One position of the walk, when the limit and the stop let it look at the version there. */
  lemma UpWalkStep(src: SourceDriver, applied: set<int>, limit: int, stop: StopSignal, i: nat, count: nat)
    requires i < |src.versions| && (limit == -1 || count < limit) && !stop.Stopped(i)
    ensures var v := src.versions[i];
      var out := UpWalk(src, applied, limit, stop, i, count);
      && (v in applied && v in src.nextFails ==> out == [Err(ErrSourceNext(v))])
      && (v in applied && v !in src.nextFails && i + 1 == |src.versions| ==> out == FinishWith(count))
      && (v in applied && v !in src.nextFails && i + 1 < |src.versions| ==>
            out == UpWalk(src, applied, limit, stop, i + 1, count))
      && (v !in applied && v in src.unreadable ==> out == [Err(ErrRead(v))])
      && (v !in applied && v !in src.unreadable ==> out != [] && out[0] == UpRecord(src, v))
      && (v !in applied && v !in src.unreadable && v in src.nextFails ==>
            out[1..] == [Err(ErrSourceNext(v))])
      && (v !in applied && v !in src.unreadable && v !in src.nextFails && i + 1 == |src.versions| ==>
            out[1..] == [])
      && (v !in applied && v !in src.unreadable && v !in src.nextFails && i + 1 < |src.versions| ==>
            out[1..] == UpWalk(src, applied, limit, stop, i + 1, count + 1))
  {
  }

  /** The pending versions are exactly the versions of the source that are not applied. */
  lemma {:induction false} PendingMembers(vs: seq<nat>, applied: set<int>)
    ensures forall v :: v in Pending(vs, applied) <==> v in vs && v !in applied
    decreases |vs|
  {
    if vs != [] {
      PendingMembers(vs[1..], applied);
      assert vs == [vs[0]] + vs[1..];
    }
  }

  /** Pending versions keep the strict ascending order of the source, so each appears once. */
  lemma {:induction false} PendingAscending(vs: seq<nat>, applied: set<int>)
    requires StrictlyAscending(vs)
    ensures StrictlyAscending(Pending(vs, applied))
    decreases |vs|
  {
    if vs != [] {
      PendingAscending(vs[1..], applied);
      PendingMembers(vs[1..], applied);
      var rest := Pending(vs[1..], applied);
      var head := if vs[0] in applied then [] else [vs[0]];
      var p := head + rest;
      forall a, b | 0 <= a < b < |p| ensures p[a] < p[b] {
        if head == [] || a > 0 {
          assert p[a] == rest[a - |head|] && p[b] == rest[b - |head|];
        } else {
          assert p[b] == rest[b - 1] && rest[b - 1] in rest;
          var k :| 0 <= k < |vs[1..]| && vs[1..][k] == rest[b - 1];
          assert vs[0] < vs[k + 1];
        }
      }
    }
  }

  /** The up records name the given versions, one each, in order. */
  lemma {:induction false} UpRecordsAt(src: SourceDriver, vs: seq<nat>)
    ensures |UpRecords(src, vs)| == |vs|
    ensures forall k :: 0 <= k < |vs| ==> UpRecords(src, vs)[k] == UpRecord(src, vs[k])
    decreases |vs|
  {
    if vs != [] {
      UpRecordsAt(src, vs[1..]);
    }
  }

  /** Unrolls `Pending` one position of a window of the source. */
  lemma PendingStep(vs: seq<nat>, applied: set<int>, i: nat, h: nat)
    requires i < h <= |vs|
    ensures Pending(vs[i..h], applied) ==
      (if vs[i] in applied then [] else [vs[i]]) + Pending(vs[i + 1..h], applied)
  {
    assert vs[i..h][1..] == vs[i + 1..h];
  }

  lemma UpRecordsCons(src: SourceDriver, v: nat, p: seq<nat>)
    ensures UpRecords(src, [v] + p) == [UpRecord(src, v)] + UpRecords(src, p)
  {
    assert ([v] + p)[1..] == p;
  }

  /**
   * Whatever the source's failures and the stop, the walk writes the up records of the pending
   * versions in source order, cut short, and at most one terminal item.
   */
  lemma {:induction false} UpWalkShape(src: SourceDriver, applied: set<int>, limit: int, stop: StopSignal, i: nat, count: nat)
    requires i < |src.versions|
    ensures Truncated(UpWalk(src, applied, limit, stop, i, count),
                      UpRecords(src, Limited(Pending(src.versions[i..], applied), Remaining(limit, count))),
                      count == 0)
    decreases |src.versions| - i, 1
  {
    var vs := src.versions;
    if !(limit == -1 || count < limit) || stop.Stopped(i) {
    } else {
      assert vs[i..] == vs[i..|vs|];
      PendingStep(vs, applied, i, |vs|);
      assert vs[i + 1..|vs|] == vs[i + 1..];
      if vs[i] in applied {
        assert Pending(vs[i..], applied) == Pending(vs[i + 1..], applied);
        if vs[i] !in src.nextFails && i + 1 < |vs| {
          UpWalkShape(src, applied, limit, stop, i + 1, count);
        } else if vs[i] !in src.nextFails {
          assert vs[i + 1..] == [];
        }
      } else if vs[i] !in src.unreadable {
        UpWalkShapeRecord(src, applied, limit, stop, i, count);
      }
    }
  }

  /** The step of `UpWalkShape` at a pending version, which becomes a record. */
  lemma {:induction false} UpWalkShapeRecord(src: SourceDriver, applied: set<int>, limit: int, stop: StopSignal, i: nat, count: nat)
    requires i < |src.versions|
    requires (limit == -1 || count < limit) && !stop.Stopped(i)
    requires src.versions[i] !in applied && src.versions[i] !in src.unreadable
    requires Pending(src.versions[i..], applied) == [src.versions[i]] + Pending(src.versions[i + 1..], applied)
    ensures Truncated(UpWalk(src, applied, limit, stop, i, count),
                      UpRecords(src, Limited(Pending(src.versions[i..], applied), Remaining(limit, count))),
                      count == 0)
    decreases |src.versions| - i, 0
  {
    var vs := src.versions;
    var out := UpWalk(src, applied, limit, stop, i, count);
    var rest := Pending(vs[i + 1..], applied);
    var q' := Limited(rest, Remaining(limit, count + 1));
    LimitedCons(vs[i], rest, limit, count);
    UpRecordsCons(src, vs[i], q');
    var intended := UpRecords(src, Limited(Pending(vs[i..], applied), Remaining(limit, count)));
    assert intended == [UpRecord(src, vs[i])] + UpRecords(src, q');
    var tail := if vs[i] in src.nextFails then [Err(ErrSourceNext(vs[i]))]
                else if i + 1 == |vs| then []
                else UpWalk(src, applied, limit, stop, i + 1, count + 1);
    assert out == [UpRecord(src, vs[i])] + tail;
    if vs[i] !in src.nextFails && i + 1 < |vs| {
      UpWalkShape(src, applied, limit, stop, i + 1, count + 1);
    }
    assert Truncated(tail, UpRecords(src, q'), false);
    assert out[1..] == tail && intended[1..] == UpRecords(src, q');
  }

  /** The shape of `queueUpMigrations`'s output on every input. */
  lemma UpPlanShape(src: SourceDriver, appliedMigrs: seq<int>, limit: int, stop: StopSignal)
    ensures Truncated(UpPlan(src, appliedMigrs, limit, stop),
                      UpRecords(src, Limited(Pending(src.versions, AppliedSet(appliedMigrs)), limit)), true)
  {
    if !src.firstFails && src.versions != [] {
      var p := Pending(src.versions, AppliedSet(appliedMigrs));
      assert Limited(p, Remaining(limit, 0)) == Limited(p, limit);
      assert src.versions[0..] == src.versions;
      UpWalkShape(src, AppliedSet(appliedMigrs), limit, stop, 0, 0);
    }
  }

  /**
   * What the walk from position `i`, having queued `count` records, writes when the source does
   * not fail: the up records of the pending versions before the stop, as many as the limit
   * still allows, and `ErrNoChange` if nothing is queued at all.
   */
  ghost function UpExpected(src: SourceDriver, applied: set<int>, limit: int, stop: StopSignal, i: nat, count: nat)
    : seq<Item>
  {
    var h := Horizon(|src.versions|, stop);
    var q := Limited(Pending(if i <= h then src.versions[i..h] else [], applied), Remaining(limit, count));
    UpRecords(src, q) + (if count == 0 && q == [] then [NoChange] else [])
  }

  /** `UpExpected` past an applied version is `UpExpected` at the next position. */
  lemma UpExpectedSkip(src: SourceDriver, applied: set<int>, limit: int, stop: StopSignal, i: nat, count: nat)
    requires i < |src.versions| && !stop.Stopped(i) && src.versions[i] in applied
    ensures UpExpected(src, applied, limit, stop, i, count) == UpExpected(src, applied, limit, stop, i + 1, count)
  {
    var vs := src.versions;
    var h := Horizon(|vs|, stop);
    assert i < h;
    PendingStep(vs, applied, i, h);
    assert Pending(vs[i..h], applied) == Pending(vs[i + 1..h], applied);
  }

  /** `UpExpected` at an unapplied version within the limit starts with its up record. */
  lemma UpExpectedRecord(src: SourceDriver, applied: set<int>, limit: int, stop: StopSignal, i: nat, count: nat)
    requires i < |src.versions| && !stop.Stopped(i) && src.versions[i] !in applied
    requires limit == -1 || count < limit
    ensures UpExpected(src, applied, limit, stop, i, count) ==
      [UpRecord(src, src.versions[i])] + UpExpected(src, applied, limit, stop, i + 1, count + 1)
  {
    var vs := src.versions;
    var h := Horizon(|vs|, stop);
    assert i < h;
    PendingStep(vs, applied, i, h);
    var rest := Pending(vs[i + 1..h], applied);
    LimitedCons(vs[i], rest, limit, count);
    UpRecordsCons(src, vs[i], Limited(rest, Remaining(limit, count + 1)));
  }

  /** At the end of the source, or once the limit or the stop is reached, nothing more is expected. */
  lemma UpExpectedEnd(src: SourceDriver, applied: set<int>, limit: int, stop: StopSignal, i: nat, count: nat)
    requires i == |src.versions| || stop.Stopped(i) || !(limit == -1 || count < limit)
    ensures UpExpected(src, applied, limit, stop, i, count) == FinishWith(count)
  {
    var vs := src.versions;
    var h := Horizon(|vs|, stop);
    var p := Pending(if i <= h then vs[i..h] else [], applied);
    if i == |vs| || stop.Stopped(i) {
      assert p == [];
    } else {
      assert Remaining(limit, count) == 0;
    }
    assert Limited(p, Remaining(limit, count)) == [];
  }

  lemma {:induction false} UpWalkExact(src: SourceDriver, applied: set<int>, limit: int, stop: StopSignal, i: nat, count: nat)
    requires src.Reliable() && i < |src.versions|
    ensures UpWalk(src, applied, limit, stop, i, count) == UpExpected(src, applied, limit, stop, i, count)
    decreases |src.versions| - i
  {
    var vs := src.versions;
    if !(limit == -1 || count < limit) || stop.Stopped(i) {
      UpExpectedEnd(src, applied, limit, stop, i, count);
    } else {
      UpWalkStep(src, applied, limit, stop, i, count);
      if vs[i] in applied {
        UpExpectedSkip(src, applied, limit, stop, i, count);
        if i + 1 < |vs| {
          UpWalkExact(src, applied, limit, stop, i + 1, count);
        } else {
          UpExpectedEnd(src, applied, limit, stop, i + 1, count);
        }
      } else {
        UpExpectedRecord(src, applied, limit, stop, i, count);
        var out := UpWalk(src, applied, limit, stop, i, count);
        assert out == [out[0]] + out[1..];
        if i + 1 < |vs| {
          UpWalkExact(src, applied, limit, stop, i + 1, count + 1);
        } else {
          UpExpectedEnd(src, applied, limit, stop, i + 1, count + 1);
        }
      }
    }
  }

  /**
   * `queueUpMigrations` on a source without failures: exactly the up records of the first
   * `limit` unapplied versions seen before the stop, in ascending source order, or only
   * `ErrNoChange` when there is none (an empty source, everything applied, a zero limit or a
   * stop before the first record).
   */
  lemma UpPlanExact(src: SourceDriver, appliedMigrs: seq<int>, limit: int, stop: StopSignal)
    requires src.Reliable()
    ensures var q := Limited(Pending(src.versions[..Horizon(|src.versions|, stop)], AppliedSet(appliedMigrs)), limit);
      UpPlan(src, appliedMigrs, limit, stop) == UpRecords(src, q) + (if q == [] then [NoChange] else [])
  {
    var h := Horizon(|src.versions|, stop);
    var p := Pending(src.versions[..h], AppliedSet(appliedMigrs));
    if src.versions != [] {
      assert src.versions[0..h] == src.versions[..h];
      assert Limited(p, Remaining(limit, 0)) == Limited(p, limit);
      UpWalkExact(src, AppliedSet(appliedMigrs), limit, stop, 0, 0);
    }
  }
}
