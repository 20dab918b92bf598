/**
 * Whole runs: a planner's queue handed to the consumer on an Extended driver, as `Up` and
 * `Steps` do with the applied list the history table returns. These are the behaviours the
 * repository's end-to-end tests check against a live database.
 */
module Scenarios {
  import opened Wrappers
  import opened Errors
  import opened Source
  import opened Queue
  import opened Database
  import opened QueueUp
  import opened QueueDown
  import opened Executor

  /** The up script of `v`, if the source has one, as the list `Run` receives. */
  function UpBody(src: SourceDriver, v: nat): seq<string>
  {
    match src.ScriptFor(v, v)
    case Some(b) => [b]
    case None => []
  }

  /** The up scripts of `vs`, in order. */
  function UpBodies(src: SourceDriver, vs: seq<nat>): seq<string>
    decreases |vs|
  {
    if vs == [] then [] else UpBodies(src, vs[..|vs| - 1]) + UpBody(src, vs[|vs| - 1])
  }

  /** `history` with a clean row added for each version of `vs`. */
  function CleanRows(history: map<nat, bool>, vs: seq<nat>): map<nat, bool>
    decreases |vs|
  {
    if vs == [] then history else CleanRows(history, vs[..|vs| - 1])[vs[|vs| - 1] := false]
  }

  /** The backend after the up records of `vs` all executed successfully. */
  function AfterUp(st: DbState, src: SourceDriver, vs: seq<nat>): DbState
  {
    st.(history := CleanRows(st.history, vs), ran := st.ran + UpBodies(src, vs))
  }

  /** The rows `CleanRows` adds are clean; every other row is kept as it was. */
  lemma {:induction false} CleanRowsSpec(history: map<nat, bool>, vs: seq<nat>)
    ensures forall v :: v in CleanRows(history, vs) <==> v in history || v in vs
    ensures forall v :: v in vs ==> v in CleanRows(history, vs) && !CleanRows(history, vs)[v]
    ensures forall v :: v in history && v !in vs ==> CleanRows(history, vs)[v] == history[v]
    decreases |vs|
  {
    if vs != [] {
      var init := vs[..|vs| - 1];
      CleanRowsSpec(history, init);
      assert vs == init + [vs[|vs| - 1]];
      assert forall v :: v in vs <==> v in init || v == vs[|vs| - 1];
    }
  }

  /** One fault-free up execution of a version the history table does not hold. */
  lemma ExecuteUpClean(s: DbState, src: SourceDriver, v: nat)
    requires v !in s.history
    ensures Execute(s, true, false, UpRecord(src, v).migr, NoFaults)
         == (s.(history := s.history[v := false], ran := s.ran + UpBody(src, v)), None)
  {
    var migr := UpRecord(src, v).migr;
    var marked := MarkDirtyOp(s, true, false, migr, false);
    assert marked == (s.(history := s.history[v := true]), None);
    if src.ScriptFor(v, v).None? {
      assert s.ran + UpBody(src, v) == s.ran;
    }
    assert s.history[v := true][v := false] == s.history[v := false];
  }

  /** An up execution whose script fails: the row of the version stays dirty. */
  lemma ExecuteUpRunFails(s: DbState, src: SourceDriver, v: nat)
    requires v !in s.history && v in src.upScripts
    ensures Execute(s, true, false, UpRecord(src, v).migr, StepFaults(false, true, false))
         == (s.(history := s.history[v := true], ran := s.ran + [src.upScripts[v]]),
             Some(ErrStep(RunBody, v, ErrDatabase)))
  {
    var migr := UpRecord(src, v).migr;
    var marked := MarkDirtyOp(s, true, false, migr, false);
    assert marked == (s.(history := s.history[v := true]), None);
  }

  /** `AfterUp` of one more version. */
  lemma AfterUpSnoc(st: DbState, src: SourceDriver, p: seq<nat>, m: nat)
    requires 0 < m <= |p|
    ensures var s := AfterUp(st, src, p[..m - 1]);
      AfterUp(st, src, p[..m]) == s.(history := s.history[p[m - 1] := false], ran := s.ran + UpBody(src, p[m - 1]))
  {
    assert p[..m][..m - 1] == p[..m - 1];
  }

  /** The consumer moves past a record whose execution succeeds. */
  lemma RunAllPast(st: DbState, extended: bool, missing: bool, items: seq<Item>, faults: seq<StepFaults>, k: nat)
    requires k < |items| && items[k].Record?
    requires Execute(st, extended, missing, items[k].migr, FaultsAt(faults, k)).1.None?
    ensures RunAll(st, extended, missing, items, faults, k)
         == RunAll(Execute(st, extended, missing, items[k].migr, FaultsAt(faults, k)).0, extended, missing, items, faults, k + 1)
  {
  }

  /** The consumer stops at a record whose execution fails, with that execution's outcome. */
  lemma RunAllStops(st: DbState, extended: bool, missing: bool, items: seq<Item>, faults: seq<StepFaults>, k: nat)
    requires k < |items| && items[k].Record?
    requires Execute(st, extended, missing, items[k].migr, FaultsAt(faults, k)).1.Some?
    ensures RunAll(st, extended, missing, items, faults, k) == Execute(st, extended, missing, items[k].migr, FaultsAt(faults, k))
  {
  }

  /**
   * Executing the up records of an ascending list of new versions without faults, position by
   * position, passes through `AfterUp` of each prefix.
   */
  lemma {:induction false} RunUpPrefix(st: DbState, src: SourceDriver, p: seq<nat>, faults: seq<StepFaults>, m: nat)
    requires m <= |p| && StrictlyAscending(p)
    requires forall v :: v in p ==> v !in st.history
    requires forall k :: 0 <= k < m ==> FaultsAt(faults, k) == NoFaults
    ensures |UpRecords(src, p)| == |p|
    ensures RunAll(st, true, false, UpRecords(src, p), faults, 0)
         == RunAll(AfterUp(st, src, p[..m]), true, false, UpRecords(src, p), faults, m)
    decreases m
  {
    UpRecordsAt(src, p);
    if m == 0 {
      assert p[..0] == [];
      assert AfterUp(st, src, []) == st;
    } else {
      var items := UpRecords(src, p);
      var v := p[m - 1];
      RunUpPrefix(st, src, p, faults, m - 1);
      var s := AfterUp(st, src, p[..m - 1]);
      NewVersionAfterPrefix(st, p, m - 1);
      assert items[m - 1] == UpRecord(src, v);
      ExecuteUpClean(s, src, v);
      AfterUpSnoc(st, src, p, m);
      RunAllPast(s, true, false, items, faults, m - 1);
    }
  }

  /** The version at position `m` of an ascending list of new versions is not yet recorded after its prefix. */
  lemma NewVersionAfterPrefix(st: DbState, p: seq<nat>, m: nat)
    requires m < |p| && StrictlyAscending(p)
    requires forall v :: v in p ==> v !in st.history
    ensures p[m] !in CleanRows(st.history, p[..m])
  {
    CleanRowsSpec(st.history, p[..m]);
    assert p[m] !in p[..m];
  }

  /**
   * The consumer on the up records of an ascending list of versions the history table does not
   * hold: every version gets a clean row, in order, each script runs once, and no other row
   * changes.
   */
  lemma RunUpRecords(st: DbState, src: SourceDriver, p: seq<nat>)
    requires StrictlyAscending(p)
    requires forall v :: v in p ==> v !in st.history
    ensures var r := RunAll(st, true, false, UpRecords(src, p), [], 0);
      && r.1 == None
      && (forall v :: v in r.0.history <==> v in st.history || v in p)
      && (forall v :: v in p ==> !r.0.history[v])
      && (forall v :: v in st.history ==> r.0.history[v] == st.history[v])
      && r.0.version == st.version && r.0.dirty == st.dirty
      && r.0.ran == st.ran + UpBodies(src, p)
  {
    RunUpPrefix(st, src, p, [], |p|);
    assert p[..|p|] == p;
    CleanRowsSpec(st.history, p);
  }

  /**
   * A script that fails part way through an up run: the versions before it stay applied and
   * clean, its own row stays dirty, the later versions are not recorded, and the failure names
   * the run step and the version.
   */
  lemma RunUpRecordsCrash(st: DbState, src: SourceDriver, p: seq<nat>, faults: seq<StepFaults>, j: nat)
    requires StrictlyAscending(p)
    requires forall v :: v in p ==> v !in st.history
    requires j < |p| && p[j] in src.upScripts
    requires forall k :: 0 <= k < j ==> FaultsAt(faults, k) == NoFaults
    requires FaultsAt(faults, j) == StepFaults(false, true, false)
    ensures var r := RunAll(st, true, false, UpRecords(src, p), faults, 0);
      && r.1 == Some(ErrStep(RunBody, p[j], ErrDatabase))
      && (forall v :: v in r.0.history <==> v in st.history || v in p[..j + 1])
      && (forall v :: v in p[..j] ==> !r.0.history[v])
      && DirtyVersions(r.0.history) == DirtyVersions(st.history) + {p[j]}
      && r.0.ran == st.ran + UpBodies(src, p[..j]) + [src.upScripts[p[j]]]
  {
    var s := AfterUp(st, src, p[..j]);
    CrashOutcome(st, src, p, faults, j);
    CleanRowsSpec(st.history, p[..j]);
    PrefixMembers(p, j);
    DirtyAfterCrash(st.history, p, j);
  }

  /** The members of a prefix one longer. */
  lemma PrefixMembers(p: seq<nat>, j: nat)
    requires j < |p|
    ensures forall v :: v in p[..j + 1] <==> v in p[..j] || v == p[j]
  {
    assert p[..j + 1] == p[..j] + [p[j]];
  }

  /** The outcome of the run that crashes at position `j`, as a state. */
  lemma CrashOutcome(st: DbState, src: SourceDriver, p: seq<nat>, faults: seq<StepFaults>, j: nat)
    requires StrictlyAscending(p)
    requires forall v :: v in p ==> v !in st.history
    requires j < |p| && p[j] in src.upScripts
    requires forall k :: 0 <= k < j ==> FaultsAt(faults, k) == NoFaults
    requires FaultsAt(faults, j) == StepFaults(false, true, false)
    ensures var s := AfterUp(st, src, p[..j]);
      && p[j] !in s.history
      && RunAll(st, true, false, UpRecords(src, p), faults, 0)
         == (s.(history := s.history[p[j] := true], ran := s.ran + [src.upScripts[p[j]]]),
             Some(ErrStep(RunBody, p[j], ErrDatabase)))
  {
    RunUpPrefix(st, src, p, faults, j);
    UpRecordsAt(src, p);
    var s := AfterUp(st, src, p[..j]);
    NewVersionAfterPrefix(st, p, j);
    ExecuteUpRunFails(s, src, p[j]);
    RunAllStops(s, true, false, UpRecords(src, p), faults, j);
  }

  /** The dirty rows after a crash at position `j`: the ones before, and the version at `j`. */
  lemma DirtyAfterCrash(history: map<nat, bool>, p: seq<nat>, j: nat)
    requires j < |p| && p[j] !in CleanRows(history, p[..j])
    requires forall v :: v in p ==> v !in history
    ensures DirtyVersions(CleanRows(history, p[..j])[p[j] := true]) == DirtyVersions(history) + {p[j]}
  {
    var h := CleanRows(history, p[..j]);
    CleanRowsSpec(history, p[..j]);
    forall v ensures v in DirtyVersions(h[p[j] := true]) <==> v in DirtyVersions(history) + {p[j]} {
      if v in p[..j] {
        assert v !in history;
      }
    }
  }

  /** Nothing pending: every version of the source is already applied. */
  lemma PendingNone(vs: seq<nat>, applied: set<int>)
    requires forall v :: v in vs ==> v in applied
    ensures Pending(vs, applied) == []
  {
    PendingMembers(vs, applied);
  }

  /** The whole source is in view: no stop, no limit. */
  lemma UnboundedPlan(src: SourceDriver, appliedMigrs: seq<int>)
    requires src.Reliable()
    ensures var p := Pending(src.versions, AppliedSet(appliedMigrs));
      UpPlan(src, appliedMigrs, -1, Never) == UpRecords(src, p) + (if p == [] then [NoChange] else [])
  {
    UpPlanExact(src, appliedMigrs, -1, Never);
    assert src.versions[..|src.versions|] == src.versions;
  }

  /**
   * `Up` on an Extended driver whose history table lists `appliedMigrs`: every version of the
   * source not yet applied ends applied and clean, nothing else changes; with nothing pending
   * the run reports `ErrNoChange` and changes nothing.
   */
  lemma UpAppliesEveryPending(st: DbState, src: SourceDriver, appliedMigrs: seq<int>)
    requires src.Valid() && src.Reliable()
    requires forall v: int :: v in appliedMigrs <==> v >= 0 && v in st.history
    ensures var r := RunAll(st, true, false, UpPlan(src, appliedMigrs, -1, Never), [], 0);
      && ((forall v :: v in src.versions ==> v in st.history) ==> r == (st, Some(ErrNoChange)))
      && (!(forall v :: v in src.versions ==> v in st.history) ==>
          && r.1 == None
          && (forall v :: v in r.0.history <==> v in st.history || v in src.versions)
          && (forall v :: v in src.versions ==> !r.0.history[v] || v in st.history)
          && (forall v :: v in st.history ==> r.0.history[v] == st.history[v]))
  {
    var applied := AppliedSet(appliedMigrs);
    var p := Pending(src.versions, applied);
    UnboundedPlan(src, appliedMigrs);
    PendingMembers(src.versions, applied);
    assert forall v: nat :: v in applied <==> v in st.history;
    if forall v :: v in src.versions ==> v in st.history {
      PendingNone(src.versions, applied);
    } else {
      var u :| u in src.versions && u !in st.history;
      assert u in p;
      PendingAscending(src.versions, applied);
      assert UpPlan(src, appliedMigrs, -1, Never) == UpRecords(src, p);
      RunUpRecords(st, src, p);
    }
  }

  /**
   * Re-running `Up` is idempotent: once every version of the source is applied, the planner
   * queues only `ErrNoChange`, whatever the limit and the stop.
   */
  lemma UpAgainIsNoChange(src: SourceDriver, appliedMigrs: seq<int>, limit: int, stop: StopSignal)
    requires src.Reliable()
    requires forall v :: v in src.versions ==> v in appliedMigrs
    ensures UpPlan(src, appliedMigrs, limit, stop) == [NoChange]
  {
    var h := Horizon(|src.versions|, stop);
    UpPlanExact(src, appliedMigrs, limit, stop);
    PendingNone(src.versions[..h], AppliedSet(appliedMigrs));
  }

  /**
   * `Up` followed by `Up`: the second run, planned from the history the first one left, reports
   * `ErrNoChange` and changes nothing.
   */
  lemma UpTwice(st: DbState, src: SourceDriver, appliedMigrs: seq<int>, appliedAfter: seq<int>)
    requires src.Valid() && src.Reliable()
    requires forall v: int :: v in appliedMigrs <==> v >= 0 && v in st.history
    requires var r := RunAll(st, true, false, UpPlan(src, appliedMigrs, -1, Never), [], 0);
      forall v: int :: v in appliedAfter <==> v >= 0 && v in r.0.history
    ensures var r := RunAll(st, true, false, UpPlan(src, appliedMigrs, -1, Never), [], 0);
      RunAll(r.0, true, false, UpPlan(src, appliedAfter, -1, Never), [], 0) == (r.0, Some(ErrNoChange))
  {
    UpAppliesEveryPending(st, src, appliedMigrs);
    UpAgainIsNoChange(src, appliedAfter, -1, Never);
  }

  /**
   * Out-of-order application: with 130 and 140 applied and 135 not, `Up` queues exactly 135,
   * which falls between versions already applied.
   */
  lemma UpFillsGap(src: SourceDriver, appliedMigrs: seq<int>)
    requires src.Reliable() && src.versions == [130, 135, 140]
    requires forall v: int :: v in appliedMigrs <==> v == 130 || v == 140
    ensures UpPlan(src, appliedMigrs, -1, Never) == [UpRecord(src, 135)]
  {
    var applied := AppliedSet(appliedMigrs);
    UnboundedPlan(src, appliedMigrs);
    var vs := src.versions;
    assert vs[1..] == [135, 140] && vs[1..][1..] == [140] && vs[1..][1..][1..] == [];
    assert 130 in applied && 135 !in applied && 140 in applied;
    assert Pending(vs[1..][1..][1..], applied) == [];
    assert Pending(vs[1..][1..], applied) == [];
    assert Pending(vs[1..], applied) == [135];
    assert Pending(vs, applied) == [135];
    UpRecordsCons(src, 135, []);
  }

  /** The first pending version is the lowest one not applied. */
  lemma PendingHeadIsLowest(vs: seq<nat>, applied: set<int>)
    requires StrictlyAscending(vs) && Pending(vs, applied) != []
    ensures forall w :: w in vs && w < Pending(vs, applied)[0] ==> w in applied
  {
    var p := Pending(vs, applied);
    PendingMembers(vs, applied);
    PendingAscending(vs, applied);
    forall w | w in vs && w !in applied ensures p[0] <= w {
      var k :| 0 <= k < |p| && p[k] == w;
      assert k == 0 || p[0] < p[k];
    }
  }

  /**
   * `Steps(1)`: the planner with a limit of one queues the lowest version not yet applied, and
   * every version below it is applied.
   */
  lemma UpStepOne(src: SourceDriver, appliedMigrs: seq<int>)
    requires src.Valid() && src.Reliable()
    requires exists v :: v in src.versions && v !in appliedMigrs
    ensures var p := Pending(src.versions, AppliedSet(appliedMigrs));
      && p != []
      && UpPlan(src, appliedMigrs, 1, Never) == [UpRecord(src, p[0])]
      && p[0] in src.versions && p[0] !in appliedMigrs
      && (forall w :: w in src.versions && w < p[0] ==> w in appliedMigrs)
  {
    var applied := AppliedSet(appliedMigrs);
    var p := Pending(src.versions, applied);
    PendingMembers(src.versions, applied);
    PendingAscending(src.versions, applied);
    var u :| u in src.versions && u !in appliedMigrs;
    assert u in p;
    PendingHeadIsLowest(src.versions, applied);
    UpStepOnePlan(src, appliedMigrs);
  }

  /** With a limit of one and no stop, the up planner queues the first pending version. */
  lemma UpStepOnePlan(src: SourceDriver, appliedMigrs: seq<int>)
    requires src.Reliable() && Pending(src.versions, AppliedSet(appliedMigrs)) != []
    ensures UpPlan(src, appliedMigrs, 1, Never) == [UpRecord(src, Pending(src.versions, AppliedSet(appliedMigrs))[0])]
  {
    var p := Pending(src.versions, AppliedSet(appliedMigrs));
    UpPlanExact(src, appliedMigrs, 1, Never);
    assert src.versions[..|src.versions|] == src.versions;
    assert Limited(p, 1) == [p[0]];
    UpRecordsCons(src, p[0], []);
  }

  /**
   * `Steps(-1)` on an Extended driver: the planner with a limit of one, over the applied list
   * the history table returns newest first, queues the down record of the newest version, and
   * running it removes that row and no other.
   */
  lemma DownStepOne(st: DbState, src: SourceDriver, appliedMigrs: seq<int>)
    requires appliedMigrs != [] && StrictlyDescending(appliedMigrs)
    requires forall k :: 0 <= k < |appliedMigrs| ==> 0 <= appliedMigrs[k] < 0x1_0000_0000_0000_0000
    requires forall v: int :: v in appliedMigrs <==> v >= 0 && v in st.history
    requires forall k :: 0 <= k < |appliedMigrs| ==> Uint(appliedMigrs[k]) !in src.unreadable
    ensures var newest := appliedMigrs[0];
      && (forall v :: v in st.history ==> v <= newest)
      && DownPlan(src, appliedMigrs, 1, Never) == [DownRecord(src, appliedMigrs, 0)]
      && var r := RunAll(st, true, false, DownPlan(src, appliedMigrs, 1, Never), [], 0);
         r.1 == None && r.0.history == st.history - {newest}
  {
    var a := appliedMigrs;
    DownStepOnePlan(src, a);
    NewestIsLargest(st, a);
    var migr := DownRecord(src, a, 0).migr;
    RunAllOne(st, true, false, [DownRecord(src, a, 0)], []);
    ExecuteDownClean(st, migr);
  }

  /** With a limit of one and no stop, the down planner queues the record of the first entry. */
  lemma DownStepOnePlan(src: SourceDriver, appliedMigrs: seq<int>)
    requires appliedMigrs != []
    requires 0 <= appliedMigrs[0] < 0x1_0000_0000_0000_0000
    requires forall k :: 0 <= k < |appliedMigrs| ==> Uint(appliedMigrs[k]) !in src.unreadable
    ensures DownPlan(src, appliedMigrs, 1, Never) == [DownRecord(src, appliedMigrs, 0)]
    ensures DownRecord(src, appliedMigrs, 0).migr.version == appliedMigrs[0]
    ensures !DownRecord(src, appliedMigrs, 0).migr.upKind
  {
    var a := appliedMigrs;
    DownPlanExact(src, a, 1, Never);
    assert DownRecords(src, a)[..|a|][..1] == [DownRecord(src, a, 0)];
    DownRecordAt(src, a, 0);
  }

  /** The first entry of the history table's descending list is its largest version. */
  lemma NewestIsLargest(st: DbState, appliedMigrs: seq<int>)
    requires appliedMigrs != [] && StrictlyDescending(appliedMigrs)
    requires forall v: int :: v in appliedMigrs <==> v >= 0 && v in st.history
    ensures forall v :: v in st.history ==> v <= appliedMigrs[0]
  {
    var a := appliedMigrs;
    forall v | v in st.history ensures v <= a[0] {
      assert v in a;
      var k :| 0 <= k < |a| && a[k] == v;
      assert k == 0 || a[0] > a[k];
    }
  }

  /** One fault-free down execution of a recorded version removes its row. */
  lemma ExecuteDownClean(st: DbState, migr: Migration)
    requires !migr.upKind && migr.version in st.history
    ensures var r := Execute(st, true, false, migr, NoFaults);
      r.1 == None && r.0.history == st.history - {migr.version}
  {
    var marked := MarkDirtyOp(st, true, false, migr, false);
    assert marked.0.history.Keys == st.history.Keys;
  }
}
