/**
 * The database driver as the engine sees it: the Basic driver's version pointer and script
 * runner, and the Extended driver's per-version history table, as the Postgres backend keeps it.
 */
module Database {
  import opened Wrappers
  import opened Errors
  import opened Source

  /** Everything a driver call can observe or change. */
  datatype DbState = DbState(
    history: map<nat, bool>,  // the history table: one row per recorded version, with its dirty flag
    version: int,             // the Basic driver's single version pointer (-1: none)
    dirty: bool,              // and its dirty flag
    ran: seq<string>)         // the scripts handed to `Run`, oldest first

  /** The versions whose history row is marked dirty. */
  function DirtyVersions(history: map<nat, bool>): set<nat>
  {
    set v | v in history && history[v]
  }

  /** `h2` has the same rows as `h1`, with the same flags, except possibly the row of `v`. */
  ghost predicate SameExcept(h1: map<nat, bool>, h2: map<nat, bool>, v: nat)
  {
    forall u :: u != v ==> (u in h1 <==> u in h2) && (u in h1 ==> h1[u] == h2[u])
  }

  /*
   * The statements of the Postgres backend as state transitions. `missing` says the history
   * table does not exist; `fails` says the backend rejects the statement or its commit. A
   * failed statement is rolled back, so the state is left as it was.
   */

  /** `AddDirtyMigration`: `INSERT` a row for `v`, which starts out dirty. */
  function AddDirtyOp(st: DbState, missing: bool, v: nat, fails: bool): (r: (DbState, Option<Error>))
    ensures r.1.Some? <==> fails || missing || v in st.history
    ensures r.1.Some? ==> r.1 == Some(ErrDatabase) && r.0 == st
    ensures r.1.None? ==> r.0.history.Keys == st.history.Keys + {v} && r.0.history[v]
    ensures SameExcept(st.history, r.0.history, v)
    ensures r.0.version == st.version && r.0.dirty == st.dirty && r.0.ran == st.ran
  {
    if fails || missing || v in st.history then (st, Some(ErrDatabase))
    else (st.(history := st.history[v := true]), None)
  }

  /** `UpdateMigrationDirtyFlag`: `UPDATE` the flag of the row of `v`; no row, nothing updated. */
  function SetDirtyFlagOp(st: DbState, missing: bool, v: nat, dirty: bool, fails: bool): (r: (DbState, Option<Error>))
    ensures r.1.Some? <==> fails || missing
    ensures r.1.Some? ==> r.1 == Some(ErrDatabase) && r.0 == st
    ensures r.0.history.Keys == st.history.Keys
    ensures r.1.None? && v in st.history ==> r.0.history[v] == dirty
    ensures SameExcept(st.history, r.0.history, v)
    ensures r.0.version == st.version && r.0.dirty == st.dirty && r.0.ran == st.ran
  {
    if fails || missing then (st, Some(ErrDatabase))
    else if v in st.history then (st.(history := st.history[v := dirty]), None)
    else (st, None)
  }

  /** `RemoveMigration`: `DELETE` the row of `v`, if there is one. */
  function RemoveOp(st: DbState, missing: bool, v: nat, fails: bool): (r: (DbState, Option<Error>))
    ensures r.1.Some? <==> fails || missing
    ensures r.1.Some? ==> r.1 == Some(ErrDatabase) && r.0 == st
    ensures r.1.None? ==> r.0.history.Keys == st.history.Keys - {v}
    ensures SameExcept(st.history, r.0.history, v)
    ensures r.0.version == st.version && r.0.dirty == st.dirty && r.0.ran == st.ran
  {
    if fails || missing then (st, Some(ErrDatabase))
    else (st.(history := st.history - {v}), None)
  }

  /** The Basic driver's `SetVersion`: move the version pointer and its dirty flag. */
  function SetVersionOp(st: DbState, version: int, dirty: bool, fails: bool): (r: (DbState, Option<Error>))
    ensures r.1.Some? <==> fails
    ensures r.1.Some? ==> r.1 == Some(ErrDatabase) && r.0 == st
    ensures r.1.None? ==> r.0.version == version && r.0.dirty == dirty
    ensures r.0.history == st.history && r.0.ran == st.ran
  {
    if fails then (st, Some(ErrDatabase)) else (st.(version := version, dirty := dirty), None)
  }

  /** `Run`: hand a script to the backend; it is recorded as run whether or not it succeeds. */
  function RunOp(st: DbState, body: string, fails: bool): (r: (DbState, Option<Error>))
    ensures r.1.Some? <==> fails
    ensures r.1.Some? ==> r.1 == Some(ErrDatabase)
    ensures r.0.ran == st.ran + [body]
    ensures r.0.history == st.history && r.0.version == st.version && r.0.dirty == st.dirty
  {
    (st.(ran := st.ran + [body]), if fails then Some(ErrDatabase) else None)
  }

  /**
   * A database driver. `extended` says whether it also implements the Extended interface (the
   * Postgres backend does); the Extended operations are only called on such a driver.
   */
  class Driver {
    const extended: bool
    const tableMissing: bool
    var history: map<nat, bool>
    var version: int
    var dirty: bool
    var ran: seq<string>

    /** A missing history table holds no rows. */
    ghost predicate Valid()
      reads this
    {
      tableMissing ==> history == map[]
    }

    function State(): DbState
      reads this
    {
      DbState(history, version, dirty, ran)
    }

    constructor (extended: bool, tableMissing: bool, history: map<nat, bool>)
      requires tableMissing ==> history == map[]
      ensures Valid()
      ensures this.extended == extended && this.tableMissing == tableMissing
      ensures State() == DbState(history, -1, false, [])
    {
      this.extended := extended;
      this.tableMissing := tableMissing;
      this.history := history;
      version := -1;
      dirty := false;
      ran := [];
    }

    method AddDirtyMigration(v: nat, fails: bool) returns (err: Option<Error>)
      requires Valid()
      modifies this
      ensures Valid()
      ensures (State(), err) == AddDirtyOp(old(State()), tableMissing, v, fails)
    {
      if fails || tableMissing || v in history {
        return Some(ErrDatabase);
      }
      history := history[v := true];
      err := None;
    }

    method UpdateMigrationDirtyFlag(v: nat, isDirty: bool, fails: bool) returns (err: Option<Error>)
      requires Valid()
      modifies this
      ensures Valid()
      ensures (State(), err) == SetDirtyFlagOp(old(State()), tableMissing, v, isDirty, fails)
    {
      if fails || tableMissing {
        return Some(ErrDatabase);
      }
      if v in history {
        history := history[v := isDirty];
      }
      err := None;
    }

    method RemoveMigration(v: nat, fails: bool) returns (err: Option<Error>)
      requires Valid()
      modifies this
      ensures Valid()
      ensures (State(), err) == RemoveOp(old(State()), tableMissing, v, fails)
    {
      if fails || tableMissing {
        return Some(ErrDatabase);
      }
      history := history - {v};
      err := None;
    }

    method SetVersion(v: int, isDirty: bool, fails: bool) returns (err: Option<Error>)
      requires Valid()
      modifies this
      ensures Valid()
      ensures (State(), err) == SetVersionOp(old(State()), v, isDirty, fails)
    {
      if fails {
        return Some(ErrDatabase);
      }
      version, dirty := v, isDirty;
      err := None;
    }

    method Run(body: string, fails: bool) returns (err: Option<Error>)
      requires Valid()
      modifies this
      ensures Valid()
      ensures (State(), err) == RunOp(old(State()), body, fails)
    {
      ran := ran + [body];
      err := if fails then Some(ErrDatabase) else None;
    }

    /**
     * `GetAllAppliedMigrations`: the recorded versions, newest first, as the rows of
     * `ORDER BY migration_timestamp DESC` arrive and are appended one by one.
     */
    method GetAllAppliedMigrations(fails: bool) returns (applied: seq<int>, err: Option<Error>)
      ensures err.Some? <==> fails || tableMissing
      ensures err.Some? ==> err == Some(ErrDatabase) && applied == []
      ensures err.None? ==> StrictlyDescending(applied)
      ensures err.None? ==> forall v: nat :: v in applied <==> v in history
      ensures forall x :: x in applied ==> x >= 0
    {
      if fails || tableMissing {
        return [], Some(ErrDatabase);
      }
      var rows := history.Keys;
      applied := [];
      while rows != {}
        invariant rows <= history.Keys
        invariant forall v: nat :: v in history ==> (v in applied <==> v !in rows)
        invariant forall x :: x in applied ==> x >= 0 && x as nat in history
        invariant StrictlyDescending(applied)
        invariant forall k, r :: 0 <= k < |applied| && r in rows ==> r < applied[k]
        decreases rows
      {
        var next := Largest(rows);
        applied := applied + [next];
        rows := rows - {next};
      }
      err := None;
    }

    /** `IsMigrationApplied`: whether the history table has a row for `v`; no table, no row. */
    method IsMigrationApplied(v: nat, fails: bool) returns (isApplied: bool, err: Option<Error>)
      requires Valid()
      ensures err.None? ==> (isApplied <==> v in history)
      ensures tableMissing ==> !isApplied && err.None?
      ensures !tableMissing && fails ==> !isApplied && err == Some(ErrDatabase)
      ensures !tableMissing && !fails ==> err.None? && (isApplied <==> v in history)
    {
      if tableMissing {
        return false, None;
      }
      if fails {
        return false, Some(ErrDatabase);
      }
      isApplied, err := v in history, None;
    }

    /**
     * `IsDatabaseDirty`: some dirty row's version (`LIMIT 1`, so which one is up to the
     * backend), or 0 and false when there is none or no table.
     */
    method IsDatabaseDirty(fails: bool) returns (v: int, isDirty: bool, err: Option<Error>)
      requires Valid()
      ensures err.None? ==> (isDirty <==> DirtyVersions(history) != {})
      ensures tableMissing ==> v == 0 && !isDirty && err.None?
      ensures !tableMissing && fails ==> v == 0 && !isDirty && err == Some(ErrDatabase)
      ensures !tableMissing && !fails ==> err.None? && (isDirty <==> DirtyVersions(history) != {})
      ensures isDirty ==> v >= 0 && v as nat in DirtyVersions(history)
      ensures !isDirty ==> v == 0
    {
      if tableMissing {
        return 0, false, None;
      }
      if fails {
        return 0, false, Some(ErrDatabase);
      }
      if u :| u in history && history[u] {
        assert u in DirtyVersions(history);
        return u, true, None;
      }
      assert DirtyVersions(history) == {};
      return 0, false, None;
    }
  }

  /** The greatest member of a non-empty set of versions. */
  method Largest(s: set<nat>) returns (m: nat)
    requires s != {}
    ensures m in s && forall x :: x in s ==> x <= m
  {
    m :| m in s;
    var rest := s - {m};
    while rest != {}
      invariant rest <= s && m in s
      invariant forall x :: x in s && x !in rest ==> x <= m
      decreases rest
    {
      var x :| x in rest;
      if x > m {
        m := x;
      }
      rest := rest - {x};
    }
  }
}
