# histomigrate, history-table migrations: a Dafny model

histomigrate is a fork of golang-migrate that does not keep a single "current version". Its
Extended drivers keep a history table instead: one row per applied migration version, each
with a dirty flag. This lets migrations be applied out of order, one version at a time
(`DoMigration`, `UndoMigration`), or in bulk (`Up`, `Steps`). This project models the engine's
extended core and proves its properties:

- the four producers that queue migration records on a channel (`queueUpMigrations`,
  `queueUpSingleMigration`, `queueDownMigrations`, `queueDownSingleMigration`);
- the per-record executor `handleSingleMigration`, with its mark dirty / run / mark clean
  protocol on an Extended or a Basic driver;
- the two single-version entry points `DoMigration` and `UndoMigration`;
- the `ExtendedDriver` interface, with the history-table semantics of the Postgres backend;
- the migrations-table name resolution in the backend's `WithConnection`.

Each core file is modelled in its own form. The two batch producers, `queueUpMigrations` and
`queueDownMigrations`, are imperative methods: each returns the sequence of items it writes to
its channel and is proved equal to a recursive walk function (`UpPlan`, `DownPlan`). The lemmas
about those walks give the exact queue on a source without faults, plus the general shape of the
queue when faults occur. The two single-version producers have no loop: they are pure functions
whose contracts state their outcomes directly. The driver is a class whose methods update the
history map in place. Each method is tied to a pure state transition that carries its
properties. The executor, the consumer of a queue and the entry points are module-level methods
that take the driver and change it through its methods. Each is proved equal to a pure function
(`Execute`, `RunAll`, `DoOutcome`, `UndoOutcome`), and the crash-safety and end-to-end
properties are lemmas about those functions. The name resolution is pure code: functions and
lemmas.

Modules:

| module | what |
|---|---|
| `Wrappers` | `Option`, `Result` |
| `Errors` | the errors the core returns or wraps (`ErrNoChange`, step-wrapped driver errors, ...) |
| `Source` | the source driver (`First`, `Next`, `Prev`), `versionExists`, `newMigration` as contracts |
| `Queue` | channel items, the stop signal, the limit, and the shape every producer's output has |
| `QueueUp` | `queueUpMigrations` |
| `QueueDown` | `queueDownMigrations`, with Go's `uint(int)` conversion |
| `QueueSingle` | `queueUpSingleMigration`, `queueDownSingleMigration` |
| `Database` | the `ExtendedDriver` / Basic driver class and the Postgres history-table statements |
| `Executor` | `handleSingleMigration` and the consumer of a queue |
| `Migrate` | `DoMigration`, `UndoMigration` |
| `PostgresConfig` | the migrations schema and table resolution of `WithConnection` |
| `Scenarios` | whole runs: planner, consumer and history table together |

## Model

| member | source | states |
|---|---|---|
| QueueUp.BuildAppliedSet | migrate_extended.go:80-83 | the set built entry by entry holds exactly the applied list's members |
| QueueUp.QueueUpMigrations | migrate_extended.go:77-147 | the items written, in order, equal the walk `UpPlan` over the source from `First` |
| QueueUp.UpWalkStep | migrate_extended.go:97-141 | one loop iteration: an applied version is skipped (or a `Next` error ends the walk); an unapplied one is queued as an up record, then `Next` follows |
| QueueUp.PendingMembers | migrate_extended.go:102 | a version is pending if and only if the source has it and the applied list does not |
| QueueUp.PendingAscending | migrate_extended.go:85-141 | pending versions keep the source's strictly ascending order |
| QueueUp.UpRecordsAt | migrate_extended.go:116-125 | the queued record for a version applies that version: target equals version, up kind, the version's script |
| QueueUp.UpWalkShape | migrate_extended.go:97-146 | from any position, the output is the pending up records in order, cut short anywhere, then at most one terminal item |
| QueueUp.UpPlanShape | migrate_extended.go:77-147 | every output is the pending records' prefix then one terminal item; `ErrNoChange` appears only when nothing was queued, and then alone |
| QueueUp.UpWalkExact | migrate_extended.go:97-146 | on a reliable source, the walk from any position writes exactly the limited pending records before the stop, or `ErrNoChange` if none |
| QueueUp.UpPlanExact | migrate_extended.go:77-147 | on a reliable source, the output is exactly the up records of the first `limit` unapplied versions seen before the stop, ascending; `ErrNoChange` alone when there is none |
| Queue.Horizon | migrate_extended.go:98-100 | the number of polls before the stop is observed: every poll before it continues, the one at it stops |
| Queue.Limited | migrate_extended.go:97 | `-1` admits everything, a non-negative limit admits that many; the result is a prefix |
| Queue.LimitedCons | migrate_extended.go:97-116 | queueing one record leaves the rest of a positive or unbounded limit for the tail |
| Queue.TruncatedPrefix | migrate_extended.go:77-147 | in a producer's output every record is the intended record at its position, and only records come before it |
| Queue.TruncatedFresh | migrate_extended.go:144-146 | a producer that queued nothing writes one item; if `ErrNoChange` appears, it is the whole output |
| Queue.TruncatedNoChange | migrate_extended.go:230-232 | after a record, `ErrNoChange` can no longer appear |
| QueueDown.QueueDownMigrations | migrate_extended.go:186-233 | the items written, in order, equal the walk `DownPlan` over the applied list |
| QueueDown.DownWalkShape | migrate_extended.go:196-232 | from any entry, the output is the limited down records in list order, cut short anywhere, then at most one terminal item |
| QueueDown.DownPlanShape | migrate_extended.go:186-233 | every output is a prefix of the limited down records then one terminal item; an empty list or a zero limit gives `ErrNoChange` |
| QueueDown.DownWalkExact | migrate_extended.go:196-232 | with every script readable, the walk from entry `i` writes the down records from `i` up to the end, the stop or the limit |
| QueueDown.DownPlanExact | migrate_extended.go:186-233 | with every script readable, the output is the down records of the first entries, as the limit and the stop allow, or `ErrNoChange` alone |
| QueueDown.DownRecordAt | migrate_extended.go:205-215 | the record of an entry in `[0, 2^64)` reverts that version (down kind), with the next entry, or -1 for the last, as target |
| QueueDown.DownRecordsOrder | migrate_extended.go:181-215 | on a strictly descending list, the records revert the versions newest first, and each target is the version reverted next; the last target is -1 |
| QueueSingle.QueueUpSingle | migrate_extended.go:152-179 | at most one item and never `ErrNoChange`; the not-found error exactly when the version is absent; nothing exactly when it exists and the stop comes first; any record is the version's up record, and it is queued when the version exists, readable, before a stop |
| QueueSingle.QueueDownSingle | migrate_extended.go:238-274 | at most one item and never `ErrNoChange`; the not-found error exactly when the version is absent; nothing exactly when it exists and the stop comes first; a `Prev` failure other than not-exist gives `ErrSourcePrev`; any record reverts that version with the script for its target |
| QueueSingle.QueueDownSingleTarget | migrate_extended.go:250-259 | on a valid source the down record's target is the source's previous version, or -1 when there is none, and a reliable source always yields the record |
| QueueSingle.QueueUpSingleInPlan | migrate_extended.go:152-179 | the single up record is one that `queueUpMigrations` would queue for the same version |
| Source.SourceDriver.VersionExists | migrate_extended.go:155-158 | succeeds if and only if the source has the version; otherwise the error names it |
| Source.SourceDriver.NewMigration | migrate_extended.go:117-121 | fails with a read error exactly for unreadable versions; otherwise the record carries the given version and target |
| Source.IndexOf | migrate_extended.go:103 | the position of a version in the source, if any, which `Next` (here) and `Prev` (line 251) step from |
| Source.NextIsSuccessor | migrate_extended.go:133-141 | on a valid source, `Next` gives the least larger version, or not-exist when the version is the largest |
| Source.PrevIsPredecessor | migrate_extended.go:251-259 | on a valid source, `Prev` gives the greatest smaller version, or not-exist when the version is the smallest |
| Database.AddDirtyOp | database/postgres/postgres_extended.go:152-187 | the insert adds a dirty row for a new version and nothing else; it fails, changing nothing, on a backend error, a missing table or an existing row |
| Database.SetDirtyFlagOp | database/postgres/postgres_extended.go:192-228 | the update sets the flag of the version's row, if there is one, and keeps the set of rows; a failure changes nothing |
| Database.RemoveOp | database/postgres/postgres_extended.go:268-304 | the delete removes the version's row only; a failure changes nothing |
| Database.SetVersionOp | migrate_extended.go:296-321 | the Basic driver's pointer moves to the given version and flag, and the history is untouched |
| Database.RunOp | migrate_extended.go:301-306 | the script is handed to the backend once; the history and the pointer are untouched |
| Database.Driver.constructor | database/driver_extended.go:3-24 | a driver starts with the given history, no pointer and nothing run |
| Database.Driver.AddDirtyMigration | database/postgres/postgres_extended.go:152-187 | the new state and error are those of `AddDirtyOp` |
| Database.Driver.UpdateMigrationDirtyFlag | database/postgres/postgres_extended.go:192-228 | the new state and error are those of `SetDirtyFlagOp` |
| Database.Driver.RemoveMigration | database/postgres/postgres_extended.go:268-304 | the new state and error are those of `RemoveOp` |
| Database.Driver.SetVersion | migrate_extended.go:296-298 | the new state and error are those of `SetVersionOp` |
| Database.Driver.Run | migrate_extended.go:303 | the new state and error are those of `RunOp` |
| Database.Driver.GetAllAppliedMigrations | database/postgres/postgres_extended.go:103-147 | the list holds exactly the recorded versions, strictly descending; a query error or a missing table gives an error and no list |
| Database.Driver.IsMigrationApplied | database/postgres/postgres_extended.go:234-263 | true if and only if the version has a row; a missing table answers false without error, which agrees with the table holding no rows; other errors answer false |
| Database.Driver.IsDatabaseDirty | database/postgres/postgres_extended.go:310-335 | dirty if and only if some row is dirty, and then the version returned is one of the dirty ones; 0 and false with no dirty row or no table, which agrees with a missing table holding no rows |
| Database.Largest | database/postgres/postgres_extended.go:108 | the greatest of the remaining versions, the next row of `ORDER BY ... DESC` |
| Executor.Execute | migrate_extended.go:282-322 | every error names its step and version; a failed marking step changes nothing; the script runs at most once and only after marking; only the record's own row changes; success leaves an up version clean, a down version removed, or the Basic pointer clean; a later failure leaves the version dirty; without faults only a missing table or an existing row fails |
| Executor.ExecuteFailureLeavesOneDirty | migrate_extended.go:287-317 | on a clean history, a failure after the marking step leaves exactly one dirty row: the record's version |
| Executor.HandleSingleMigration | migrate_extended.go:282-322 | the new driver state and the error are those of `Execute` |
| Executor.RunAll | migrate_extended.go:38 | the consumer only appends to the run scripts; it stops at the first failed execution or non-record item and returns it |
| Executor.RunAllOne | migrate_extended.go:38 | on a queue of at most one item: no item, nothing; a record, its execution; an error, that error |
| Executor.RunMigrations | migrate_extended.go:38 | the new driver state and the error are those of `RunAll` on the queue |
| Migrate.DoOutcome | migrate_extended.go:15-39 | lock error first; a Basic driver gives the wrong-driver error; a query error returns it; an applied version gives `ErrNoChange` unchanged; only the version's row changes; success leaves it applied and clean |
| Migrate.UndoOutcome | migrate_extended.go:44-68 | lock error first; a Basic driver gives the wrong-driver error; a query error returns it; an unapplied version or a missing table gives `ErrNoChange` unchanged; only the version's row changes and at most one script runs (the down script, by `UndoRunsDownScript`); success removes it |
| Migrate.UndoRunsDownScript | migrate_extended.go:42-67 | on a source in ascending order, `UndoMigration` runs either no script or exactly the version's down script |
| Migrate.DoMigration | migrate_extended.go:15-39 | the new driver state and the error are those of `DoOutcome` |
| Migrate.UndoMigration | migrate_extended.go:44-68 | the new driver state and the error are those of `UndoOutcome` |
| PostgresConfig.ResolveAsWritten | database/postgres/postgres_extended.go:33-84 | a nil configuration is rejected with `ErrNilConfig`, and only it |
| PostgresConfig.Resolve | database/postgres/postgres_extended.go:69-84 | never panics; agrees with the code as written except that a quoted name without any quoted segment is rejected |
| PostgresConfig.ResolveNames | database/postgres/postgres_extended.go:69-84 | unquoted: the configured schema and the configured table, or the default table when empty; quoted: the names found contain no quote and no newline |
| PostgresConfig.OutsidePlain | database/postgres/postgres_extended.go:76-77 | every segment the regular expression captures lies on one line between two quotes |
| PostgresConfig.QuotedSegmentsNone | database/postgres/postgres_extended.go:76-77 | a text without a double quote has no match |
| PostgresConfig.QuotedSegmentsCons | database/postgres/postgres_extended.go:76-77 | a quoted plain name is captured whole as the next match |
| PostgresConfig.QuotedSegmentsDotted | database/postgres/postgres_extended.go:76-77 | the matches in `"n1"."n2"...` are exactly `n1`, `n2`, ... |
| PostgresConfig.ResolveDotted | database/postgres/postgres_extended.go:76-83 | one quoted name is the table in the configured schema; two are the schema and the table; more are rejected with the too-many-dots error |
| PostgresConfig.QuotedWithoutSegmentPanics | database/postgres/postgres_extended.go:78 | the quoted flag with the default table name indexes an empty match list; the corrected resolution rejects it |
| Scenarios.RunUpRecords | testing_migrate_extended/migrate_extended_test.go:28-53 | running the up records of new ascending versions without faults records each version clean, runs each script once in order, and changes no other row |
| Scenarios.RunUpRecordsCrash | testing_migrate_extended/migrate_extended_test.go:325-355 | a script failing at position `j` fails the run with the run-step error for that version; the earlier versions are clean, that version is the one new dirty row, and the later ones are not recorded |
| Scenarios.UpAppliesEveryPending | testing_migrate_extended/migrate_extended_test.go:28-53 | `Up` on the history table's list records every unapplied source version clean and keeps every other row; with nothing pending it returns `ErrNoChange` and changes nothing |
| Scenarios.UpAgainIsNoChange | testing_migrate_extended/migrate_extended_test.go:295-314 | once every version is applied, the up planner queues `ErrNoChange` alone, whatever the limit and the stop |
| Scenarios.UpTwice | testing_migrate_extended/migrate_extended_test.go:295-314 | a second `Up`, planned from the history the first left, returns `ErrNoChange` and changes nothing |
| Scenarios.UpFillsGap | testing_migrate_extended/migrate_extended_test.go:433-491 | with 130 and 140 applied out of 130, 135, 140, `Up` queues exactly the record of 135 |
| Scenarios.PendingHeadIsLowest | migrate_extended.go:97-125 | the first version queued is the lowest unapplied one |
| Scenarios.UpStepOne | testing_migrate_extended/migrate_extended_test.go:55-82 | `Steps(1)` queues only the lowest unapplied version, and every lower version is already applied |
| Scenarios.DownStepOne | testing_migrate_extended/migrate_extended_test.go:222-293 | `Steps(-1)` queues the down record of the newest applied version, the largest row; running it removes that row and no other |
| Scenarios.ExecuteDownClean | migrate_extended.go:291-316 | a fault-free down execution of a recorded version removes exactly its row |

## Left out

- Concurrency: the producers run as goroutines writing to a buffered channel, and each record's
  body is buffered by another goroutine. Here a producer returns the whole sequence it writes, and
  the consumer reads it afterwards. Interleavings and `PrefetchMigrations` are not modelled.
- Logging, timing (`StartedBuffering`, `FinishedReading`, the read and run durations) and the
  verbose messages of `handleSingleMigration` are left out: they change no state.
- SQL text, transactions, `PingContext`, `CURRENT_DATABASE()` and `CURRENT_SCHEMA()` are left
  out. Each statement is an atomic state transition that either succeeds or fails and leaves the
  state as it was. A failure is a boolean parameter, and every driver error is `ErrDatabase`.
  The `applied_at` column and the wrapped error texts are not modelled.
- `lock`, `unlockErr`, `stop`, `versionExists`, `newMigration`, `runMigrations` and the source
  driver live in files that are not part of this model. They appear as contracts: a lock-failure
  flag, the `StopSignal` poll sequence, `VersionExists`, `NewMigration`, and `RunAll` as the
  consumer. An error from `unlockErr` and the consumer's own stop polling are not modelled.
- `Up`, `Steps` and `Down` live in a file that is not part of this model. The `Scenarios` lemmas
  compose the planners with the consumer the way the tests exercise them.
- `ExtendedDriver` embeds `Driver`. Both are one class with a constant `extended` tag: the Basic
  driver's version pointer and the Extended history table sit side by side. The type assertion
  in the Go code becomes a test of the tag.
- The history table is assumed to hold one row per version (a repeated insert fails) and new
  rows start dirty. These are properties of the table definition, which is not part of this model.
- Go `uint` and `int` conversions are modelled explicitly only in the down planner (`Uint`).
  Versions are unbounded naturals, and the model is faithful only for versions below 2^63. Above
  that, Go's `int(...)` conversions wrap to negative values and the model does not: the
  applied-set lookup and the up record's `int(targetVersion)` target in `queueUpMigrations`, the
  `int(version)` target of the single up record, and the `int(prev)` target of the single down
  record, which also decides whether `newMigration` loads the down or the up script.
- Go strings are bytes; here they are `seq<char>`. The regular expression's `.` is modelled as
  "any character except a newline".
- `unreadable` makes a version's migration fail to load in both directions. The model does not
  distinguish a missing up file from a missing down file beyond `ScriptFor` returning no body.
- Database.Driver.IsDatabaseDirty: the row `LIMIT 1` returns is chosen by the backend. The
  contract says only that the version is one of the dirty ones, not which one.
- Database.Driver.IsMigrationApplied: `sql.ErrNoRows` cannot arise from `COUNT(*)` and is not
  modelled separately.

## Findings

| source | as written | input that shows it | evidently intended | confidence | as-written member | corrected member |
|---|---|---|---|---|---|---|
| database/postgres/postgres_extended.go:76-78 | with `MigrationsTableQuoted` set, the table name is taken from `result[len(result)-1][1]` before the match count is checked | `MigrationsTableQuoted: true` with an empty `MigrationsTable` (the default `schema_migrations` then applies) or any name without a `"..."` part: `FindAllStringSubmatch` returns no match, and indexing `result[-1]` panics | reject the configuration with an error, as is done for more than two segments | not executed | PostgresConfig.QuotedWithoutSegmentPanics | PostgresConfig.Resolve |
