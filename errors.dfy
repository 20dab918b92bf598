/** The error vocabulary of the migration engine. */
module Errors {

  /** The three steps of the dirty-state executor; a failure is wrapped with the step it happened in. */
  datatype Step = MarkDirty | RunBody | MarkClean

  datatype Error =
    /** `ErrNoChange`: nothing to do, not a failure. */
    | ErrNoChange
    /** `ErrNilConfig`: the Postgres backend was given no configuration. */
    | ErrNilConfig
    /** "driver type is not right": a single-version operation on a Basic driver. */
    | ErrWrongDriver
    /** The advisory lock could not be taken. */
    | ErrLock
    /** The version is absent from the source (`versionExists` failed). */
    | ErrNoMigration(version: nat)
    /** `First`, `Next` or `Prev` of the source failed with an error other than not-exist. */
    | ErrSourceFirst
    | ErrSourceNext(version: nat)
    | ErrSourcePrev(version: nat)
    /** The script of the version could not be read (`newMigration` failed). */
    | ErrRead(version: nat)
    /** A statement against the backend failed (a `database.Error`). */
    | ErrDatabase
    /** A failure of the executor, wrapped with its step and the version it reports. */
    | ErrStep(step: Step, reported: int, cause: Error)
    /** A quoted migrations-table name with more than two quoted segments. */
    | ErrTooManyDots(table: string)
    /** A quoted migrations-table name with no quoted segment at all (see the corrected resolver). */
    | ErrNoQuotedName(table: string)
}
