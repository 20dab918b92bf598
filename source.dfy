/**
 * The source of migrations: an ordered sequence of versions with first/next/previous navigation
 * and per-version up and down scripts. The concrete source drivers are not part of this model; a
 * source is a value whose I/O failures are chosen up front (which calls fail with an error other
 * than "not exist").
 */
module Source {
  import opened Wrappers
  import opened Errors

  /** The order a source enumerates its versions in. */
  ghost predicate StrictlyAscending(s: seq<nat>)
  {
    forall i, j :: 0 <= i < j < |s| ==> s[i] < s[j]
  }

  /** The order the history table lists applied versions in (`ORDER BY ... DESC`). */
  ghost predicate StrictlyDescending(s: seq<int>)
  {
    forall i, j :: 0 <= i < j < |s| ==> s[i] > s[j]
  }

  /** The answer of `First`, `Next` or `Prev`: a version, `os.ErrNotExist`, or another error. */
  datatype Lookup = Found(version: nat) | NotExist | Failed

  /**
   * A migration record: the version whose script runs, the version to persist afterwards
   * (-1 is "no version"), whether it is an up migration (`UpKindMigration`) and its script
   * (None when the source has no script for that direction: `Body == nil`).
   */
  datatype Migration = Migration(version: nat, targetVersion: int, upKind: bool, body: Option<string>)

  datatype SourceDriver = SourceDriver(
    versions: seq<nat>,
    upScripts: map<nat, string>,
    downScripts: map<nat, string>,
    /** `First()` fails with an I/O error. */
    firstFails: bool,
    /** Versions `v` for which `Next(v)` fails with an I/O error. */
    nextFails: set<nat>,
    /** Versions `v` for which `Prev(v)` fails with an I/O error. */
    prevFails: set<nat>,
    /** Versions whose script cannot be read, so that `newMigration` fails. */
    unreadable: set<nat>)
  {
    ghost predicate Valid()
    {
      StrictlyAscending(versions)
    }

    /** No navigation or read of a version of this source fails with an I/O error. */
    ghost predicate Reliable()
    {
      && !firstFails
      && forall v :: v in versions ==> v !in nextFails && v !in prevFails && v !in unreadable
    }

    function First(): Lookup
    {
      if firstFails then Failed
      else if versions == [] then NotExist
      else Found(versions[0])
    }

    function Next(v: nat): Lookup
    {
      if v in nextFails then Failed
      else match IndexOf(versions, v)
        case None => NotExist
        case Some(i) => if i + 1 < |versions| then Found(versions[i + 1]) else NotExist
    }

    function Prev(v: nat): Lookup
    {
      if v in prevFails then Failed
      else match IndexOf(versions, v)
        case None => NotExist
        case Some(i) => if i > 0 then Found(versions[i - 1]) else NotExist
    }

    /** `versionExists`: nil when the source holds the version, an error otherwise. */
    function VersionExists(v: nat): (err: Option<Error>)
      ensures err.None? <==> v in versions
      ensures err.Some? ==> err.value == ErrNoMigration(v)
    {
      if v in versions then None else Some(ErrNoMigration(v))
    }

    /** The script `newMigration` attaches: the up script when the target is not below the version. */
    function ScriptFor(version: nat, targetVersion: int): Option<string>
    {
      var scripts := if targetVersion >= version then upScripts else downScripts;
      if version in scripts then Some(scripts[version]) else None
    }

    /**
     * `newMigration(version, targetVersion)`: a record with no direction set yet, or a read error.
     */
    function NewMigration(version: nat, targetVersion: int): (r: Result<Migration, Error>)
      ensures r.Failure? <==> version in unreadable
      ensures r.Failure? ==> r.error == ErrRead(version)
      ensures r.Success? ==> r.value.version == version && r.value.targetVersion == targetVersion
                             && !r.value.upKind
    {
      if version in unreadable then Failure(ErrRead(version))
      else Success(Migration(version, targetVersion, false, ScriptFor(version, targetVersion)))
    }
  }

  /** The position of the first occurrence of `v` in `s`. */
  function IndexOf(s: seq<nat>, v: nat): (r: Option<nat>)
    ensures r.Some? ==> r.value < |s| && s[r.value] == v
    ensures r.None? <==> v !in s
  {
    if s == [] then None
    else if s[0] == v then Some(0)
    else match IndexOf(s[1..], v)
      case None => None
      case Some(i) => Some(i + 1)
  }

  /** In a valid source, the position of a version is its only position. */
  lemma IndexOfAt(src: SourceDriver, i: nat)
    requires src.Valid() && i < |src.versions|
    ensures IndexOf(src.versions, src.versions[i]) == Some(i)
  {
    var j := IndexOf(src.versions, src.versions[i]).value;
    assert src.versions[j] == src.versions[i];
  }

  /** `Next` of the version at position `i` is the version at `i + 1`. */
  lemma NextAt(src: SourceDriver, i: nat)
    requires src.Valid() && i < |src.versions|
    ensures src.Next(src.versions[i]) ==
      if src.versions[i] in src.nextFails then Failed
      else if i + 1 < |src.versions| then Found(src.versions[i + 1])
      else NotExist
  {
    IndexOfAt(src, i);
  }

  /** `Prev` of the version at position `i` is the version at `i - 1`. */
  lemma PrevAt(src: SourceDriver, i: nat)
    requires src.Valid() && i < |src.versions|
    ensures src.Prev(src.versions[i]) ==
      if src.versions[i] in src.prevFails then Failed
      else if i > 0 then Found(src.versions[i - 1])
      else NotExist
  {
    IndexOfAt(src, i);
  }

  /** `Next(v)` finds the smallest version of the source above `v`, and misses only when there is none. */
  lemma NextIsSuccessor(src: SourceDriver, v: nat)
    requires src.Valid() && v in src.versions && v !in src.nextFails
    ensures src.Next(v).Found? ==>
      var w := src.Next(v).version;
      w in src.versions && v < w && forall u :: u in src.versions && v < u ==> w <= u
    ensures src.Next(v).NotExist? ==> forall u :: u in src.versions ==> u <= v
  {
    var i := IndexOf(src.versions, v).value;
    NextAt(src, i);
    var vs := src.versions;
    forall u | u in vs && v < u
      ensures i + 1 < |vs| && vs[i + 1] <= u
    {
      var k :| 0 <= k < |vs| && vs[k] == u;
      assert i < k;
      if k > i + 1 { assert vs[i + 1] < vs[k]; }
    }
  }

  /** `Prev(v)` finds the largest version of the source below `v`, and misses only when there is none. */
  lemma PrevIsPredecessor(src: SourceDriver, v: nat)
    requires src.Valid() && v in src.versions && v !in src.prevFails
    ensures src.Prev(v).Found? ==>
      var p := src.Prev(v).version;
      p in src.versions && p < v && forall u :: u in src.versions && u < v ==> u <= p
    ensures src.Prev(v).NotExist? ==> forall u :: u in src.versions ==> v <= u
  {
    var i := IndexOf(src.versions, v).value;
    PrevAt(src, i);
    var vs := src.versions;
    forall u | u in vs && u < v
      ensures i > 0 && u <= vs[i - 1]
    {
      var k :| 0 <= k < |vs| && vs[k] == u;
      assert k < i;
      if k < i - 1 { assert vs[k] < vs[i - 1]; }
    }
  }
}
