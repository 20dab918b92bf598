/**
 * The migrations-table name resolution of the Postgres backend's `WithConnection`: the default
 * table name, and the split of a quoted `"schema"."table"` name into its parts.
 */
module PostgresConfig {
  import opened Wrappers
  import opened Errors

  /** The configuration fields the resolution reads; `schemaName` is already resolved. */
  datatype Config = Config(schemaName: string, migrationsTable: string, migrationsTableQuoted: bool)

  /** The outcome of the resolution: the schema and table of the history table, or a rejection. */
  datatype Resolution =
    | Names(migrationsSchemaName: string, migrationsTableName: string)
    | Rejected(error: Error)
    /** An index out of range: the Go runtime panics. */
    | Panicked

  /** The history table used when none is configured. */
  function DefaultMigrationsTable(): string { "schema_migrations" }

  /** No character of `s` is a double quote or a newline. */
  predicate Plain(s: string)
  {
    forall k :: 0 <= k < |s| ==> s[k] != '"' && s[k] != '\n'
  }

  /**
   * The capture groups of every match of the regular expression `"(.*?)"`, leftmost first and
   * without overlap: from an opening quote to the nearest closing quote, where `.` matches any
   * character except a newline.
   */
  function QuotedSegments(s: string): seq<string>
  {
    Outside(s)
  }

  /** The scan between matches: every quote may open one. */
  function Outside(s: string): seq<string>
    decreases |s|, 1
  {
    if s == [] then []
    else if s[0] == '"' then Inside(s[1..], [])
    else Outside(s[1..])
  }

  /**
   * The scan after an opening quote, with the text `group` read so far. The nearest quote closes
   * the match; a newline before it means that quote opened no match, and the scan goes on past
   * the newline (no quote lies between the two).
   */
  function Inside(s: string, group: string): seq<string>
    decreases |s|, 0
  {
    if s == [] then []
    else if s[0] == '"' then [group] + Outside(s[1..])
    else if s[0] == '\n' then Outside(s[1..])
    else Inside(s[1..], group + [s[0]])
  }

  /**
   * The resolution as written: the default table name, then, for a quoted name, the table from
   * the last segment (indexing the match list before looking at its length), the schema from
   * the first of exactly two, and an error for more than two.
   */
  function ResolveAsWritten(config: Option<Config>): (r: Resolution)
    ensures config.None? <==> r == Rejected(ErrNilConfig)
  {
    if config.None? then Rejected(ErrNilConfig)
    else
      var c := config.value;
      var table := if |c.migrationsTable| == 0 then DefaultMigrationsTable() else c.migrationsTable;
      if !c.migrationsTableQuoted then Names(c.schemaName, table)
      else
        var segments := QuotedSegments(table);
        if |segments| == 0 then Panicked
        else if |segments| == 2 then Names(segments[0], segments[1])
        else if |segments| > 2 then Rejected(ErrTooManyDots(table))
        else Names(c.schemaName, segments[0])
  }

  /** The resolution with a quoted name that has no quoted segment rejected instead of panicking. */
  function Resolve(config: Option<Config>): (r: Resolution)
    ensures !r.Panicked?
    ensures ResolveAsWritten(config).Panicked? ==> r.Rejected? && r.error.ErrNoQuotedName?
    ensures !ResolveAsWritten(config).Panicked? ==> r == ResolveAsWritten(config)
  {
    if config.None? then Rejected(ErrNilConfig)
    else
      var c := config.value;
      var table := if |c.migrationsTable| == 0 then DefaultMigrationsTable() else c.migrationsTable;
      if c.migrationsTableQuoted && |QuotedSegments(table)| == 0 then Rejected(ErrNoQuotedName(table))
      else ResolveAsWritten(config)
  }

  /**
   * Without the quoted flag the schema is the configured one and the table the configured name,
   * or `DefaultMigrationsTable` when that is empty; with it, the names found contain no quote.
   */
  lemma ResolveNames(config: Config)
    ensures !config.migrationsTableQuoted ==>
      Resolve(Some(config)) == Names(config.schemaName,
        if config.migrationsTable == "" then DefaultMigrationsTable() else config.migrationsTable)
    ensures config.migrationsTableQuoted && Resolve(Some(config)).Names? ==>
      Plain(Resolve(Some(config)).migrationsTableName)
      && (Plain(Resolve(Some(config)).migrationsSchemaName)
          || Resolve(Some(config)).migrationsSchemaName == config.schemaName)
  {
    var table := if config.migrationsTable == "" then DefaultMigrationsTable() else config.migrationsTable;
    OutsidePlain(table);
  }

  /** Every segment lies strictly between two quotes on one line, so it holds neither. */
  lemma {:induction false} OutsidePlain(s: string)
    ensures forall k :: 0 <= k < |Outside(s)| ==> Plain(Outside(s)[k])
    decreases |s|, 1
  {
    if s != [] {
      if s[0] == '"' {
        InsidePlain(s[1..], []);
      } else {
        OutsidePlain(s[1..]);
      }
    }
  }

  lemma {:induction false} InsidePlain(s: string, group: string)
    requires Plain(group)
    ensures forall k :: 0 <= k < |Inside(s, group)| ==> Plain(Inside(s, group)[k])
    decreases |s|, 0
  {
    if s != [] {
      if s[0] == '"' || s[0] == '\n' {
        OutsidePlain(s[1..]);
      } else {
        assert Plain(group + [s[0]]);
        InsidePlain(s[1..], group + [s[0]]);
      }
    }
  }

  /** A text with no double quote has no quoted segment. */
  lemma {:induction false} QuotedSegmentsNone(s: string)
    requires forall k :: 0 <= k < |s| ==> s[k] != '"'
    ensures QuotedSegments(s) == []
    decreases |s|
  {
    if s != [] {
      QuotedSegmentsNone(s[1..]);
    }
  }

  /** `name` between double quotes. */
  function Quote(name: string): string
  {
    ['"'] + name + ['"']
  }

  /** After an opening quote, a plain name and a closing quote make one segment. */
  lemma {:induction false} InsideName(name: string, group: string, rest: string)
    requires Plain(name)
    ensures Inside(name + ['"'] + rest, group) == [group + name] + Outside(rest)
    decreases |name|
  {
    var s := name + ['"'] + rest;
    if name == [] {
      assert s == ['"'] + rest;
      assert group + name == group;
    } else {
      assert s[0] == name[0] && s[1..] == name[1..] + ['"'] + rest;
      InsideName(name[1..], group + [name[0]], rest);
      assert group + [name[0]] + name[1..] == group + name;
    }
  }

  /** Segments are read off a quoted name one `"..."` at a time. */
  lemma QuotedSegmentsCons(name: string, rest: string)
    requires Plain(name)
    ensures QuotedSegments(Quote(name) + rest) == [name] + QuotedSegments(rest)
  {
    var s := Quote(name) + rest;
    assert s[0] == '"' && s[1..] == name + ['"'] + rest;
    InsideName(name, [], rest);
    assert [] + name == name;
  }

  /** A character other than a double quote before the first segment is skipped. */
  lemma QuotedSegmentsSkip(c: char, rest: string)
    requires c != '"'
    ensures QuotedSegments([c] + rest) == QuotedSegments(rest)
  {
    assert ([c] + rest)[1..] == rest;
  }

  /** A single quoted name is a single segment. */
  lemma QuotedSegmentsOne(name: string)
    requires Plain(name)
    ensures QuotedSegments(Quote(name)) == [name]
  {
    QuotedSegmentsCons(name, []);
    QuotedSegmentsNone([]);
    assert Quote(name) + [] == Quote(name);
  }

  /** A quoted name and a dot before more quoted text add the name as the first segment. */
  lemma QuotedSegmentsDot(name: string, rest: string)
    requires Plain(name)
    ensures QuotedSegments(Quote(name) + (['.'] + rest)) == [name] + QuotedSegments(rest)
  {
    QuotedSegmentsSkip('.', rest);
    QuotedSegmentsCons(name, ['.'] + rest);
  }

  /** The segments of dot-separated quoted names are those names. */
  lemma {:induction false} QuotedSegmentsDotted(names: seq<string>)
    requires forall k :: 0 <= k < |names| ==> Plain(names[k])
    ensures QuotedSegments(Dotted(names)) == names
    decreases |names|
  {
    if names == [] {
      QuotedSegmentsNone([]);
    } else if |names| == 1 {
      QuotedSegmentsOne(names[0]);
    } else {
      var tail := names[1..];
      QuotedSegmentsDotted(tail);
      QuotedSegmentsDot(names[0], Dotted(tail));
      assert Dotted(names) == Quote(names[0]) + (['.'] + Dotted(tail));
      assert names == [names[0]] + tail;
    }
  }

  /** `"n1"."n2"...`: the names quoted, joined by dots. */
  function Dotted(names: seq<string>): string
    decreases |names|
  {
    if names == [] then []
    else if |names| == 1 then Quote(names[0])
    else Quote(names[0]) + ['.'] + Dotted(names[1..])
  }

  /**
   * A quoted name made of one, two or more dot-separated quoted parts: one part names the
   * table in the configured schema, two name the schema and the table, more are rejected.
   */
  lemma ResolveDotted(schemaName: string, names: seq<string>)
    requires forall k :: 0 <= k < |names| ==> Plain(names[k])
    requires names != []
    ensures var r := Resolve(Some(Config(schemaName, Dotted(names), true)));
      && (|names| == 1 ==> r == Names(schemaName, names[0]))
      && (|names| == 2 ==> r == Names(names[0], names[1]))
      && (|names| > 2 ==> r == Rejected(ErrTooManyDots(Dotted(names))))
  {
    QuotedSegmentsDotted(names);
    assert |Dotted(names)| > 0;
  }

  /**
   * The quoted flag on a name with no quoted segment, the default name included, makes the code
   * as written index an empty match list; the corrected resolution rejects it.
   */
  lemma QuotedWithoutSegmentPanics(schemaName: string)
    ensures ResolveAsWritten(Some(Config(schemaName, "", true))) == Panicked
    ensures Resolve(Some(Config(schemaName, "", true))) == Rejected(ErrNoQuotedName(DefaultMigrationsTable()))
  {
    QuotedSegmentsNone(DefaultMigrationsTable());
  }
}
