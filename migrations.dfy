/** The migration runner of z_small_projects/contract-cli/src/db/run_migrations.rs.

    `apply` runs a migration unit at most once per filename: the `migrations` table records one row
    per filename tried (success, failed or skipped), and a recorded filename is skipped whatever
    its status. The unit is chosen by the file's extension: `.sql` scripts are read and executed,
    the one registered `.rs` transform is run, another `.rs` name is an error, and anything else is
    skipped. `reset_specific_migrations` forgets named rows so that they run again. */
module Migrations {
  import opened Store
  import opened Hash
  import DataTransform

  /** The store and file calls of the runner; deletions are numbered by their position in `names`. */
  datatype Call =
    | CreateMigrationsTable     // CREATE TABLE IF NOT EXISTS migrations
    | CountApplied              // SELECT COUNT(*) FROM migrations WHERE filename = ?
    | ReadScript                // reading a .sql file
    | ExecuteScript             // executing a .sql file's statements
    | RecordOutcome             // INSERT INTO migrations
    | DeleteRecord(index: nat)  // DELETE FROM migrations WHERE filename = names[index]

  /** The module name, without `.rs`, of the one Rust migration the runner knows. */
  const TransformModule := "m_20240414_002_data_transform"

  /** The position of the last `c` in `s`. */
  function LastIndexOf(s: string, c: char): (r: Option<nat>)
    ensures r.Some? ==> r.value < |s| && s[r.value] == c && forall j :: r.value < j < |s| ==> s[j] != c
    ensures r.None? ==> forall j :: 0 <= j < |s| ==> s[j] != c
  {
    if s == [] then None
    else if s[|s| - 1] == c then Some(|s| - 1)
    else LastIndexOf(s[..|s| - 1], c)
  }

  /** `s` without the '/' characters it ends with. */
  function TrimTrailingSlashes(s: string): (r: string)
    ensures r <= s && (r == [] || r[|r| - 1] != '/')
  {
    if s != [] && s[|s| - 1] == '/' then TrimTrailingSlashes(s[..|s| - 1]) else s
  }

  /** `s` without trailing slashes and without the "." components it ends with: the path's
      components leave out a "." that is not the first one, so `a/.` ends in `a`. */
  function TrimCurrentDirTail(s: string): (r: string)
    ensures r <= s && (r == [] || r[|r| - 1] != '/')
    ensures !EndsInCurrentDir(r)
    decreases |s|
  {
    var t := TrimTrailingSlashes(s);
    if EndsInCurrentDir(t) then TrimCurrentDirTail(t[..|t| - 1]) else t
  }

  /** `s` ends with a "." component after a '/'. */
  predicate EndsInCurrentDir(s: string)
  {
    |s| >= 2 && s[|s| - 2] == '/' && s[|s| - 1] == '.'
  }

  /** A path that ends in neither '/' nor "/." is its own trimming. */
  lemma TrimCurrentDirTailOfPlain(s: string)
    requires s != [] && s[|s| - 1] != '/' && !EndsInCurrentDir(s)
    ensures TrimCurrentDirTail(s) == s
  {
    assert TrimTrailingSlashes(s) == s;
  }

  /** Path::file_name: the last '/'-separated segment once trailing slashes and trailing "."
      components are dropped; none when that segment is empty, "." or "..". */
  function FileName(path: string): (r: Option<string>)
    ensures r.Some? ==> r.value != [] && '/' !in r.value && r.value != "." && r.value != ".."
  {
    LastSegment(TrimCurrentDirTail(path))
  }

  /** The segment after the last '/' of a trimmed path, unless it is empty, "." or "..". */
  function LastSegment(trimmed: string): (r: Option<string>)
    ensures r.Some? ==> r.value != [] && '/' !in r.value && r.value != "." && r.value != ".."
  {
    var segment := match LastIndexOf(trimmed, '/')
      case None => trimmed
      case Some(i) => trimmed[i + 1..];
    if segment == "" || segment == "." || segment == ".." then None else Some(segment)
  }

  /** Path::extension: what follows the last '.' of the file name, unless that '.' is its first
      character or there is none. */
  function Extension(path: string): (r: Option<string>)
    ensures r.Some? ==> '.' !in r.value && '/' !in r.value
  {
    match FileName(path)
      case None => None
      case Some(name) =>
        match LastIndexOf(name, '.')
          case None => None
          case Some(i) => if i == 0 then None else Some(name[i + 1..])
  }

  /** str::strip_suffix. */
  function StripSuffix(s: string, suffix: string): Option<string>
  {
    if |suffix| <= |s| && s[|s| - |suffix|..] == suffix then Some(s[..|s| - |suffix|]) else None
  }

  /** strip_suffix gives `p` exactly when `s` is `p` followed by the suffix. */
  lemma StripSuffixIffConcat(s: string, suffix: string, p: string)
    ensures StripSuffix(s, suffix) == Some(p) <==> s == p + suffix
  {
    if s == p + suffix {
      assert s[|s| - |suffix|..] == suffix;
      assert s[..|s| - |suffix|] == p;
    }
  }

  /** What kind of unit a filename names. */
  datatype Unit = SqlScript | Transform | UnknownRust | Unsupported

  /** apply's dispatch: on the extension, then, for `.rs`, on the whole name less `.rs`. */
  function Classify(filename: string): Unit
  {
    match Extension(filename)
      case Some(ext) =>
        if ext == "sql" then SqlScript
        else if ext == "rs" then (if StripSuffix(filename, ".rs") == Some(TransformModule) then Transform else UnknownRust)
        else Unsupported
      case None => Unsupported
  }

  /** The extension alone decides between script, Rust unit and skipped file. */
  lemma ClassifyFollowsExtension(filename: string)
    ensures Classify(filename) == SqlScript <==> Extension(filename) == Some("sql")
    ensures Classify(filename) in {Transform, UnknownRust} <==> Extension(filename) == Some("rs")
    ensures Classify(filename) == Unsupported <==> Extension(filename) !in {Some("sql"), Some("rs")}
  {
  }

  /** Where the last `c` is, when the position is known. */
  lemma LastIndexOfIs(s: string, c: char, k: nat)
    requires k < |s| && s[k] == c && forall j :: k < j < |s| ==> s[j] != c
    ensures LastIndexOf(s, c) == Some(k)
  {
  }

  /** A plain name `stem.ext` (no '/', and no '.' in `ext`) has the extension `ext`. */
  lemma ExtensionOfPlainName(stem: string, ext: string)
    requires stem != [] && ext != [] && '/' !in stem && '/' !in ext && '.' !in ext
    ensures Extension(stem + "." + ext) == Some(ext)
  {
    var name := stem + "." + ext;
    assert name[|name| - 1] == ext[|ext| - 1];
    assert TrimTrailingSlashes(name) == name;
    assert forall j :: 0 <= j < |name| ==> name[j] != '/' by {
      forall j | 0 <= j < |name|
        ensures name[j] != '/'
      {
        if j < |stem| {
          assert name[j] == stem[j];
        } else if j > |stem| {
          assert name[j] == ext[j - |stem| - 1];
        }
      }
    }
    assert FileName(name) == Some(name);
    forall j | |stem| < j < |name|
      ensures name[j] != '.'
    {
      assert name[j] == ext[j - |stem| - 1];
    }
    LastIndexOfIs(name, '.', |stem|);
    assert name[|stem| + 1..] == ext;
  }

  /** A directory prefix ending in '/' does not change the file name of a plain name other than
      "." (see `FileNameDropsCurrentDirTail` for that one). */
  lemma FileNameIgnoresDirectory(dir: string, name: string)
    requires dir != [] && dir[|dir| - 1] == '/' && name != [] && '/' !in name && name != "."
    ensures FileName(dir + name) == FileName(name)
  {
    var path := dir + name;
    assert TrimCurrentDirTail(path) == path by {
      assert path[|path| - 1] == name[|name| - 1];
      if |name| >= 2 {
        assert path[|path| - 2] == name[|name| - 2];
      } else {
        assert name == [name[0]];
      }
      TrimCurrentDirTailOfPlain(path);
    }
    assert TrimCurrentDirTail(name) == name by {
      if |name| >= 2 {
        assert name[|name| - 2] != '/';
      }
      TrimCurrentDirTailOfPlain(name);
    }
    assert LastSegment(path) == LastSegment(name) by {
      forall j | |dir| - 1 < j < |path|
        ensures path[j] != '/'
      {
        assert path[j] == name[j - |dir|];
      }
      LastIndexOfIs(path, '/', |dir| - 1);
      assert path[|dir|..] == name;
    }
  }

  /** The extension is read off the file name alone. */
  lemma ExtensionFollowsFileName(p: string, q: string)
    requires FileName(p) == FileName(q)
    ensures Extension(p) == Extension(q)
  {
  }

  /** One more trailing '/' is trimmed away with the others. */
  lemma TrimTrailingSlashesOfSlash(p: string)
    ensures TrimTrailingSlashes(p + "/") == TrimTrailingSlashes(p)
  {
    assert (p + "/")[..|p|] == p;
  }

  /** A final "." component is not the file name: `p/.` names what `p` names. */
  lemma FileNameDropsCurrentDirTail(p: string)
    ensures FileName(p + "/.") == FileName(p)
  {
    CurrentDirTailIsTrimmed(p);
  }

  /** The trimming behind it: `p/.` trims to what `p` trims to. */
  lemma CurrentDirTailIsTrimmed(p: string)
    ensures TrimCurrentDirTail(p + "/.") == TrimCurrentDirTail(p)
  {
    var q := p + "/.";
    var slashed := p + "/";
    assert q[|q| - 1] == '.';
    assert TrimTrailingSlashes(q) == q;
    assert q[|q| - 2] == '/';
    assert q[..|q| - 1] == slashed;
    assert TrimCurrentDirTail(q) == TrimCurrentDirTail(slashed);
    TrimTrailingSlashesOfSlash(p);
  }

  /** Nor is its extension: `p/.` has the extension of `p`. */
  lemma ExtensionDropsCurrentDirTail(p: string)
    ensures Extension(p + "/.") == Extension(p)
  {
    FileNameDropsCurrentDirTail(p);
    ExtensionFollowsFileName(p + "/.", p);
  }

  /** So a final "." changes no unit's kind, except that the transform's own file followed by
      `/.` is no longer its exact name: `x.sql/.` is still run as a script (and fails to read). */
  lemma ClassifyDropsCurrentDirTail(p: string)
    ensures Classify(p) != Transform ==> Classify(p + "/.") == Classify(p)
    ensures Classify(p) == Transform ==> Classify(p + "/.") == UnknownRust
  {
    var q := p + "/.";
    assert Extension(q) == Extension(p) by {
      ExtensionDropsCurrentDirTail(p);
    }
    assert StripSuffix(q, ".rs") != Some(TransformModule) by {
      assert q[|q| - 1] == '.';
      if StripSuffix(q, ".rs") == Some(TransformModule) {
        StripSuffixIffConcat(q, ".rs", TransformModule);
      }
    }
  }

  /** The registered transform runs for exactly one filename: its module name followed by `.rs`. */
  lemma TransformIsExactlyItsFile(filename: string)
    ensures Classify(filename) == Transform <==> filename == TransformModule + ".rs"
  {
    StripSuffixIffConcat(filename, ".rs", TransformModule);
    if filename == TransformModule + ".rs" {
      ExtensionOfPlainName(TransformModule, "rs");
      assert TransformModule + "." + "rs" == filename;
    }
  }

  /** The whole path is compared, so the transform's file under a directory is an unknown Rust unit. */
  lemma TransformUnderDirectoryIsUnknown(dir: string)
    requires dir != [] && dir[|dir| - 1] == '/'
    ensures Classify(dir + TransformModule + ".rs") == UnknownRust
  {
    var file := TransformModule + ".rs";
    var nested := dir + file;
    assert nested == dir + TransformModule + ".rs";
    assert Extension(file) == Some("rs") by {
      ExtensionOfPlainName(TransformModule, "rs");
      assert TransformModule + "." + "rs" == file;
    }
    assert Extension(nested) == Some("rs") by {
      FileNameIgnoresDirectory(dir, file);
      ExtensionFollowsFileName(nested, file);
    }
    assert StripSuffix(nested, ".rs") != Some(TransformModule) by {
      if StripSuffix(nested, ".rs") == Some(TransformModule) {
        StripSuffixIffConcat(nested, ".rs", TransformModule);
      }
    }
  }

  /** The extension is compared as written: `.SQL` is not `.sql`. */
  lemma UpperCaseSqlIsSkipped(stem: string)
    requires stem != [] && '/' !in stem
    ensures Classify(stem + ".SQL") == Unsupported
  {
    ExtensionOfPlainName(stem, "SQL");
    assert stem + "." + "SQL" == stem + ".SQL";
  }

  /** A file name whose only '.' is its first character has no extension, so `.sql` is skipped. */
  lemma DotFileIsSkipped()
    ensures Classify(".sql") == Unsupported
  {
    assert TrimTrailingSlashes(".sql") == ".sql";
    assert FileName(".sql") == Some(".sql");
    LastIndexOfIs(".sql", '.', 0);
  }

  /** The tables other than `migrations`, as a unit may change them. */
  datatype Tables = Tables(contracts: map<string, Account>, transactions: seq<TxRow>, catalogue: seq<SchemaObject>,
                           oldContract: seq<LegacyAccount>, oldTransactions: seq<LegacyTx>)

  function TablesOf(db: Db): Tables
    reads db
  {
    Tables(db.contracts, db.transactions, db.catalogue, db.oldContract, db.oldTransactions)
  }

  /** Running a unit: its result and the tables afterwards. A script's statements are not
      interpreted: `script` is the tables as the script leaves them, whether or not it fails. */
  function UnitEffect(unit: Unit, tables: Tables, script: Tables, hashOwner: string -> Digest,
                      faults: set<Call>, transformFaults: set<DataTransform.Call>): (Result<()>, Tables)
  {
    match unit
      case SqlScript => (if ExecuteScript in faults then Err(SqlFailure) else Ok(()), script)
      case Transform =>
        var o := DataTransform.TransformEffect(tables.contracts, tables.transactions, tables.catalogue,
                                               tables.oldContract, tables.oldTransactions, hashOwner, transformFaults);
        (o.result, tables.(contracts := o.contracts, transactions := o.transactions))
      case UnknownRust => (Err(UnknownRustMigration), tables)
      case Unsupported => (Ok(()), tables)
  }

  /** The tracking row written for a unit's result. */
  function Recorded(unit: Unit, result: Result<()>): (m: MigrationRecord)
    ensures m.status == Failed <==> result.Err?
    ensures m.status == Skipped <==> result.Ok? && unit == Unsupported
    ensures m.error == if result.Err? then Some(result.error) else None
  {
    if result.Err? then MigrationRecord(Failed, Some(result.error))
    else if unit == Unsupported then MigrationRecord(Skipped, None)
    else MigrationRecord(Success, None)
  }

  /** What apply leaves behind: its result, the tracking rows and the other tables. */
  datatype Applied = Applied(result: Result<()>, migrations: map<string, MigrationRecord>, tables: Tables)

  /** apply, step by step. */
  function ApplyEffect(migrations: map<string, MigrationRecord>, tables: Tables, filename: string, script: Tables,
                       hashOwner: string -> Digest, faults: set<Call>, transformFaults: set<DataTransform.Call>): Applied
  {
    if CreateMigrationsTable in faults || CountApplied in faults then Applied(Err(SqlFailure), migrations, tables)
    else if filename in migrations then Applied(Ok(()), migrations, tables)
    else
      var unit := Classify(filename);
      if unit == SqlScript && ReadScript in faults then Applied(Err(ScriptUnreadable), migrations, tables)
      else
        var ran := UnitEffect(unit, tables, script, hashOwner, faults, transformFaults);
        if RecordOutcome in faults then Applied(Err(SqlFailure), migrations, ran.1)
        else Applied(ran.0, migrations[filename := Recorded(unit, ran.0)], ran.1)
  }

  /** A recorded filename, whatever its status, is skipped: nothing runs and nothing is written. */
  lemma RecordedFileIsSkipped(migrations: map<string, MigrationRecord>, tables: Tables, filename: string, script: Tables,
                              hashOwner: string -> Digest, faults: set<Call>, transformFaults: set<DataTransform.Call>)
    requires filename in migrations && faults !! {CreateMigrationsTable, CountApplied}
    ensures ApplyEffect(migrations, tables, filename, script, hashOwner, faults, transformFaults)
            == Applied(Ok(()), migrations, tables)
  {
  }

  /** Applying a filename twice runs its unit at most once: once the first attempt has recorded
      it, the second changes nothing, whatever its script, faults or transform faults. */
  lemma SecondApplyIsNoOp(migrations: map<string, MigrationRecord>, tables: Tables, filename: string,
                          script: Tables, script2: Tables, hashOwner: string -> Digest,
                          faults: set<Call>, faults2: set<Call>,
                          transformFaults: set<DataTransform.Call>, transformFaults2: set<DataTransform.Call>)
    requires faults2 !! {CreateMigrationsTable, CountApplied}
    ensures var first := ApplyEffect(migrations, tables, filename, script, hashOwner, faults, transformFaults);
      filename in first.migrations ==>
        ApplyEffect(first.migrations, first.tables, filename, script2, hashOwner, faults2, transformFaults2)
        == Applied(Ok(()), first.migrations, first.tables)
  {
  }

  /** A first attempt that gets to record writes exactly one row, for this filename, holding the
      unit's status and error, and returns the unit's own result. */
  lemma FirstAttemptRecordsOneRow(migrations: map<string, MigrationRecord>, tables: Tables, filename: string,
                                  script: Tables, hashOwner: string -> Digest,
                                  faults: set<Call>, transformFaults: set<DataTransform.Call>)
    requires filename !in migrations
    requires faults !! {CreateMigrationsTable, CountApplied, RecordOutcome}
    requires Classify(filename) == SqlScript ==> ReadScript !in faults
    ensures var e := ApplyEffect(migrations, tables, filename, script, hashOwner, faults, transformFaults);
      var ran := UnitEffect(Classify(filename), tables, script, hashOwner, faults, transformFaults);
      && e.result == ran.0 && e.tables == ran.1
      && e.migrations.Keys == migrations.Keys + {filename}
      && e.migrations[filename] == Recorded(Classify(filename), ran.0)
      && (forall g :: g in migrations ==> e.migrations[g] == migrations[g])
  {
  }

  /** Whatever happens, apply writes no tracking row but its own, and never removes one. */
  lemma ApplyTouchesOnlyItsOwnRow(migrations: map<string, MigrationRecord>, tables: Tables, filename: string,
                                  script: Tables, hashOwner: string -> Digest,
                                  faults: set<Call>, transformFaults: set<DataTransform.Call>, other: string)
    requires other != filename
    ensures var e := ApplyEffect(migrations, tables, filename, script, hashOwner, faults, transformFaults);
      && (other in e.migrations <==> other in migrations)
      && (other in migrations ==> e.migrations[other] == migrations[other])
      && migrations.Keys <= e.migrations.Keys
  {
  }

  /** A file with another extension is recorded as skipped with no error, changes no table and
      returns Ok. */
  lemma UnsupportedFileIsSkipped(migrations: map<string, MigrationRecord>, tables: Tables, filename: string,
                                 script: Tables, hashOwner: string -> Digest,
                                 faults: set<Call>, transformFaults: set<DataTransform.Call>)
    requires filename !in migrations && Classify(filename) == Unsupported
    requires faults !! {CreateMigrationsTable, CountApplied, RecordOutcome}
    ensures ApplyEffect(migrations, tables, filename, script, hashOwner, faults, transformFaults)
            == Applied(Ok(()), migrations[filename := MigrationRecord(Skipped, None)], tables)
  {
  }

  /** Another `.rs` name is recorded as failed with the unknown-migration error, which is returned. */
  lemma UnknownRustFails(migrations: map<string, MigrationRecord>, tables: Tables, filename: string,
                         script: Tables, hashOwner: string -> Digest,
                         faults: set<Call>, transformFaults: set<DataTransform.Call>)
    requires filename !in migrations && Classify(filename) == UnknownRust
    requires faults !! {CreateMigrationsTable, CountApplied, RecordOutcome}
    ensures ApplyEffect(migrations, tables, filename, script, hashOwner, faults, transformFaults)
            == Applied(Err(UnknownRustMigration),
                       migrations[filename := MigrationRecord(Failed, Some(UnknownRustMigration))], tables)
  {
  }

  /** Two ways an attempt leaves its filename unrecorded, so that a later apply runs it again:
      a `.sql` file that cannot be read (nothing has run), and a failed tracking insert (the unit
      has run, and its changes stay). */
  lemma UnrecordedAttempts(migrations: map<string, MigrationRecord>, tables: Tables, filename: string,
                           script: Tables, hashOwner: string -> Digest,
                           faults: set<Call>, transformFaults: set<DataTransform.Call>)
    requires filename !in migrations && faults !! {CreateMigrationsTable, CountApplied}
    ensures Classify(filename) == SqlScript && ReadScript in faults ==>
      ApplyEffect(migrations, tables, filename, script, hashOwner, faults, transformFaults)
      == Applied(Err(ScriptUnreadable), migrations, tables)
    ensures !(Classify(filename) == SqlScript && ReadScript in faults) && RecordOutcome in faults ==>
      var e := ApplyEffect(migrations, tables, filename, script, hashOwner, faults, transformFaults);
      && e == Applied(Err(SqlFailure), migrations,
                      UnitEffect(Classify(filename), tables, script, hashOwner, faults, transformFaults).1)
      && filename !in e.migrations
  {
  }

  /** reset_specific_migrations over the first n names: stops at the first failing delete. */
  function ResetPhase(migrations: map<string, MigrationRecord>, names: seq<string>, n: nat, faults: set<Call>)
    : (Result<()>, map<string, MigrationRecord>)
    requires n <= |names|
  {
    if n == 0 then (Ok(()), migrations)
    else
      var prev := ResetPhase(migrations, names, n - 1, faults);
      if prev.0.Err? then prev
      else if DeleteRecord(n - 1) in faults then (Err(SqlFailure), prev.1)
      else (Ok(()), prev.1 - {names[n - 1]})
  }

  /** Once a delete has failed, the later names are never reached. */
  lemma {:induction false} ResetPhaseStaysFailed(migrations: map<string, MigrationRecord>, names: seq<string>,
                                                 n: nat, m: nat, faults: set<Call>)
    requires n <= m <= |names|
    requires ResetPhase(migrations, names, n, faults).0.Err?
    ensures ResetPhase(migrations, names, m, faults) == ResetPhase(migrations, names, n, faults)
    decreases m
  {
    if n < m {
      ResetPhaseStaysFailed(migrations, names, n, m - 1, faults);
    }
  }

  /** Resetting only removes rows, and only named ones; it succeeds exactly when no delete fails,
      and then every one of the names is gone. */
  lemma {:induction false} ResetForgetsExactlyTheNames(migrations: map<string, MigrationRecord>, names: seq<string>,
                                                       n: nat, faults: set<Call>)
    requires n <= |names|
    ensures var r := ResetPhase(migrations, names, n, faults);
      && (forall f :: f in r.1 ==> f in migrations && r.1[f] == migrations[f])
      && (forall f :: f in migrations && f !in names[..n] ==> f in r.1)
      && (r.0.Ok? <==> forall i :: 0 <= i < n ==> DeleteRecord(i) !in faults)
      && (r.0.Ok? ==> forall i :: 0 <= i < n ==> names[i] !in r.1)
  {
    if n > 0 {
      ResetForgetsExactlyTheNames(migrations, names, n - 1, faults);
      assert names[..n] == names[..n - 1] + [names[n - 1]];
      var prev := ResetPhase(migrations, names, n - 1, faults);
      var r := ResetPhase(migrations, names, n, faults);
      if prev.0.Err? {
        var i :| 0 <= i < n - 1 && DeleteRecord(i) in faults;
      }
    }
  }

  /** A name forgotten by a successful reset runs again on its next apply, and is recorded anew. */
  lemma ResetThenApplyRerunsIt(migrations: map<string, MigrationRecord>, names: seq<string>, resetFaults: set<Call>,
                               tables: Tables, filename: string, script: Tables, hashOwner: string -> Digest,
                               transformFaults: set<DataTransform.Call>)
    requires filename in names
    requires ResetPhase(migrations, names, |names|, resetFaults).0.Ok?
    ensures var forgotten := ResetPhase(migrations, names, |names|, resetFaults).1;
      var e := ApplyEffect(forgotten, tables, filename, script, hashOwner, {}, transformFaults);
      var ran := UnitEffect(Classify(filename), tables, script, hashOwner, {}, transformFaults);
      && filename !in forgotten
      && e.result == ran.0 && e.tables == ran.1
      && e.migrations == forgotten[filename := Recorded(Classify(filename), ran.0)]
  {
    ResetForgetsExactlyTheNames(migrations, names, |names|, resetFaults);
  }

  /** apply: skip a recorded filename, else run the unit its extension names and record the outcome. */
  method Apply(db: Db, filename: string, script: Tables, hashOwner: string -> Digest,
               faults: set<Call>, transformFaults: set<DataTransform.Call>) returns (r: Result<()>)
    modifies db
    ensures Applied(r, db.migrations, TablesOf(db))
            == ApplyEffect(old(db.migrations), old(TablesOf(db)), filename, script, hashOwner, faults, transformFaults)
  {
    if CreateMigrationsTable in faults {
      return Err(SqlFailure);
    }
    if CountApplied in faults {
      return Err(SqlFailure);
    }
    var alreadyRun := if filename in db.migrations then 1 else 0;
    if alreadyRun > 0 {
      return Ok(());
    }

    var status := Success;
    var unit := Classify(filename);
    var result: Result<()>;
    match unit {
      case SqlScript =>
        if ReadScript in faults {
          return Err(ScriptUnreadable);
        }
        db.contracts, db.transactions, db.catalogue := script.contracts, script.transactions, script.catalogue;
        db.oldContract, db.oldTransactions := script.oldContract, script.oldTransactions;
        result := if ExecuteScript in faults then Err(SqlFailure) else Ok(());
      case Transform =>
        result := DataTransform.Run(db, hashOwner, transformFaults);
      case UnknownRust =>
        result := Err(UnknownRustMigration);
      case Unsupported =>
        status := Skipped;
        result := Ok(());
    }

    var error: Option<Error> := None;
    if result.Err? {
      status := Failed;
      error := Some(result.error);
    }
    if RecordOutcome in faults {
      return Err(SqlFailure);
    }
    db.migrations := db.migrations[filename := MigrationRecord(status, error)];
    return result;
  }

  /** reset_specific_migrations: delete the tracking row of each name in turn. */
  method ResetSpecificMigrations(db: Db, names: seq<string>, faults: set<Call>) returns (r: Result<()>)
    modifies db`migrations
    ensures (r, db.migrations) == ResetPhase(old(db.migrations), names, |names|, faults)
  {
    ghost var migrations0 := db.migrations;
    var i := 0;
    while i < |names|
      invariant 0 <= i <= |names|
      invariant ResetPhase(migrations0, names, i, faults) == (Ok(()), db.migrations)
    {
      if DeleteRecord(i) in faults {
        ResetPhaseStaysFailed(migrations0, names, i + 1, |names|, faults);
        return Err(SqlFailure);
      }
      db.migrations := db.migrations - {names[i]};
      i := i + 1;
    }
    return Ok(());
  }
}
