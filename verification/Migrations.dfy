/**
 * The two executors of SQL migrations over one ledger: the script that commits file by file, and the
 * start-up service that applies the whole list in one transaction.
 */
module Migrations {
  import opened Results

  /** A file: its path in the ledger and its text. */
  datatype File = File(key: string, sql: string)

  /** A question that tells whether an old installation already has what a file creates; it may fail. */
  datatype Probe<!S> = Probe(key: string, ask: S -> Option<bool>)

  /** What SQL texts do to a schema, if they succeed; the checksum of a text; and the probes. */
  datatype Env<!S> = Env(exec: (string, S) -> Option<S>, sha: string -> string, probes: seq<Probe<S>>)

  /** A schema and the ledger of applied files with their checksums. */
  datatype Db<S> = Db(schema: S, ledger: map<string, string>)

  const DOWN_SUFFIX := ".down.sql"

  predicate IsDown(key: string) {
    |key| >= |DOWN_SUFFIX| && key[|key| - |DOWN_SUFFIX|..] == DOWN_SUFFIX
  }

  function UpKeyOf(key: string): string {
    if IsDown(key) then key[..|key| - |DOWN_SUFFIX|] + ".sql" else key
  }

  /** The answer of the first probe for the file; without a probe, no. */
  function Probed<S>(probes: seq<Probe<S>>, key: string, schema: S): Option<bool> {
    if probes == [] then Some(false)
    else if probes[0].key == key then probes[0].ask(schema)
    else Probed(probes[1..], key, schema)
  }

  /** A file done: the database after it and the SQL that was executed. */
  datatype Done<S> = Done(db: Db<S>, executed: seq<string>)

  function UpStep<S>(env: Env<S>, db: Db<S>, file: File): Result<Done<S>> {
    var checksum := env.sha(file.sql);
    if file.key in db.ledger then
      if db.ledger[file.key] != checksum then Err("ChecksumMismatch") else Ok(Done(db, []))
    else
      match Probed(env.probes, file.key, db.schema)
      case None => Err("ProbeFailed")
      case Some(true) => Ok(Done(Db(db.schema, db.ledger[file.key := checksum]), []))
      case Some(false) =>
        var after := env.exec(file.sql, db.schema);
        if after.None? then Err("SqlFailed")
        else Ok(Done(Db(after.value, db.ledger[file.key := checksum]), [file.sql]))
  }

  function DownStep<S>(env: Env<S>, db: Db<S>, file: File): Result<Done<S>> {
    var after := env.exec(file.sql, db.schema);
    if after.None? then Err("SqlFailed")
    else Ok(Done(Db(after.value, db.ledger - {UpKeyOf(file.key)}), [file.sql]))
  }

  /** Only the script tells down migrations apart. */
  function Step<S>(env: Env<S>, db: Db<S>, file: File, downs: bool): Result<Done<S>> {
    if downs && IsDown(file.key) then DownStep(env, db, file) else UpStep(env, db, file)
  }

  /** How far a list of files came: the files done, the database after them and the SQL executed. */
  datatype Trace<S> = Trace(db: Db<S>, done: nat, executed: seq<string>)

  function Run<S>(env: Env<S>, db: Db<S>, files: seq<File>, downs: bool): (t: Trace<S>)
    ensures t.done <= |files|
  {
    if files == [] then Trace(db, 0, [])
    else
      var before := Run(env, db, files[..|files| - 1], downs);
      if before.done < |files| - 1 then before
      else
        var step := Step(env, before.db, files[|files| - 1], downs);
        if step.Err? then before
        else Trace(step.value.db, |files|, before.executed + step.value.executed)
  }

  predicate UpOnly(files: seq<File>) {
    forall i :: 0 <= i < |files| ==> !IsDown(files[i].key)
  }

  // ---- the executors ----

  /** A database that several statements of a transaction change in place. */
  class Database<!S> {
    const env: Env<S>
    var schema: S
    var ledger: map<string, string>

    constructor (env: Env<S>, db: Db<S>)
      ensures this.env == env && Contents() == db
    {
      this.env := env;
      this.schema := db.schema;
      this.ledger := db.ledger;
    }

    ghost function Contents(): Db<S>
      reads this
    {
      Db(schema, ledger)
    }

    /** Executes a text; a failing one leaves the database to be rolled back. */
    method Execute(sql: string) returns (ok: bool)
      modifies this`schema
      ensures ok <==> env.exec(sql, old(schema)).Some?
      ensures ok ==> schema == env.exec(sql, old(schema)).value
      ensures !ok ==> schema == old(schema)
    {
      var after := env.exec(sql, schema);
      ok := after.Some?;
      if after.Some? {
        schema := after.value;
      }
    }

    /** One file of the script: it is done whole, or the database is as it was. */
    method RunFile(file: File) returns (executed: Result<seq<string>>)
      modifies this
      ensures var step := Step(env, old(Contents()), file, true);
              if step.Err? then executed == Err(step.error) && Contents() == old(Contents())
              else executed == Ok(step.value.executed) && Contents() == step.value.db
    {
      var checksum := env.sha(file.sql);
      if IsDown(file.key) {
        var ok := Execute(file.sql);
        if !ok {
          return Err("SqlFailed");
        }
        ledger := ledger - {UpKeyOf(file.key)};
        return Ok([file.sql]);
      }
      if file.key in ledger {
        if ledger[file.key] != checksum {
          return Err("ChecksumMismatch");
        }
        return Ok([]);
      }
      var probed := Probed(env.probes, file.key, schema);
      if probed.None? {
        return Err("ProbeFailed");
      }
      if probed.value {
        ledger := ledger[file.key := checksum];
        return Ok([]);
      }
      var ok := Execute(file.sql);
      if !ok {
        return Err("SqlFailed");
      }
      ledger := ledger[file.key := checksum];
      return Ok([file.sql]);
    }

    /** The script: file after file until one fails, each in its own transaction. */
    method RunSql(files: seq<File>) returns (result: Result<seq<string>>)
      modifies this
      ensures Contents() == Run(env, old(Contents()), files, true).db
      ensures result.Ok? <==> files != [] && Run(env, old(Contents()), files, true).done == |files|
      ensures result.Ok? ==> result.value == Run(env, old(Contents()), files, true).executed
    {
      if |files| == 0 {
        return Err("Usage");
      }
      var executed := [];
      for i := 0 to |files|
        invariant Run(env, old(Contents()), files[..i], true) == Trace(Contents(), i, executed)
      {
        RunNext(env, old(Contents()), files, i, true);
        var sql := RunFile(files[i]);
        if sql.Err? {
          RunStops(env, old(Contents()), files, i, true);
          return Err(sql.error);
        }
        executed := executed + sql.value;
      }
      assert files[..|files|] == files;
      return Ok(executed);
    }

    /** The start-up service: all pending files in one transaction, and how many were executed. */
    method ApplyPendingMigrations(files: seq<File>) returns (result: Result<nat>)
      modifies this
      ensures result.Ok? <==> Run(env, old(Contents()), files, false).done == |files|
      ensures result.Ok? ==>
        && Contents() == Run(env, old(Contents()), files, false).db
        && result.value == |Run(env, old(Contents()), files, false).executed|
      ensures result.Err? ==> Contents() == old(Contents())
    {
      var startSchema, startLedger := schema, ledger;
      var applied := 0;
      ghost var executed := [];
      for i := 0 to |files|
        invariant Run(env, old(Contents()), files[..i], false) == Trace(Contents(), i, executed)
        invariant applied == |executed|
      {
        RunNext(env, old(Contents()), files, i, false);
        var file := files[i];
        var checksum := env.sha(file.sql);
        var failed := false;
        if file.key in ledger {
          failed := ledger[file.key] != checksum;
        } else {
          var probed := Probed(env.probes, file.key, schema);
          if probed.None? {
            failed := true;
          } else {
            if !probed.value {
              var ok := Execute(file.sql);
              if ok {
                applied := applied + 1;
                executed := executed + [file.sql];
              } else {
                failed := true;
              }
            }
            if !failed {
              ledger := ledger[file.key := checksum];
            }
          }
        }
        if failed {
          RunStops(env, old(Contents()), files, i, false);
          schema, ledger := startSchema, startLedger;
          return Err("RolledBack");
        }
      }
      assert files[..|files|] == files;
      return Ok(applied);
    }
  }

  lemma RunNext<S>(env: Env<S>, db: Db<S>, files: seq<File>, i: nat, downs: bool)
    requires i < |files|
    ensures var before := Run(env, db, files[..i], downs);
            var step := Step(env, before.db, files[i], downs);
            Run(env, db, files[..i + 1], downs) ==
            if before.done < i || step.Err? then before
            else Trace(step.value.db, i + 1, before.executed + step.value.executed)
  {
    assert files[..i + 1][..i] == files[..i];
  }

  /** After a file that fails nothing more is done. */
  lemma {:induction false} RunStops<S>(env: Env<S>, db: Db<S>, files: seq<File>, i: nat, downs: bool)
    requires i < |files|
    requires var before := Run(env, db, files[..i], downs);
             before.done == i && Step(env, before.db, files[i], downs).Err?
    ensures Run(env, db, files, downs) == Run(env, db, files[..i], downs)
    decreases |files|
  {
    if i == |files| - 1 {
    } else {
      var init := files[..|files| - 1];
      assert init[..i] == files[..i] && init[i] == files[i];
      RunStops(env, db, init, i, downs);
    }
  }

  // ---- what the executors promise ----

  /** What a failing list leaves is the whole effect of the files before the failing one. */
  lemma {:induction false} FailureLeavesPrefix<S>(env: Env<S>, db: Db<S>, files: seq<File>, downs: bool)
    ensures var t := Run(env, db, files, downs);
            Run(env, db, files[..t.done], downs) == t
    decreases |files|
  {
    var t := Run(env, db, files, downs);
    if files != [] && t.done < |files| {
      var init := files[..|files| - 1];
      FailureLeavesPrefix(env, db, init, downs);
      assert init[..t.done] == files[..t.done];
    } else {
      assert files[..|files|] == files;
    }
  }

  /** On files that only go up both executors do the same, file by file. */
  lemma {:induction false} ExecutorsAgree<S>(env: Env<S>, db: Db<S>, files: seq<File>)
    requires UpOnly(files)
    ensures Run(env, db, files, true) == Run(env, db, files, false)
    decreases |files|
  {
    if files != [] {
      ExecutorsAgree(env, db, files[..|files| - 1]);
    }
  }

  /** After ups that all succeeded each file is in the ledger with its checksum. */
  lemma {:induction false} AllRecorded<S>(env: Env<S>, db: Db<S>, files: seq<File>, downs: bool, i: nat)
    requires UpOnly(files) && Run(env, db, files, downs).done == |files| && i < |files|
    ensures var ledger := Run(env, db, files, downs).db.ledger;
            files[i].key in ledger && ledger[files[i].key] == env.sha(files[i].sql)
    decreases |files|
  {
    var init, last := files[..|files| - 1], files[|files| - 1];
    if i < |files| - 1 {
      AllRecorded(env, db, init, downs, i);
      assert init[i] == files[i];
    }
  }

  lemma {:induction false} NothingToDo<S>(env: Env<S>, db: Db<S>, files: seq<File>, downs: bool)
    requires UpOnly(files)
    requires forall i :: 0 <= i < |files| ==>
      files[i].key in db.ledger && db.ledger[files[i].key] == env.sha(files[i].sql)
    ensures Run(env, db, files, downs) == Trace(db, |files|, [])
    decreases |files|
  {
    if files != [] {
      NothingToDo(env, db, files[..|files| - 1], downs);
    }
  }

  /** Running the same ups again executes no SQL and changes nothing, whichever executor does it. */
  lemma RerunDoesNothing<S>(env: Env<S>, db: Db<S>, files: seq<File>, downs: bool, again: bool)
    requires UpOnly(files) && Run(env, db, files, downs).done == |files|
    ensures var after := Run(env, db, files, downs).db;
            Run(env, after, files, again) == Trace(after, |files|, [])
  {
    var after := Run(env, db, files, downs).db;
    forall i | 0 <= i < |files|
      ensures files[i].key in after.ledger && after.ledger[files[i].key] == env.sha(files[i].sql)
    {
      AllRecorded(env, db, files, downs, i);
    }
    NothingToDo(env, after, files, again);
  }

  // ---- names ----

  /** A down takes back the up of the same stem. */
  lemma DownRevertsUp(stem: string)
    ensures IsDown(stem + ".down.sql") && UpKeyOf(stem + ".down.sql") == stem + ".sql"
  {
    var key := stem + ".down.sql";
    assert key[|stem|..] == ".down.sql" && key[..|stem|] == stem;
  }

  /** Every down has a stem. */
  lemma DownHasStem(key: string) returns (stem: string)
    requires IsDown(key)
    ensures key == stem + ".down.sql"
  {
    stem := key[..|key| - 9];
    assert key[|key| - 9..] == ".down.sql";
  }

  lemma SameStem(stem: string, other: string)
    requires stem + ".sql" == other + ".sql"
    ensures stem == other
  {
    assert |stem| == |other| && stem == (stem + ".sql")[..|stem|] && other == (other + ".sql")[..|stem|];
  }

  /** The row of an up is changed by the files of its two names and no others. */
  lemma FilesOfRow(stem: string, key: string)
    requires !IsDown(stem + ".sql")
    ensures UpKeyOf(key) == stem + ".sql" <==> key == stem + ".sql" || key == stem + ".down.sql"
  {
    DownRevertsUp(stem);
    if IsDown(key) {
      var other := DownHasStem(key);
      DownRevertsUp(other);
      if UpKeyOf(key) == stem + ".sql" {
        SameStem(stem, other);
      }
    }
  }

  /** The answer is that of the first probe for the file. */
  lemma {:induction false} FirstProbe<S>(probes: seq<Probe<S>>, key: string, schema: S, i: nat)
    requires i <= |probes| && forall j :: 0 <= j < i ==> probes[j].key != key
    requires i < |probes| ==> probes[i].key == key
    ensures Probed(probes, key, schema) == if i < |probes| then probes[i].ask(schema) else Some(false)
    decreases i
  {
    if i > 0 {
      FirstProbe(probes[1..], key, schema, i - 1);
    }
  }

  // ---- the ledger over many runs of the script ----

  /** The state after several runs of the script, and the files that were done, in order. */
  function Session<S>(env: Env<S>, db: Db<S>, runs: seq<seq<File>>): (Db<S>, seq<File>) {
    if runs == [] then (db, [])
    else
      var (before, history) := Session(env, db, runs[..|runs| - 1]);
      var last := runs[|runs| - 1];
      var t := Run(env, before, last, true);
      (t.db, history + last[..t.done])
  }

  /** The last file done that has to do with a ledger row. */
  function LastOn(history: seq<File>, key: string): Option<File> {
    if history == [] then None
    else
      var last := history[|history| - 1];
      if UpKeyOf(last.key) == key then Some(last) else LastOn(history[..|history| - 1], key)
  }

  /** The row is there exactly when the last file on it went up, or there was none and it was there before. */
  predicate RowTellsLast<S>(env: Env<S>, start: Db<S>, now: Db<S>, history: seq<File>, key: string) {
    match LastOn(history, key)
    case None =>
      (key in now.ledger <==> key in start.ledger) && (key in now.ledger ==> now.ledger[key] == start.ledger[key])
    case Some(last) =>
      if IsDown(last.key) then key !in now.ledger else key in now.ledger && now.ledger[key] == env.sha(last.sql)
  }

  lemma StepTells<S>(env: Env<S>, start: Db<S>, now: Db<S>, history: seq<File>, file: File, key: string)
    requires RowTellsLast(env, start, now, history, key)
    requires Step(env, now, file, true).Ok?
    ensures RowTellsLast(env, start, Step(env, now, file, true).value.db, history + [file], key)
  {
    assert (history + [file])[..|history|] == history;
  }

  lemma {:induction false} RunTells<S>(env: Env<S>, start: Db<S>, now: Db<S>, history: seq<File>, files: seq<File>,
                                       key: string)
    requires RowTellsLast(env, start, now, history, key)
    ensures var t := Run(env, now, files, true);
            RowTellsLast(env, start, t.db, history + files[..t.done], key)
    decreases |files|
  {
    var t := Run(env, now, files, true);
    if files == [] {
      assert history + [] == history;
    } else {
      var init := files[..|files| - 1];
      RunTells(env, start, now, history, init, key);
      var before := Run(env, now, init, true);
      assert init[..before.done] == files[..before.done];
      if t.done == |files| {
        StepTells(env, start, before.db, history + init, files[|files| - 1], key);
        assert (history + init) + [files[|files| - 1]] == history + files[..t.done];
      }
    }
  }

  /**
   * Over any runs of the script, failing ones included, a ledger row is there exactly when the last
   * successful file on it was an up, and then it holds that file's checksum.
   */
  lemma {:induction false} LedgerTellsLastOperation<S>(env: Env<S>, db: Db<S>, runs: seq<seq<File>>, key: string)
    ensures var (now, history) := Session(env, db, runs);
            RowTellsLast(env, db, now, history, key)
    decreases |runs|
  {
    if runs != [] {
      var init, last := runs[..|runs| - 1], runs[|runs| - 1];
      LedgerTellsLastOperation(env, db, init, key);
      var (before, history) := Session(env, db, init);
      RunTells(env, db, before, history, last, key);
    }
  }

  /** The last file done that has one of two names. */
  function LastNamed(history: seq<File>, up: string, down: string): Option<File> {
    if history == [] then None
    else
      var last := history[|history| - 1];
      if last.key == up || last.key == down then Some(last) else LastNamed(history[..|history| - 1], up, down)
  }

  lemma {:induction false} LastNamedIsLast(history: seq<File>, stem: string, up: string, down: string)
    requires up == stem + ".sql" && down == stem + ".down.sql" && !IsDown(up)
    ensures LastOn(history, up) == LastNamed(history, up, down)
    ensures LastNamed(history, up, down).Some? ==> LastNamed(history, up, down).value.key in {up, down}
    decreases |history|
  {
    if history != [] {
      FilesOfRow(stem, history[|history| - 1].key);
      LastNamedIsLast(history[..|history| - 1], stem, up, down);
    }
  }

  /** The row is there exactly when the last file done among the two was the up, or there was none and it was there. */
  predicate NamesTell<S>(env: Env<S>, start: Db<S>, now: Db<S>, history: seq<File>, up: string, down: string) {
    match LastNamed(history, up, down)
    case None =>
      (up in now.ledger <==> up in start.ledger) && (up in now.ledger ==> now.ledger[up] == start.ledger[up])
    case Some(last) =>
      (up in now.ledger <==> last.key == up) && (up in now.ledger ==> now.ledger[up] == env.sha(last.sql))
  }

  /**
   * Over any runs, a file is in the ledger exactly when the last successful one among it and its down was
   * the file itself, and then with the checksum of what was executed.
   */
  lemma LedgerByNames<S>(env: Env<S>, db: Db<S>, runs: seq<seq<File>>, stem: string, up: string, down: string)
    requires up == stem + ".sql" && down == stem + ".down.sql" && !IsDown(up)
    ensures var (now, history) := Session(env, db, runs);
            NamesTell(env, db, now, history, up, down)
  {
    var (now, history) := Session(env, db, runs);
    LedgerTellsLastOperation(env, db, runs, up);
    LastNamedIsLast(history, stem, up, down);
    DownRevertsUp(stem);
  }

  lemma OneUp<S>(env: Env<S>, db: Db<S>, up: File, downs: bool)
    requires !IsDown(up.key) && up.key !in db.ledger
    requires Probed(env.probes, up.key, db.schema) == Some(false) && env.exec(up.sql, db.schema).Some?
    ensures Run(env, db, [up], downs) ==
            Trace(Db(env.exec(up.sql, db.schema).value, db.ledger[up.key := env.sha(up.sql)]), 1, [up.sql])
  {
    assert [up][..0] == [] && Run(env, db, [], downs) == Trace(db, 0, []);
    assert Step(env, db, up, downs).value.executed == [up.sql];
    assert [] + [up.sql] == [up.sql];
  }

  /** After its down an up is executed again, unless a probe says that its objects are there. */
  lemma UpAfterDown<S>(env: Env<S>, db: Db<S>, runs: seq<seq<File>>, stem: string, up: File, down: string, downs: bool)
    requires up.key == stem + ".sql" && down == stem + ".down.sql" && !IsDown(up.key)
    requires var (now, history) := Session(env, db, runs);
             && LastNamed(history, up.key, down).Some? && LastNamed(history, up.key, down).value.key == down
             && Probed(env.probes, up.key, now.schema) == Some(false) && env.exec(up.sql, now.schema).Some?
    ensures var now := Session(env, db, runs).0;
            Run(env, now, [up], downs) ==
            Trace(Db(env.exec(up.sql, now.schema).value, now.ledger[up.key := env.sha(up.sql)]), 1, [up.sql])
  {
    var now := Session(env, db, runs).0;
    LedgerByNames(env, db, runs, stem, up.key, down);
    assert |up.key| < |down|;
    OneUp(env, now, up, downs);
  }
}
