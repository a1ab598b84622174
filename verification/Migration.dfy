/**
  The migration engine as a protocol over a transactional database that may fail at any statement.

  A script says how every statement ends: fine, with an error, or with the connection lost just
  before or just after the server executed it. A connection whose transaction failed, and was not
  rolled back, refuses every further statement; what is not committed is gone when it is closed.
 */
module Migration {
  import opened Prelude

  datatype Migration = Migration(version: nat, filename: string, sql: string)

  const BIGINT_END := 0x8000_0000_0000_0000

  /** What is committed: whether the tracking table exists, the schema changes in the order they were
      applied, and the rows of the tracking table. */
  datatype Db = Db(table: bool, changes: seq<Migration>, recorded: seq<(nat, string)>)

  const FRESH := Db(false, [], [])

  datatype Ending = Fine | Failing | LostBefore | LostAfter

  predicate Lost(e: Ending) { e.LostBefore? || e.LostAfter? }

  type Script = nat -> Ending

  ghost predicate Clean(script: Script) { forall k :: script(k).Fine? }

  /** What a connection is good for. */
  datatype Link = Usable | InFailedTransaction | Dead

  datatype Report = Report(total: nat, applied: nat, skipped: nat)

  /** How a run ends: with a report, or with an error. */
  datatype RunResult = Reported(r: Report) | Aborted

  datatype Ended = Ended(db: Db, result: RunResult, link: Link)

  // ---- The tracking table ----

  function Recorded(db: Db): set<nat> { set i | 0 <= i < |db.recorded| :: db.recorded[i].0 }

  /** The row of a migration violates nothing: it fits a BIGINT and its version is not there yet. */
  predicate Insertable(db: Db, m: Migration) { m.version < BIGINT_END && m.version !in Recorded(db) }

  function WithMigration(db: Db, m: Migration): Db {
    db.(changes := db.changes + [m], recorded := db.recorded + [(m.version, m.filename)])
  }

  // ---- One migration: BEGIN, its SQL, the record, COMMIT ----

  /** The four statements from number `at` on: what is committed then, whether all went well, and what
      the connection is good for. A failed migration is rolled back, a failed record is not. */
  function ApplyOne(db: Db, m: Migration, script: Script, at: nat): (Db, bool, Link) {
    if !script(at).Fine? then (db, false, if Lost(script(at)) then Dead else Usable)
    else if !script(at + 1).Fine? then (db, false, if Lost(script(at + 1)) then Dead else AfterRollback(script(at + 2)))
    else if Lost(script(at + 2)) then (db, false, Dead)
    else if script(at + 2).Failing? || !Insertable(db, m) then (db, false, InFailedTransaction)
    else match script(at + 3)
      case Fine => (WithMigration(db, m), true, Usable)
      case Failing => (db, false, Usable)
      case LostBefore => (db, false, Dead)
      case LostAfter => (WithMigration(db, m), false, Dead)
  }

  function AfterRollback(e: Ending): Link {
    if Lost(e) then Dead else if e.Failing? then InFailedTransaction else Usable
  }

  // ---- A whole run ----

  /** The loop over the sorted migrations from number `k` on, with `known` fetched before it. */
  function RunFrom(db: Db, all: seq<Migration>, known: set<nat>, k: nat, script: Script, at: nat,
                   applied: nat, skipped: nat): Ended
    requires k <= |all|
    decreases |all| - k
  {
    if k == |all| then Ended(db, Reported(Report(|all|, applied, skipped)), Usable)
    else if all[k].version in known then RunFrom(db, all, known, k + 1, script, at, applied, skipped + 1)
    else
      var (db', ok, link) := ApplyOne(db, all[k], script, at);
      if ok then RunFrom(db', all, known, k + 1, script, at + 4, applied + 1, skipped)
      else Ended(db', Aborted, link)
  }

  /** `run` on a usable connection: create the table, fetch what is applied, apply the rest. */
  function Run(db: Db, all: seq<Migration>, script: Script, at: nat): Ended {
    match script(at)
    case Fine =>
      var db1 := db.(table := true);
      if !script(at + 1).Fine? then Ended(db1, Aborted, if Lost(script(at + 1)) then Dead else Usable)
      else RunFrom(db1, all, Recorded(db1), 0, script, at + 2, 0, 0)
    case Failing => Ended(db, Aborted, Usable)
    case LostBefore => Ended(db, Aborted, Dead)
    case LostAfter => Ended(db.(table := true), Aborted, Dead)
  }

  /** On any other connection the first statement is refused. */
  function RunOn(link: Link, db: Db, all: seq<Migration>, script: Script, at: nat): Ended {
    if link.Usable? then Run(db, all, script, at) else Ended(db, Aborted, link)
  }

  /** A connection: what the server has committed and what an open transaction holds. Between runs a
      transaction is open only if it failed. */
  class Connection {
    var db: Db
    var tx: Option<Db>
    var lost: bool
    const script: Script
    var at: nat

    constructor (db: Db, script: Script)
      ensures this.db == db && this.script == script && tx == None && !lost && at == 0
    {
      this.db, this.script, tx, lost, at := db, script, None, false, 0;
    }

    function Status(): Link
      reads this
    {
      if lost then Dead else if tx.Some? then InFailedTransaction else Usable
    }

    method CreateTable() returns (ok: bool)
      modifies this`db, this`lost, this`at
      ensures at == old(at) + 1 && (ok <==> old(Status()).Usable? && script(old(at)).Fine?)
      ensures db == if old(Status()).Usable? && (script(old(at)).Fine? || script(old(at)).LostAfter?)
                    then old(db).(table := true) else old(db)
      ensures lost == (old(lost) || (old(Status()).Usable? && Lost(script(old(at)))))
    {
      ok := false;
      if Status().Usable? {
        var e := script(at);
        lost, ok := Lost(e), e.Fine?;
        if e.Fine? || e.LostAfter? { db := db.(table := true); }
      }
      at := at + 1;
    }

    method FetchApplied() returns (ok: bool, known: set<nat>)
      requires Status().Usable?
      modifies this`lost, this`at
      ensures at == old(at) + 1 && (ok <==> script(old(at)).Fine?) && (ok ==> known == Recorded(db))
      ensures lost == Lost(script(old(at)))
    {
      var e := script(at);
      at, lost, ok := at + 1, Lost(e), e.Fine?;
      known := if ok then Recorded(db) else {};
    }

    method Begin() returns (ok: bool)
      requires Status().Usable?
      modifies this`tx, this`lost, this`at
      ensures at == old(at) + 1 && (ok <==> script(old(at)).Fine?) && lost == Lost(script(old(at)))
      ensures tx == if ok then Some(db) else None
    {
      var e := script(at);
      at, lost, ok := at + 1, Lost(e), e.Fine?;
      if ok { tx := Some(db); }
    }

    /** Runs a migration's SQL inside the open transaction. */
    method ExecuteSql(m: Migration) returns (ok: bool)
      requires !lost && tx.Some?
      modifies this`tx, this`lost, this`at
      ensures at == old(at) + 1 && (ok <==> script(old(at)).Fine?) && lost == Lost(script(old(at)))
      ensures tx.Some? && (ok ==> tx == Some(old(tx).value.(changes := old(tx).value.changes + [m])))
    {
      var e := script(at);
      at, lost, ok := at + 1, Lost(e), e.Fine?;
      if ok { tx := Some(tx.value.(changes := tx.value.changes + [m])); }
    }

    method InsertRecord(m: Migration) returns (ok: bool)
      requires !lost && tx.Some?
      modifies this`tx, this`lost, this`at
      ensures at == old(at) + 1 && lost == Lost(script(old(at)))
      ensures ok <==> script(old(at)).Fine? && Insertable(old(tx).value, m)
      ensures tx.Some?
      ensures ok ==> tx == Some(old(tx).value.(recorded := old(tx).value.recorded + [(m.version, m.filename)]))
    {
      var e := script(at);
      at, lost, ok := at + 1, Lost(e), e.Fine? && Insertable(tx.value, m);
      if ok { tx := Some(tx.value.(recorded := tx.value.recorded + [(m.version, m.filename)])); }
    }

    method Commit() returns (ok: bool)
      requires !lost && tx.Some?
      modifies this`db, this`tx, this`lost, this`at
      ensures at == old(at) + 1 && tx == None && lost == Lost(script(old(at))) && (ok <==> script(old(at)).Fine?)
      ensures db == if script(old(at)).Fine? || script(old(at)).LostAfter? then old(tx).value else old(db)
    {
      var e := script(at);
      at, lost, ok := at + 1, Lost(e), e.Fine?;
      if e.Fine? || e.LostAfter? { db := tx.value; }
      tx := None;
    }

    /** Gives up the open transaction; the caller ignores how the statement ends. */
    method Rollback()
      requires !lost && tx.Some?
      modifies this`tx, this`lost, this`at
      ensures at == old(at) + 1 && Status() == AfterRollback(script(old(at)))
    {
      var e := script(at);
      at, lost := at + 1, Lost(e);
      if e.Fine? { tx := None; }
    }

    /** Applies one pending migration; on any failure the run is abandoned. */
    method ApplyMigration(m: Migration) returns (ok: bool)
      requires Status().Usable?
      modifies this
      ensures (db, ok, Status()) == ApplyOne(old(db), m, script, old(at))
      ensures ok ==> at == old(at) + 4
    {
      ok := Begin();
      if !ok { return false; }
      ok := ExecuteSql(m);
      if !ok {
        if !lost { Rollback(); }
        return false;
      }
      assert Recorded(tx.value) == Recorded(db);
      ok := InsertRecord(m);
      if !ok { return false; }
      ok := Commit();
    }

    /** The loop of `run` over the sorted files. */
    method ApplyPending(all: seq<Migration>, known: set<nat>) returns (r: RunResult)
      requires Status().Usable?
      modifies this
      ensures Ended(db, r, Status()) == RunFrom(old(db), all, known, 0, script, old(at), 0, 0)
    {
      ghost var whole := RunFrom(db, all, known, 0, script, at, 0, 0);
      var applied, skipped, k := 0, 0, 0;
      while k < |all|
        invariant 0 <= k <= |all| && Status().Usable?
        invariant RunFrom(db, all, known, k, script, at, applied, skipped) == whole
      {
        if all[k].version in known {
          skipped := skipped + 1;
        } else {
          var ok := ApplyMigration(all[k]);
          if !ok { return Aborted; }
          applied := applied + 1;
        }
        k := k + 1;
      }
      return Reported(Report(|all|, applied, skipped));
    }

    /** `run`. */
    method RunMigrations(all: seq<Migration>) returns (r: RunResult)
      modifies this
      ensures Ended(db, r, Status()) == RunOn(old(Status()), old(db), all, script, old(at))
    {
      var ok := CreateTable();
      if !ok { return Aborted; }
      var known;
      ok, known := FetchApplied();
      if !ok { return Aborted; }
      r := ApplyPending(all, known);
    }
  }

  // ---- What is committed is what is recorded ----

  ghost predicate Consistent(db: Db) {
    && |db.changes| == |db.recorded|
    && forall i :: 0 <= i < |db.changes| ==> db.recorded[i] == (db.changes[i].version, db.changes[i].filename)
  }

  lemma {:induction false} RunFromConsistent(db: Db, all: seq<Migration>, known: set<nat>, k: nat, script: Script,
                                             at: nat, applied: nat, skipped: nat)
    requires k <= |all| && Consistent(db)
    ensures Consistent(RunFrom(db, all, known, k, script, at, applied, skipped).db)
    decreases |all| - k
  {
    if k < |all| {
      if all[k].version in known {
        RunFromConsistent(db, all, known, k + 1, script, at, applied, skipped + 1);
      } else if ApplyOne(db, all[k], script, at).1 {
        RunFromConsistent(ApplyOne(db, all[k], script, at).0, all, known, k + 1, script, at + 4, applied + 1, skipped);
      }
    }
  }

  /** Whatever fails and whenever, whatever the files and the connection: the committed schema changes
      are exactly the recorded migrations. */
  lemma {:induction false} RunConsistent(link: Link, db: Db, all: seq<Migration>, script: Script, at: nat)
    requires Consistent(db)
    ensures Consistent(RunOn(link, db, all, script, at).db)
  {
    if link.Usable? && script(at).Fine? && script(at + 1).Fine? {
      RunFromConsistent(db.(table := true), all, Recorded(db.(table := true)), 0, script, at + 2, 0, 0);
    }
  }

  // ---- A fixed set of files ----

  ghost predicate SortedByVersion(ms: seq<Migration>) {
    forall i, j :: 0 <= i < j < |ms| ==> ms[i].version <= ms[j].version
  }

  /** Loaded and sorted, with distinct versions that fit the tracking column. */
  ghost predicate Loaded(all: seq<Migration>) {
    && (forall i, j :: 0 <= i < j < |all| ==> all[i].version < all[j].version)
    && (forall i :: 0 <= i < |all| ==> all[i].version < 0x8000_0000_0000_0000)
  }

  /** The first `p` files are applied and recorded, and nothing else. */
  ghost predicate AtPrefix(db: Db, all: seq<Migration>, p: nat) {
    p <= |all| && Consistent(db) && db.changes == all[..p]
  }

  lemma RecordedPrefix(db: Db, all: seq<Migration>, p: nat, k: nat)
    requires Loaded(all) && AtPrefix(db, all, p) && k < |all|
    ensures all[k].version in Recorded(db) <==> k < p
  {
    if k < p {
      assert db.recorded[k].0 == all[k].version;
    } else {
      forall i | 0 <= i < |db.recorded| ensures db.recorded[i].0 != all[k].version { assert db.changes[i] == all[i]; }
    }
  }

  lemma ApplyNext(db: Db, all: seq<Migration>, k: nat, script: Script, at: nat)
    requires Loaded(all) && AtPrefix(db, all, k) && k < |all|
    ensures var (db', ok, link) := ApplyOne(db, all[k], script, at);
      && db'.table == db.table
      && (db' == db || AtPrefix(db', all, k + 1))
      && (ok ==> AtPrefix(db', all, k + 1))
      && (Clean(script) ==> ok)
  {
    RecordedPrefix(db, all, k, k);
    assert all[..k + 1] == all[..k] + [all[k]];
  }

  /** From a prefix, the loop skips what is there and applies the rest in order; it ends at a longer
      prefix, the whole list if nothing fails. */
  lemma {:induction false} RunFromPrefix(db: Db, all: seq<Migration>, known: set<nat>, p0: nat, p: nat, k: nat,
                                         script: Script, at: nat, applied: nat, skipped: nat)
    requires Loaded(all) && AtPrefix(db, all, p) && k <= |all| && p0 <= p
    requires forall i :: 0 <= i < |all| ==> (all[i].version in known <==> i < p0)
    requires if k <= p0 then p == p0 && skipped == k && applied == 0 else p == k && skipped == p0 && applied == k - p0
    ensures var e := RunFrom(db, all, known, k, script, at, applied, skipped);
      && e.db.table == db.table
      && p <= |e.db.changes| && AtPrefix(e.db, all, |e.db.changes|)
      && (e.result.Reported? ==> e.db.changes == all && e.result.r == Report(|all|, |all| - p0, p0))
      && (Clean(script) ==> e.result.Reported?)
    decreases |all| - k
  {
    if k == |all| {
      assert all[..|all|] == all;
    } else if all[k].version in known {
      RunFromPrefix(db, all, known, p0, p, k + 1, script, at, applied, skipped + 1);
    } else {
      ApplyNext(db, all, k, script, at);
      var (db', ok, link) := ApplyOne(db, all[k], script, at);
      if ok { RunFromPrefix(db', all, known, p0, k + 1, k + 1, script, at + 4, applied + 1, skipped); }
    }
  }

  /** One run over a fixed file set, failing anywhere, moves the database along the sorted list; a run
      that reports has applied all of it, counting every file once. A run in which no statement fails
      reports exactly when the connection was usable. */
  lemma {:induction false} RunExtendsPrefix(link: Link, db: Db, all: seq<Migration>, p: nat, script: Script, at: nat)
    requires Loaded(all) && AtPrefix(db, all, p)
    ensures var e := RunOn(link, db, all, script, at);
      && p <= |e.db.changes| && AtPrefix(e.db, all, |e.db.changes|)
      && (e.result.Reported? ==> e.db.table && e.db.changes == all && e.result.r == Report(|all|, |all| - p, p)
                                 && e.result.r.applied + e.result.r.skipped == e.result.r.total)
      && (Clean(script) ==> (e.result.Reported? <==> link.Usable?))
  {
    var db1 := db.(table := true);
    if link.Usable? && script(at).Fine? && script(at + 1).Fine? {
      forall i | 0 <= i < |all| ensures all[i].version in Recorded(db1) <==> i < p { RecordedPrefix(db1, all, p, i); }
      RunFromPrefix(db1, all, Recorded(db1), p, p, 0, script, at + 2, 0, 0);
    }
  }

  /** One attempt of many: over the connection of the one before, or over a new one. */
  datatype Attempt = Attempt(reconnect: bool, script: Script, at: nat)

  function RunMany(db: Db, link: Link, all: seq<Migration>, attempts: seq<Attempt>): (Db, Link)
    decreases |attempts|
  {
    if attempts == [] then (db, link)
    else
      var a := attempts[0];
      var e := RunOn(if a.reconnect then Usable else link, db, all, a.script, a.at);
      RunMany(e.db, e.link, all, attempts[1..])
  }

  lemma {:induction false} RunManyPrefix(db: Db, link: Link, all: seq<Migration>, p: nat, attempts: seq<Attempt>)
    requires Loaded(all) && AtPrefix(db, all, p)
    ensures var db' := RunMany(db, link, all, attempts).0; AtPrefix(db', all, |db'.changes|)
    decreases |attempts|
  {
    if attempts != [] {
      var a := attempts[0];
      var from := if a.reconnect then Usable else link;
      RunExtendsPrefix(from, db, all, p, a.script, a.at);
      var e := RunOn(from, db, all, a.script, a.at);
      RunManyPrefix(e.db, e.link, all, |e.db.changes|, attempts[1..]);
    }
  }

  lemma PrefixDetermines(a: Db, b: Db, all: seq<Migration>)
    requires AtPrefix(a, all, |all|) && AtPrefix(b, all, |all|) && a.table == b.table
    ensures a == b
  {
    assert a.recorded == b.recorded;
  }

  /** Crashes do not matter in the end: any number of failed attempts, over old or new connections,
      followed by a clean run over a new one, leave the same database as one clean run, and running
      again applies nothing and changes nothing. */
  lemma {:induction false} CrashesThenCleanRun(all: seq<Migration>, attempts: seq<Attempt>, clean: Script, once: Script,
                                               at: nat)
    requires Loaded(all) && Clean(clean) && Clean(once)
    ensures var e := Run(RunMany(FRESH, Usable, all, attempts).0, all, clean, at);
      && e.db == Run(FRESH, all, once, 0).db && e.link.Usable?
      && Run(e.db, all, once, 0) == Ended(e.db, Reported(Report(|all|, 0, |all|)), Usable)
  {
    assert all[..0] == [];
    RunManyPrefix(FRESH, Usable, all, 0, attempts);
    var crashed := RunMany(FRESH, Usable, all, attempts).0;
    RunExtendsPrefix(Usable, crashed, all, |crashed.changes|, clean, at);
    RunExtendsPrefix(Usable, FRESH, all, 0, once, 0);
    var a, b := Run(crashed, all, clean, at), Run(FRESH, all, once, 0);
    PrefixDetermines(a.db, b.db, all);
    RunExtendsPrefix(Usable, a.db, all, |all|, once, 0);
    PrefixDetermines(a.db, Run(a.db, all, once, 0).db, all);
    ReportedIsUsable(crashed, all, clean, at);
    ReportedIsUsable(a.db, all, once, 0);
  }

  lemma {:induction false} ReportedLink(db: Db, all: seq<Migration>, known: set<nat>, k: nat, script: Script, at: nat,
                                        applied: nat, skipped: nat)
    requires k <= |all|
    ensures var e := RunFrom(db, all, known, k, script, at, applied, skipped); e.result.Reported? ==> e.link.Usable?
    decreases |all| - k
  {
    if k < |all| {
      if all[k].version in known {
        ReportedLink(db, all, known, k + 1, script, at, applied, skipped + 1);
      } else if ApplyOne(db, all[k], script, at).1 {
        ReportedLink(ApplyOne(db, all[k], script, at).0, all, known, k + 1, script, at + 4, applied + 1, skipped);
      }
    }
  }

  lemma ReportedIsUsable(db: Db, all: seq<Migration>, script: Script, at: nat)
    ensures Run(db, all, script, at).result.Reported? ==> Run(db, all, script, at).link.Usable?
  {
    if script(at).Fine? && script(at + 1).Fine? {
      ReportedLink(db.(table := true), all, Recorded(db.(table := true)), 0, script, at + 2, 0, 0);
    }
  }

  // ---- Connections that are lost to further runs ----

  /** A record that is refused leaves the transaction open: no later run over the same connection
      changes anything or reports, whatever the statements would do. */
  lemma {:induction false} StuckUntilReconnect(db: Db, link: Link, all: seq<Migration>, attempts: seq<Attempt>)
    requires !link.Usable? && forall i :: 0 <= i < |attempts| ==> !attempts[i].reconnect
    ensures RunMany(db, link, all, attempts) == (db, link)
    decreases |attempts|
  {
    if attempts != [] {
      var rest := attempts[1..];
      assert forall i :: 0 <= i < |rest| ==> rest[i] == attempts[i + 1];
      StuckUntilReconnect(db, link, all, rest);
    }
  }

  // ---- Exactly which files a run can finish ----

  ghost predicate AmongFirst(all: seq<Migration>, k: nat, v: nat)
    requires k <= |all|
  {
    exists j :: 0 <= j < k && all[j].version == v
  }

  /** The record of file `i` will be accepted: it is pending, fits the column, and no file before it has
      its version; a file that is not pending needs no record. */
  ghost predicate Recordable(all: seq<Migration>, known: set<nat>, i: nat)
    requires i < |all|
  {
    all[i].version in known || (all[i].version < 0x8000_0000_0000_0000 && !AmongFirst(all, i, all[i].version))
  }

  lemma AmongNext(all: seq<Migration>, k: nat, v: nat)
    requires k < |all|
    ensures AmongFirst(all, k + 1, v) <==> AmongFirst(all, k, v) || all[k].version == v
  {
    if AmongFirst(all, k + 1, v) {
      var j :| 0 <= j < k + 1 && all[j].version == v;
      assert j == k || AmongFirst(all, k, v);
    }
    if all[k].version == v { assert AmongFirst(all, k + 1, v); }
    if AmongFirst(all, k, v) {
      var j :| 0 <= j < k && all[j].version == v;
      assert AmongFirst(all, k + 1, v);
    }
  }

  /** What is recorded when the loop reaches file `k`. */
  ghost predicate RecordedSoFar(db: Db, all: seq<Migration>, known: set<nat>, k: nat)
    requires k <= |all|
  {
    forall v :: v in Recorded(db) <==> v in known || AmongFirst(all, k, v)
  }

  lemma SkippedSoFar(db: Db, all: seq<Migration>, known: set<nat>, k: nat)
    requires k < |all| && RecordedSoFar(db, all, known, k) && all[k].version in known
    ensures RecordedSoFar(db, all, known, k + 1)
  {
    forall v ensures v in Recorded(db) <==> v in known || AmongFirst(all, k + 1, v) { AmongNext(all, k, v); }
  }

  lemma AppliedSoFar(db: Db, all: seq<Migration>, known: set<nat>, k: nat)
    requires k < |all| && RecordedSoFar(db, all, known, k)
    ensures RecordedSoFar(WithMigration(db, all[k]), all, known, k + 1)
  {
    var db' := WithMigration(db, all[k]);
    forall v ensures v in Recorded(db') <==> v in known || AmongFirst(all, k + 1, v) {
      AmongNext(all, k, v);
      RecordedOneMore(db, all[k], v);
    }
  }

  lemma RecordedOneMore(db: Db, m: Migration, v: nat)
    ensures v in Recorded(WithMigration(db, m)) <==> v in Recorded(db) || v == m.version
  {
    var r, r' := db.recorded, WithMigration(db, m).recorded;
    if v in Recorded(db) {
      var i :| 0 <= i < |r| && r[i].0 == v;
      assert r'[i].0 == v;
    }
    if v == m.version { assert r'[|r|].0 == v; }
  }

  lemma {:induction false} CleanLoopIff(db: Db, all: seq<Migration>, known: set<nat>, k: nat, clean: Script, at: nat,
                                        applied: nat, skipped: nat)
    requires k <= |all| && Clean(clean) && RecordedSoFar(db, all, known, k)
    ensures var e := RunFrom(db, all, known, k, clean, at, applied, skipped);
      && (e.result.Reported? <==> forall i :: k <= i < |all| ==> Recordable(all, known, i))
      && (e.result.Aborted? <==> e.link.InFailedTransaction?)
    decreases |all| - k
  {
    if k < |all| {
      if all[k].version in known {
        SkippedSoFar(db, all, known, k);
        CleanLoopIff(db, all, known, k + 1, clean, at, applied, skipped + 1);
      } else {
        assert Recordable(all, known, k) <==> Insertable(db, all[k]);
        if Insertable(db, all[k]) {
          AppliedSoFar(db, all, known, k);
          CleanLoopIff(WithMigration(db, all[k]), all, known, k + 1, clean, at + 4, applied + 1, skipped);
        }
      }
    }
  }

  /** With nothing failing, from any database and over any list of files: a run reports exactly when every
      pending file has a version below 2^63 that no file before it has; and it aborts exactly by leaving
      a failed transaction open, so the connection is then lost to further runs. */
  lemma {:induction false} CleanRunCompletesIff(db: Db, all: seq<Migration>, clean: Script, at: nat)
    requires Clean(clean)
    ensures var e := Run(db, all, clean, at);
      && (e.result.Reported? <==> forall i :: 0 <= i < |all| ==> Recordable(all, Recorded(db), i))
      && (e.result.Aborted? <==> e.link.InFailedTransaction?)
  {
    var db1 := db.(table := true);
    assert Recorded(db1) == Recorded(db);
    CleanLoopIff(db1, all, Recorded(db1), 0, clean, at + 2, 0, 0);
  }

  /** On a database without records, over sorted files: exactly when the versions are distinct and fit. */
  lemma {:induction false} FirstRunCompletesIff(all: seq<Migration>, clean: Script, at: nat)
    requires SortedByVersion(all) && Clean(clean)
    ensures Run(FRESH, all, clean, at).result.Reported? <==> Loaded(all)
  {
    CleanRunCompletesIff(FRESH, all, clean, at);
    assert Recorded(FRESH) == {};
    if Loaded(all) {
      forall i | 0 <= i < |all| ensures Recordable(all, {}, i) {}
    } else if forall i :: 0 <= i < |all| ==> Recordable(all, {}, i) {
      forall i | 0 <= i < |all| ensures all[i].version < BIGINT_END { assert Recordable(all, {}, i); }
      forall i, j | 0 <= i < j < |all| ensures all[i].version < all[j].version {
        assert Recordable(all, {}, j);
        assert all[i].version == all[j].version ==> AmongFirst(all, j, all[j].version);
      }
    }
  }

  // ---- What a report says about the files ----

  /** Every file that is already recorded by its version is the one that was applied. */
  ghost predicate KnownAreApplied(db: Db, all: seq<Migration>) {
    forall i :: 0 <= i < |all| && all[i].version in Recorded(db) ==> all[i] in db.changes
  }

  ghost predicate AllApplied(db: Db, all: seq<Migration>) { forall i :: 0 <= i < |all| ==> all[i] in db.changes }

  /** What the loop adds are the files it did not skip. */
  lemma {:induction false} RunFromApplies(db: Db, all: seq<Migration>, known: set<nat>, k: nat, script: Script, at: nat,
                                          applied: nat, skipped: nat, m: Migration)
    requires k <= |all| && RunFrom(db, all, known, k, script, at, applied, skipped).result.Reported?
    ensures m in RunFrom(db, all, known, k, script, at, applied, skipped).db.changes <==>
      m in db.changes || (m in all[k..] && m.version !in known)
    decreases |all| - k
  {
    if k < |all| {
      assert all[k..] == [all[k]] + all[k + 1..];
      if all[k].version in known {
        RunFromApplies(db, all, known, k + 1, script, at, applied, skipped + 1, m);
      } else {
        RunFromApplies(WithMigration(db, all[k]), all, known, k + 1, script, at + 4, applied + 1, skipped, m);
      }
    }
  }

  /** A run that reports has applied every file exactly when no file hides behind the version of another
      one that was recorded before. */
  lemma {:induction false} ReportMeansAppliedIff(db: Db, all: seq<Migration>, script: Script, at: nat)
    requires Run(db, all, script, at).result.Reported?
    ensures AllApplied(Run(db, all, script, at).db, all) <==> KnownAreApplied(db, all)
  {
    var db1 := db.(table := true);
    assert all[0..] == all;
    forall i | 0 <= i < |all|
      ensures all[i] in Run(db, all, script, at).db.changes <==> all[i] in db.changes || all[i].version !in Recorded(db)
    {
      RunFromApplies(db1, all, Recorded(db1), 0, script, at + 2, 0, 0, all[i]);
    }
  }

  /** Two files of one version: the first run applies one, fails on the other and leaves its connection in
      the failed transaction; the next run, over a new one, reports that there is nothing to do. */
  lemma SecondRunHidesDuplicate(a: Migration, b: Migration, clean: Script)
    requires Clean(clean) && a.version == b.version < BIGINT_END && a != b
    ensures var first := Run(FRESH, [a, b], clean, 0);
      var second := Run(first.db, [a, b], clean, 0);
      && first.result.Aborted? && first.link.InFailedTransaction?
      && second.result == Reported(Report(2, 0, 2)) && b !in second.db.changes
  {
    var db1 := FRESH.(table := true);
    var db2 := WithMigration(db1, a);
    assert Recorded(db1) == {} && db2.recorded[0].0 == a.version && a.version in Recorded(db2);
    assert ApplyOne(db1, a, clean, 2) == (db2, true, Usable);
    assert ApplyOne(db2, b, clean, 6) == (db2, false, InFailedTransaction);
    assert RunFrom(db2, [a, b], {}, 1, clean, 6, 1, 0) == Ended(db2, Aborted, InFailedTransaction);
    assert RunFrom(db1, [a, b], {}, 0, clean, 2, 0, 0) == Ended(db2, Aborted, InFailedTransaction);
    assert db2.(table := true) == db2;
    assert RunFrom(db2, [a, b], Recorded(db2), 2, clean, 2, 0, 2).result == Reported(Report(2, 0, 2));
    assert RunFrom(db2, [a, b], Recorded(db2), 1, clean, 2, 0, 1).result == Reported(Report(2, 0, 2));
  }

  // ---- Loading ----

  function InsertByVersion(ms: seq<Migration>, m: Migration): seq<Migration> {
    if ms == [] || ms[|ms| - 1].version <= m.version then ms + [m]
    else InsertByVersion(ms[..|ms| - 1], m) + [ms[|ms| - 1]]
  }

  /** `migrations.sort()`: by version, keeping the order of equals. */
  function SortByVersion(ms: seq<Migration>): seq<Migration> {
    if ms == [] then [] else InsertByVersion(SortByVersion(ms[..|ms| - 1]), ms[|ms| - 1])
  }

  lemma {:induction false} InsertBelow(ms: seq<Migration>, m: Migration, bound: nat)
    requires m.version <= bound && forall i :: 0 <= i < |ms| ==> ms[i].version <= bound
    ensures forall i :: 0 <= i < |InsertByVersion(ms, m)| ==> InsertByVersion(ms, m)[i].version <= bound
  {
    if !(ms == [] || ms[|ms| - 1].version <= m.version) {
      InsertBelow(ms[..|ms| - 1], m, bound);
    }
  }

  lemma {:induction false} InsertSorted(ms: seq<Migration>, m: Migration)
    requires SortedByVersion(ms)
    ensures SortedByVersion(InsertByVersion(ms, m))
  {
    if !(ms == [] || ms[|ms| - 1].version <= m.version) {
      InsertSorted(ms[..|ms| - 1], m);
      InsertBelow(ms[..|ms| - 1], m, ms[|ms| - 1].version);
    }
  }

  lemma {:induction false} InsertKeeps(ms: seq<Migration>, m: Migration)
    ensures multiset(InsertByVersion(ms, m)) == multiset(ms) + multiset{m}
  {
    if !(ms == [] || ms[|ms| - 1].version <= m.version) {
      InsertKeeps(ms[..|ms| - 1], m);
      assert ms == ms[..|ms| - 1] + [ms[|ms| - 1]];
    }
  }

  lemma {:induction false} SortSorts(ms: seq<Migration>)
    ensures SortedByVersion(SortByVersion(ms)) && multiset(SortByVersion(ms)) == multiset(ms)
  {
    if ms != [] {
      SortSorts(ms[..|ms| - 1]);
      InsertSorted(SortByVersion(ms[..|ms| - 1]), ms[|ms| - 1]);
      InsertKeeps(SortByVersion(ms[..|ms| - 1]), ms[|ms| - 1]);
      assert ms == ms[..|ms| - 1] + [ms[|ms| - 1]];
    }
  }

  /** Files with distinct versions below 2^63, read in any order, load into a list the engine can use. */
  lemma {:induction false} DistinctFilesLoad(files: seq<Migration>)
    requires forall i, j :: 0 <= i < j < |files| ==> files[i].version != files[j].version
    requires forall i :: 0 <= i < |files| ==> files[i].version < BIGINT_END
    ensures Loaded(SortByVersion(files))
  {
    var all := SortByVersion(files);
    SortSorts(files);
    forall i | 0 <= i < |all| ensures all[i].version < BIGINT_END {
      assert all[i] in multiset(all);
      assert all[i] in files;
    }
    forall i, j | 0 <= i < j < |all| ensures all[i].version < all[j].version {
      SortKeepsDistinct(files, all, i, j);
    }
  }

  lemma SortKeepsDistinct(files: seq<Migration>, all: seq<Migration>, i: nat, j: nat)
    requires forall a, b :: 0 <= a < b < |files| ==> files[a].version != files[b].version
    requires multiset(all) == multiset(files) && SortedByVersion(all) && i < j < |all|
    ensures all[i].version < all[j].version
  {
    if all[i].version == all[j].version {
      assert all[i] in multiset(files) && all[j] in multiset(files);
      var a :| 0 <= a < |files| && files[a] == all[i];
      var b :| 0 <= b < |files| && files[b] == all[j];
      assert a == b;
      Twice(all, i, j);
      Once(files, a);
    }
  }

  lemma Twice(s: seq<Migration>, i: nat, j: nat)
    requires i < j < |s| && s[i] == s[j]
    ensures multiset(s)[s[i]] >= 2
  {
    assert s == s[..j] + s[j..];
    assert s[..j][i] == s[i] && s[j..][0] == s[i];
    assert s[i] in multiset(s[..j]) && s[i] in multiset(s[j..]);
  }

  lemma Once(s: seq<Migration>, a: nat)
    requires a < |s| && forall i, j :: 0 <= i < j < |s| ==> s[i].version != s[j].version
    ensures multiset(s)[s[a]] == 1
  {
    assert s == s[..a] + [s[a]] + s[a + 1..];
    assert s[a] !in s[..a] && s[a] !in s[a + 1..];
  }

  // ---- A single failure ----

  /** Every statement ends well except number `n`, which is refused. */
  ghost predicate FailsAt(script: Script, n: nat) { forall k :: script(k) == if k == n then Failing else Fine }

  /** What one refused statement does to a migration that could be applied: BEGIN and COMMIT just fail, the
      SQL is rolled back, and after all three the connection is usable; only the record leaves the failed
      transaction open. */
  lemma OneFailureInFile(db: Db, m: Migration, script: Script, at: nat, n: nat)
    requires FailsAt(script, n) && Insertable(db, m)
    ensures ApplyOne(db, m, script, at) ==
      if at <= n < at + 4 then (db, false, if n == at + 2 then InFailedTransaction else Usable)
      else (WithMigration(db, m), true, Usable)
  {
  }

  /** The end of a run whose statement `gap`, counted from file `from` on, four to a file, is refused. */
  ghost predicate FailsBehind(e: Ended, all: seq<Migration>, p: nat, from: nat, gap: nat) {
    p <= |all| && from <= |all| &&
    if gap < 4 * (|all| - from) then
      && e.result == Aborted && AtPrefix(e.db, all, from + gap / 4)
      && e.link == (if gap % 4 == 2 then InFailedTransaction else Usable)
    else e.result == Reported(Report(|all|, |all| - p, p)) && e.db.changes == all && e.link == Usable
  }

  lemma OneFileLater(e: Ended, all: seq<Migration>, p: nat, from: nat, gap: nat)
    requires gap >= 4 && FailsBehind(e, all, p, from + 1, gap - 4)
    ensures FailsBehind(e, all, p, from, gap)
  {
    assert (gap - 4) / 4 + 1 == gap / 4 && (gap - 4) % 4 == gap % 4;
  }

  lemma NextFile(db: Db, all: seq<Migration>, k: nat, script: Script, at: nat, n: nat)
    requires Loaded(all) && FailsAt(script, n) && k < |all| && AtPrefix(db, all, k)
    ensures ApplyOne(db, all[k], script, at) ==
      if at <= n < at + 4 then (db, false, if n == at + 2 then InFailedTransaction else Usable)
      else (WithMigration(db, all[k]), true, Usable)
    ensures AtPrefix(WithMigration(db, all[k]), all, k + 1)
  {
    RecordedPrefix(db, all, k, k);
    OneFailureInFile(db, all[k], script, at, n);
    assert all[..k + 1] == all[..k] + [all[k]];
  }

  lemma FailsHere(db: Db, all: seq<Migration>, p: nat, k: nat, gap: nat)
    requires gap < 4 && k < |all| && p <= |all| && AtPrefix(db, all, k)
    ensures FailsBehind(Ended(db, Aborted, if gap == 2 then InFailedTransaction else Usable), all, p, k, gap)
  {
  }

  ghost predicate KnownUpTo(all: seq<Migration>, known: set<nat>, p: nat) {
    p <= |all| && forall i :: 0 <= i < |all| ==> (all[i].version in known <==> i < p)
  }

  /** The recorded files are skipped, without a statement. */
  lemma {:induction false} SkipsKnown(db: Db, all: seq<Migration>, known: set<nat>, p: nat, k: nat, script: Script,
                                      at: nat)
    requires KnownUpTo(all, known, p) && k <= p
    ensures RunFrom(db, all, known, k, script, at, 0, k) == RunFrom(db, all, known, p, script, at, 0, p)
    decreases p - k
  {
    if k < p {
      assert all[k].version in known;
      SkipsKnown(db, all, known, p, k + 1, script, at);
    }
  }

  lemma {:induction false} OneFailureInLoop(db: Db, all: seq<Migration>, known: set<nat>, p: nat, k: nat,
                                            script: Script, at: nat, n: nat)
    requires Loaded(all) && FailsAt(script, n) && p <= k <= |all| && at <= n
    requires KnownUpTo(all, known, p) && AtPrefix(db, all, k)
    ensures FailsBehind(RunFrom(db, all, known, k, script, at, k - p, p), all, p, k, n - at)
    decreases |all| - k
  {
    if k == |all| {
      assert all[..|all|] == all;
    } else {
      assert all[k].version !in known;
      NextFile(db, all, k, script, at, n);
      if n < at + 4 {
        FailsHere(db, all, p, k, n - at);
      } else {
        var db' := WithMigration(db, all[k]);
        OneFailureInLoop(db', all, known, p, k + 1, script, at + 4, n);
        OneFileLater(RunFrom(db', all, known, k + 1, script, at + 4, k + 1 - p, p), all, p, k, n - at);
      }
    }
  }

  /** A run with one refused statement, number `n`, on a usable connection with `p` of the files applied:
      what is applied, and whether the same connection can be used to try again. It can, after every
      refusal but that of a record. */
  lemma OneFailure(db: Db, all: seq<Migration>, p: nat, script: Script, at: nat, n: nat)
    requires Loaded(all) && AtPrefix(db, all, p) && FailsAt(script, n) && at <= n
    ensures var e := Run(db, all, script, at);
      if n < at + 2 then e.result == Aborted && AtPrefix(e.db, all, p) && e.link == Usable
      else FailsBehind(e, all, p, p, n - at - 2)
  {
    var db1 := db.(table := true);
    if n >= at + 2 {
      forall i | 0 <= i < |all| ensures all[i].version in Recorded(db1) <==> i < p { RecordedPrefix(db1, all, p, i); }
      SkipsKnown(db1, all, Recorded(db1), p, 0, script, at + 2);
      OneFailureInLoop(db1, all, Recorded(db1), p, p, script, at + 2, n);
    }
  }
}
