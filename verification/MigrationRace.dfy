/**
  Migration runs at the same time. The runner takes no lock, so any number of processes may migrate one
  database, their statements interleaved in any way and failing at any point.

  The tracking table's primary key is all that keeps them apart: a record waits while another open
  transaction holds the same version, and fails once that version is committed.
 */
module MigrationRace {
  import opened Migration

  /** What a process does next: create the table, fetch the records, look at file `k`, and for a file that
      was not recorded run its SQL, insert its record and commit. */
  datatype Phase = Starting | Fetching | AtFile | Begun | Executed | Holding | Over(result: RunResult)

  datatype Runner = Runner(all: seq<Migration>, phase: Phase, known: set<nat>, k: nat, applied: nat, skipped: nat)

  function Start(all: seq<Migration>): Runner { Runner(all, Starting, {}, 0, 0, 0) }

  predicate InFile(p: Phase) { p.Begun? || p.Executed? || p.Holding? }

  predicate Placed(r: Runner) { r.k <= |r.all| && (InFile(r.phase) ==> r.k < |r.all|) }

  function Abort(r: Runner): Runner { r.(phase := Over(Aborted)) }

  /** The next thing a process does, when it ends as `e` says; `held` if another one has inserted the same
      record and not committed it. */
  function Advance(db: Db, r: Runner, e: Ending, held: bool): (Db, Runner)
    requires Placed(r)
  {
    match r.phase
    case Starting =>
      (if e.Fine? || e.LostAfter? then db.(table := true) else db, if e.Fine? then r.(phase := Fetching) else Abort(r))
    case Fetching => (db, if e.Fine? then r.(phase := AtFile, known := Recorded(db)) else Abort(r))
    case AtFile =>
      if r.k == |r.all| then (db, r.(phase := Over(Reported(Report(|r.all|, r.applied, r.skipped)))))
      else if r.all[r.k].version in r.known then (db, r.(k := r.k + 1, skipped := r.skipped + 1))
      else (db, if e.Fine? then r.(phase := Begun) else Abort(r))
    case Begun => (db, if e.Fine? then r.(phase := Executed) else Abort(r))
    case Executed =>
      if held && e.Fine? then (db, r)
      else (db, if e.Fine? && Insertable(db, r.all[r.k]) then r.(phase := Holding) else Abort(r))
    case Holding =>
      (if e.Fine? || e.LostAfter? then WithMigration(db, r.all[r.k]) else db,
       if e.Fine? then r.(phase := AtFile, k := r.k + 1, applied := r.applied + 1) else Abort(r))
    case Over(_) => (db, r)
  }

  // ---- One process alone ----

  predicate NeedsStatement(r: Runner)
    requires Placed(r)
  {
    r.phase.AtFile? ==> r.k < |r.all| && r.all[r.k].version !in r.known
  }

  function PhasesLeft(p: Phase): nat {
    match p
    case Starting => 6
    case Fetching => 5
    case AtFile => 4
    case Begun => 3
    case Executed => 2
    case Holding => 1
    case Over(_) => 0
  }

  /** A process alone with the database, statement after statement. */
  function Alone(db: Db, r: Runner, script: Script, at: nat): (Db, RunResult)
    requires Placed(r)
    decreases |r.all| - r.k, PhasesLeft(r.phase)
  {
    if r.phase.Over? then (db, r.phase.result)
    else
      var (db', r') := Advance(db, r, script(at), false);
      Alone(db', r', script, if NeedsStatement(r) then at + 1 else at)
  }

  /** The last two statements: the record and the commit. */
  lemma AloneRecording(db: Db, r: Runner, script: Script, at: nat)
    requires Placed(r) && r.phase.Executed?
    ensures var m, after := r.all[r.k], r.(phase := AtFile, k := r.k + 1, applied := r.applied + 1);
      Alone(db, r, script, at) ==
        if !script(at).Fine? || !Insertable(db, m) then (db, Aborted)
        else match script(at + 1)
          case Fine => Alone(WithMigration(db, m), after, script, at + 2)
          case LostAfter => (WithMigration(db, m), Aborted)
          case _ => (db, Aborted)
  {
    if script(at).Fine? && Insertable(db, r.all[r.k]) {
      var holding := r.(phase := Holding);
      assert Alone(db, r, script, at) == Alone(db, holding, script, at + 1);
      var (db', r') := Advance(db, holding, script(at + 1), false);
      assert Alone(db, holding, script, at + 1) == Alone(db', r', script, at + 2);
    } else {
      assert Alone(db, r, script, at) == Alone(db, Abort(r), script, at + 1);
    }
  }

  lemma {:induction false} AloneInFile(db: Db, r: Runner, script: Script, at: nat)
    requires Placed(r) && r.phase.AtFile? && r.k < |r.all| && NeedsStatement(r)
    ensures var (db', ok, link) := ApplyOne(db, r.all[r.k], script, at);
      Alone(db, r, script, at) ==
        if ok then Alone(db', r.(k := r.k + 1, applied := r.applied + 1), script, at + 4) else (db', Aborted)
  {
    var begun, executed := r.(phase := Begun), r.(phase := Executed);
    if script(at).Fine? {
      assert Alone(db, r, script, at) == Alone(db, begun, script, at + 1);
      if script(at + 1).Fine? {
        assert Alone(db, begun, script, at + 1) == Alone(db, executed, script, at + 2);
        AloneRecording(db, executed, script, at + 2);
      } else {
        assert Alone(db, begun, script, at + 1) == Alone(db, Abort(begun), script, at + 2);
      }
    }
  }

  lemma {:induction false} AloneInLoop(db: Db, r: Runner, script: Script, at: nat)
    requires Placed(r) && r.phase.AtFile?
    ensures var e := RunFrom(db, r.all, r.known, r.k, script, at, r.applied, r.skipped);
      Alone(db, r, script, at) == (e.db, e.result)
    decreases |r.all| - r.k
  {
    if r.k < |r.all| {
      if r.all[r.k].version in r.known {
        AloneInLoop(db, r.(k := r.k + 1, skipped := r.skipped + 1), script, at);
      } else {
        AloneInFile(db, r, script, at);
        var (db', ok, link) := ApplyOne(db, r.all[r.k], script, at);
        if ok { AloneInLoop(db', r.(k := r.k + 1, applied := r.applied + 1), script, at + 4); }
      }
    }
  }

  /** A race of one is the run: same database, same result. */
  lemma AloneIsRun(db: Db, all: seq<Migration>, script: Script, at: nat)
    ensures var e := Run(db, all, script, at); Alone(db, Start(all), script, at) == (e.db, e.result)
  {
    var r, db1 := Start(all), db.(table := true);
    if script(at).Fine? {
      var fetching := r.(phase := Fetching);
      assert Alone(db, r, script, at) == Alone(db1, fetching, script, at + 1);
      if script(at + 1).Fine? {
        var looping := fetching.(phase := AtFile, known := Recorded(db1));
        assert Alone(db1, fetching, script, at + 1) == Alone(db1, looping, script, at + 2);
        AloneInLoop(db1, looping, script, at + 2);
      } else {
        assert Alone(db1, fetching, script, at + 1) == Alone(db1, Abort(fetching), script, at + 2);
      }
    }
  }

  // ---- Any number of processes ----

  datatype Race = Race(db: Db, runners: seq<Runner>)

  predicate Holds(r: Runner, version: nat) { r.phase.Holding? && r.k < |r.all| && r.all[r.k].version == version }

  /** Another process has inserted the record that process `i` wants to insert. */
  predicate Held(rs: seq<Runner>, i: nat)
    requires i < |rs|
  {
    exists j :: 0 <= j < |rs| && j != i && rs[i].k < |rs[i].all| && Holds(rs[j], rs[i].all[rs[i].k].version)
  }

  /** Process `i` does its next thing. */
  function Step(s: Race, i: nat, e: Ending): Race
    requires i < |s.runners| && Placed(s.runners[i])
  {
    var (db, r) := Advance(s.db, s.runners[i], e, Held(s.runners, i));
    Race(db, s.runners[i := r])
  }

  ghost predicate Once(db: Db) {
    forall i, j :: 0 <= i < j < |db.recorded| ==> db.recorded[i].0 != db.recorded[j].0
  }

  /** Everything a process has passed is recorded and counted, and what it holds is not committed. */
  ghost predicate InOrder(db: Db, r: Runner) {
    && Placed(r)
    && (r.phase.Starting? || r.phase.Fetching? ==> r.k == r.applied == r.skipped == 0)
    && (r.phase.AtFile? || InFile(r.phase) ==>
          r.known <= Recorded(db) && PassedTo(db, r, r.k) && r.applied + r.skipped == r.k)
    && (r.phase.Holding? ==> Insertable(db, r.all[r.k]))
    && (r.phase.Over? && r.phase.result.Reported? ==>
          && PassedTo(db, r, |r.all|)
          && r.phase.result.r.total == |r.all| == r.phase.result.r.applied + r.phase.result.r.skipped)
  }

  ghost predicate PassedTo(db: Db, r: Runner, k: nat) {
    k <= |r.all| && forall i :: 0 <= i < k ==> r.all[i].version in Recorded(db)
  }

  ghost predicate Apart(rs: seq<Runner>) {
    forall i, j :: 0 <= i < |rs| && 0 <= j < |rs| && i != j ==> Exclusive(rs[i], rs[j])
  }

  predicate Exclusive(a: Runner, b: Runner) {
    a.phase.Holding? && a.k < |a.all| ==> !Holds(b, a.all[a.k].version)
  }

  ghost predicate Sound(s: Race) {
    && Consistent(s.db) && Once(s.db) && Apart(s.runners)
    && forall j :: 0 <= j < |s.runners| ==> InOrder(s.db, s.runners[j])
  }

  lemma RecordedGrows(db: Db, m: Migration)
    ensures Recorded(WithMigration(db, m)) == Recorded(db) + {m.version}
  {
    var db' := WithMigration(db, m);
    assert db'.recorded[|db.recorded|].0 == m.version;
    forall v | v in Recorded(db) ensures v in Recorded(db') {
      var i :| 0 <= i < |db.recorded| && db.recorded[i].0 == v;
      assert db'.recorded[i].0 == v;
    }
  }

  lemma CommitKeeps(db: Db, m: Migration)
    requires Consistent(db) && Once(db) && Insertable(db, m)
    ensures Consistent(WithMigration(db, m)) && Once(WithMigration(db, m))
  {
    forall i | 0 <= i < |db.recorded| ensures db.recorded[i].0 != m.version {
      assert db.recorded[i].0 in Recorded(db);
    }
  }

  /** The process that moves stays in order. */
  lemma MoverInOrder(db: Db, r: Runner, e: Ending, held: bool)
    requires InOrder(db, r)
    ensures var (db', r') := Advance(db, r, e, held); InOrder(db', r') && r'.all == r.all
  {
    if r.phase.Starting? {
      assert Recorded(db.(table := true)) == Recorded(db);
    } else if r.phase.Holding? {
      RecordedGrows(db, r.all[r.k]);
    }
  }

  /** The others do too: the records only grow, and not by a version they hold. */
  lemma OtherInOrder(db: Db, r: Runner, e: Ending, held: bool, other: Runner)
    requires InOrder(db, r) && InOrder(db, other) && Exclusive(r, other)
    ensures InOrder(Advance(db, r, e, held).0, other)
  {
    if r.phase.Starting? {
      assert Recorded(db.(table := true)) == Recorded(db);
    } else if r.phase.Holding? {
      RecordedGrows(db, r.all[r.k]);
    }
  }

  lemma StepApart(s: Race, i: nat, e: Ending)
    requires Sound(s) && i < |s.runners|
    ensures Apart(Step(s, i, e).runners)
  {
    var rs, rs' := s.runners, Step(s, i, e).runners;
    assert InOrder(s.db, rs[i]);
    forall a, b | 0 <= a < |rs| && 0 <= b < |rs| && a != b ensures Exclusive(rs'[a], rs'[b]) {
      assert Exclusive(rs[a], rs[b]) && Exclusive(rs[b], rs[a]);
      if a == i || b == i {
        var j := if a == i then b else a;
        if rs[i].phase.Executed? && rs'[i].phase.Holding? { assert !Holds(rs[j], rs[i].all[rs[i].k].version); }
      }
    }
  }

  lemma StepCommits(s: Race, i: nat, e: Ending)
    requires Sound(s) && i < |s.runners|
    ensures Consistent(Step(s, i, e).db) && Once(Step(s, i, e).db)
  {
    var r := s.runners[i];
    assert InOrder(s.db, r);
    if r.phase.Holding? { CommitKeeps(s.db, r.all[r.k]); }
  }

  /** Every step of every process keeps the database and the processes sound. */
  lemma StepSound(s: Race, i: nat, e: Ending)
    requires Sound(s) && i < |s.runners|
    ensures Sound(Step(s, i, e)) && |Step(s, i, e).runners| == |s.runners|
  {
    var s' := Step(s, i, e);
    var held := Held(s.runners, i);
    StepCommits(s, i, e);
    StepApart(s, i, e);
    forall j | 0 <= j < |s.runners| ensures InOrder(s'.db, s'.runners[j]) {
      assert InOrder(s.db, s.runners[i]) && InOrder(s.db, s.runners[j]);
      if j == i {
        MoverInOrder(s.db, s.runners[i], e, held);
      } else {
        assert Exclusive(s.runners[i], s.runners[j]);
        OtherInOrder(s.db, s.runners[i], e, held, s.runners[j]);
      }
    }
  }

  /** A schedule: which process goes next, and how its statement ends. */
  type Schedule = seq<(nat, Ending)>

  ghost predicate ForRunners(sched: Schedule, n: nat) { forall k :: 0 <= k < |sched| ==> sched[k].0 < n }

  ghost function Play(s: Race, sched: Schedule): Race
    requires Sound(s) && ForRunners(sched, |s.runners|)
    decreases |sched|
  {
    if sched == [] then s
    else
      StepSound(s, sched[0].0, sched[0].1);
      Play(Step(s, sched[0].0, sched[0].1), sched[1..])
  }

  /** Processes with any files, interleaved and failing in any way: what is committed is what is recorded,
      no version is applied twice, and a process that reports has every one of its versions recorded and
      every file counted once. */
  lemma {:induction false} RaceIsSound(s: Race, sched: Schedule)
    requires Sound(s) && ForRunners(sched, |s.runners|)
    ensures var s' := Play(s, sched);
      && Consistent(s'.db) && Once(s'.db) && |s'.runners| == |s.runners|
      && forall j :: 0 <= j < |s'.runners| ==> InOrder(s'.db, s'.runners[j])
    decreases |sched|
  {
    if sched != [] {
      StepSound(s, sched[0].0, sched[0].1);
      RaceIsSound(Step(s, sched[0].0, sched[0].1), sched[1..]);
    }
  }

  // ---- The same files ----

  /** All processes migrate with the same files, and a prefix of them is applied. */
  ghost predicate SharedFiles(s: Race, all: seq<Migration>) {
    && Loaded(all) && AtPrefix(s.db, all, |s.db.changes|)
    && forall j :: 0 <= j < |s.runners| ==> s.runners[j].all == all
  }

  /** A process has never passed a file that is not applied, and holds only the next one. */
  lemma HeldIsNext(db: Db, all: seq<Migration>, r: Runner)
    requires Loaded(all) && AtPrefix(db, all, |db.changes|) && r.all == all && InOrder(db, r)
    ensures r.phase.AtFile? || InFile(r.phase) ==> r.k <= |db.changes|
    ensures r.phase.Holding? ==> r.k == |db.changes|
    ensures r.phase.Over? && r.phase.result.Reported? ==> db.changes == all
  {
    var p := |db.changes|;
    if p < |all| { RecordedPrefix(db, all, p, p); }
    if r.phase.Holding? { RecordedPrefix(db, all, p, r.k); }
    if p == |all| { assert all[..p] == all; }
  }

  lemma StepShares(s: Race, i: nat, e: Ending, all: seq<Migration>)
    requires Sound(s) && SharedFiles(s, all) && i < |s.runners|
    ensures SharedFiles(Step(s, i, e), all) && |s.db.changes| <= |Step(s, i, e).db.changes|
  {
    var r := s.runners[i];
    assert InOrder(s.db, r) && r.all == all;
    StepCommits(s, i, e);
    HeldIsNext(s.db, all, r);
    MoverInOrder(s.db, r, e, Held(s.runners, i));
    if r.phase.Holding? { assert all[..r.k + 1] == all[..r.k] + [all[r.k]]; }
  }

  lemma {:induction false} PlayShares(s: Race, sched: Schedule, all: seq<Migration>)
    requires Sound(s) && SharedFiles(s, all) && ForRunners(sched, |s.runners|)
    ensures SharedFiles(Play(s, sched), all)
    decreases |sched|
  {
    if sched != [] {
      StepSound(s, sched[0].0, sched[0].1);
      StepShares(s, sched[0].0, sched[0].1, all);
      PlayShares(Step(s, sched[0].0, sched[0].1), sched[1..], all);
    }
  }

  ghost function Starts(all: seq<Migration>, n: nat): (rs: seq<Runner>)
    ensures |rs| == n && forall j :: 0 <= j < n ==> rs[j] == Start(all)
  {
    seq(n, _ => Start(all))
  }

  lemma StartsSound(db: Db, all: seq<Migration>, n: nat, p: nat)
    requires Loaded(all) && AtPrefix(db, all, p)
    ensures Sound(Race(db, Starts(all, n))) && SharedFiles(Race(db, Starts(all, n)), all)
  {
    forall i, j | 0 <= i < j < |db.recorded| ensures db.recorded[i].0 != db.recorded[j].0 {
      assert db.changes[i] == all[i] && db.changes[j] == all[j];
    }
  }

  /** However many processes migrate with the same files, however they are interleaved and whatever fails:
      the files are applied in order, each once and recorded, as in a single run; and when a process
      reports, all of them are. */
  lemma RaceKeepsPrefix(db: Db, all: seq<Migration>, n: nat, p: nat, sched: Schedule)
    requires Loaded(all) && AtPrefix(db, all, p) && ForRunners(sched, n)
    ensures Sound(Race(db, Starts(all, n)))
    ensures var s := Play(Race(db, Starts(all, n)), sched);
      && AtPrefix(s.db, all, |s.db.changes|)
      && forall j :: 0 <= j < |s.runners| && s.runners[j].phase.Over? && s.runners[j].phase.result.Reported? ==>
           s.db.changes == all
  {
    var s0 := Race(db, Starts(all, n));
    StartsSound(db, all, n, p);
    PlayShares(s0, sched, all);
    RaceIsSound(s0, sched);
    var s := Play(s0, sched);
    forall j | 0 <= j < |s.runners| && s.runners[j].phase.Over? && s.runners[j].phase.result.Reported?
      ensures s.db.changes == all
    {
      HeldIsNext(s.db, all, s.runners[j]);
    }
  }

  // ---- Who loses ----

  /** A process that inserts a record, all its statements being fine, aborts exactly when another one
      committed that file after this one had fetched. */
  lemma LoserIff(s: Race, i: nat, all: seq<Migration>)
    requires Sound(s) && SharedFiles(s, all) && i < |s.runners| && s.runners[i].phase.Executed?
    requires !Held(s.runners, i)
    ensures Step(s, i, Fine).runners[i].phase == (if s.runners[i].k < |s.db.changes| then Over(Aborted) else Holding)
  {
    var r := s.runners[i];
    assert InOrder(s.db, r) && r.all == all;
    RecordedPrefix(s.db, all, |s.db.changes|, r.k);
  }

  predicate GaveUp(r: Runner) { r.phase == Over(Aborted) }

  /** A process that has applied or skipped everything there is: it can only fall behind when another one
      commits, and then that one leads. */
  predicate Leads(db: Db, r: Runner) {
    !GaveUp(r) && !r.phase.Starting? && !r.phase.Fetching? && r.k == |db.changes|
  }

  ghost predicate HasLeader(s: Race) { exists j :: 0 <= j < |s.runners| && Leads(s.db, s.runners[j]) }

  /** Somebody leads, or nothing was committed since the start and nobody gave up. */
  ghost predicate Live(s: Race, p: nat) {
    || HasLeader(s)
    || (|s.db.changes| == p && forall j :: 0 <= j < |s.runners| ==> !GaveUp(s.runners[j]))
  }

  /** What a process fetched covers the files applied at the start, so it works on none of them. */
  ghost predicate Knows(r: Runner, all: seq<Migration>, p: nat) {
    && (r.phase.AtFile? || InFile(r.phase) ==> forall i :: 0 <= i < p <= |all| ==> all[i].version in r.known)
    && (InFile(r.phase) ==> r.k >= p)
  }

  ghost predicate AllKnow(s: Race, all: seq<Migration>, p: nat) {
    p <= |s.db.changes| && forall j :: 0 <= j < |s.runners| ==> Knows(s.runners[j], all, p)
  }

  lemma MoverKnows(db: Db, all: seq<Migration>, r: Runner, p: nat, held: bool)
    requires Loaded(all) && AtPrefix(db, all, |db.changes|) && r.all == all && InOrder(db, r)
    requires p <= |db.changes| && Knows(r, all, p)
    ensures Knows(Advance(db, r, Fine, held).1, all, p)
  {
    if r.phase.Fetching? {
      forall i | 0 <= i < p ensures all[i].version in Recorded(db) { RecordedPrefix(db, all, |db.changes|, i); }
    }
  }

  /** With fine statements only the leader goes on leading, until another process commits; a process gives
      up only behind a leader. */
  lemma MoverLeads(db: Db, all: seq<Migration>, r: Runner, p: nat, held: bool)
    requires Loaded(all) && AtPrefix(db, all, |db.changes|) && r.all == all && InOrder(db, r)
    requires p <= |db.changes| && Knows(r, all, p)
    ensures var (db', r') := Advance(db, r, Fine, held);
      && (Leads(db, r) ==> Leads(db', r'))
      && (GaveUp(r') && !GaveUp(r) ==> !Leads(db, r) && |db.changes| > p)
      && (|db'.changes| != |db.changes| ==> Leads(db', r'))
  {
    HeldIsNext(db, all, r);
    if r.k < |all| && (r.phase.AtFile? || r.phase.Executed?) { RecordedPrefix(db, all, |db.changes|, r.k); }
  }

  lemma StepLive(s: Race, i: nat, all: seq<Migration>, p: nat)
    requires Sound(s) && SharedFiles(s, all) && AllKnow(s, all, p) && Live(s, p) && i < |s.runners|
    ensures AllKnow(Step(s, i, Fine), all, p) && Live(Step(s, i, Fine), p)
  {
    var s', held := Step(s, i, Fine), Held(s.runners, i);
    assert InOrder(s.db, s.runners[i]) && Knows(s.runners[i], all, p);
    MoverKnows(s.db, all, s.runners[i], p, held);
    MoverLeads(s.db, all, s.runners[i], p, held);
    StepShares(s, i, Fine, all);
    if |s'.db.changes| != |s.db.changes| {
      assert Leads(s'.db, s'.runners[i]);
    } else if HasLeader(s) {
      var j :| 0 <= j < |s.runners| && Leads(s.db, s.runners[j]);
      assert Leads(s'.db, s'.runners[j]);
    }
  }

  ghost predicate AllFine(sched: Schedule) { forall k :: 0 <= k < |sched| ==> sched[k].1.Fine? }

  lemma {:induction false} PlayLive(s: Race, sched: Schedule, all: seq<Migration>, p: nat)
    requires Sound(s) && SharedFiles(s, all) && AllKnow(s, all, p) && Live(s, p)
    requires ForRunners(sched, |s.runners|) && AllFine(sched)
    ensures Live(Play(s, sched), p) && |Play(s, sched).runners| == |s.runners|
    decreases |sched|
  {
    if sched != [] {
      assert sched[0].1 == Fine;
      StepSound(s, sched[0].0, Fine);
      StepShares(s, sched[0].0, Fine, all);
      StepLive(s, sched[0].0, all, p);
      PlayLive(Step(s, sched[0].0, Fine), sched[1..], all, p);
    }
  }

  /** They cannot all lose: when no statement fails and every process is over, one of them has reported, so
      every file is applied. */
  lemma SomeoneReports(db: Db, all: seq<Migration>, n: nat, p: nat, sched: Schedule)
    requires Loaded(all) && AtPrefix(db, all, p) && ForRunners(sched, n) && AllFine(sched) && n > 0
    ensures Sound(Race(db, Starts(all, n)))
    ensures var s := Play(Race(db, Starts(all, n)), sched);
      (forall j :: 0 <= j < |s.runners| ==> s.runners[j].phase.Over?) ==>
        && s.db.changes == all
        && exists j :: 0 <= j < |s.runners| && s.runners[j].phase.Over? && s.runners[j].phase.result.Reported?
  {
    var s0 := Race(db, Starts(all, n));
    StartsSound(db, all, n, p);
    PlayLive(s0, sched, all, p);
    RaceKeepsPrefix(db, all, n, p, sched);
    var s := Play(s0, sched);
    if forall j :: 0 <= j < |s.runners| ==> s.runners[j].phase.Over? {
      var j := if HasLeader(s) then var j :| 0 <= j < |s.runners| && Leads(s.db, s.runners[j]); j else 0;
      assert !GaveUp(s.runners[j]) && s.runners[j].phase.Over?;
    }
  }

  // ---- A race that is lost ----

  lemma PlayStep(s: Race, i: nat, e: Ending, s': Race, sched: Schedule)
    requires Sound(s) && i < |s.runners| && Step(s, i, e) == s' && ForRunners(sched, |s.runners|)
    ensures ForRunners([(i, e)] + sched, |s.runners|) && Sound(s') && |s'.runners| == |s.runners|
    ensures Play(s, [(i, e)] + sched) == Play(s', sched)
  {
    StepSound(s, i, e);
    assert ([(i, e)] + sched)[1..] == sched;
  }

  /** Both processes have fetched the records before either has committed the only file. */
  function BothAtFile(m: Migration): Race {
    Race(Db(true, [], []), [One(m), One(m)])
  }

  lemma BothFetch(m: Migration) returns (sched: Schedule)
    requires m.version < BIGINT_END
    ensures Sound(Race(FRESH, Starts([m], 2))) && Sound(BothAtFile(m))
    ensures AllFine(sched) && ForRunners(sched, 2) && Play(Race(FRESH, Starts([m], 2)), sched) == BothAtFile(m)
  {
    assert [m][..0] == [];
    StartsSound(FRESH, [m], 2, 0);
    var a := Start([m]);
    var b, c := a.(phase := Fetching), a.(phase := AtFile);
    var db := Db(true, [], []);
    assert Recorded(db) == {};
    assert Starts([m], 2) == [a, a];
    var s1, s2, s3 := Race(db, [b, a]), Race(db, [c, a]), Race(db, [c, b]);
    assert Step(Race(FRESH, [a, a]), 0, Fine) == s1 && Step(s1, 0, Fine) == s2;
    assert Step(s2, 1, Fine) == s3 && Step(s3, 1, Fine) == BothAtFile(m);
    StepSound(Race(FRESH, [a, a]), 0, Fine);
    StepSound(s1, 0, Fine);
    StepSound(s2, 1, Fine);
    PlayStep(s3, 1, Fine, BothAtFile(m), []);
    PlayStep(s2, 1, Fine, s3, [(1, Fine)] + []);
    PlayStep(s1, 0, Fine, s2, [(1, Fine)] + ([(1, Fine)] + []));
    PlayStep(Race(FRESH, [a, a]), 0, Fine, s1, [(0, Fine)] + ([(1, Fine)] + ([(1, Fine)] + [])));
    sched := [(0, Fine)] + ([(0, Fine)] + ([(1, Fine)] + ([(1, Fine)] + [])));
  }

  lemma {:induction false} PlayAppend(s: Race, a: Schedule, b: Schedule)
    requires Sound(s) && ForRunners(a, |s.runners|) && ForRunners(b, |s.runners|)
    ensures ForRunners(a + b, |s.runners|)
    ensures var t := Play(s, a); Sound(t) && |t.runners| == |s.runners| && Play(s, a + b) == Play(t, b)
    decreases |a|
  {
    if a == [] {
      assert a + b == b;
    } else {
      StepSound(s, a[0].0, a[0].1);
      PlayAppend(Step(s, a[0].0, a[0].1), a[1..], b);
      assert (a + b)[0] == a[0] && (a + b)[1..] == a[1..] + b;
    }
  }

  /** The same process goes three times. */
  lemma PlayThree(s: Race, i: nat, s1: Race, s2: Race, s3: Race)
    requires Sound(s) && i < |s.runners| && Step(s, i, Fine) == s1
    requires Sound(s1) && i < |s1.runners| && Step(s1, i, Fine) == s2
    requires Sound(s2) && i < |s2.runners| && Step(s2, i, Fine) == s3
    ensures ForRunners([(i, Fine), (i, Fine), (i, Fine)], |s.runners|)
    ensures Play(s, [(i, Fine), (i, Fine), (i, Fine)]) == s3
  {
    var one: Schedule := [(i, Fine)];
    PlayStep(s2, i, Fine, s3, []);
    assert one + [] == one;
    PlayStep(s1, i, Fine, s2, one);
    PlayStep(s, i, Fine, s1, one + one);
    assert one + (one + one) == [(i, Fine), (i, Fine), (i, Fine)];
  }

  function One(m: Migration): Runner { Runner([m], AtFile, {}, 0, 0, 0) }

  function After(m: Migration): Db { Db(true, [m], [(m.version, m.filename)]) }

  function FirstHolds(m: Migration): Race { Race(Db(true, [], []), [One(m).(phase := Holding), One(m)]) }

  function FirstDone(m: Migration): Race { Race(After(m), [One(m).(k := 1, applied := 1), One(m)]) }

  function SecondOut(m: Migration): Race { Race(After(m), [One(m).(k := 1, applied := 1), Abort(One(m))]) }

  function BothOver(m: Migration): Race {
    Race(After(m), [One(m).(k := 1, applied := 1, phase := Over(Reported(Report(1, 1, 0)))), Abort(One(m))])
  }

  const ZERO_THRICE: Schedule := [(0, Fine), (0, Fine), (0, Fine)]
  const ONE_THRICE: Schedule := [(1, Fine), (1, Fine), (1, Fine)]
  const ZERO: Schedule := [(0, Fine)]

  lemma FirstInserts(m: Migration)
    requires m.version < BIGINT_END && Sound(BothAtFile(m))
    ensures Sound(FirstHolds(m)) && Play(BothAtFile(m), ZERO_THRICE) == FirstHolds(m)
  {
    var r, db := One(m), Db(true, [], []);
    var s0, s1, s2 := BothAtFile(m), Race(db, [r.(phase := Begun), r]), Race(db, [r.(phase := Executed), r]);
    assert Recorded(db) == {};
    assert Step(s0, 0, Fine) == s1 && Step(s1, 0, Fine) == s2;
    StepSound(s0, 0, Fine);
    StepSound(s1, 0, Fine);
    assert !Held(s2.runners, 0);
    assert Step(s2, 0, Fine) == FirstHolds(m);
    StepSound(s2, 0, Fine);
    PlayThree(s0, 0, s1, s2, FirstHolds(m));
  }

  lemma FirstCommits(m: Migration)
    requires Sound(FirstHolds(m))
    ensures Sound(FirstDone(m)) && Play(FirstHolds(m), ZERO) == FirstDone(m)
  {
    assert [] + [m] == [m] && [] + [(m.version, m.filename)] == [(m.version, m.filename)];
    assert Step(FirstHolds(m), 0, Fine) == FirstDone(m);
    PlayStep(FirstHolds(m), 0, Fine, FirstDone(m), []);
    assert ZERO + [] == ZERO;
  }

  lemma SecondLoses(m: Migration)
    requires Sound(FirstDone(m))
    ensures Sound(SecondOut(m)) && Play(FirstDone(m), ONE_THRICE) == SecondOut(m)
  {
    var r, done, db := One(m), One(m).(k := 1, applied := 1), After(m);
    var s1, s2 := Race(db, [done, r.(phase := Begun)]), Race(db, [done, r.(phase := Executed)]);
    assert db.recorded[0].0 in Recorded(db);
    assert Step(FirstDone(m), 1, Fine) == s1 && Step(s1, 1, Fine) == s2;
    StepSound(FirstDone(m), 1, Fine);
    StepSound(s1, 1, Fine);
    assert !Held(s2.runners, 1);
    assert Step(s2, 1, Fine) == SecondOut(m);
    StepSound(s2, 1, Fine);
    PlayThree(FirstDone(m), 1, s1, s2, SecondOut(m));
  }

  lemma FirstReports(m: Migration)
    requires Sound(SecondOut(m))
    ensures Play(SecondOut(m), ZERO) == BothOver(m)
  {
    assert Step(SecondOut(m), 0, Fine) == BothOver(m);
    PlayStep(SecondOut(m), 0, Fine, BothOver(m), []);
    assert ZERO + [] == ZERO;
  }

  const REST: Schedule := ZERO + (ONE_THRICE + ZERO)

  lemma RestOfRace(m: Migration)
    requires Sound(FirstHolds(m))
    ensures Play(FirstHolds(m), REST) == BothOver(m)
  {
    FirstCommits(m);
    SecondLoses(m);
    FirstReports(m);
    PlayAppend(FirstDone(m), ONE_THRICE, ZERO);
    PlayAppend(FirstHolds(m), ZERO, ONE_THRICE + ZERO);
  }

  /** No statement fails, and yet the second of two processes returns an error: both fetched the records
      before the first one committed. */
  lemma LostRace(m: Migration) returns (sched: Schedule)
    requires m.version < BIGINT_END
    ensures Sound(Race(FRESH, Starts([m], 2))) && AllFine(sched) && ForRunners(sched, 2)
    ensures Play(Race(FRESH, Starts([m], 2)), sched) == BothOver(m)
  {
    var fetched := BothFetch(m);
    var rest := ZERO_THRICE + REST;
    sched := fetched + rest;
    assert AllFine(REST) && AllFine(rest) && AllFine(sched);
    FirstInserts(m);
    RestOfRace(m);
    PlayAppend(BothAtFile(m), ZERO_THRICE, REST);
    PlayAppend(Race(FRESH, Starts([m], 2)), fetched, rest);
  }
}
