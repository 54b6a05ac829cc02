/**
  Schema migrations (db.go, Migrate): one transaction per start, over a list that later releases only append to.
  A migration is what it does to the rest of the schema, or nothing if SQLite rejects it; the first one creates
  the table of versions if there is none.
 */
module Migrations {
  import opened Basics

  type Migration<!S> = S -> Option<S>

  // The committed database; executed lists the migrations that were ever run and committed.
  datatype Db<S> = Db(versions: Option<seq<nat>>, schema: S, executed: seq<nat>)

  // Calls that fail for reasons of their own, by version where there is one.
  datatype Faults = Faults(begin: bool, query: set<nat>, exec: set<nat>, record: set<nat>, commit: bool)

  // SELECT COUNT(*) FROM schema_migrations WHERE version = ?
  function Exists<S>(db: Db<S>, version: nat, faults: Faults): Result<bool, ()> {
    if version in faults.query || db.versions.None? then Err(()) else Ok(version in db.versions.value)
  }

  function Executed<S>(db: Db<S>, list: seq<Migration<S>>, version: nat, faults: Faults): Result<Db<S>, ()>
    requires 1 <= version <= |list|
  {
    if version in faults.exec then Err(())
    else if version == 1 then
      Ok(db.(versions := Some(if db.versions.Some? then db.versions.value else []), executed := db.executed + [1]))
    else
      var schema := list[version - 1](db.schema);
      if schema.None? then Err(()) else Ok(db.(schema := schema.value, executed := db.executed + [version]))
  }

  // INSERT OR IGNORE INTO schema_migrations
  function Recorded<S>(db: Db<S>, version: nat, faults: Faults): Result<Db<S>, ()> {
    if version in faults.record || db.versions.None? then Err(())
    else if version in db.versions.value then Ok(db)
    else Ok(db.(versions := Some(db.versions.value + [version])))
  }

  // One turn of the loop.
  function Turn<S>(db: Db<S>, list: seq<Migration<S>>, version: nat, faults: Faults): Result<Db<S>, ()>
    requires 1 <= version <= |list|
  {
    var known := Exists(db, version, faults);
    if known.Err? && version != 1 then Err(())
    else if known == Ok(true) then Ok(db)
    else
      var executed := Executed(db, list, version, faults);
      if executed.Err? then executed else Recorded(executed.value, version, faults)
  }

  // The first n turns.
  function Turns<S>(db: Db<S>, list: seq<Migration<S>>, n: nat, faults: Faults): Result<Db<S>, ()>
    requires n <= |list|
  {
    if n == 0 then Ok(db)
    else
      var before := Turns(db, list, n - 1, faults);
      if before.Err? then before else Turn(before.value, list, n, faults)
  }

  // One start: the loop in a transaction that is rolled back on any error.
  function Migrated<S>(db: Db<S>, list: seq<Migration<S>>, faults: Faults): (Db<S>, bool) {
    var turns := Turns(db, list, |list|, faults);
    if faults.begin || turns.Err? || faults.commit then (db, false) else (turns.value, true)
  }

  class Database<S> {
    var versions: Option<seq<nat>>
    var schema: S
    var executed: seq<nat>

    function View(): Db<S>
      reads this
    {
      Db(versions, schema, executed)
    }

    constructor (initial: S)
      ensures View() == Db(None, initial, [])
    {
      versions, schema, executed := None, initial, [];
    }

    method Migrate(list: seq<Migration<S>>, faults: Faults) returns (ok: bool)
      modifies this
      ensures (View(), ok) == Migrated(old(View()), list, faults)
    {
      if faults.begin {
        return false;
      }
      var tx := View();
      for i := 0 to |list|
        invariant View() == old(View()) && Turns(View(), list, i, faults) == Ok(tx)
      {
        var version := i + 1;
        ErrorsStay(View(), list, version, |list|, faults);
        var known := Exists(tx, version, faults);
        if known.Err? && version != 1 {
          return false;
        }
        if known == Ok(true) {
          continue;
        }
        var executed := Executed(tx, list, version, faults);
        if executed.Err? {
          return false;
        }
        var recorded := Recorded(executed.value, version, faults);
        if recorded.Err? {
          return false;
        }
        tx := recorded.value;
      }
      if faults.commit {
        return false;
      }
      versions, schema, executed := tx.versions, tx.schema, tx.executed;
      return true;
    }
  }

  lemma {:induction false} ErrorsStay<S>(db: Db<S>, list: seq<Migration<S>>, i: nat, n: nat, faults: Faults)
    requires i <= n <= |list|
    ensures Turns(db, list, i, faults).Err? ==> Turns(db, list, n, faults).Err?
  {
    if i < n { ErrorsStay(db, list, i, n - 1, faults); }
  }

  // ----- Every sequence of starts. -----

  // A start of a release that knows the first length migrations.
  datatype Start = Start(length: nat, faults: Faults)

  predicate Known<S>(list: seq<Migration<S>>, starts: seq<Start>) {
    forall i :: 0 <= i < |starts| ==> starts[i].length <= |list|
  }

  function Run<S>(initial: S, list: seq<Migration<S>>, starts: seq<Start>): Db<S>
    requires Known(list, starts)
  {
    if starts == [] then Db(None, initial, [])
    else
      var last := starts[|starts| - 1];
      Migrated(Run(initial, list, starts[..|starts| - 1]), list[..last.length], last.faults).0
  }

  // The schema the first n migrations make.
  function SchemaOf<S>(initial: S, list: seq<Migration<S>>, n: nat): Option<S>
    requires n <= |list|
  {
    if n <= 1 then Some(initial)
    else
      var before := SchemaOf(initial, list, n - 1);
      if before.None? then None else list[n - 1](before.value)
  }

  // Whether the calls for a version work, when n versions are recorded: its query, unless it is the first one, whose
  // errors are swallowed; and its execution and record if it is not recorded or that query failed.
  predicate CallsWork(n: nat, version: nat, faults: Faults) {
    && (version == 1 || version !in faults.query)
    && (version > n || (version == 1 && 1 in faults.query) ==> version !in faults.exec && version !in faults.record)
  }

  // When a start commits, by what it is given and the number of versions recorded before it.
  ghost predicate Commits<S>(initial: S, list: seq<Migration<S>>, n: nat, length: nat, faults: Faults)
    requires length <= |list|
  {
    && !faults.begin && !faults.commit
    && (forall version: nat :: 1 <= version <= length ==> CallsWork(n, version, faults))
    && SchemaOf(initial, list, length).Some?
  }

  // The longest list a committed start went through.
  ghost function Level<S>(initial: S, list: seq<Migration<S>>, starts: seq<Start>): (n: nat)
    requires Known(list, starts)
    ensures n <= |list|
  {
    if starts == [] then 0
    else
      var before, last := Level(initial, list, starts[..|starts| - 1]), starts[|starts| - 1];
      if last.length > before && Commits(initial, list, before, last.length, last.faults) then last.length else before
  }

  // The starts that commit and find the table of versions, but fail to read version 1 from it.
  ghost function Misreads<S>(initial: S, list: seq<Migration<S>>, starts: seq<Start>): nat
    requires Known(list, starts)
  {
    if starts == [] then 0
    else
      var front, last := starts[..|starts| - 1], starts[|starts| - 1];
      var n := Level(initial, list, front);
      Misreads(initial, list, front)
      + if last.length > 0 && n > 0 && 1 in last.faults.query
           && Commits(initial, list, n, last.length, last.faults) then 1 else 0
  }

  // ----- What the database holds then. -----

  function UpTo(n: nat): seq<nat> { seq(n, i requires 0 <= i < n => i + 1) }

  // Migration 1 aside, which only makes sure its table is there.
  function WithoutFirst(executed: seq<nat>): seq<nat> {
    if executed == [] then []
    else
      var front, last := WithoutFirst(executed[..|executed| - 1]), executed[|executed| - 1];
      if last == 1 then front else front + [last]
  }

  ghost predicate AtLevel<S>(db: Db<S>, initial: S, list: seq<Migration<S>>, n: nat) {
    && n <= |list|
    && db.versions == (if n == 0 then None else Some(UpTo(n)))
    && SchemaOf(initial, list, n) == Some(db.schema)
    && WithoutFirst(db.executed) == (if n == 0 then [] else UpTo(n)[1..])
  }

  lemma UpToGrows(n: nat)
    ensures UpTo(n) + [n + 1] == UpTo(n + 1)
    ensures n > 0 ==> UpTo(n)[1..] + [n + 1] == UpTo(n + 1)[1..]
    ensures forall v: nat :: v in UpTo(n) <==> 1 <= v <= n
  {
    forall v: nat | 1 <= v <= n ensures v in UpTo(n) {
      assert UpTo(n)[v - 1] == v;
    }
  }

  lemma ExecuteOne(executed: seq<nat>, version: nat)
    ensures WithoutFirst(executed + [version])
      == if version == 1 then WithoutFirst(executed) else WithoutFirst(executed) + [version]
    ensures multiset(executed + [version])[1] == multiset(executed)[1] + if version == 1 then 1 else 0
  {
    assert (executed + [version])[..|executed|] == executed;
  }

  // A recorded version is left alone, bar a misread first one.
  lemma TurnOfRecorded<S>(db: Db<S>, initial: S, list: seq<Migration<S>>, n: nat, version: nat, faults: Faults)
    requires AtLevel(db, initial, list, n) && 1 <= version <= n && (version == 1 ==> 1 !in faults.query)
    ensures var turn := Turn(db, list, version, faults); turn.Ok? ==> turn.value == db
  {
    UpToGrows(n);
  }

  lemma TurnOfMisread<S>(db: Db<S>, initial: S, list: seq<Migration<S>>, n: nat, faults: Faults)
    requires AtLevel(db, initial, list, n) && n >= 1 && 1 in faults.query
    ensures var turn := Turn(db, list, 1, faults); turn.Ok? ==> turn.value == db.(executed := db.executed + [1])
  {
    UpToGrows(n);
  }

  // A version that is not recorded is run and recorded.
  lemma TurnOfFirst<S>(db: Db<S>, initial: S, list: seq<Migration<S>>, faults: Faults)
    requires AtLevel(db, initial, list, 0) && |list| >= 1
    ensures var turn := Turn(db, list, 1, faults);
      turn.Ok? ==> turn.value == db.(versions := Some([1]), executed := db.executed + [1])
  {
    var none: seq<nat> := [];
    assert none + [1] == [1];
  }

  lemma TurnOfNext<S>(db: Db<S>, initial: S, list: seq<Migration<S>>, n: nat, faults: Faults)
    requires AtLevel(db, initial, list, n) && 1 <= n < |list|
    ensures var turn := Turn(db, list, n + 1, faults);
      turn.Ok? ==>
        && list[n](db.schema).Some?
        && turn.value == Db(Some(UpTo(n) + [n + 1]), list[n](db.schema).value, db.executed + [n + 1])
  {
    UpToGrows(n);
  }

  // What the turn of a version does, by whether it is recorded already.
  lemma TurnOnce<S>(db: Db<S>, initial: S, list: seq<Migration<S>>, n: nat, version: nat, faults: Faults)
    requires AtLevel(db, initial, list, n) && 1 <= version <= n + 1 && version <= |list|
    ensures var turn := Turn(db, list, version, faults);
      turn.Ok? ==>
        && AtLevel(turn.value, initial, list, if version > n then version else n)
        && multiset(turn.value.executed)[1]
           == multiset(db.executed)[1] + if version == 1 && (n == 0 || 1 in faults.query) then 1 else 0
  {
    ExecuteOne(db.executed, version);
    if version <= n {
      if version == 1 && 1 in faults.query {
        TurnOfMisread(db, initial, list, n, faults);
      } else {
        TurnOfRecorded(db, initial, list, n, version, faults);
      }
    } else {
      UpToGrows(n);
      if n == 0 {
        TurnOfFirst(db, initial, list, faults);
        assert UpTo(1) == [1];
      } else {
        TurnOfNext(db, initial, list, n, faults);
      }
    }
  }

  lemma {:induction false} TurnsReach<S>(db: Db<S>, initial: S, list: seq<Migration<S>>, n: nat, i: nat, faults: Faults)
    requires AtLevel(db, initial, list, n) && i <= |list|
    ensures var turns := Turns(db, list, i, faults);
      turns.Ok? ==>
        && AtLevel(turns.value, initial, list, if i > n then i else n)
        && multiset(turns.value.executed)[1]
           == multiset(db.executed)[1] + if i > 0 && (n == 0 || 1 in faults.query) then 1 else 0
  {
    if i > 0 {
      TurnsReach(db, initial, list, n, i - 1, faults);
      var before := Turns(db, list, i - 1, faults);
      if before.Ok? {
        TurnOnce(before.value, initial, list, if i - 1 > n then i - 1 else n, i, faults);
      }
    }
  }

  lemma {:induction false} TurnsOfPrefix<S>(db: Db<S>, list: seq<Migration<S>>, length: nat, i: nat, faults: Faults)
    requires i <= length <= |list|
    ensures Turns(db, list[..length], i, faults) == Turns(db, list, i, faults)
  {
    if i > 0 { TurnsOfPrefix(db, list, length, i - 1, faults); }
  }

  // ----- When a start commits. -----

  lemma {:induction false} SchemaOfPrefix<S>(initial: S, list: seq<Migration<S>>, m: nat, n: nat)
    requires m <= n <= |list|
    ensures SchemaOf(initial, list, n).Some? ==> SchemaOf(initial, list, m).Some?
  {
    if m < n { SchemaOfPrefix(initial, list, m, n - 1); }
  }

  lemma TurnOfRecordedWorks<S>(db: Db<S>, initial: S, list: seq<Migration<S>>, n: nat, version: nat, faults: Faults)
    requires AtLevel(db, initial, list, n) && 1 <= version <= n
    ensures Turn(db, list, version, faults).Ok? <==> CallsWork(n, version, faults)
  {
    UpToGrows(n);
  }

  lemma TurnOfNextWorks<S>(db: Db<S>, initial: S, list: seq<Migration<S>>, n: nat, faults: Faults)
    requires AtLevel(db, initial, list, n) && n < |list|
    ensures Turn(db, list, n + 1, faults).Ok? <==> CallsWork(n, n + 1, faults) && SchemaOf(initial, list, n + 1).Some?
  {
    UpToGrows(n);
  }

  lemma TurnsStep<S>(db: Db<S>, list: seq<Migration<S>>, i: nat, faults: Faults)
    requires 1 <= i <= |list|
    ensures var before := Turns(db, list, i - 1, faults);
      Turns(db, list, i, faults).Ok? <==> before.Ok? && Turn(before.value, list, i, faults).Ok?
  {
  }

  lemma TurnAfterTurns<S>(before: Db<S>, initial: S, list: seq<Migration<S>>, n: nat, i: nat, faults: Faults)
    requires 1 <= i <= |list| && AtLevel(before, initial, list, if i - 1 > n then i - 1 else n)
    ensures Turn(before, list, i, faults).Ok?
      <==> CallsWork(n, i, faults) && (i <= n || SchemaOf(initial, list, i).Some?)
  {
    if i <= n {
      TurnOfRecordedWorks(before, initial, list, n, i, faults);
    } else {
      TurnOfNextWorks(before, initial, list, i - 1, faults);
    }
  }

  lemma NextTurnWorks<S>(db: Db<S>, initial: S, list: seq<Migration<S>>, n: nat, i: nat, faults: Faults)
    requires AtLevel(db, initial, list, n) && 1 <= i <= |list|
    ensures Turns(db, list, i, faults).Ok?
       <==> (Turns(db, list, i - 1, faults).Ok? && CallsWork(n, i, faults)
             && (i <= n || SchemaOf(initial, list, i).Some?))
  {
    TurnsStep(db, list, i, faults);
    var before := Turns(db, list, i - 1, faults);
    if before.Ok? {
      TurnsReach(db, initial, list, n, i - 1, faults);
      TurnAfterTurns(before.value, initial, list, n, i, faults);
    }
  }

  lemma {:induction false} TurnsWork<S>(db: Db<S>, initial: S, list: seq<Migration<S>>, n: nat, i: nat, faults: Faults)
    requires AtLevel(db, initial, list, n) && i <= |list|
    ensures Turns(db, list, i, faults).Ok?
       <==> ((forall version: nat :: 1 <= version <= i ==> CallsWork(n, version, faults))
             && SchemaOf(initial, list, i).Some?)
  {
    if i > 0 {
      TurnsWork(db, initial, list, n, i - 1, faults);
      SchemaOfPrefix(initial, list, i - 1, i);
      if i <= n { SchemaOfPrefix(initial, list, i, n); }
      NextTurnWorks(db, initial, list, n, i, faults);
    }
  }

  lemma CommitsFromLevel<S>(db: Db<S>, initial: S, list: seq<Migration<S>>, n: nat, length: nat, faults: Faults)
    requires AtLevel(db, initial, list, n) && length <= |list|
    ensures Migrated(db, list[..length], faults).1 <==> Commits(initial, list, n, length, faults)
  {
    TurnsOfPrefix(db, list, length, length, faults);
    TurnsWork(db, initial, list, n, length, faults);
  }

  lemma {:induction false} RunIsAtLevel<S>(initial: S, list: seq<Migration<S>>, starts: seq<Start>)
    requires Known(list, starts)
    ensures AtLevel(Run(initial, list, starts), initial, list, Level(initial, list, starts))
    ensures multiset(Run(initial, list, starts).executed)[1]
         == Misreads(initial, list, starts) + if Level(initial, list, starts) > 0 then 1 else 0
  {
    if starts != [] {
      var front, last := starts[..|starts| - 1], starts[|starts| - 1];
      RunIsAtLevel(initial, list, front);
      var db, n := Run(initial, list, front), Level(initial, list, front);
      CommitsFromLevel(db, initial, list, n, last.length, last.faults);
      TurnsReach(db, initial, list, n, last.length, last.faults);
      TurnsOfPrefix(db, list, last.length, last.length, last.faults);
    }
  }

  // ----- What it means. -----

  // Whatever starts happened, the recorded versions are 1 to n in order for the longest list n that committed,
  // the schema is what those n migrations make of the initial one, and after the first each ran exactly once,
  // in order.
  lemma MigrationsRunOnceInOrder<S>(initial: S, list: seq<Migration<S>>, starts: seq<Start>)
    requires Known(list, starts)
    ensures var db, n := Run(initial, list, starts), Level(initial, list, starts);
      && db.versions == (if n == 0 then None else Some(UpTo(n)))
      && SchemaOf(initial, list, n) == Some(db.schema)
      && WithoutFirst(db.executed) == (if n == 0 then [] else UpTo(n)[1..])
  {
    RunIsAtLevel(initial, list, starts);
  }

  // The first migration too ran exactly once, unless reading version 1 failed in a later start that went
  // on to commit: that error is swallowed, and the migration runs again, to no effect.
  lemma FirstRunsAgainExactlyOnMisread<S>(initial: S, list: seq<Migration<S>>, starts: seq<Start>)
    requires Known(list, starts) && Level(initial, list, starts) > 0
    ensures multiset(Run(initial, list, starts).executed)[1] == 1 <==> Misreads(initial, list, starts) == 0
  {
    RunIsAtLevel(initial, list, starts);
  }

  // Whatever earlier starts did, a start commits exactly if its transaction begins and commits, the calls it
  // needs work, and SQLite accepts the migrations it knows, one after the other, from the initial schema.
  lemma StartCommitsExactly<S>(initial: S, list: seq<Migration<S>>, starts: seq<Start>, length: nat, faults: Faults)
    requires Known(list, starts) && length <= |list|
    ensures Migrated(Run(initial, list, starts), list[..length], faults).1
       <==> Commits(initial, list, Level(initial, list, starts), length, faults)
  {
    RunIsAtLevel(initial, list, starts);
    CommitsFromLevel(Run(initial, list, starts), initial, list, Level(initial, list, starts), length, faults);
  }

  const NO_FAULTS := Faults(false, {}, {}, {}, false)

  lemma UndisturbedStartCommits<S>(initial: S, list: seq<Migration<S>>, starts: seq<Start>, length: nat)
    requires Known(list, starts) && length <= |list|
    ensures Migrated(Run(initial, list, starts), list[..length], NO_FAULTS).1 <==> SchemaOf(initial, list, length).Some?
  {
    StartCommitsExactly(initial, list, starts, length, NO_FAULTS);
  }
}
