// The execution engine: runs pending migrations in list order against a
// ledger of applied ids, and rolls single migrations back.

module Engine {
  import opened Migrations
  import Dependency

  /** The errors the engine returns. `NilMigrate` stands for the run-time
      panic of calling a missing forward step. */
  datatype Error =
    | Unreachable
    | CreateTableFailed
    | NilMigrate(id: string)
    | StepFailed(id: string)
    | RecordFailed(id: string)
    | RollbackImpossible
    | RollbackFailed(id: string)
    | DeleteFailed(id: string)
    | NoMigrationDefined

  /** What the database and the user callbacks do, decided outside the
      model: whether the ping succeeds, whether the ledger table can be
      created, and the ids whose step, ledger insert, rollback or ledger
      delete fails. */
  datatype Env = Env(
    reachable: bool,
    canCreateTable: bool,
    stepFails: set<string>,
    recordFails: set<string>,
    rollbackFails: set<string>,
    deleteFails: set<string>)

  /** The ledger after a run, the ids whose forward step was invoked, in
      order, and the error the run stopped with, if any. */
  datatype RunResult = RunResult(ledger: set<string>, ran: seq<string>, err: Option<Error>)

  /** The error a run stops with when it stops at migration `id`. */
  predicate StopsAt(e: Error, id: string)
  {
    e == NilMigrate(id) || e == StepFailed(id) || e == RecordFailed(id)
  }

  /** The loop of Migrate over a list (gormigrate.go:166-180): a recorded
      id is skipped; otherwise the step runs and, when it and the ledger
      insert succeed, the id is recorded before moving on; the first failure
      ends the run with whatever was recorded before it. */
  function RunSteps(ledger: set<string>, ms: seq<Migration>, env: Env): (r: RunResult)
    ensures ledger <= r.ledger <= ledger + Ids(ms)
    ensures r.err == None ==> r.ledger == ledger + Ids(ms)
    decreases |ms|
  {
    if ms == [] then RunResult(ledger, [], None)
    else
      var m, rest := ms[0], ms[1..];
      assert ms == [m] + rest;
      IdsCons(m, rest);
      if m.id in ledger then
        RunSteps(ledger, rest, env)
      else if m.migrate == Absent then RunResult(ledger, [], Some(NilMigrate(m.id)))
      else if m.migrate == Custom && m.id in env.stepFails then RunResult(ledger, [m.id], Some(StepFailed(m.id)))
      else if m.id in env.recordFails then RunResult(ledger, [m.id], Some(RecordFailed(m.id)))
      else
        var r := RunSteps(ledger + {m.id}, rest, env);
        RunResult(r.ledger, [m.id] + r.ran, r.err)
  }

  /** Only steps of unrecorded ids from the list run, each at most once,
      and every id the run records is one whose step ran. */
  lemma {:induction false} RanStepsAreFresh(ledger: set<string>, ms: seq<Migration>, env: Env)
    ensures var r := RunSteps(ledger, ms, env);
      (forall x :: x in r.ran ==> x in Ids(ms) && x !in ledger) &&
      (forall x :: x in r.ledger && x !in ledger ==> x in r.ran) &&
      (forall i, j :: 0 <= i < j < |r.ran| ==> r.ran[i] != r.ran[j])
    decreases |ms|
  {
    if ms != [] {
      var m, rest := ms[0], ms[1..];
      assert ms == [m] + rest;
      IdsCons(m, rest);
      if m.id in ledger {
        RanStepsAreFresh(ledger, rest, env);
      } else if m.migrate != Absent && !(m.migrate == Custom && m.id in env.stepFails) && m.id !in env.recordFails {
        RanStepsAreFresh(ledger + {m.id}, rest, env);
      }
    }
  }

  /** A run over a list whose ids are all recorded invokes nothing and
      changes nothing. */
  lemma {:induction false} RecordedListRunsNothing(ledger: set<string>, ms: seq<Migration>, env: Env)
    requires Ids(ms) <= ledger
    ensures RunSteps(ledger, ms, env) == RunResult(ledger, [], None)
    decreases |ms|
  {
    if ms != [] {
      assert ms == [ms[0]] + ms[1..];
      IdsCons(ms[0], ms[1..]);
      RecordedListRunsNothing(ledger, ms[1..], env);
    }
  }

  /** Migrate is idempotent: after a successful run, a second run over the
      same list, whatever its environment, invokes no step and leaves the
      ledger as it is. */
  lemma SecondRunIsNoop(ledger: set<string>, ms: seq<Migration>, env: Env, env2: Env)
    requires RunSteps(ledger, ms, env).err == None
    ensures var after := RunSteps(ledger, ms, env).ledger;
      RunSteps(after, ms, env2) == RunResult(after, [], None)
  {
    RecordedListRunsNothing(RunSteps(ledger, ms, env).ledger, ms, env2);
  }

  /** A failed run stops at one migration `k`: its id is not recorded, the
      ledger gained exactly the ids of the migrations before it, and no step
      after it was invoked. */
  ghost predicate FailedAt(ledger: set<string>, ms: seq<Migration>, r: RunResult, k: nat)
  {
    k < |ms| && r.err.Some? && StopsAt(r.err.value, ms[k].id) && ms[k].id !in r.ledger &&
    r.ledger == ledger + Ids(ms[..k]) &&
    forall x :: x in r.ran ==> x in Ids(ms[..k + 1])
  }

  lemma FailedAtShift(ledger: set<string>, m: Migration, rest: seq<Migration>, r': RunResult, r: RunResult, k: nat)
    requires FailedAt(ledger + {m.id}, rest, r', k)
    requires r.ledger == r'.ledger && r.err == r'.err && forall x :: x in r.ran ==> x == m.id || x in r'.ran
    ensures FailedAt(ledger, [m] + rest, r, k + 1)
  {
    var ms := [m] + rest;
    assert ms[..k + 1] == [m] + rest[..k];
    assert ms[..k + 2] == [m] + rest[..k + 1];
    IdsCons(m, rest[..k]);
    IdsCons(m, rest[..k + 1]);
    assert ms[k + 1] == rest[k];
  }

  lemma {:induction false} FailureStopsTheRun(ledger: set<string>, ms: seq<Migration>, env: Env)
    requires RunSteps(ledger, ms, env).err.Some?
    ensures exists k :: FailedAt(ledger, ms, RunSteps(ledger, ms, env), k)
    decreases |ms|
  {
    var r := RunSteps(ledger, ms, env);
    var m, rest := ms[0], ms[1..];
    assert ms == [m] + rest;
    if m.id in ledger {
      assert ledger + {m.id} == ledger;
      FailureStopsTheRun(ledger, rest, env);
      var k: nat :| FailedAt(ledger, rest, r, k);
      FailedAtShift(ledger, m, rest, r, r, k);
    } else if m.migrate == Absent || (m.migrate == Custom && m.id in env.stepFails) || m.id in env.recordFails {
      assert ms[..0] == [] && ms[..1] == [m];
      IdsSnoc([], m);
      assert FailedAt(ledger, ms, r, 0);
    } else {
      FailureStopsTheRun(ledger + {m.id}, rest, env);
      var r' := RunSteps(ledger + {m.id}, rest, env);
      var k: nat :| FailedAt(ledger + {m.id}, rest, r', k);
      FailedAtShift(ledger, m, rest, r', r, k);
    }
  }

  /** A run over a list whose ids are all recorded but `x` invokes exactly
      the first migration with id `x` (when it has a step) and no other. */
  lemma {:induction false} OnlyUnrecordedRuns(ledger: set<string>, ms: seq<Migration>, env: Env, x: string)
    requires x in Ids(ms) && x !in ledger && Ids(ms) <= ledger + {x}
    ensures RunSteps(ledger, ms, env).ran ==
      if ms[Dependency.IndexOf(ms, x)].migrate == Absent then [] else [x]
    decreases |ms|
  {
    var m, rest := ms[0], ms[1..];
    assert ms == [m] + rest;
    IdsCons(m, rest);
    if m.id == x {
      if m.migrate != Absent && !(m.migrate == Custom && m.id in env.stepFails) && m.id !in env.recordFails {
        RecordedListRunsNothing(ledger + {x}, rest, env);
      }
    } else {
      OnlyUnrecordedRuns(ledger, rest, env, x);
    }
  }

  /** RollbackMigration on a ledger (gormigrate.go:190-217): the new ledger
      and the error. A missing rollback is refused; a failing rollback or a
      failing delete leaves the ledger as it is; otherwise exactly the
      migration's id leaves the ledger. */
  function RollbackOutcome(ledger: set<string>, tableExists: bool, m: Migration, env: Env): (r: (set<string>, Option<Error>))
    ensures r.1 == None ==> r.0 == ledger - {m.id}
    ensures r.1.Some? ==> r.0 == ledger
    ensures m.rollback == Absent ==> r.1 == Some(RollbackImpossible)
    ensures r.1 == None ==> m.rollback != Absent && tableExists
  {
    if m.rollback == Absent then (ledger, Some(RollbackImpossible))
    else if m.rollback == Custom && m.id in env.rollbackFails then (ledger, Some(RollbackFailed(m.id)))
    else if !tableExists || m.id in env.deleteFails then (ledger, Some(DeleteFailed(m.id)))
    else (ledger - {m.id}, None)
  }

  /** Rolling back one migration of a fully applied list and migrating
      again invokes that migration's step and no other, and a successful
      second run restores the ledger. */
  lemma RollbackThenMigrate(ledger: set<string>, ms: seq<Migration>, i: nat, env: Env, env2: Env, env3: Env)
    requires RunSteps(ledger, ms, env).err == None && i < |ms|
    requires RollbackOutcome(RunSteps(ledger, ms, env).ledger, true, ms[i], env2).1 == None
    ensures var applied := RunSteps(ledger, ms, env).ledger;
      var again := RunSteps(RollbackOutcome(applied, true, ms[i], env2).0, ms, env3);
      again.ran == (if ms[Dependency.IndexOf(ms, ms[i].id)].migrate == Absent then [] else [ms[i].id]) &&
      (again.err == None ==> again.ledger == applied)
  {
    var applied := RunSteps(ledger, ms, env).ledger;
    assert ms[i].id in Ids(ms);
    OnlyUnrecordedRuns(applied - {ms[i].id}, ms, env3, ms[i].id);
  }

  /** The engine: the migration list and, standing for the database behind
      it, the ledger of applied ids and whether the ledger table exists. */
  class Gormigrate {
    var migrations: seq<Migration>
    var ledger: set<string>
    var tableExists: bool

    /** There are no ledger rows without a ledger table: every method keeps
        this, so a missing table means nothing is recorded. */
    ghost predicate Valid()
      reads this
    {
      !tableExists ==> ledger == {}
    }

    /** New (gormigrate.go:120-126), over a database in the given state. */
    constructor(ms: seq<Migration>, ledger: set<string>, tableExists: bool)
      requires !tableExists ==> ledger == {}
      ensures Valid()
      ensures this.migrations == ms && this.ledger == ledger && this.tableExists == tableExists
    {
      this.migrations := ms;
      this.ledger := ledger;
      this.tableExists := tableExists;
    }

    /** migrationDidRun (gormigrate.go:128-135): the number of ledger rows
        with the migration's id is positive. */
    function MigrationDidRun(m: Migration): (r: bool)
      reads this
      ensures r <==> m.id in ledger
    {
      var rows := ledger * {m.id};
      assert m.id in ledger ==> rows == {m.id};
      assert m.id !in ledger ==> rows == {};
      |rows| > 0
    }

    /** createMigrationTableIfNotExists (gormigrate.go:137-148): nothing
        happens when the table exists; otherwise it is created, or the
        creation error is returned. */
    method CreateMigrationTableIfNotExists(env: Env) returns (err: Option<Error>)
      requires Valid()
      modifies this`tableExists
      ensures Valid()
      ensures old(tableExists) ==> tableExists && err == None
      ensures tableExists == (old(tableExists) || env.canCreateTable)
      ensures err == if tableExists then None else Some(CreateTableFailed)
    {
      if tableExists {
        return None;
      }
      if !env.canCreateTable {
        return Some(CreateTableFailed);
      }
      tableExists := true;
      err := None;
    }

    /** Migrate (gormigrate.go:151-187): ping, make sure the ledger table
        exists, then run the list in order as RunSteps describes. */
    method Migrate(env: Env) returns (ran: seq<string>, err: Option<Error>)
      requires Valid()
      modifies this`ledger, this`tableExists
      ensures Valid()
      ensures !env.reachable ==>
        ran == [] && err == Some(Unreachable) && ledger == old(ledger) && tableExists == old(tableExists)
      ensures env.reachable ==> tableExists == (old(tableExists) || env.canCreateTable)
      ensures env.reachable && !tableExists ==> ran == [] && err == Some(CreateTableFailed) && ledger == old(ledger) == {}
      ensures env.reachable && tableExists ==> RunResult(ledger, ran, err) == RunSteps(old(ledger), migrations, env)
    {
      if !env.reachable {
        return [], Some(Unreachable);
      }
      err := CreateMigrationTableIfNotExists(env);
      if err.Some? {
        return [], err;
      }
      ran, err := RunList(env);
    }

    /** The loop of Migrate (gormigrate.go:166-180), once the ledger table
        exists. */
    method RunList(env: Env) returns (ran: seq<string>, err: Option<Error>)
      requires tableExists && Valid()
      modifies this`ledger
      ensures Valid()
      ensures RunResult(ledger, ran, err) == RunSteps(old(ledger), migrations, env)
    {
      ghost var final := RunSteps(ledger, migrations, env);
      ran := [];
      var i := 0;
      while i < |migrations|
        invariant 0 <= i <= |migrations|
        invariant final == Then(ran, RunSteps(ledger, migrations[i..], env))
      {
        var m := migrations[i];
        ghost var rest := RunSteps(ledger, migrations[i..], env);
        assert migrations[i..] == [m] + migrations[i + 1..];
        if MigrationDidRun(m) {
          assert rest == RunSteps(ledger, migrations[i + 1..], env);
          i := i + 1;
          continue;
        }
        if m.migrate == Absent {
          assert rest == RunResult(ledger, [], Some(NilMigrate(m.id)));
          return ran, Some(NilMigrate(m.id));
        }
        if m.migrate == Custom && m.id in env.stepFails {
          assert rest == RunResult(ledger, [m.id], Some(StepFailed(m.id)));
          return ran + [m.id], Some(StepFailed(m.id));
        }
        if m.id in env.recordFails {
          assert rest == RunResult(ledger, [m.id], Some(RecordFailed(m.id)));
          return ran + [m.id], Some(RecordFailed(m.id));
        }
        ghost var next := RunSteps(ledger + {m.id}, migrations[i + 1..], env);
        assert rest == Then([m.id], next);
        assert ran + ([m.id] + next.ran) == (ran + [m.id]) + next.ran;
        ledger := ledger + {m.id};
        ran := ran + [m.id];
        i := i + 1;
      }
      err := None;
    }

    /** RollbackMigration (gormigrate.go:190-217). */
    method RollbackMigration(m: Migration, env: Env) returns (err: Option<Error>)
      requires Valid()
      modifies this`ledger
      ensures Valid()
      ensures (ledger, err) == RollbackOutcome(old(ledger), tableExists, m, env)
      ensures !tableExists ==> err.Some? && ledger == {}
    {
      if m.rollback == Absent {
        return Some(RollbackImpossible);
      }
      if m.rollback == Custom && m.id in env.rollbackFails {
        return Some(RollbackFailed(m.id));
      }
      if !tableExists || m.id in env.deleteFails {
        return Some(DeleteFailed(m.id));
      }
      ledger := ledger - {m.id};
      err := None;
    }

    /** RollbackLast (gormigrate.go:220-230): refuse an empty list,
        otherwise roll back the last element of the list, whether or not
        its id is recorded. */
    method RollbackLast(env: Env) returns (err: Option<Error>)
      requires Valid()
      modifies this`ledger
      ensures Valid()
      ensures migrations == [] ==> err == Some(NoMigrationDefined) && ledger == old(ledger)
      ensures migrations != [] ==>
        (ledger, err) == RollbackOutcome(old(ledger), tableExists, migrations[|migrations| - 1], env)
    {
      if |migrations| == 0 {
        return Some(NoMigrationDefined);
      }
      var last := migrations[|migrations| - 1];
      err := RollbackMigration(last, env);
    }

    /** resolveDependency (dependency.go:23-74) on this engine: expand the
        list against the ledger, tie-break and sort; the sorted list becomes
        the migration list and the drops are returned. Where the survivors
        cannot be ordered, the list is left as it is and the stuck ids are
        returned. */
    method ResolveDependency() returns (res: Result<seq<Migration>, set<string>>)
      requires Valid()
      modifies this`migrations
      ensures Valid()
      ensures var run := Dependency.MigrationsToRun(old(migrations), ledger);
        (res.Success? ==> Dependency.SortsTo(run, migrations, res.value)) &&
        (res.Failure? ==> migrations == old(migrations) && Dependency.Stuck(Dependency.SurvivingGraph(run), res.error)) &&
        (res.Success? <==> Dependency.Acyclic(Dependency.SurvivingGraph(run)))
    {
      var r := Dependency.Resolve(migrations, ledger);
      match r {
        case Success((sorted, drops)) =>
          migrations := sorted;
          res := Success(drops);
        case Failure(stuck) =>
          res := Failure(stuck);
      }
    }
  }

  /** A run result with `ran` invoked before it. */
  function Then(ran: seq<string>, r: RunResult): RunResult
  {
    RunResult(r.ledger, ran + r.ran, r.err)
  }
}
