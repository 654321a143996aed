# gormigrate core in Dafny

This project models the core of gormigrate, a schema-migration helper for
Go's GORM. It has two parts.

- **The dependency resolver** (`dependency.go`). `resolveDependency` expands
  the caller's migration list against the ledger of applied ids. Every
  recorded dependency becomes a no-op placeholder ahead of the migration
  that names it, and migrations already recorded are skipped. A tie-break
  then makes entry i depend on entry i-1 whenever entry i-1 has no
  dependencies of its own. That puts such an entry ahead of its successor,
  but it does not keep unrelated migrations in input order. `sort` keeps
  the first migration for each id, drops every candidate with a missing
  dependency (transitively), and orders the rest so that dependencies come
  first.
- **The execution engine** (`gormigrate.go`). `Migrate` walks the list in
  order, skips ids the ledger already holds, runs each step and records its
  id. `RollbackMigration` runs a rollback step and deletes the id.
  `RollbackLast` rolls back the last element of the list.

The ledger, a database table in the source, is a `set<string>` of applied
ids. A migration's callbacks are opaque. A callback is either absent (a nil
function), user code, or the no-op step given to ledger placeholders.
Whether user code fails, and whether the database calls around it fail, is
an `Env` parameter that the caller supplies.

Files:

- `migration.dfy` (module `Migrations`): the `Migration` record shared by
  both parts, `Placeholder`, and id-set helpers.
- `dependency.dfy` (module `Dependency`): `sort` and `resolveDependency`.
  The source's loops are methods, each proved against its own reference:
  - `Dedup` against the functions `Candidates` and `Duplicates`;
  - `DropUnsatisfiable` against the function `Survivors`;
  - `TopoOrder` against the predicate `IsTopoOrder`, or `Stuck` on failure;
  - `LoadPred` against the function `ExpandOne`;
  - `Expand` against the function `Expanded`;
  - `TieBreak`, which works in place on an array, against the function
    `TieBroken`.
- `gormigrate.dfy` (module `Engine`): the class `Gormigrate` with fields
  `migrations`, `ledger` and `tableExists`. It also holds the specification
  functions `RunSteps` and `RollbackOutcome` and the lemmas about them.
- `oracles.dfy` (module `Oracles`): the cases of `TestSort`, proved for
  every output `sort` may return, and a `TestMigration` session proved
  against the engine as written.

Points where the behaviour of the code is easy to misread:

- **`RollbackLast`** (gormigrate.go:220-230) rolls back the last element of
  the list and never reads the ledger. `TestMigration`
  (gormigrate_test.go:84-106) calls it twice and expects the ledger to end
  up empty. Under the code as written the second call targets the same
  migration again, so the first migration stays recorded.
  `Oracles.RollbackLastTwiceSession` proves this. The test file targets a
  newer API than the gormigrate.go modelled here. It uses `gorm.io/gorm`'s
  `Migrator()`, `MigrateTo` and `RollbackTo`, none of which exist in that
  gormigrate.go.
- **Cycles.** The `Unorderable` error of `topo.Sort` is discarded
  (dependency.go:111). The nil entries it leaves in the result then make
  the node type assertion at dependency.go:113 fail. A self-dependency makes
  edge insertion at dependency.go:104 fail. In both places Go panics,
  and the model returns `Failure(stuck ids)` instead. `Sort`, `Resolve` and
  `ResolveDependency` prove that they succeed exactly when the surviving
  graph is acyclic.
- **Transactions.** With `UseTransaction`, `Migrate` and
  `RollbackMigration` open a transaction (gormigrate.go:159-164, 194-199).
  Lines 172, 177 and 207 roll it back on failure. The ledger writes do not
  go through it: the insert at line 176 and the delete at line 206 use the
  plain connection. So a failed step leaves the
  ids recorded before it in the ledger.

## Model

| member | source | states |
|---|---|---|
| `Migrations.DistinctIdsCount` | dependency.go:81-87 | a list with no repeated id has exactly as many ids as elements |
| `Dependency.Candidates` | dependency.go:80-87 | the de-duplication map holds exactly the ids of the list, each key mapping to a migration with that id |
| `Dependency.CandidatesAreFirstOccurrences` | dependency.go:81-84 | the candidate for an id is the first migration in the list with that id |
| `Dependency.DedupPartition` | dependency.go:81-87 | every occurrence in the list is either the candidate for its id (once) or in the duplicate drops, as a multiset identity |
| `Dependency.Dedup` | dependency.go:80-87 | the loop builds exactly the first-occurrence map and the in-order list of later duplicates |
| `Dependency.DistinctListKeepsAll` | dependency.go:81-87 | with distinct ids nothing is dropped as a duplicate and each migration is its own id's candidate |
| `Dependency.Survivors` | dependency.go:89-100 | removing unsatisfiable candidates until none remains yields a subset of the starting ids |
| `Dependency.SurvivorsAreGreatestClosed` | dependency.go:89-100 | the survivors are closed under dependencies and contain every dependency-closed subset: the greatest fixed point |
| `Dependency.MissingDependencyDropsDependent` | dependency.go:89-100 | a candidate depending on a non-surviving id does not survive, so a missing id drops all its transitive dependents |
| `Dependency.SurvivingGraph` | dependency.go:101-110 | the graph's nodes are exactly the surviving ids |
| `Dependency.DropUnsatisfiable` | dependency.go:89-100 | whatever order the map is scanned in, the kept candidates are exactly the survivors with unchanged values, and the removed ones are listed once each |
| `Dependency.DependencyComesEarlier` | dependency.go:101-115 | in a dependency order every dependency of an element is the id of an earlier element |
| `Dependency.StuckIsCyclic` | dependency.go:111-115 | a non-empty set whose every node depends on another node of the set witnesses a cycle |
| `Dependency.OrderedGraphIsAcyclic` | dependency.go:101-115 | a graph that has a topological order has no cycle |
| `Dependency.TopoOrder` | dependency.go:101-115 | returns a permutation of the graph's nodes with every dependency before its dependents, or a stuck (cyclic) set of nodes |
| `Dependency.Sort` | dependency.go:78-117 | returns the duplicates then the unsatisfiable candidates as drops and the survivors in dependency order; it succeeds exactly when the survivors are acyclic |
| `Dependency.SortedAndDroppedPartitionCandidates` | dependency.go:81-116 | every first-occurrence id is in exactly one of sorted and drops, neither repeats an id, and sorted holds the full first-occurrence values |
| `Dependency.DistinctListDrops` | dependency.go:81-100 | with distinct ids the drops are exactly the non-survivors |
| `Dependency.DepIdSeq` | dependency.go:41-45 | the id list collected from a migration's dependencies holds exactly its dependency ids |
| `Dependency.LedgerHits` | dependency.go:46-51 | the ledger query returns each recorded id among the asked ids exactly once, and nothing else |
| `Dependency.ExpandOne` | dependency.go:26-61 | a recorded migration contributes nothing; otherwise distinct placeholders for exactly its recorded dependency ids, then the migration itself |
| `Dependency.Expanded` | dependency.go:62-64 | every expanded entry is a pending list migration or a placeholder of a recorded id; every pending migration and every placeholder it needs is present |
| `Dependency.LoadPred` | dependency.go:26-61 | the loop over a migration's dependencies and ledger rows produces ExpandOne |
| `Dependency.Expand` | dependency.go:62-64 | calling loadPred on each migration in order produces Expanded |
| `Dependency.TieBroken` | dependency.go:66-70 | ids and steps are unchanged; entry i gains entry i-1 as a dependency exactly when entry i-1 had none, and no other dependency list changes |
| `Dependency.TieBrokenDepIds` | dependency.go:66-70 | after the tie-break an entry's dependency ids are its own plus, exactly when entry i-1 was dependency-free, entry i-1's id |
| `Dependency.TieBreak` | dependency.go:66-70 | the descending in-place loop over the array leaves exactly TieBroken of the old contents |
| `Dependency.Resolve` | dependency.go:23-74 | sorts the expanded, tie-broken list: drops and dependency order as Sort states, success exactly when the survivors are acyclic |
| `Dependency.TieBreakKeepsOrder` | dependency.go:65-70 | when entry i-1 had no dependencies and entry i is the first with its id, entry i-1 is sorted before entry i |
| `Dependency.LedgerSatisfiedMigrationSurvives` | dependency.go:23-74 | with distinct ids, a pending migration whose dependencies are all recorded survives resolution |
| `Dependency.UnknownDependencyDropsMigration` | dependency.go:23-74 | with distinct ids, a pending migration depending on an id neither recorded nor listed is dropped |
| `Engine.RunSteps` | gormigrate.go:166-180 | the ledger only grows, and only by ids of the list; after a run without error it holds every id of the list |
| `Engine.RanStepsAreFresh` | gormigrate.go:166-180 | only steps of unrecorded list ids run, none twice, and every newly recorded id is one whose step ran |
| `Engine.RecordedListRunsNothing` | gormigrate.go:166-169 | over a list whose ids are all recorded, no step runs and the ledger is unchanged |
| `Engine.SecondRunIsNoop` | gormigrate.go:166-169 | after a successful run, running the same list again invokes no step and leaves the ledger as it is |
| `Engine.FailureStopsTheRun` | gormigrate.go:171-179 | a failed run stops at one migration: its error names it, its id is not recorded, exactly the ids before it were recorded, and no later step ran |
| `Engine.OnlyUnrecordedRuns` | gormigrate.go:166-180 | when only one id of the list is unrecorded, exactly its first migration's step runs (none when the step is nil) |
| `Engine.RollbackOutcome` | gormigrate.go:190-217 | a nil rollback is refused; any failure leaves the ledger unchanged; success removes exactly the migration's id |
| `Engine.RollbackThenMigrate` | gormigrate.go:166-209 | rolling back one applied migration and migrating again reruns only that migration and restores the ledger |
| `Engine.Gormigrate.constructor` | gormigrate.go:120-126 | the engine holds the given list over a database in the given state |
| `Engine.Gormigrate.MigrationDidRun` | gormigrate.go:128-135 | a positive count of ledger rows with the id holds exactly when the ledger contains it |
| `Engine.Gormigrate.CreateMigrationTableIfNotExists` | gormigrate.go:137-148 | an existing table is left alone without error, so repeated calls are idempotent; otherwise the table is created or the creation error returned |
| `Engine.Gormigrate.Migrate` | gormigrate.go:151-187 | a failed ping or table creation changes no ledger entry, and a table that could not be created holds none; otherwise the ledger, steps run and error are those of RunSteps |
| `Engine.Gormigrate.RunList` | gormigrate.go:166-180 | the in-order loop with early returns yields exactly RunSteps of the old ledger |
| `Engine.Gormigrate.RollbackMigration` | gormigrate.go:190-217 | the new ledger and error are RollbackOutcome of the old ledger; without a ledger table the call fails and nothing is recorded |
| `Engine.Gormigrate.RollbackLast` | gormigrate.go:220-230 | an empty list gives NoMigrationDefined with the ledger unchanged; otherwise the last list element is rolled back, recorded or not |
| `Engine.Gormigrate.ResolveDependency` | dependency.go:23-74 | the migration list becomes the sorted result of the expanded list and the drops are returned; on a cycle the list is kept and the stuck ids returned |
| `Oracles.SortPlacesDependencyFirst` | dependency_test.go:118-123 | sorting ["2" depends on "1", "1"] always gives the full migrations "1" then "2" with no drops |
| `Oracles.SortKeepsChainInOrder` | dependency_test.go:124-144 | in the second test list the sorted output is exactly "1", "2", "4" |
| `Oracles.SortDropsTransitiveDependents` | dependency_test.go:124-149 | in the second test list "3" and all of "3.1" to "3.4" are dropped |
| `Oracles.RollbackLastTwiceSession` | gormigrate.go:220-230 | migrate two migrations, migrate again (nothing runs), then RollbackLast twice: all calls succeed and the first migration stays recorded |

## Left out

- Node hashing (dependency.go:15-19): graph nodes are identified by the id string itself, so FNV-64a hash collisions are not modelled.
- The graph library's choice among ready nodes is not visible, so `TopoOrder` takes any ready node. The model proves that every result is a valid dependency order. It does not fix which one.
- Go's map iteration order (dependency.go:90, 101) is random. `DropUnsatisfiable` removes any unsatisfiable candidate first, so the order of the unsatisfiable part of the drops is left open. The set of drops is exact.
- Cycles and self-dependencies make the source panic. The model returns the stuck ids instead.
- The order of the ledger query's rows is fixed to the order in which ids are named: the migration's own id first, then its dependencies. SQL leaves this order unspecified.
- `dummyMigration` is not defined in the files shown. It is modelled as the `NoOp` step, which never fails.
- SQL and GORM plumbing (the `CREATE TABLE`/`INSERT`/`DELETE` text, `FirstOrInit`/`Distinct`/`Find`, the table and column names in `Options`) is replaced by set operations on the ledger. Failures of the ping, table creation, steps, insert, rollback and delete come from `Env`. Ledger reads are assumed to succeed. The source ignores their errors: the `Count` error in `migrationDidRun` (gormigrate.go:130-133) and the two `_ =` lookups (dependency.go:33, 46). A failed read there counts as "not recorded", which can re-run a step that was already applied. The model does not capture this.
- Transactions (`UseTransaction`, `Begin`/`Commit`/`Rollback`) are left out. Nothing models the schema changes that a transaction would undo, so commit failures are left out with them.
- The bodies of migration callbacks (schema DDL) are left out. A step only succeeds or fails.
- Nil entries are not modelled, because list entries are values. This covers nil entries in the migration list (the `m == nil` check at dependency.go:27-29). It also covers nil entries in a migration's `Dependencies`, which make the source panic at `d.MigrationID` (dependency.go:43, 93). Aliasing between Go values is not modelled either. In the source the tie-break appends to dependency slices that other migrations may share.
- Engine.Gormigrate.Migrate: a nil forward step is reported as the error `NilMigrate`. In the source, calling a nil function panics.
