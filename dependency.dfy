// The dependency resolver: `sort` and `resolveDependency` of dependency.go.
//
// Migrations are values; a dependency is compared with the candidates by id
// only, as the source does when it looks ids up in its `toSort` map.

module Dependency {
  import opened Migrations

  // ---------------------------------------------------------------------
  // Step 1 of sort: one candidate per id, the first one in the list wins.
  // ---------------------------------------------------------------------

  /** The candidates kept by the de-duplication pass over `ms`: for every id,
      the first migration in the list that has it. */
  function Candidates(ms: seq<Migration>): (c: map<string, Migration>)
    ensures c.Keys == Ids(ms)
    ensures KeyedById(c)
    decreases |ms|
  {
    if ms == [] then map[]
    else
      var p, m := ms[..|ms| - 1], ms[|ms| - 1];
      assert ms == p + [m];
      IdsSnoc(p, m);
      var c := Candidates(p);
      if m.id in c then c else c[m.id := m]
  }

  /** The migrations the de-duplication pass drops, in list order: every one
      whose id an earlier migration already has. */
  function Duplicates(ms: seq<Migration>): seq<Migration>
    decreases |ms|
  {
    if ms == [] then []
    else
      var p, m := ms[..|ms| - 1], ms[|ms| - 1];
      if m.id in Candidates(p) then Duplicates(p) + [m] else Duplicates(p)
  }

  /** Every migration of the map is stored under its own id. */
  predicate KeyedById(cands: map<string, Migration>)
  {
    forall k :: k in cands ==> cands[k].id == k
  }

  /** The position of the first migration in `ms` with id `k`. */
  function IndexOf(ms: seq<Migration>, k: string): (i: nat)
    requires k in Ids(ms)
    ensures i < |ms| && ms[i].id == k
    ensures forall j :: 0 <= j < i ==> ms[j].id != k
    decreases |ms|
  {
    if ms[0].id == k then 0
    else
      assert k in Ids(ms[1..]) by {
        var j :| 0 <= j < |ms| && ms[j].id == k;
        assert ms[1..][j - 1].id == k;
      }
      1 + IndexOf(ms[1..], k)
  }

  lemma IndexOfSnoc(p: seq<Migration>, m: Migration, k: string)
    requires k in Ids(p)
    ensures k in Ids(p + [m]) && IndexOf(p + [m], k) == IndexOf(p, k)
  {
    IdsSnoc(p, m);
    var ms := p + [m];
    var i, j := IndexOf(ms, k), IndexOf(p, k);
    assert ms[j].id == k;
  }

  /** The candidate kept for an id is the first migration in the list with
      that id. */
  lemma {:induction false} CandidatesAreFirstOccurrences(ms: seq<Migration>)
    ensures forall k :: k in Candidates(ms) ==> Candidates(ms)[k] == ms[IndexOf(ms, k)]
    decreases |ms|
  {
    if ms != [] {
      var p, m := ms[..|ms| - 1], ms[|ms| - 1];
      assert ms == p + [m];
      CandidatesAreFirstOccurrences(p);
      forall k | k in Candidates(ms) ensures Candidates(ms)[k] == ms[IndexOf(ms, k)] {
        if k in Ids(p) {
          IndexOfSnoc(p, m, k);
          assert ms[IndexOf(p, k)] == p[IndexOf(p, k)];
        }
      }
    }
  }

  /** De-duplication splits the list exactly: every occurrence of a value in
      `ms` is either the candidate for its id (once) or one of the
      duplicates. */
  lemma {:induction false} DedupPartition(ms: seq<Migration>)
    ensures forall x :: multiset(ms)[x] == multiset(Duplicates(ms))[x] + (if x.id in Candidates(ms) && Candidates(ms)[x.id] == x then 1 else 0)
    decreases |ms|
  {
    if ms != [] {
      var p, m := ms[..|ms| - 1], ms[|ms| - 1];
      assert ms == p + [m];
      DedupPartition(p);
      assert multiset(ms) == multiset(p) + multiset{m};
      var c := Candidates(p);
      if m.id in c {
        assert Duplicates(ms) == Duplicates(p) + [m];
        assert multiset(Duplicates(ms)) == multiset(Duplicates(p)) + multiset{m};
      } else {
        assert Duplicates(ms) == Duplicates(p);
        assert Candidates(ms) == c[m.id := m];
      }
    }
  }

  /** The de-duplication loop of sort (dependency.go:80-87). */
  method Dedup(ms: seq<Migration>) returns (toSort: map<string, Migration>, drops: seq<Migration>)
    ensures toSort == Candidates(ms) && drops == Duplicates(ms)
  {
    toSort, drops := map[], [];
    for i := 0 to |ms|
      invariant toSort == Candidates(ms[..i])
      invariant drops == Duplicates(ms[..i])
    {
      var m := ms[i];
      assert ms[..i + 1] == ms[..i] + [m];
      if m.id !in toSort {
        toSort := toSort[m.id := m];
      } else {
        drops := drops + [m];
      }
    }
    assert ms[..|ms|] == ms;
  }

  // ---------------------------------------------------------------------
  // Step 2 of sort: drop candidates whose dependencies cannot be met.
  // ---------------------------------------------------------------------

  /** A list without repeated ids loses nothing to de-duplication, and each
      of its migrations is its own id's candidate. */
  lemma {:induction false} DistinctListKeepsAll(ms: seq<Migration>)
    requires DistinctIds(ms)
    ensures Duplicates(ms) == []
    ensures forall i :: 0 <= i < |ms| ==> ms[i].id in Candidates(ms) && Candidates(ms)[ms[i].id] == ms[i]
    decreases |ms|
  {
    if ms != [] {
      var p, m := ms[..|ms| - 1], ms[|ms| - 1];
      assert ms == p + [m];
      IdsSnoc(p, m);
      DistinctListKeepsAll(p);
      assert m.id !in Ids(p);
      forall i | 0 <= i < |ms| ensures ms[i].id in Candidates(ms) && Candidates(ms)[ms[i].id] == ms[i] {
        if i < |p| {
          assert ms[i] == p[i];
        }
      }
    }
  }

  /** Every candidate in `S` has all of its dependency ids in `S`. */
  ghost predicate Closed(cands: map<string, Migration>, S: set<string>)
  {
    S <= cands.Keys && forall k {:trigger DepIds(cands[k])} :: k in S ==> DepIds(cands[k]) <= S
  }

  /** The candidates of `K` that depend on an id outside `K`. */
  function Unsatisfied(cands: map<string, Migration>, K: set<string>): set<string>
    requires K <= cands.Keys
  {
    set k | k in K && !(DepIds(cands[k]) <= K)
  }

  /** Reference definition of the survivors: remove, all at once, every
      candidate with a missing dependency, and repeat until none is missing. */
  function Survivors(cands: map<string, Migration>, K: set<string>): (S: set<string>)
    requires K <= cands.Keys
    ensures S <= K
    decreases K
  {
    var bad := Unsatisfied(cands, K);
    if bad == {} then K
    else
      var k :| k in bad;
      assert K - bad < K by { assert k in K && k !in K - bad; }
      Survivors(cands, K - bad)
  }

  /** The survivors are the largest subset of `K` that is closed under
      dependencies: they are closed, and every closed subset of `K` lies
      inside them. */
  lemma {:induction false} SurvivorsAreGreatestClosed(cands: map<string, Migration>, K: set<string>)
    requires K <= cands.Keys
    ensures Closed(cands, Survivors(cands, K))
    ensures forall S :: Closed(cands, S) && S <= K ==> S <= Survivors(cands, K)
    decreases K
  {
    var bad := Unsatisfied(cands, K);
    if bad != {} {
      var k :| k in bad;
      assert K - bad < K by { assert k in K && k !in K - bad; }
      SurvivorsAreGreatestClosed(cands, K - bad);
      forall S | Closed(cands, S) && S <= K ensures S <= K - bad {
        forall x | x in S ensures x !in bad {
          assert DepIds(cands[x]) <= S;
        }
      }
    } else {
      forall x | x in K ensures DepIds(cands[x]) <= K {
        assert x !in bad;
      }
    }
  }

  /** The survivor ids of a migration list. */
  function SurvivorIds(ms: seq<Migration>): set<string>
  {
    Survivors(Candidates(ms), Candidates(ms).Keys)
  }

  /** The candidates that survive, by id: the graph that gets ordered. */
  function SurvivingGraph(ms: seq<Migration>): (g: map<string, Migration>)
    ensures g.Keys == SurvivorIds(ms)
  {
    map k | k in SurvivorIds(ms) :: Candidates(ms)[k]
  }

  /** A candidate that depends on an id that does not survive does not
      survive either: a missing id drops all of its transitive dependents. */
  lemma MissingDependencyDropsDependent(ms: seq<Migration>, k: string, d: string)
    requires k in Candidates(ms) && d in DepIds(Candidates(ms)[k])
    requires d !in SurvivorIds(ms)
    ensures k !in SurvivorIds(ms)
  {
    SurvivorsAreGreatestClosed(Candidates(ms), Candidates(ms).Keys);
  }

  /** `removed` lists, once each, exactly the candidates whose ids are not in
      `kept`. */
  ghost predicate IsDropList(cands: map<string, Migration>, kept: set<string>, removed: seq<Migration>)
  {
    && DistinctIds(removed)
    && Ids(removed) == cands.Keys - kept
    && forall i :: 0 <= i < |removed| ==> removed[i].id in cands && removed[i] == cands[removed[i].id]
  }

  /** The `Recheck` loop of sort (dependency.go:89-100): while some candidate
      has a dependency id that is not a candidate, drop it. Which one is
      dropped first is left open, as Go's map iteration order is. */
  method DropUnsatisfiable(cands: map<string, Migration>) returns (kept: map<string, Migration>, removed: seq<Migration>)
    requires KeyedById(cands)
    ensures kept.Keys == Survivors(cands, cands.Keys)
    ensures forall k :: k in kept ==> kept[k] == cands[k]
    ensures IsDropList(cands, kept.Keys, removed)
  {
    kept, removed := cands, [];
    while exists k :: k in kept && !(DepIds(kept[k]) <= kept.Keys)
      invariant kept.Keys <= cands.Keys
      invariant forall k :: k in kept ==> kept[k] == cands[k]
      invariant forall S :: Closed(cands, S) ==> S <= kept.Keys
      invariant IsDropList(cands, kept.Keys, removed)
      decreases kept.Keys
    {
      var k :| k in kept && !(DepIds(kept[k]) <= kept.Keys);
      IdsSnoc(removed, kept[k]);
      removed := removed + [kept[k]];
      kept := kept - {k};
    }
    SurvivorsAreGreatestClosed(cands, cands.Keys);
    assert Closed(cands, kept.Keys);
  }

  // ---------------------------------------------------------------------
  // Step 3 of sort: order the survivors along their dependencies.
  // ---------------------------------------------------------------------

  /** `s` lists every node of `graph` once, in an order in which every
      dependency comes before its dependents. */
  ghost predicate IsTopoOrder(graph: map<string, Migration>, s: seq<Migration>)
  {
    InDependencyOrder(graph, s) && Ids(s) == graph.Keys
  }

  /** `s` lists nodes of `graph` once each, each as the graph holds it; the
      dependencies of every element are listed, and none of them at or after
      the element itself. */
  ghost predicate InDependencyOrder(graph: map<string, Migration>, s: seq<Migration>)
  {
    && DistinctIds(s)
    && (forall i :: 0 <= i < |s| ==> s[i].id in graph && s[i] == graph[s[i].id] && DepIds(s[i]) <= Ids(s))
    && (forall i, j :: 0 <= i <= j < |s| ==> s[j].id !in DepIds(s[i]))
  }

  /** In such an order, each dependency of an element is the id of an
      earlier element. */
  lemma DependencyComesEarlier(graph: map<string, Migration>, s: seq<Migration>, i: nat, d: string)
    requires InDependencyOrder(graph, s) && i < |s| && d in DepIds(s[i])
    ensures exists j :: 0 <= j < i && s[j].id == d
  {
    assert d in Ids(s);
    var j :| 0 <= j < |s| && s[j].id == d;
  }

  /** Some node of `R` depends on no node of `R`. */
  ghost predicate HasSource(graph: map<string, Migration>, R: set<string>)
  {
    exists k :: k in R && k in graph && DepIds(graph[k]) !! R
  }

  /** The dependency graph has no cycle: every non-empty set of nodes has a
      node that depends on none of the others in the set. */
  ghost predicate Acyclic(graph: map<string, Migration>)
  {
    forall R {:trigger HasSource(graph, R)} :: R <= graph.Keys && R != {} ==> HasSource(graph, R)
  }

  /** A non-empty set of nodes each of which depends on another node of the
      set: the witness of a cycle (a self-dependency included). */
  ghost predicate Stuck(graph: map<string, Migration>, R: set<string>)
  {
    R != {} && R <= graph.Keys && forall k {:trigger DepIds(graph[k])} :: k in R ==> !(DepIds(graph[k]) !! R)
  }

  /** Appending a node whose dependencies are all placed keeps the order. */
  lemma PlaceReady(graph: map<string, Migration>, s: seq<Migration>, k: string)
    requires KeyedById(graph) && InDependencyOrder(graph, s)
    requires k in graph && k !in Ids(s) && DepIds(graph[k]) <= Ids(s)
    ensures InDependencyOrder(graph, s + [graph[k]])
    ensures Ids(s + [graph[k]]) == Ids(s) + {k}
  {
    IdsSnoc(s, graph[k]);
    var t := s + [graph[k]];
    forall i, j | 0 <= i < j < |t| ensures t[i].id != t[j].id {
      if j == |s| {
        assert s[i].id in Ids(s);
      }
    }
    forall i, j | 0 <= i <= j < |t| ensures t[j].id !in DepIds(t[i]) {
      if j == |s| {
        assert DepIds(t[i]) <= Ids(s);
      }
    }
  }

  /** When no remaining node is ready, the remaining nodes are stuck. */
  lemma NoneReadyIsStuck(graph: map<string, Migration>, placed: set<string>, remaining: set<string>)
    requires Closed(graph, graph.Keys) && remaining != {}
    requires remaining <= graph.Keys && placed == graph.Keys - remaining
    requires forall k {:trigger DepIds(graph[k])} :: k in remaining ==> !(DepIds(graph[k]) <= placed)
    ensures Stuck(graph, remaining)
  {
    forall k | k in remaining ensures !(DepIds(graph[k]) !! remaining) {
      var deps := DepIds(graph[k]);
      assert deps <= graph.Keys;
      assert !(deps <= placed);
      var d :| d in deps && d !in placed;
      assert d in deps * remaining;
    }
  }

  /** A graph with stuck nodes has a cycle. */
  lemma StuckIsCyclic(graph: map<string, Migration>, R: set<string>)
    requires Stuck(graph, R)
    ensures !Acyclic(graph)
  {
    assert !HasSource(graph, R);
  }

  /** The position of the first element of `s` whose id is in `R`. */
  function FirstIn(s: seq<Migration>, R: set<string>): (i: nat)
    requires exists j :: 0 <= j < |s| && s[j].id in R
    ensures i < |s| && s[i].id in R
    ensures forall j :: 0 <= j < i ==> s[j].id !in R
    decreases |s|
  {
    if s[0].id in R then 0
    else
      assert exists j :: 0 <= j < |s[1..]| && s[1..][j].id in R by {
        var j :| 0 <= j < |s| && s[j].id in R;
        assert s[1..][j - 1].id in R;
      }
      1 + FirstIn(s[1..], R)
  }

  /** A graph with a topological order has no cycle. */
  lemma OrderedGraphIsAcyclic(graph: map<string, Migration>, s: seq<Migration>)
    requires IsTopoOrder(graph, s)
    ensures Acyclic(graph)
  {
    forall R | R <= graph.Keys && R != {} ensures HasSource(graph, R) {
      var k :| k in R;
      assert k in Ids(s);
      var i := FirstIn(s, R);
      forall d | d in DepIds(s[i]) ensures d !in R {
        DependencyComesEarlier(graph, s, i, d);
      }
      assert DepIds(graph[s[i].id]) !! R;
    }
  }

  /** The topological sort of sort (dependency.go:101-115). A node is taken
      once all of its dependencies are placed; which ready node is taken is
      left open. When no node is ready the remaining nodes form a cycle:
      there the source's graph library reports the graph unorderable (or
      refuses a self edge) and the source cannot go on; the model returns
      the stuck nodes. */
  method TopoOrder(graph: map<string, Migration>) returns (res: Result<seq<Migration>, set<string>>)
    requires KeyedById(graph) && Closed(graph, graph.Keys)
    ensures res.Success? ==> IsTopoOrder(graph, res.value)
    ensures res.Failure? ==> Stuck(graph, res.error)
  {
    var sorted: seq<Migration> := [];
    var remaining := graph.Keys;
    while remaining != {}
      invariant remaining <= graph.Keys
      invariant Ids(sorted) == graph.Keys - remaining
      invariant InDependencyOrder(graph, sorted)
      decreases remaining
    {
      if exists k {:trigger DepIds(graph[k])} :: k in remaining && DepIds(graph[k]) <= Ids(sorted) {
        var k :| k in remaining && DepIds(graph[k]) <= Ids(sorted);
        PlaceReady(graph, sorted, k);
        sorted := sorted + [graph[k]];
        remaining := remaining - {k};
      } else {
        NoneReadyIsStuck(graph, Ids(sorted), remaining);
        return Failure(remaining);
      }
    }
    assert IsTopoOrder(graph, sorted);
    res := Success(sorted);
  }

  // ---------------------------------------------------------------------
  // sort
  // ---------------------------------------------------------------------

  /** What sort returns for `ms`: the duplicates first, in list order, then
      the unsatisfiable candidates once each; and the survivors in an order
      consistent with their dependencies. */
  ghost predicate SortsTo(ms: seq<Migration>, sorted: seq<Migration>, drops: seq<Migration>)
  {
    var dups := Duplicates(ms);
    && |dups| <= |drops|
    && drops[..|dups|] == dups
    && IsDropList(Candidates(ms), SurvivorIds(ms), drops[|dups|..])
    && IsTopoOrder(SurvivingGraph(ms), sorted)
  }

  /** sort (dependency.go:78-117). */
  method Sort(ms: seq<Migration>) returns (res: Result<(seq<Migration>, seq<Migration>), set<string>>)
    ensures res.Success? ==> SortsTo(ms, res.value.0, res.value.1)
    ensures res.Failure? ==> Stuck(SurvivingGraph(ms), res.error)
    ensures res.Success? <==> Acyclic(SurvivingGraph(ms))
  {
    var toSort, drops := Dedup(ms);
    var kept, removed := DropUnsatisfiable(toSort);
    assert kept == SurvivingGraph(ms);
    SurvivorsAreGreatestClosed(toSort, toSort.Keys);
    var order := TopoOrder(kept);
    match order
    case Success(sorted) =>
      OrderedGraphIsAcyclic(kept, sorted);
      res := Success((sorted, drops + removed));
      assert (drops + removed)[..|drops|] == drops;
      assert (drops + removed)[|drops|..] == removed;
    case Failure(stuck) =>
      StuckIsCyclic(kept, stuck);
      res := Failure(stuck);
  }

  /** Every survivor is sorted and every other candidate dropped, each exactly
      once, and the survivors are the first occurrences of their ids. */
  lemma SortedAndDroppedPartitionCandidates(ms: seq<Migration>, sorted: seq<Migration>, drops: seq<Migration>)
    requires SortsTo(ms, sorted, drops)
    ensures var removed := drops[|Duplicates(ms)|..];
      && Ids(sorted) !! Ids(removed)
      && Ids(sorted) + Ids(removed) == Ids(ms)
      && DistinctIds(sorted) && DistinctIds(removed)
    ensures forall i :: 0 <= i < |sorted| ==> sorted[i].id in Ids(ms) && sorted[i] == ms[IndexOf(ms, sorted[i].id)]
  {
    SurvivorsAreGreatestClosed(Candidates(ms), Candidates(ms).Keys);
    CandidatesAreFirstOccurrences(ms);
    forall i | 0 <= i < |sorted| ensures sorted[i].id in Ids(ms) && sorted[i] == ms[IndexOf(ms, sorted[i].id)] {
      assert sorted[i] == SurvivingGraph(ms)[sorted[i].id];
    }
  }

  /** For a list without repeated ids, the drops are exactly the
      migrations that do not survive. */
  lemma DistinctListDrops(ms: seq<Migration>, sorted: seq<Migration>, drops: seq<Migration>)
    requires DistinctIds(ms) && SortsTo(ms, sorted, drops)
    ensures Ids(drops) == Ids(ms) - SurvivorIds(ms)
  {
    DistinctListKeepsAll(ms);
    assert drops[0..] == drops;
  }

  // ---------------------------------------------------------------------
  // resolveDependency: expansion against the ledger, then the tie-break.
  // ---------------------------------------------------------------------

  /** The ids a migration depends on, in declaration order. */
  function DepIdSeq(m: Migration): (r: seq<string>)
    ensures forall x :: x in r <==> x in DepIds(m)
  {
    var r := seq(|m.deps|, i requires 0 <= i < |m.deps| => m.deps[i].id);
    assert forall x :: x in DepIds(m) ==> x in r by {
      forall x | x in DepIds(m) ensures x in r {
        var i :| 0 <= i < |m.deps| && m.deps[i].id == x;
        assert r[i] == x;
      }
    }
    r
  }

  /** The ledger query of resolveDependency (dependency.go:46-51): the
      recorded ids among `ids`, each once, in the order they are first
      named. */
  function LedgerHits(ids: seq<string>, ledger: set<string>): (r: seq<string>)
    ensures forall x :: x in r <==> x in ids && x in ledger
    ensures forall i, j :: 0 <= i < j < |r| ==> r[i] != r[j]
    decreases |ids|
  {
    if ids == [] then []
    else (if ids[0] in ledger then [ids[0]] else []) + LedgerHits(ids[1..], ledger - {ids[0]})
  }

  /** What loadPred appends for one migration: nothing when its id is
      recorded; otherwise a placeholder for each recorded dependency id, each
      once, and then the migration itself. */
  function ExpandOne(m: Migration, ledger: set<string>): (r: seq<Migration>)
    ensures m.id in ledger ==> r == []
    ensures m.id !in ledger ==> |r| >= 1 && r[|r| - 1] == m && DistinctIds(r[..|r| - 1])
    ensures m.id !in ledger ==> forall x :: x in r[..|r| - 1] <==>
      x.id in DepIds(m) && x.id in ledger && x == Placeholder(x.id)
  {
    if m.id in ledger then []
    else
      var hits := LedgerHits([m.id] + DepIdSeq(m), ledger);
      var holders := seq(|hits|, i requires 0 <= i < |hits| => Placeholder(hits[i]));
      assert (holders + [m])[..|holders|] == holders;
      assert forall x :: x in holders <==> x.id in DepIds(m) && x.id in ledger && x == Placeholder(x.id) by {
        forall x: Migration | x.id in DepIds(m) && x.id in ledger && x == Placeholder(x.id) ensures x in holders {
          assert x.id in hits;
          var i :| 0 <= i < |hits| && hits[i] == x.id;
          assert holders[i] == x;
        }
      }
      holders + [m]
  }

  /** The list resolveDependency builds before the tie-break
      (dependency.go:62-64): ExpandOne of each migration, in list order. */
  function Expanded(ms: seq<Migration>, ledger: set<string>): (r: seq<Migration>)
    ensures forall x :: x in r ==> (x in ms && x.id !in ledger) || (x.id in ledger && x == Placeholder(x.id))
    ensures forall i :: 0 <= i < |ms| && ms[i].id !in ledger ==> ms[i] in r
    ensures forall i, d :: 0 <= i < |ms| && ms[i].id !in ledger && d in DepIds(ms[i]) && d in ledger ==>
      Placeholder(d) in r
    decreases |ms|
  {
    if ms == [] then []
    else
      var p, m := ms[..|ms| - 1], ms[|ms| - 1];
      assert ms == p + [m];
      var one := ExpandOne(m, ledger);
      assert m.id !in ledger ==> one == one[..|one| - 1] + [m];
      Expanded(p, ledger) + one
  }

  /** loadPred (dependency.go:26-61) for one migration. */
  method LoadPred(m: Migration, ledger: set<string>) returns (added: seq<Migration>)
    ensures added == ExpandOne(m, ledger)
  {
    if m.id in ledger {
      return [];
    }
    var ids := [m.id];
    for i := 0 to |m.deps|
      invariant ids == [m.id] + DepIdSeq(m)[..i]
    {
      assert DepIdSeq(m)[..i + 1] == DepIdSeq(m)[..i] + [m.deps[i].id];
      ids := ids + [m.deps[i].id];
    }
    assert DepIdSeq(m)[..|m.deps|] == DepIdSeq(m);
    var lookups := LedgerHits(ids, ledger);
    added := [];
    for i := 0 to |lookups|
      invariant added == seq(i, j requires 0 <= j < i => Placeholder(lookups[j]))
    {
      added := added + [Placeholder(lookups[i])];
    }
    added := added + [m];
  }

  /** The loop of resolveDependency that calls loadPred for every
      migration (dependency.go:62-64). */
  method Expand(ms: seq<Migration>, ledger: set<string>) returns (run: seq<Migration>)
    ensures run == Expanded(ms, ledger)
  {
    run := [];
    for i := 0 to |ms|
      invariant run == Expanded(ms[..i], ledger)
    {
      assert ms[..i + 1][..i] == ms[..i];
      var added := LoadPred(ms[i], ledger);
      run := run + added;
    }
    assert ms[..|ms|] == ms;
  }

  /** The list after the tie-break (dependency.go:66-70): entry `i` gains
      entry `i - 1` as a dependency exactly when entry `i - 1` has no
      dependencies of its own; nothing else changes. */
  function TieBroken(es: seq<Migration>): (r: seq<Migration>)
    ensures |r| == |es|
    ensures forall i :: 0 <= i < |es| ==>
      r[i].id == es[i].id && r[i].migrate == es[i].migrate && r[i].rollback == es[i].rollback
    ensures forall i :: 0 <= i < |es| ==>
      r[i].deps == if 0 < i && es[i - 1].deps == [] then es[i].deps + [es[i - 1]] else es[i].deps
  {
    seq(|es|, i requires 0 <= i < |es| => TieBrokenAt(es, i))
  }

  /** Entry `i` after the tie-break. */
  function TieBrokenAt(es: seq<Migration>, i: nat): Migration
    requires i < |es|
  {
    if 0 < i && es[i - 1].deps == [] then es[i].(deps := es[i].deps + [es[i - 1]]) else es[i]
  }

  /** The dependency ids of an entry after the tie-break. */
  lemma TieBrokenDepIds(es: seq<Migration>, i: nat)
    requires i < |es|
    ensures DepIds(TieBroken(es)[i]) ==
      DepIds(es[i]) + (if 0 < i && es[i - 1].deps == [] then {es[i - 1].id} else {})
  {
    if 0 < i && es[i - 1].deps == [] {
      IdsSnoc(es[i].deps, es[i - 1]);
    }
  }

  lemma TieBrokenIds(es: seq<Migration>)
    ensures Ids(TieBroken(es)) == Ids(es)
  {
    var t := TieBroken(es);
    forall x | x in Ids(es) ensures x in Ids(t) {
      var i :| 0 <= i < |es| && es[i].id == x;
      assert t[i].id == x;
    }
  }

  /** The tie-break loop, in place, from the last entry down to the second. */
  method TieBreak(a: array<Migration>)
    modifies a
    ensures a[..] == TieBroken(old(a[..]))
  {
    ghost var es := a[..];
    var i := a.Length - 1;
    while i > 0
      invariant -1 <= i < a.Length && (i == -1 ==> a.Length == 0)
      invariant forall j :: i < j < a.Length ==> a[j] == TieBrokenAt(es, j)
      invariant forall j :: 0 <= j <= i ==> a[j] == es[j]
    {
      var m := a[i];
      if a[i - 1].deps == [] {
        m := m.(deps := m.deps + [a[i - 1]]);
      }
      assert m == TieBrokenAt(es, i);
      a[i] := m;
      i := i - 1;
    }
    TieBrokenByEntry(es, a[..]);
  }

  /** A list that agrees with TieBroken entry by entry is TieBroken. */
  lemma TieBrokenByEntry(es: seq<Migration>, s: seq<Migration>)
    requires |s| == |es| && (|es| > 0 ==> s[0] == es[0])
    requires forall j :: 0 < j < |s| ==> s[j] == TieBrokenAt(es, j)
    ensures s == TieBroken(es)
  {
  }

  /** The list resolveDependency hands to sort. */
  function MigrationsToRun(ms: seq<Migration>, ledger: set<string>): seq<Migration>
  {
    TieBroken(Expanded(ms, ledger))
  }

  /** resolveDependency (dependency.go:23-74) on a migration list and a
      ledger: the sorted list that becomes the new migration list and the
      drops, or the stuck ids when the survivors cannot be ordered. */
  method Resolve(ms: seq<Migration>, ledger: set<string>) returns (res: Result<(seq<Migration>, seq<Migration>), set<string>>)
    ensures res.Success? ==> SortsTo(MigrationsToRun(ms, ledger), res.value.0, res.value.1)
    ensures res.Failure? ==> Stuck(SurvivingGraph(MigrationsToRun(ms, ledger)), res.error)
    ensures res.Success? <==> Acyclic(SurvivingGraph(MigrationsToRun(ms, ledger)))
  {
    var expanded := Expand(ms, ledger);
    var a := new Migration[|expanded|](i requires 0 <= i < |expanded| => expanded[i]);
    assert a[..] == expanded;
    TieBreak(a);
    res := Sort(a[..]);
  }

  // ---------------------------------------------------------------------
  // What resolution promises end to end.
  // ---------------------------------------------------------------------

  /** The tie-break keeps input order: when entry `i - 1` had no
      dependencies and entry `i` is the first with its id, then wherever both
      are sorted, entry `i - 1`'s id comes first. */
  lemma TieBreakKeepsOrder(es: seq<Migration>, sorted: seq<Migration>, drops: seq<Migration>, i: nat, p: nat, q: nat)
    requires SortsTo(TieBroken(es), sorted, drops)
    requires 0 < i < |es| && es[i - 1].deps == []
    requires forall j :: 0 <= j < i ==> es[j].id != es[i].id
    requires p < |sorted| && q < |sorted| && sorted[p].id == es[i - 1].id && sorted[q].id == es[i].id
    ensures p < q
  {
    var t := TieBroken(es);
    CandidatesAreFirstOccurrences(t);
    assert es[i].id in Ids(t) by { assert t[i].id == es[i].id; }
    assert IndexOf(t, es[i].id) == i by {
      var j := IndexOf(t, es[i].id);
      assert t[j].id == es[j].id;
    }
    assert sorted[q] == SurvivingGraph(t)[sorted[q].id];
    assert sorted[q] == t[i];
    TieBrokenDepIds(es, i);
    assert sorted[p].id in DepIds(sorted[q]);
  }

  /** With distinct ids in the list, two expanded entries with the same id
      are the same value: the pending migration itself, or the placeholder
      of a recorded id. */
  lemma SameIdSameEntry(ms: seq<Migration>, ledger: set<string>, p: nat, q: nat)
    requires DistinctIds(ms)
    requires p < |Expanded(ms, ledger)| && q < |Expanded(ms, ledger)|
    requires Expanded(ms, ledger)[p].id == Expanded(ms, ledger)[q].id
    ensures Expanded(ms, ledger)[p] == Expanded(ms, ledger)[q]
  {
    var es := Expanded(ms, ledger);
    assert es[p] in es && es[q] in es;
    if es[p].id !in ledger {
      var a :| 0 <= a < |ms| && ms[a] == es[p];
      var b :| 0 <= b < |ms| && ms[b] == es[q];
      assert a == b;
    }
  }

  /** Some expanded entry with id `d` has only recorded dependencies. */
  ghost predicate RecordedOnly(es: seq<Migration>, ledger: set<string>, d: string)
  {
    exists r :: 0 <= r < |es| && es[r].id == d && DepIds(es[r]) <= ledger
  }

  /** The tie-broken dependencies of an entry whose own dependencies are all
      recorded each name an entry of the same kind. */
  lemma RecordedOnlyDeps(ms: seq<Migration>, ledger: set<string>, q: nat)
    requires q < |Expanded(ms, ledger)| && DepIds(Expanded(ms, ledger)[q]) <= ledger
    ensures forall d :: d in DepIds(MigrationsToRun(ms, ledger)[q]) ==> RecordedOnly(Expanded(ms, ledger), ledger, d)
  {
    var es := Expanded(ms, ledger);
    TieBrokenDepIds(es, q);
    forall d | d in DepIds(TieBroken(es)[q]) ensures RecordedOnly(es, ledger, d) {
      if d in DepIds(es[q]) {
        assert es[q] in es;
        var a :| 0 <= a < |ms| && ms[a] == es[q];
        assert Placeholder(d) in es;
        var r :| 0 <= r < |es| && es[r] == Placeholder(d);
        assert DepIds(es[r]) == {};
      } else {
        assert DepIds(es[q - 1]) == {};
      }
    }
  }

  /** The entries whose own dependencies are all recorded, together with
      the neighbours the tie-break adds, form a dependency-closed set. */
  lemma RecordedDepsClosed(ms: seq<Migration>, ledger: set<string>)
    requires DistinctIds(ms)
    ensures var es := Expanded(ms, ledger);
      Closed(Candidates(MigrationsToRun(ms, ledger)), set d | d in Ids(es) && RecordedOnly(es, ledger, d))
  {
    var es := Expanded(ms, ledger);
    var S := set d | d in Ids(es) && RecordedOnly(es, ledger, d);
    var t := TieBroken(es);
    var cands := Candidates(t);
    TieBrokenIds(es);
    CandidatesAreFirstOccurrences(t);
    forall k | k in S ensures k in cands && DepIds(cands[k]) <= S {
      var p :| 0 <= p < |es| && es[p].id == k && DepIds(es[p]) <= ledger;
      var q := IndexOf(t, k);
      assert t[q].id == es[q].id;
      SameIdSameEntry(ms, ledger, p, q);
      RecordedOnlyDeps(ms, ledger, q);
      forall d | d in DepIds(t[q]) ensures d in Ids(es) {
        var r :| 0 <= r < |es| && es[r].id == d && DepIds(es[r]) <= ledger;
      }
    }
  }

  /** A pending migration whose dependencies are all recorded in the ledger
      survives resolution: its dependencies come back as placeholders, and
      the tie-break only links it to entries that survive too. */
  lemma LedgerSatisfiedMigrationSurvives(ms: seq<Migration>, ledger: set<string>, i: nat)
    requires DistinctIds(ms) && i < |ms|
    requires ms[i].id !in ledger && DepIds(ms[i]) <= ledger
    ensures ms[i].id in SurvivorIds(MigrationsToRun(ms, ledger))
  {
    var es := Expanded(ms, ledger);
    var t := MigrationsToRun(ms, ledger);
    var S := set d | d in Ids(es) && RecordedOnly(es, ledger, d);
    RecordedDepsClosed(ms, ledger);
    SurvivorsAreGreatestClosed(Candidates(t), Candidates(t).Keys);
    assert ms[i] in es;
    var p :| 0 <= p < |es| && es[p] == ms[i];
    assert ms[i].id in Ids(es);
    assert RecordedOnly(es, ledger, ms[i].id);
  }

  /** A pending migration that depends on an id neither recorded nor in the
      list is dropped. */
  lemma UnknownDependencyDropsMigration(ms: seq<Migration>, ledger: set<string>, i: nat, d: string)
    requires DistinctIds(ms) && i < |ms| && ms[i].id !in ledger
    requires d in DepIds(ms[i]) && d !in ledger && d !in Ids(ms)
    ensures ms[i].id !in SurvivorIds(MigrationsToRun(ms, ledger))
  {
    var es := Expanded(ms, ledger);
    var t := MigrationsToRun(ms, ledger);
    TieBrokenIds(es);
    CandidatesAreFirstOccurrences(t);
    assert d !in Ids(es);
    assert ms[i] in es;
    var p :| 0 <= p < |es| && es[p] == ms[i];
    assert ms[i].id in Ids(es);
    var q := IndexOf(t, ms[i].id);
    assert t[q].id == es[q].id;
    SameIdSameEntry(ms, ledger, p, q);
    TieBrokenDepIds(es, q);
    MissingDependencyDropsDependent(t, ms[i].id, d);
  }
}
