// The sort test cases of dependency_test.go, stated over every output the
// sort may produce, and an engine session over two migrations.

module Oracles {
  import opened Migrations
  import opened Dependency
  import Engine

  /** A dependency written as a bare reference: only the id is set. */
  function Ref(id: string): Migration
  {
    Migration(id, [], Absent, Absent)
  }

  // The first test list: "2" depends on "1" and comes first.
  const First: Migration := Migration("1", [], Custom, Custom)
  const Second: Migration := Migration("2", [Ref("1")], Custom, Custom)

  /** Nothing in the first list is a duplicate or unsatisfiable. */
  lemma FirstListSurvives()
    ensures Duplicates([Second, First]) == []
    ensures SurvivingGraph([Second, First]) == map["1" := First, "2" := Second]
  {
    var ms := [Second, First];
    assert DepIds(Second) == {"1"} by { assert Second.deps[0].id == "1"; }
    assert DistinctIds(ms);
    DistinctListKeepsAll(ms);
    var cands := Candidates(ms);
    assert cands.Keys == {"1", "2"} by { assert ms[0].id == "2" && ms[1].id == "1"; }
    assert Closed(cands, cands.Keys);
    SurvivorsAreGreatestClosed(cands, cands.Keys);
  }

  /** The only order of "1" <- "2" along their dependency. */
  lemma PairOrder(graph: map<string, Migration>, sorted: seq<Migration>)
    requires graph == map["1" := First, "2" := Second]
    requires IsTopoOrder(graph, sorted)
    ensures sorted == [First, Second]
  {
    DistinctIdsCount(sorted);
    assert |sorted| == 2;
    assert "2" in Ids(sorted);
    var q2 :| 0 <= q2 < |sorted| && sorted[q2].id == "2";
    assert DepIds(Second) == {"1"} by { assert Second.deps[0].id == "1"; }
    DependencyComesEarlier(graph, sorted, q2, "1");
    var q1 :| 0 <= q1 < q2 && sorted[q1].id == "1";
    assert sorted[0] == graph["1"] && sorted[1] == graph["2"];
  }

  /** Sorting ["2" depends on "1", "1"] yields the full migrations "1" then
      "2", drops nothing, and the ordering always exists. */
  lemma SortPlacesDependencyFirst(sorted: seq<Migration>, drops: seq<Migration>)
    requires SortsTo([Second, First], sorted, drops)
    ensures sorted == [First, Second] && drops == []
    ensures sorted[0].migrate != Absent && sorted[1].migrate != Absent
    ensures Acyclic(SurvivingGraph([Second, First]))
  {
    FirstListSurvives();
    var graph := SurvivingGraph([Second, First]);
    PairOrder(graph, sorted);
    assert |drops| == 0 by {
      assert Ids(drops) == {};
      DistinctIdsCount(drops);
    }
    OrderedGraphIsAcyclic(graph, sorted);
  }

  /** A migration with no steps whose dependencies are bare references to
      `deps`. */
  function Node(id: string, deps: seq<string>): (m: Migration)
    ensures forall x :: x in DepIds(m) <==> x in deps
  {
    var m := Migration(id, seq(|deps|, i requires 0 <= i < |deps| => Ref(deps[i])), Absent, Absent);
    assert DepIdSeq(m) == deps;
    m
  }

  // The second test list: "3" depends on the unknown "0", and every
  // "3.x" depends, directly or not, on "3".
  const N3: Migration := Node("3", ["0"])
  const N1: Migration := Node("1", [])
  const N4: Migration := Node("4", ["2"])
  const N34: Migration := Node("3.4", ["3.3", "4"])
  const N2: Migration := Node("2", ["1"])
  const N31: Migration := Node("3.1", ["3", "4"])
  const N33: Migration := Node("3.3", ["3", "4"])
  const N32: Migration := Node("3.2", ["3.1", "4"])
  const Tangled: seq<Migration> := [N3, N1, N4, N34, N2, N31, N33, N32]

  lemma TangledIds()
    ensures Ids(Tangled) == {"3", "1", "4", "3.4", "2", "3.1", "3.3", "3.2"}
    ensures DistinctIds(Tangled)
  {
    assert Tangled[0].id == "3" && Tangled[1].id == "1" && Tangled[2].id == "4" && Tangled[3].id == "3.4";
    assert Tangled[4].id == "2" && Tangled[5].id == "3.1" && Tangled[6].id == "3.3" && Tangled[7].id == "3.2";
  }

  /** Each migration of the second list is its own id's candidate. */
  lemma TangledCandidates()
    ensures var cands := Candidates(Tangled);
      cands.Keys == {"3", "1", "4", "3.4", "2", "3.1", "3.3", "3.2"} &&
      cands["1"] == N1 && cands["2"] == N2 && cands["4"] == N4 &&
      cands["3"] == N3 && cands["3.1"] == N31 && cands["3.2"] == N32 &&
      cands["3.3"] == N33 && cands["3.4"] == N34
  {
    TangledIds();
    DistinctListKeepsAll(Tangled);
    assert Tangled[0] == N3 && Tangled[1] == N1 && Tangled[2] == N4 && Tangled[3] == N34;
    assert Tangled[4] == N2 && Tangled[5] == N31 && Tangled[6] == N33 && Tangled[7] == N32;
  }

  /** "1", "2" and "4" depend only on each other. */
  lemma KeptPartClosed()
    ensures Closed(Candidates(Tangled), {"1", "2", "4"})
  {
    TangledCandidates();
    var cands := Candidates(Tangled);
    var kept: set<string> := {"1", "2", "4"};
    forall k | k in kept ensures DepIds(cands[k]) <= kept {
      if k == "1" {
        assert cands[k] == N1;
      } else if k == "2" {
        assert cands[k] == N2;
        assert forall x :: x in DepIds(N2) ==> x == "1";
      } else {
        assert cands[k] == N4;
        assert forall x :: x in DepIds(N4) ==> x == "2";
      }
    }
  }

  /** "1", "2" and "4" survive removal. */
  lemma TangledKept()
    ensures {"1", "2", "4"} <= SurvivorIds(Tangled)
  {
    TangledCandidates();
    KeptPartClosed();
    var cands := Candidates(Tangled);
    SurvivorsAreGreatestClosed(cands, cands.Keys);
  }

  /** Removal reaches "3" through the unknown "0". */
  lemma TangledRemovesRoot()
    ensures "3" !in SurvivorIds(Tangled)
  {
    TangledCandidates();
    var cands := Candidates(Tangled);
    assert "0" !in cands.Keys;
    assert "0" !in SurvivorIds(Tangled) by { assert SurvivorIds(Tangled) <= cands.Keys; }
    assert "0" in DepIds(cands["3"]) by { assert cands["3"] == N3; }
    MissingDependencyDropsDependent(Tangled, "3", "0");
  }

  /** ... then "3.1" and "3.3", which depend on "3" ... */
  lemma TangledRemovesChildren()
    ensures "3.1" !in SurvivorIds(Tangled) && "3.3" !in SurvivorIds(Tangled)
  {
    TangledCandidates();
    TangledRemovesRoot();
    assert "3" in DepIds(N31) && "3" in DepIds(N33);
    MissingDependencyDropsDependent(Tangled, "3.1", "3");
    MissingDependencyDropsDependent(Tangled, "3.3", "3");
  }

  /** ... then "3.2" and "3.4", which depend on those. */
  lemma TangledRemoved()
    ensures SurvivorIds(Tangled) !! {"3", "3.1", "3.2", "3.3", "3.4"}
  {
    TangledCandidates();
    TangledRemovesRoot();
    TangledRemovesChildren();
    assert "3.1" in DepIds(N32) && "3.3" in DepIds(N34);
    MissingDependencyDropsDependent(Tangled, "3.2", "3.1");
    MissingDependencyDropsDependent(Tangled, "3.4", "3.3");
  }

  /** The survivors of the second list are exactly "1", "2" and "4". */
  lemma TangledSurvivorIds()
    ensures SurvivorIds(Tangled) == {"1", "2", "4"}
  {
    TangledCandidates();
    TangledKept();
    TangledRemoved();
    assert SurvivorIds(Tangled) <= Candidates(Tangled).Keys;
  }

  lemma TangledGraph()
    ensures SurvivingGraph(Tangled) == map["1" := N1, "2" := N2, "4" := N4]
  {
    TangledCandidates();
    TangledSurvivorIds();
    var g := SurvivingGraph(Tangled);
    assert g.Keys == {"1", "2", "4"};
    assert g["1"] == N1 && g["2"] == N2 && g["4"] == N4;
  }

  /** The only order of "1" <- "2" <- "4" along their dependencies. */
  lemma ChainOrder(graph: map<string, Migration>, sorted: seq<Migration>)
    requires graph == map["1" := N1, "2" := N2, "4" := N4]
    requires IsTopoOrder(graph, sorted)
    ensures sorted == [N1, N2, N4]
  {
    DistinctIdsCount(sorted);
    assert |sorted| == 3;
    assert "2" in Ids(sorted) && "4" in Ids(sorted);
    var q2 :| 0 <= q2 < |sorted| && sorted[q2].id == "2";
    var q4 :| 0 <= q4 < |sorted| && sorted[q4].id == "4";
    assert "1" in DepIds(N2) && "2" in DepIds(N4);
    DependencyComesEarlier(graph, sorted, q2, "1");
    var q1 :| 0 <= q1 < q2 && sorted[q1].id == "1";
    DependencyComesEarlier(graph, sorted, q4, "2");
    var r :| 0 <= r < q4 && sorted[r].id == "2";
    assert r == q2;
    assert sorted[0] == graph["1"] && sorted[1] == graph["2"] && sorted[2] == graph["4"];
  }

  /** Sorting the second list yields exactly "1", "2", "4", in that order,
      and the ordering always exists. */
  lemma SortKeepsChainInOrder(sorted: seq<Migration>, drops: seq<Migration>)
    requires SortsTo(Tangled, sorted, drops)
    ensures sorted == [N1, N2, N4]
    ensures Acyclic(SurvivingGraph(Tangled))
  {
    TangledGraph();
    ChainOrder(SurvivingGraph(Tangled), sorted);
    OrderedGraphIsAcyclic(SurvivingGraph(Tangled), sorted);
  }

  /** Sorting the second list drops "3" and all of "3.1" to "3.4". */
  lemma SortDropsTransitiveDependents(sorted: seq<Migration>, drops: seq<Migration>)
    requires SortsTo(Tangled, sorted, drops)
    ensures "3" in Ids(drops) && "3.1" in Ids(drops) && "3.2" in Ids(drops)
    ensures "3.3" in Ids(drops) && "3.4" in Ids(drops)
  {
    TangledIds();
    DistinctListDrops(Tangled, sorted, drops);
    TangledRemoved();
  }

  /** The session of TestMigration in gormigrate_test.go against the engine
      as written: migrate two migrations, migrate again, then call
      RollbackLast twice. Both rollbacks target the last list element, so the
      first migration stays recorded. */
  method RollbackLastTwiceSession() returns (first: seq<string>, second: seq<string>, rolledBack: set<string>, errs: seq<Option<Engine.Error>>)
    ensures first == ["201608301400", "201608301430"] && second == []
    ensures rolledBack == {"201608301400"}
    ensures errs == [None, None, None, None]
  {
    var people := Migration("201608301400", [], Custom, Custom);
    var pets := Migration("201608301430", [], Custom, Custom);
    var ok := Engine.Env(true, true, {}, {}, {}, {});
    var g := new Engine.Gormigrate([people, pets], {}, false);
    var e1, e2, e3, e4;
    var both := [people, pets];
    assert both[1..] == [pets] && [pets][1..] == [];
    assert Engine.RunSteps({people.id, pets.id}, [], ok).ran == [];
    assert {people.id} + {pets.id} == {people.id, pets.id};
    assert Engine.RunSteps({people.id}, [pets], ok).ran == [pets.id];
    var none: set<string> := {};
    assert none + {people.id} == {people.id};
    assert Engine.RunSteps(none, both, ok).ran == [people.id, pets.id];
    first, e1 := g.Migrate(ok);
    second, e2 := g.Migrate(ok);
    e3 := g.RollbackLast(ok);
    e4 := g.RollbackLast(ok);
    rolledBack := g.ledger;
    errs := [e1, e2, e3, e4];
  }
}
