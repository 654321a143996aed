// The migration record shared by the dependency resolver and the execution engine.

module Migrations {

  /** One of a migration's callbacks, seen from outside: not given (a nil
      function value), user code whose outcome the caller decides, or the
      no-op forward step given to stand-ins loaded from the ledger. */
  datatype Step = Absent | Custom | NoOp

  /** A migration: its id, the migrations it depends on (full values or
      bare references that carry only an id), its forward step and its
      rollback step. */
  datatype Migration = Migration(id: string, deps: seq<Migration>, migrate: Step, rollback: Step)

  datatype Option<T> = None | Some(value: T)

  datatype Result<T, E> = Success(value: T) | Failure(error: E)

  /** The stand-in built from a ledger row: nothing but the id is loaded,
      the forward step is the no-op step and there is no rollback. */
  function Placeholder(id: string): Migration
  {
    Migration(id, [], NoOp, Absent)
  }

  /** The ids of a list of migrations. */
  function Ids(s: seq<Migration>): set<string>
  {
    set i | 0 <= i < |s| :: s[i].id
  }

  /** The ids a migration depends on. */
  function DepIds(m: Migration): set<string>
  {
    Ids(m.deps)
  }

  /** No id occurs twice in the list. */
  predicate DistinctIds(s: seq<Migration>)
  {
    forall i, j :: 0 <= i < j < |s| ==> s[i].id != s[j].id
  }

  lemma IdsAppend(s: seq<Migration>, t: seq<Migration>)
    ensures Ids(s + t) == Ids(s) + Ids(t)
  {
    forall x | x in Ids(s + t) ensures x in Ids(s) + Ids(t) {
      var i :| 0 <= i < |s + t| && (s + t)[i].id == x;
      if i >= |s| { assert t[i - |s|].id == x; }
    }
    forall x | x in Ids(s) + Ids(t) ensures x in Ids(s + t) {
      if x in Ids(s) {
        var i :| 0 <= i < |s| && s[i].id == x;
        assert (s + t)[i].id == x;
      } else {
        var i :| 0 <= i < |t| && t[i].id == x;
        assert (s + t)[|s| + i].id == x;
      }
    }
  }

  lemma IdsSnoc(s: seq<Migration>, m: Migration)
    ensures Ids(s + [m]) == Ids(s) + {m.id}
  {
    IdsAppend(s, [m]);
    assert [m][0].id == m.id;
    assert Ids([m]) == {m.id};
  }

  lemma IdsCons(m: Migration, s: seq<Migration>)
    ensures Ids([m] + s) == {m.id} + Ids(s)
  {
    IdsAppend([m], s);
    assert [m][0].id == m.id;
    assert Ids([m]) == {m.id};
  }

  /** A list without repeated ids has as many ids as elements. */
  lemma {:induction false} DistinctIdsCount(s: seq<Migration>)
    requires DistinctIds(s)
    ensures |Ids(s)| == |s|
    decreases |s|
  {
    if s != [] {
      var p, m := s[..|s| - 1], s[|s| - 1];
      assert s == p + [m];
      IdsSnoc(p, m);
      DistinctIdsCount(p);
      assert m.id !in Ids(p);
    }
  }
}
