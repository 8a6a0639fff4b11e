/** The list updaters of the bookmark component: the pure functions its
    state setters apply to the previous list, the id-uniqueness invariant,
    and what sequences of updates do to the list. */
module Reconcile {

  type Id = string

  /** One row of the `bookmarks` table as the client receives it. */
  datatype Bookmark = Bookmark(id: Id, userId: string, url: string, title: string, createdAt: string)

  /** `list.some((b) => b.id === id)`. */
  predicate HasId(list: seq<Bookmark>, id: Id)
    ensures HasId(list, id) <==> id in Ids(list)
  {
    exists b :: b in list && b.id == id
  }

  /** The ids present in a list. */
  ghost function Ids(list: seq<Bookmark>): set<Id> {
    set b | b in list :: b.id
  }

  /** No two entries of the list share an id: the head's id does not occur
      in the tail, recursively. */
  ghost predicate UniqueIds(list: seq<Bookmark>) {
    list == [] || (!HasId(list[1..], list[0].id) && UniqueIds(list[1..]))
  }

  /** `a` is `b` with some entries dropped and the rest in their order. */
  ghost predicate IsSubsequence(a: seq<Bookmark>, b: seq<Bookmark>)
    decreases |b|
  {
    a == [] ||
    (b != [] && ((a[0] == b[0] && IsSubsequence(a[1..], b[1..])) || IsSubsequence(a, b[1..])))
  }

  /** The updater for an inserted record, used by the change feed and by a
      successful add: prepend the record unless its id is already present. */
  function PrependIfAbsent(list: seq<Bookmark>, record: Bookmark): (r: seq<Bookmark>)
    ensures HasId(r, record.id)
    ensures HasId(list, record.id) ==> r == list
    ensures !HasId(list, record.id) ==> |r| == |list| + 1 && r[0] == record && r[1..] == list
    ensures Ids(r) == Ids(list) + {record.id}
    ensures UniqueIds(list) ==> UniqueIds(r)
  {
    if HasId(list, record.id) then list
    else
      var r := [record] + list;
      assert r[1..] == list;
      r
  }

  /** The updater for a removal, used by the change feed and by the
      optimistic delete: `list.filter((b) => b.id !== id)`. */
  function RemoveId(list: seq<Bookmark>, id: Id): (r: seq<Bookmark>)
    ensures !HasId(r, id)
    ensures forall b :: b in r <==> b in list && b.id != id
    ensures forall b: Bookmark :: b.id != id ==> multiset(r)[b] == multiset(list)[b]
    ensures IsSubsequence(r, list) && |r| <= |list|
    ensures !HasId(list, id) ==> r == list
    ensures UniqueIds(list) ==> UniqueIds(r)
  {
    if list == [] then []
    else
      var rest := RemoveId(list[1..], id);
      assert list == [list[0]] + list[1..];
      if list[0].id == id then rest
      else
        var r := [list[0]] + rest;
        assert r[1..] == rest;
        r
  }

  /** The ids left after a removal. */
  lemma RemoveIdIds(list: seq<Bookmark>, id: Id)
    ensures Ids(RemoveId(list, id)) == Ids(list) - {id}
  {
    var r := RemoveId(list, id);
    forall x | x in Ids(list) - {id} ensures x in Ids(r) {
      var b :| b in list && b.id == x;
      assert b in r;
    }
  }

  /** Delivering the same insert twice leaves the list as one delivery does. */
  lemma DuplicateInsertIdempotent(list: seq<Bookmark>, record: Bookmark)
    ensures PrependIfAbsent(PrependIfAbsent(list, record), record) == PrependIfAbsent(list, record)
  {
  }

  /** Removing twice is removing once. */
  lemma RemoveIdIdempotent(list: seq<Bookmark>, id: Id)
    ensures RemoveId(RemoveId(list, id), id) == RemoveId(list, id)
  {
  }

  /** An insert followed by a removal of the same id gives back the list
      without that id: the two updaters are inverse on a fresh id. */
  lemma {:induction false} RemoveAfterInsert(list: seq<Bookmark>, record: Bookmark)
    ensures RemoveId(PrependIfAbsent(list, record), record.id) == RemoveId(list, record.id)
    ensures !HasId(list, record.id) ==> RemoveId(PrependIfAbsent(list, record), record.id) == list
  {
    if !HasId(list, record.id) {
      var r := [record] + list;
      assert r[1..] == list;
    }
  }

  /** Updates about two different ids commute: an insert and a removal ... */
  lemma {:induction false} InsertRemoveCommute(list: seq<Bookmark>, record: Bookmark, id: Id)
    requires record.id != id
    ensures RemoveId(PrependIfAbsent(list, record), id) == PrependIfAbsent(RemoveId(list, id), record)
  {
    var rest := RemoveId(list, id);
    assert HasId(rest, record.id) <==> HasId(list, record.id) by {
      if HasId(list, record.id) {
        var b :| b in list && b.id == record.id;
        assert b in rest;
      }
    }
    if !HasId(list, record.id) {
      var r := [record] + list;
      assert r[1..] == list;
    }
  }

  /** ... and two removals. */
  lemma {:induction false} RemoveRemoveCommute(list: seq<Bookmark>, a: Id, b: Id)
    ensures RemoveId(RemoveId(list, a), b) == RemoveId(RemoveId(list, b), a)
  {
    if list != [] {
      RemoveRemoveCommute(list[1..], a, b);
    }
  }

  /** The pairwise reading of UniqueIds. */
  lemma {:induction false} UniqueIdsPairwise(list: seq<Bookmark>)
    ensures UniqueIds(list) <==> forall i, j :: 0 <= i < j < |list| ==> list[i].id != list[j].id
  {
    if list != [] {
      UniqueIdsPairwise(list[1..]);
      var t := list[1..];
      if UniqueIds(list) {
        forall i, j | 0 <= i < j < |list| ensures list[i].id != list[j].id {
          if i == 0 {
            assert list[j] == t[j - 1];
            assert list[j] in t;
          } else {
            assert list[i] == t[i - 1] && list[j] == t[j - 1];
          }
        }
      }
      if forall i, j :: 0 <= i < j < |list| ==> list[i].id != list[j].id {
        forall i, j | 0 <= i < j < |t| ensures t[i].id != t[j].id {
          assert t[i] == list[i + 1] && t[j] == list[j + 1];
        }
        forall b | b in t ensures b.id != list[0].id {
          var j :| 0 <= j < |t| && t[j] == b;
          assert list[j + 1] == b;
        }
      }
    }
  }

  /** The step that the failed-delete rollback applies: prepend the
      re-fetched record WITHOUT looking for its id. Uniqueness survives it
      only when the id is absent, and then the record occurs exactly once. */
  lemma RollbackKeepsUniqueIdsWhenAbsent(list: seq<Bookmark>, record: Bookmark)
    requires UniqueIds(list)
    ensures UniqueIds([record] + list) <==> !HasId(list, record.id)
    ensures !HasId(list, record.id) ==>
      forall i :: 0 <= i < |list| + 1 && ([record] + list)[i].id == record.id ==> i == 0
  {
    var r := [record] + list;
    assert r[1..] == list;
    if !HasId(list, record.id) {
      forall i | 1 <= i < |r| ensures r[i].id != record.id {
        assert r[i] == list[i - 1];
        assert r[i] in list;
      }
    }
  }

  /** Whereas a duplicate is produced when the id is present. */
  lemma RollbackCanDuplicate(list: seq<Bookmark>, record: Bookmark)
    requires record in list
    ensures !UniqueIds([record] + list)
  {
    assert ([record] + list)[1..] == list;
  }

  /** A delete that fails and is rolled back with the re-fetched row of the
      same id (which may differ from the list's stale entry in its other
      fields) restores the set of ids and uniqueness, but moves the row to
      the front. */
  lemma DeleteThenRollback(list: seq<Bookmark>, record: Bookmark)
    requires UniqueIds(list) && HasId(list, record.id)
    ensures var r := [record] + RemoveId(list, record.id);
      UniqueIds(r) && Ids(r) == Ids(list) && r[0] == record && |r| == |list|
  {
    var rest := RemoveId(list, record.id);
    var r := [record] + rest;
    assert r[1..] == rest;
    RemoveIdIds(list, record.id);
    var e :| e in list && e.id == record.id;
    CountOfId(list, e);
  }

  /** In a list with unique ids the entry with a given id is the only one,
      so the filter drops exactly one entry. */
  lemma {:induction false} CountOfId(list: seq<Bookmark>, record: Bookmark)
    requires UniqueIds(list) && record in list
    ensures |RemoveId(list, record.id)| == |list| - 1
  {
    if list[0] == record {
      assert list[0].id == record.id;
      assert RemoveId(list, record.id) == RemoveId(list[1..], record.id);
    } else {
      assert list == [list[0]] + list[1..];
      assert record in list[1..];
      assert list[0].id != record.id by {
        assert record in list[1..] && record.id == record.id;
      }
      CountOfId(list[1..], record);
    }
  }

  // ---------------------------------------------------------------------
  // Interleavings: every source of change applied in some order

  /** One update to the list, from whichever source it comes. */
  datatype Step =
    | RemoteInsert(record: Bookmark)     // change-feed INSERT
    | RemoteDelete(id: Id)               // change-feed DELETE
    | AddSucceeded(record: Bookmark)     // the add handler's insert returned a row
    | OptimisticDelete(id: Id)           // the delete handler's first update
    | Rollback(record: Bookmark)         // the delete handler's re-fetched row after a failure

  /** What one step does to the list: the feed insert and the add success
      prepend if absent, the feed delete and the optimistic delete filter,
      and the rollback prepends with no check. */
  function Apply(list: seq<Bookmark>, step: Step): (r: seq<Bookmark>)
    ensures Ids(r) == StepIds(Ids(list), step)
    ensures |r| <= |list| + 1
    ensures !step.Rollback? && UniqueIds(list) ==> UniqueIds(r)
    ensures step.Rollback? ==> |r| == |list| + 1 && r[0] == step.record && r[1..] == list
  {
    match step
    case RemoteInsert(b) => PrependIfAbsent(list, b)
    case RemoteDelete(id) => RemoveIdIds(list, id); RemoveId(list, id)
    case AddSucceeded(b) => PrependIfAbsent(list, b)
    case OptimisticDelete(id) => RemoveIdIds(list, id); RemoveId(list, id)
    case Rollback(b) =>
      var r := [b] + list;
      assert r[1..] == list;
      assert Ids(r) == Ids(list) + {b.id};
      r
  }

  /** The steps of a trace applied in order; each adds at most one entry. */
  function Run(list: seq<Bookmark>, trace: seq<Step>): (r: seq<Bookmark>)
    ensures |r| <= |list| + |trace|
    decreases |trace|
  {
    if trace == [] then list else Run(Apply(list, trace[0]), trace[1..])
  }

  /** A step read on sets of ids: inserts add, removals remove. */
  ghost function StepIds(ids: set<Id>, step: Step): set<Id> {
    match step
    case RemoteInsert(b) => ids + {b.id}
    case AddSucceeded(b) => ids + {b.id}
    case Rollback(b) => ids + {b.id}
    case RemoteDelete(id) => ids - {id}
    case OptimisticDelete(id) => ids - {id}
  }

  /** A trace read on sets of ids. */
  ghost function RunIds(ids: set<Id>, trace: seq<Step>): set<Id>
    decreases |trace|
  {
    if trace == [] then ids else RunIds(StepIds(ids, trace[0]), trace[1..])
  }

  /** The ids a trace inserts (feed inserts, add successes, rollbacks). */
  ghost function InsertedIds(trace: seq<Step>): set<Id>
    decreases |trace|
  {
    if trace == [] then {}
    else
      var s := trace[0];
      (if s.RemoteInsert? || s.AddSucceeded? || s.Rollback? then {s.record.id} else {})
        + InsertedIds(trace[1..])
  }

  /** The ids a trace removes (feed deletes, optimistic deletes). */
  ghost function DeletedIds(trace: seq<Step>): set<Id>
    decreases |trace|
  {
    if trace == [] then {}
    else
      var s := trace[0];
      (if s.RemoteDelete? || s.OptimisticDelete? then {s.id} else {})
        + DeletedIds(trace[1..])
  }

  /** When no id is both inserted and removed by the trace, its set-level
      reading is the starting ids plus the inserted ones minus the removed
      ones, which does not depend on the order of the steps. */
  lemma {:induction false} RunIdsOfDisjointTrace(ids: set<Id>, trace: seq<Step>)
    requires InsertedIds(trace) !! DeletedIds(trace)
    ensures RunIds(ids, trace) == (ids + InsertedIds(trace)) - DeletedIds(trace)
    decreases |trace|
  {
    if trace != [] {
      var rest := trace[1..];
      assert InsertedIds(rest) <= InsertedIds(trace) && DeletedIds(rest) <= DeletedIds(trace);
      RunIdsOfDisjointTrace(StepIds(ids, trace[0]), rest);
    }
  }

  /** Whatever the interleaving, rollback included, the ids in the list are
      exactly those the set-level reading of the trace predicts. */
  lemma {:induction false} RunRefinesIds(list: seq<Bookmark>, trace: seq<Step>)
    ensures Ids(Run(list, trace)) == RunIds(Ids(list), trace)
    decreases |trace|
  {
    if trace != [] {
      RunRefinesIds(Apply(list, trace[0]), trace[1..]);
    }
  }

  /** For a trace over disjoint inserted and removed ids, whatever the
      interleaving, the list ends holding exactly the snapshot's ids plus
      the inserted ones minus the removed ones. */
  lemma DisjointTraceIds(list: seq<Bookmark>, trace: seq<Step>)
    requires InsertedIds(trace) !! DeletedIds(trace)
    ensures Ids(Run(list, trace)) == (Ids(list) + InsertedIds(trace)) - DeletedIds(trace)
  {
    RunRefinesIds(list, trace);
    RunIdsOfDisjointTrace(Ids(list), trace);
  }

  /** Every interleaving without a rollback keeps the ids pairwise distinct. */
  lemma {:induction false} RunKeepsUniqueIds(list: seq<Bookmark>, trace: seq<Step>)
    requires UniqueIds(list)
    requires forall i :: 0 <= i < |trace| ==> !trace[i].Rollback?
    ensures UniqueIds(Run(list, trace))
    decreases |trace|
  {
    if trace != [] {
      RunKeepsUniqueIds(Apply(list, trace[0]), trace[1..]);
    }
  }
}
