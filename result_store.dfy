/**
 * The persistent side of the quiz workflow in app.py: the `results` table,
 * the `deleted_results` table, and the session's one-slot undo buffer
 * `deleted_quiz_id`. Each route runs its inserts and deletes in one
 * transaction and commits once, so each operation here is one atomic step.
 */
module ResultStore {
  import opened Wrappers
  import opened Tables
  import opened QuizParser
  import opened Grading

  /** The two tables and the undo slot, as values. */
  datatype Db = Db(active: seq<Row>, deleted: seq<Row>, slot: Option<int>)

  /** `not quiz_id`: the slot is missing, or holds the falsy quiz id 0. */
  predicate NothingToUndo(slot: Option<int>) {
    slot == None || slot == Some(0)
  }

  /**
   * The largest integer SQLite stores; Python's sqlite3 refuses to bind a
   * larger one and raises before the statement runs.
   */
  const MaxSqlInt: int := 0x7FFF_FFFF_FFFF_FFFF

  /** `delete_quiz`: copy the group to `deleted_results`, delete it from `results`, remember it. */
  function AfterDelete(db: Db, user: int, quizId: int): Db {
    Db(Remove(db.active, user, quizId), db.deleted + Select(db.active, user, quizId), Some(quizId))
  }

  /** `undo_delete`: move the remembered group back to `results` and forget it, if there is one. */
  function AfterUndo(db: Db, user: int): Db {
    if NothingToUndo(db.slot) then db
    else
      var q := db.slot.value;
      Db(db.active + Select(db.deleted, user, q), Remove(db.deleted, user, q), None)
  }

  /** A committed grading: its rows are appended to `results`. */
  function AfterGrade(db: Db, rows: seq<Row>): Db {
    db.(active := db.active + rows)
  }

  /** No (user, quiz) group has rows in both tables at once. */
  predicate Unsplit(db: Db) {
    forall r, s :: r in db.active && s in db.deleted ==> !(r.user == s.user && r.quizId == s.quizId)
  }

  // ---------------------------------------------------------------------
  // Delete

  /**
   * After a delete the group is gone from `results`, `deleted_results` has
   * gained exactly its rows, no row is lost or duplicated, and the slot
   * holds the deleted quiz id.
   */
  lemma DeleteMovesGroup(db: Db, user: int, quizId: int)
    ensures var db' := AfterDelete(db, user, quizId);
      Select(db'.active, user, quizId) == [] &&
      Select(db'.deleted, user, quizId) == Select(db.deleted, user, quizId) + Select(db.active, user, quizId) &&
      db'.slot == Some(quizId) &&
      multiset(db'.active) + multiset(db'.deleted) == multiset(db.active) + multiset(db.deleted)
  {
    SelectAfter(db.active, user, quizId, user, quizId);
    SelectAppend(db.deleted, Select(db.active, user, quizId), user, quizId);
    SelectRemovePartition(db.active, user, quizId);
  }

  /** A delete leaves every other group as it was, in both tables. */
  lemma DeleteKeepsOtherGroups(db: Db, user: int, quizId: int, u: int, q: int)
    requires !(u == user && q == quizId)
    ensures Select(AfterDelete(db, user, quizId).active, u, q) == Select(db.active, u, q)
    ensures Select(AfterDelete(db, user, quizId).deleted, u, q) == Select(db.deleted, u, q)
  {
    SelectAfter(db.active, user, quizId, u, q);
    SelectAppend(db.deleted, Select(db.active, user, quizId), u, q);
  }

  /**
   * The whole route: a quiz id too large to bind makes the first statement
   * raise, so neither the tables nor the slot change.
   */
  function DeleteRoute(db: Db, user: int, quizId: int): Db {
    if quizId > MaxSqlInt then db else AfterDelete(db, user, quizId)
  }

  /**
   * A delete that raises leaves the earlier slot in place: after deleting
   * quiz `q` and then trying an id too large to bind, undo still restores `q`.
   */
  lemma OversizedDeleteKeepsSlot(db: Db, user: int, q: int, big: int)
    requires q != 0 && big > MaxSqlInt
    ensures var mid := AfterDelete(db, user, q);
      DeleteRoute(mid, user, big) == mid &&
      AfterUndo(DeleteRoute(mid, user, big), user).active == mid.active + Select(mid.deleted, user, q)
  {
  }

  /** A delete keeps the tables unsplit. */
  lemma DeleteKeepsUnsplit(db: Db, user: int, quizId: int)
    requires Unsplit(db)
    ensures Unsplit(AfterDelete(db, user, quizId))
  {
    var db' := AfterDelete(db, user, quizId);
    forall r, s | r in db'.active && s in db'.deleted
      ensures !(r.user == s.user && r.quizId == s.quizId)
    {
      Members(db.active, user, quizId, r);
      if s !in db.deleted {
        Members(db.active, user, quizId, s);
      }
    }
  }

  // ---------------------------------------------------------------------
  // Undo

  /** With nothing (or quiz id 0) in the slot, undo changes nothing. */
  lemma UndoWithoutSlot(db: Db, user: int)
    requires NothingToUndo(db.slot)
    ensures AfterUndo(db, user) == db
  {
  }

  /**
   * Otherwise every deleted row of the user's remembered group moves back to
   * `results`, `deleted_results` keeps none of them, no row is lost or
   * duplicated, and the slot is cleared.
   */
  lemma UndoMovesGroupBack(db: Db, user: int)
    requires !NothingToUndo(db.slot)
    ensures var q := db.slot.value; var db' := AfterUndo(db, user);
      Select(db'.deleted, user, q) == [] &&
      Select(db'.active, user, q) == Select(db.active, user, q) + Select(db.deleted, user, q) &&
      db'.slot == None &&
      multiset(db'.active) + multiset(db'.deleted) == multiset(db.active) + multiset(db.deleted)
  {
    var q := db.slot.value;
    SelectAfter(db.deleted, user, q, user, q);
    SelectAppend(db.active, Select(db.deleted, user, q), user, q);
    SelectRemovePartition(db.deleted, user, q);
  }

  /** An undo leaves every group but the restored one as it was, in both tables. */
  lemma UndoKeepsOtherGroups(db: Db, user: int, u: int, q: int)
    requires !NothingToUndo(db.slot) && !(u == user && q == db.slot.value)
    ensures Select(AfterUndo(db, user).active, u, q) == Select(db.active, u, q)
    ensures Select(AfterUndo(db, user).deleted, u, q) == Select(db.deleted, u, q)
  {
    var q0 := db.slot.value;
    SelectAfter(db.deleted, user, q0, u, q);
    SelectAppend(db.active, Select(db.deleted, user, q0), u, q);
  }

  /** Undo clears the slot, so undoing twice in a row restores once. */
  lemma UndoIdempotent(db: Db, user: int, user': int)
    ensures AfterUndo(AfterUndo(db, user), user') == AfterUndo(db, user)
  {
  }

  /** An undo keeps the tables unsplit. */
  lemma UndoKeepsUnsplit(db: Db, user: int)
    requires Unsplit(db)
    ensures Unsplit(AfterUndo(db, user))
  {
    if !NothingToUndo(db.slot) {
      var q := db.slot.value;
      var db' := AfterUndo(db, user);
      forall r, s | r in db'.active && s in db'.deleted
        ensures !(r.user == s.user && r.quizId == s.quizId)
      {
        Members(db.deleted, user, q, s);
        if r !in db.active {
          Members(db.deleted, user, q, r);
        }
      }
    }
  }

  // ---------------------------------------------------------------------
  // Delete followed by undo

  /**
   * Deleting a quiz and then undoing brings back exactly its rows:
   * `deleted_results` is as before, `results` holds the same rows as before
   * (the restored ones now at its end), and the slot is empty.
   */
  lemma DeleteThenUndoRestores(db: Db, user: int, quizId: int)
    requires quizId != 0
    requires Select(db.deleted, user, quizId) == []
    ensures var db' := AfterUndo(AfterDelete(db, user, quizId), user);
      db'.deleted == db.deleted && db'.slot == None &&
      multiset(db'.active) == multiset(db.active)
  {
    var mid := AfterDelete(db, user, quizId);
    var g := Select(db.active, user, quizId);
    assert Select(mid.deleted, user, quizId) == g by {
      SelectAppend(db.deleted, g, user, quizId);
      SelectAfter(db.active, user, quizId, user, quizId);
      assert [] + g == g;
    }
    assert Remove(mid.deleted, user, quizId) == db.deleted by {
      RemoveAppend(db.deleted, g, user, quizId);
      NoGroupRemoved(db.deleted, user, quizId);
      WholeGroupRemoved(db.active, user, quizId);
      assert db.deleted + [] == db.deleted;
    }
    assert AfterUndo(mid, user) == Db(Remove(db.active, user, quizId) + g, db.deleted, None);
    assert multiset(Remove(db.active, user, quizId) + g) == multiset(db.active) by {
      SelectRemovePartition(db.active, user, quizId);
    }
  }

  /** Deleting a quiz and then undoing leaves every group of `results` as it was. */
  lemma DeleteThenUndoGroups(db: Db, user: int, quizId: int, u: int, q: int)
    requires quizId != 0
    requires Select(db.deleted, user, quizId) == []
    ensures Select(AfterUndo(AfterDelete(db, user, quizId), user).active, u, q) == Select(db.active, u, q)
  {
    var mid := AfterDelete(db, user, quizId);
    if u == user && q == quizId {
      DeleteMovesGroup(db, user, quizId);
      UndoMovesGroupBack(mid, user);
    } else {
      DeleteKeepsOtherGroups(db, user, quizId, u, q);
      UndoKeepsOtherGroups(mid, user, u, q);
    }
  }

  /**
   * The quiz id 0 is falsy: deleting quiz 0 cannot be undone, its rows stay
   * in `deleted_results`.
   */
  lemma QuizZeroCannotBeUndone(db: Db, user: int)
    ensures AfterUndo(AfterDelete(db, user, 0), user) == AfterDelete(db, user, 0)
  {
  }

  /**
   * The undo buffer has one slot: after deleting quiz `q1` and then quiz
   * `q2`, an undo restores `q2` only; `q1` stays deleted.
   */
  lemma OneSlotUndo(db: Db, user: int, q1: int, q2: int)
    requires q1 != q2 && q2 != 0
    ensures var db' := AfterUndo(AfterDelete(AfterDelete(db, user, q1), user, q2), user);
      Select(db'.active, user, q1) == [] &&
      Select(db'.deleted, user, q1) == Select(db.deleted, user, q1) + Select(db.active, user, q1) &&
      Select(db'.deleted, user, q2) == []
  {
    var d1 := AfterDelete(db, user, q1);
    var d2 := AfterDelete(d1, user, q2);
    DeleteMovesGroup(db, user, q1);
    DeleteMovesGroup(d1, user, q2);
    UndoMovesGroupBack(d2, user);
    DeleteKeepsOtherGroups(d1, user, q2, user, q1);
    UndoKeepsOtherGroups(d2, user, user, q1);
  }

  // ---------------------------------------------------------------------
  // Grading

  /**
   * Committing the rows of a grading keeps the tables unsplit, provided the
   * graded quiz has no deleted rows.
   */
  lemma GradeKeepsUnsplit(db: Db, rows: seq<Row>, user: int, quizId: int)
    requires Unsplit(db)
    requires forall r :: r in rows ==> InGroup(r, user, quizId)
    requires Select(db.deleted, user, quizId) == []
    ensures Unsplit(AfterGrade(db, rows))
  {
    forall r, s | r in db.active + rows && s in db.deleted
      ensures !(r.user == s.user && r.quizId == s.quizId)
    {
      Members(db.deleted, user, quizId, s);
    }
  }

  /**
   * The session keeps its quiz and quiz id after grading, so submitting the
   * same quiz again after deleting its results leaves the group split
   * across the two tables.
   */
  lemma ResubmitAfterDeleteSplits(db: Db, rows: seq<Row>, user: int, quizId: int)
    requires Select(db.active, user, quizId) != []
    requires rows != [] && forall r :: r in rows ==> InGroup(r, user, quizId)
    ensures !Unsplit(AfterGrade(AfterDelete(db, user, quizId), rows))
  {
    var g := Select(db.active, user, quizId);
    var mid := AfterDelete(db, user, quizId);
    assert g[0] in g;
    Members(db.active, user, quizId, g[0]);
    assert g[0] in mid.deleted && InGroup(g[0], user, quizId);
    assert rows[0] in AfterGrade(mid, rows).active && InGroup(rows[0], user, quizId);
  }

  /** The outcome of a `POST /quiz`. */
  datatype Submission =
    | NoQuiz                       // no quiz in the session: redirect, nothing written
    | Recorded(rows: seq<Row>)     // every row inserted and committed
    | Aborted(error: GradeError)   // the loop raised: nothing committed

  // ---------------------------------------------------------------------
  // The listing on the home page

  /** One quiz on the home page: its id, topic, and score. */
  datatype Entry = Entry(id: int, topic: string, correct: nat, total: nat)

  /** Each quiz id of the user's rows carries a single topic. */
  predicate OneTopicPerQuiz(rows: seq<Row>, user: int) {
    forall r, s :: r in rows && s in rows && r.user == user && s.user == user && r.quizId == s.quizId ==>
      r.topic == s.topic
  }

  /**
   * When every quiz has one topic, which grading guarantees for the rows it
   * writes, the distinct (quiz id, topic) pairs have distinct quiz ids: one
   * listing entry per quiz.
   */
  lemma OneEntryPerQuiz(rows: seq<Row>, user: int)
    requires OneTopicPerQuiz(rows, user)
    ensures var ks := DistinctKeys(rows, user);
      forall i, j :: 0 <= i < j < |ks| ==> ks[i].quizId != ks[j].quizId
  {
    var ks := DistinctKeys(rows, user);
    forall i, j | 0 <= i < j < |ks| ensures ks[i].quizId != ks[j].quizId {
      assert ks[i] in KeySet(rows, user) && ks[j] in KeySet(rows, user);
      var r :| r in rows && r.user == user && KeyOf(r) == ks[i];
      var s :| s in rows && s.user == user && KeyOf(s) == ks[j];
    }
  }

  /**
   * The entries the listing loop builds from the sorted distinct pairs: one
   * per pair, in order, each with its pair's two counts.
   */
  predicate ScoredFrom(entries: seq<Entry>, rows: seq<Row>, user: int, quizzes: seq<Key>) {
    |entries| == |quizzes| &&
    forall j :: 0 <= j < |quizzes| ==>
      entries[j] == Entry(quizzes[j].quizId, quizzes[j].topic,
                          CountCorrect(rows, user, quizzes[j].quizId),
                          Count(rows, user, quizzes[j].quizId))
  }

  /** What the home page shows, given the entries built from the user's distinct pairs. */
  lemma ListingScores(rows: seq<Row>, user: int, quizzes: seq<Key>, entries: seq<Entry>)
    requires quizzes == DistinctKeys(rows, user)
    requires ScoredFrom(entries, rows, user, quizzes)
    ensures forall i, j :: 0 <= i < j < |entries| ==> entries[i].id >= entries[j].id
    ensures forall i, j :: 0 <= i < j < |entries| ==>
      !(entries[i].id == entries[j].id && entries[i].topic == entries[j].topic)
    ensures forall i :: 0 <= i < |entries| ==>
      Key(entries[i].id, entries[i].topic) in KeySet(rows, user)
    ensures forall k :: k in KeySet(rows, user) ==>
      exists i :: 0 <= i < |entries| && entries[i].id == k.quizId && entries[i].topic == k.topic
    ensures forall i :: 0 <= i < |entries| ==>
      entries[i].correct <= entries[i].total && entries[i].total >= 1
    ensures OneTopicPerQuiz(rows, user) ==>
      forall i, j :: 0 <= i < j < |entries| ==> entries[i].id != entries[j].id
  {
    forall i | 0 <= i < |entries|
      ensures entries[i].correct <= entries[i].total && entries[i].total >= 1
    {
      assert quizzes[i] in KeySet(rows, user);
      var r :| r in rows && r.user == user && KeyOf(r) == quizzes[i];
      assert InGroup(r, user, quizzes[i].quizId);
      CountBounds(rows, user, quizzes[i].quizId);
    }
    forall k | k in KeySet(rows, user)
      ensures exists i :: 0 <= i < |entries| && entries[i].id == k.quizId && entries[i].topic == k.topic
    {
      var i :| 0 <= i < |quizzes| && quizzes[i] == k;
      assert entries[i].id == k.quizId && entries[i].topic == k.topic;
    }
    if OneTopicPerQuiz(rows, user) {
      OneEntryPerQuiz(rows, user);
    }
  }

  /** After a delete, no pair of the user's listing has the deleted quiz id. */
  lemma DeleteHidesQuiz(db: Db, user: int, quizId: int)
    ensures forall k :: k in KeySet(AfterDelete(db, user, quizId).active, user) ==> k.quizId != quizId
  {
    forall k | k in KeySet(AfterDelete(db, user, quizId).active, user) ensures k.quizId != quizId {
      var r :| r in Remove(db.active, user, quizId) && r.user == user && KeyOf(r) == k;
      Members(db.active, user, quizId, r);
    }
  }

  // ---------------------------------------------------------------------
  // The store itself

  class Store {
    /** The `results` table. */
    var active: seq<Row>
    /** The `deleted_results` table. */
    var deleted: seq<Row>
    /** `session['deleted_quiz_id']` */
    var slot: Option<int>

    function Snapshot(): Db
      reads this
    {
      Db(active, deleted, slot)
    }

    /** Empty tables (`init_db`) and a fresh session. */
    constructor ()
      ensures Snapshot() == Db([], [], None)
    {
      active, deleted, slot := [], [], None;
    }

    /**
     * `POST /quiz`: with no quiz in the session, nothing happens; otherwise
     * the quiz is graded and its rows are committed only if the whole loop
     * completes.
     */
    method Submit(userId: int, quiz: Option<seq<Record>>, topic: string, quizId: int, form: map<nat, string>)
      returns (outcome: Submission)
      modifies this
      ensures outcome == NoQuiz <==> quiz == None || quiz == Some([])
      ensures outcome.NoQuiz? || outcome.Aborted? ==> Snapshot() == old(Snapshot())
      ensures outcome.Recorded? ==>
        GradedRows(outcome.rows, userId, topic, quizId, quiz.value, form) &&
        Snapshot() == AfterGrade(old(Snapshot()), outcome.rows)
      ensures outcome.Aborted? ==>
        var k := outcome.error.index;
        k < |quiz.value| && RowError(quiz.value[k], Submitted(form, k), k) == Some(outcome.error)
      ensures Unsplit(old(Snapshot())) && Select(old(deleted), userId, quizId) == [] ==> Unsplit(Snapshot())
    {
      if quiz == None || quiz == Some([]) {
        return NoQuiz;
      }
      var graded := GradeQuiz(userId, topic, quizId, quiz.value, form);
      if graded.Err? {
        return Aborted(graded.error);
      }
      ghost var before := Snapshot();
      active := active + graded.value;
      outcome := Recorded(graded.value);
      if Unsplit(before) && Select(before.deleted, userId, quizId) == [] {
        forall r | r in graded.value ensures InGroup(r, userId, quizId) {
          var i :| 0 <= i < |graded.value| && graded.value[i] == r;
        }
        GradeKeepsUnsplit(before, graded.value, userId, quizId);
      }
    }

    /**
     * `POST /delete_quiz/<int:quiz_id>`: the route only accepts non-negative
     * ids. `done` is false when the id is too large for SQLite: the route
     * raises and nothing changes.
     */
    method Delete(userId: int, quizId: nat) returns (done: bool)
      modifies this
      ensures done <==> quizId <= MaxSqlInt
      ensures Snapshot() == DeleteRoute(old(Snapshot()), userId, quizId)
      ensures done ==> Snapshot() == AfterDelete(old(Snapshot()), userId, quizId)
      ensures Unsplit(old(Snapshot())) ==> Unsplit(Snapshot())
    {
      if quizId > MaxSqlInt {
        return false;
      }
      ghost var before := Snapshot();
      deleted := deleted + Select(active, userId, quizId);
      active := Remove(active, userId, quizId);
      slot := Some(quizId);
      done := true;
      if Unsplit(before) {
        DeleteKeepsUnsplit(before, userId, quizId);
      }
    }

    /** `GET /undo_delete`; `undone` tells "Undo successful." from "Nothing to undo." */
    method Undo(userId: int) returns (undone: bool)
      modifies this
      ensures undone <==> !NothingToUndo(old(slot))
      ensures Snapshot() == AfterUndo(old(Snapshot()), userId)
      ensures Unsplit(old(Snapshot())) ==> Unsplit(Snapshot())
    {
      ghost var before := Snapshot();
      var quizId := slot;
      if quizId == None || quizId == Some(0) {
        return false;
      }
      active := active + Select(deleted, userId, quizId.value);
      deleted := Remove(deleted, userId, quizId.value);
      slot := None;
      undone := true;
      if Unsplit(before) {
        UndoKeepsUnsplit(before, userId);
      }
    }

    /**
     * The listing of `GET /`: one entry per distinct (quiz id, topic) pair of
     * the user's rows, by descending quiz id, each with the number of the
     * quiz's rows and of its correct rows.
     */
    method ListQuizzes(userId: int) returns (entries: seq<Entry>)
      ensures forall i, j :: 0 <= i < j < |entries| ==> entries[i].id >= entries[j].id
      ensures forall i, j :: 0 <= i < j < |entries| ==>
        !(entries[i].id == entries[j].id && entries[i].topic == entries[j].topic)
      ensures forall i :: 0 <= i < |entries| ==>
        Key(entries[i].id, entries[i].topic) in KeySet(active, userId)
      ensures forall k :: k in KeySet(active, userId) ==>
        exists i :: 0 <= i < |entries| && entries[i].id == k.quizId && entries[i].topic == k.topic
      ensures forall i :: 0 <= i < |entries| ==>
        entries[i].total == Count(active, userId, entries[i].id) &&
        entries[i].correct == CountCorrect(active, userId, entries[i].id) &&
        entries[i].correct <= entries[i].total && entries[i].total >= 1
      ensures OneTopicPerQuiz(active, userId) ==>
        forall i, j :: 0 <= i < j < |entries| ==> entries[i].id != entries[j].id
    {
      var quizzes := DistinctKeys(active, userId);
      entries := [];
      for i := 0 to |quizzes|
        invariant |entries| == i
        invariant forall j :: 0 <= j < i ==>
          entries[j] == Entry(quizzes[j].quizId, quizzes[j].topic,
                              CountCorrect(active, userId, quizzes[j].quizId),
                              Count(active, userId, quizzes[j].quizId))
      {
        var quizId := quizzes[i].quizId;
        var total := Count(active, userId, quizId);
        var correct := CountCorrect(active, userId, quizId);
        entries := entries + [Entry(quizId, quizzes[i].topic, correct, total)];
      }
      ListingScores(active, userId, quizzes, entries);
    }
  }
}
