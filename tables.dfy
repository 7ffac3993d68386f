/**
 * The `results` and `deleted_results` tables of app.py (both have the same
 * columns) as sequences of rows in table order, with the three queries the
 * quiz routes run on them: select a (user, quiz) group, delete it, and
 * count it.
 */
module Tables {

  /**
   * One answered question. The autoincrement `id` column is not modelled;
   * `isCorrect` holds the integer stored in the `is_correct` column.
   */
  datatype Row = Row(
    user: int,
    topic: string,
    question: string,
    userAnswer: string,
    correctAnswer: string,
    isCorrect: int,
    quizId: int)

  /** The row belongs to the given user's given quiz. */
  predicate InGroup(r: Row, user: int, quizId: int) {
    r.user == user && r.quizId == quizId
  }

  /** The rows of one user's quiz, in table order (what the routes copy out). */
  function Select(rows: seq<Row>, user: int, quizId: int): (g: seq<Row>)
    ensures |g| <= |rows|
    decreases |rows|
  {
    if rows == [] then []
    else (if InGroup(rows[0], user, quizId) then [rows[0]] else []) + Select(rows[1..], user, quizId)
  }

  /** The rows left once one user's quiz is deleted, in table order. */
  function Remove(rows: seq<Row>, user: int, quizId: int): (rest: seq<Row>)
    ensures |rest| <= |rows|
    decreases |rows|
  {
    if rows == [] then []
    else (if InGroup(rows[0], user, quizId) then [] else [rows[0]]) + Remove(rows[1..], user, quizId)
  }

  /** Selecting and removing a group split a table: no row is lost or duplicated. */
  lemma {:induction false} SelectRemovePartition(rows: seq<Row>, user: int, quizId: int)
    ensures multiset(Select(rows, user, quizId)) + multiset(Remove(rows, user, quizId)) == multiset(rows)
    decreases |rows|
  {
    if rows != [] {
      SelectRemovePartition(rows[1..], user, quizId);
      assert rows == [rows[0]] + rows[1..];
    }
  }

  /**
   * A row is selected exactly when it is in the table and in the group, and
   * kept by the removal exactly when it is in the table and not in the group.
   */
  lemma {:induction false} Members(rows: seq<Row>, user: int, quizId: int, r: Row)
    ensures r in Select(rows, user, quizId) <==> r in rows && InGroup(r, user, quizId)
    ensures r in Remove(rows, user, quizId) <==> r in rows && !InGroup(r, user, quizId)
    decreases |rows|
  {
    if rows != [] {
      Members(rows[1..], user, quizId, r);
      assert rows == [rows[0]] + rows[1..];
    }
  }

  /** Both queries distribute over a table that is the concatenation of two parts. */
  lemma {:induction false} SelectAppend(a: seq<Row>, b: seq<Row>, user: int, quizId: int)
    ensures Select(a + b, user, quizId) == Select(a, user, quizId) + Select(b, user, quizId)
    decreases |a|
  {
    if a == [] {
      assert a + b == b;
    } else {
      assert (a + b)[0] == a[0] && (a + b)[1..] == a[1..] + b;
      SelectAppend(a[1..], b, user, quizId);
      var x := if InGroup(a[0], user, quizId) then [a[0]] else [];
      assert x + (Select(a[1..], user, quizId) + Select(b, user, quizId)) ==
        (x + Select(a[1..], user, quizId)) + Select(b, user, quizId);
    }
  }

  lemma {:induction false} RemoveAppend(a: seq<Row>, b: seq<Row>, user: int, quizId: int)
    ensures Remove(a + b, user, quizId) == Remove(a, user, quizId) + Remove(b, user, quizId)
    decreases |a|
  {
    if a == [] {
      assert a + b == b;
    } else {
      assert (a + b)[0] == a[0] && (a + b)[1..] == a[1..] + b;
      RemoveAppend(a[1..], b, user, quizId);
      var y := if InGroup(a[0], user, quizId) then [] else [a[0]];
      assert y + (Remove(a[1..], user, quizId) + Remove(b, user, quizId)) ==
        (y + Remove(a[1..], user, quizId)) + Remove(b, user, quizId);
    }
  }

  /** Removing a group a table does not hold changes nothing. */
  lemma {:induction false} NoGroupRemoved(rows: seq<Row>, user: int, quizId: int)
    requires Select(rows, user, quizId) == []
    ensures Remove(rows, user, quizId) == rows
    decreases |rows|
  {
    if rows != [] {
      assert !InGroup(rows[0], user, quizId);
      NoGroupRemoved(rows[1..], user, quizId);
      assert Remove(rows, user, quizId) == [rows[0]] + rows[1..];
    }
  }

  /** Removing a group from its own selection leaves nothing. */
  lemma WholeGroupRemoved(rows: seq<Row>, user: int, quizId: int)
    ensures Remove(Select(rows, user, quizId), user, quizId) == []
  {
    var g := Select(rows, user, quizId);
    if Remove(g, user, quizId) != [] {
      var r := Remove(g, user, quizId)[0];
      Members(g, user, quizId, r);
      Members(rows, user, quizId, r);
      assert false;
    }
  }

  /**
   * How one group's query sees the result of selecting or removing another
   * group: selecting the same group again changes nothing, a removed group
   * is gone, and every other group is untouched by the removal.
   */
  lemma {:induction false} SelectAfter(rows: seq<Row>, user: int, quizId: int, user': int, quizId': int)
    ensures Select(Select(rows, user, quizId), user', quizId') ==
      if user == user' && quizId == quizId' then Select(rows, user, quizId) else []
    ensures Select(Remove(rows, user, quizId), user', quizId') ==
      if user == user' && quizId == quizId' then [] else Select(rows, user', quizId')
    decreases |rows|
  {
    if rows != [] {
      SelectAfter(rows[1..], user, quizId, user', quizId');
      var h := rows[0];
      SelectAppend(if InGroup(h, user, quizId) then [h] else [], Select(rows[1..], user, quizId), user', quizId');
      SelectAppend(if InGroup(h, user, quizId) then [] else [h], Remove(rows[1..], user, quizId), user', quizId');
    }
  }

  /** The number of rows of one user's quiz. */
  function Count(rows: seq<Row>, user: int, quizId: int): nat {
    |Select(rows, user, quizId)|
  }

  /** The number of rows of one user's quiz marked correct (`is_correct` is 1). */
  function CountCorrect(rows: seq<Row>, user: int, quizId: int): nat
    decreases |rows|
  {
    if rows == [] then 0
    else
      var here := if InGroup(rows[0], user, quizId) && rows[0].isCorrect == 1 then 1 else 0;
      here + CountCorrect(rows[1..], user, quizId)
  }

  /** A group never has more correct rows than rows, and has a row if any row of the table is in it. */
  lemma {:induction false} CountBounds(rows: seq<Row>, user: int, quizId: int)
    ensures CountCorrect(rows, user, quizId) <= Count(rows, user, quizId)
    ensures (exists r :: r in rows && InGroup(r, user, quizId)) ==> Count(rows, user, quizId) >= 1
    decreases |rows|
  {
    if rows != [] {
      CountBounds(rows[1..], user, quizId);
      assert forall r :: r in rows ==> r == rows[0] || r in rows[1..];
    }
  }

  /** A (quiz id, topic) pair, one line of the home page listing. */
  datatype Key = Key(quizId: int, topic: string)

  function KeyOf(r: Row): Key {
    Key(r.quizId, r.topic)
  }

  /** The distinct (quiz id, topic) pairs of a user's rows. */
  function KeySet(rows: seq<Row>, user: int): set<Key> {
    set r | r in rows && r.user == user :: KeyOf(r)
  }

  /** Ordered by quiz id, largest first. */
  predicate SortedDesc(ks: seq<Key>) {
    forall i, j :: 0 <= i < j < |ks| ==> ks[i].quizId >= ks[j].quizId
  }

  /** No pair occurs twice. */
  predicate Distinct(ks: seq<Key>) {
    forall i, j :: 0 <= i < j < |ks| ==> ks[i] != ks[j]
  }

  /** Adds `k` to a sorted list of distinct pairs, keeping it sorted and distinct. */
  function InsertKey(ks: seq<Key>, k: Key): (r: seq<Key>)
    requires SortedDesc(ks) && Distinct(ks)
    ensures SortedDesc(r) && Distinct(r)
    ensures forall x :: x in r <==> x in ks || x == k
    decreases |ks|
  {
    if k in ks then ks
    else if ks == [] || k.quizId >= ks[0].quizId then
      assert forall x :: x in ks ==> x.quizId <= k.quizId && x != k by {
        forall x | x in ks ensures x.quizId <= k.quizId && x != k {
          var j :| 0 <= j < |ks| && ks[j] == x;
          assert j == 0 || ks[0].quizId >= ks[j].quizId;
        }
      }
      ConsKey(k, ks);
      [k] + ks
    else
      var rest := InsertKey(ks[1..], k);
      assert forall x :: x in rest ==> x.quizId <= ks[0].quizId && x != ks[0] by {
        forall x | x in rest ensures x.quizId <= ks[0].quizId && x != ks[0] {
          if x != k {
            var j :| 0 <= j < |ks[1..]| && ks[1..][j] == x;
            assert ks[j + 1] == x;
          }
        }
      }
      ConsKey(ks[0], rest);
      [ks[0]] + rest
  }

  /** A pair placed before a sorted list of distinct pairs, none larger nor equal, keeps it sorted and distinct. */
  lemma ConsKey(h: Key, rest: seq<Key>)
    requires SortedDesc(rest) && Distinct(rest)
    requires forall x :: x in rest ==> x.quizId <= h.quizId && x != h
    ensures SortedDesc([h] + rest) && Distinct([h] + rest)
  {
    var r := [h] + rest;
    assert forall j :: 0 < j < |r| ==> r[j] == rest[j - 1] && r[j] in rest;
  }

  /**
   * The pairs the home page lists: each of the user's (quiz id, topic)
   * pairs once, by descending quiz id. Pairs with equal quiz ids may come in any order in
   * SQL; this definition fixes one.
   */
  function DistinctKeys(rows: seq<Row>, user: int): (ks: seq<Key>)
    ensures SortedDesc(ks) && Distinct(ks)
    ensures forall k :: k in ks <==> k in KeySet(rows, user)
    decreases |rows|
  {
    if rows == [] then []
    else
      var ks := DistinctKeys(rows[1..], user);
      assert KeySet(rows, user) ==
        KeySet(rows[1..], user) + (if rows[0].user == user then {KeyOf(rows[0])} else {}) by {
        assert forall r :: r in rows <==> r == rows[0] || r in rows[1..];
      }
      if rows[0].user == user then InsertKey(ks, KeyOf(rows[0])) else ks
  }
}
