/**
 * Grading a submitted quiz: the loop of the `quiz` route (app.py) that
 * turns each stored question and the submitted form into one `results`
 * row. Rows are inserted in one transaction committed after the loop, so a
 * question that makes the loop fail leaves no row behind.
 */
module Grading {
  import opened Wrappers
  import opened Text
  import opened QuizParser
  import opened Tables

  /** A submission is correct when, stripped and upper-cased, it equals the upper-cased key. */
  predicate AnswerMatches(submitted: string, correct: string) {
    Upper(Strip(submitted)) == Upper(correct)
  }

  /**
   * Against a one-letter key, a submission padded with any whitespace is
   * correct exactly when its letter is the key's letter, in either case.
   */
  lemma LetterMatches(p: string, y: char, q: string, x: char)
    requires AllSpace(p) && AllSpace(q)
    requires 'A' <= x <= 'Z' && 'A' <= y <= 'Z'
    ensures AnswerMatches(p + [y] + q, [x]) <==> x == y
    ensures AnswerMatches(p + [(y as int + 32) as char] + q, [x]) <==> x == y
  {
    StripOf(p, [y], q);
    StripOf(p, [(y as int + 32) as char], q);
    assert Upper([y])[0] == y;
    assert Upper([x])[0] == x;
  }

  /** Why grading stops: the Python exception the loop body raises. */
  datatype GradeError =
    | MissingAnswerKey(index: nat)    // `q["answer"]` on a record without an answer
    | MissingSubmission(index: nat)   // `.strip()` on the `None` of a missing form field
    | MissingQuestionKey(index: nat)  // `q["question"]` on an orphan record

  /** `request.form.get(f"q{idx}")`: the form is keyed by question index. */
  function Submitted(form: map<nat, string>, idx: nat): Option<string> {
    if idx in form then Some(form[idx]) else None
  }

  /** What goes wrong, if anything, on question `idx`, in the order the body evaluates. */
  function RowError(q: Record, submitted: Option<string>, idx: nat): Option<GradeError> {
    if q.answer == None then Some(MissingAnswerKey(idx))
    else if submitted == None then Some(MissingSubmission(idx))
    else if q.question == None then Some(MissingQuestionKey(idx))
    else None
  }

  /** The row written for question `q`: the values of the `INSERT` of the loop. */
  predicate RowFor(row: Row, userId: int, topic: string, quizId: int, q: Record, submitted: string) {
    row.user == userId && row.topic == topic && row.quizId == quizId &&
    q.question == Some(row.question) && q.answer == Some(row.correctAnswer) &&
    row.userAnswer == submitted &&
    (row.isCorrect == 0 || row.isCorrect == 1) &&
    (row.isCorrect == 1 <==> AnswerMatches(submitted, row.correctAnswer))
  }

  /** One row per question, in question order. */
  predicate GradedRows(rows: seq<Row>, userId: int, topic: string, quizId: int,
                       quiz: seq<Record>, form: map<nat, string>) {
    |rows| == |quiz| &&
    forall i :: 0 <= i < |quiz| ==> i in form && RowFor(rows[i], userId, topic, quizId, quiz[i], form[i])
  }

  /**
   * The grading loop. It succeeds exactly when every question has an answer
   * key, a submission and a question text, and then yields one row per
   * question; otherwise it reports the first question that fails.
   */
  method GradeQuiz(userId: int, topic: string, quizId: int, quiz: seq<Record>, form: map<nat, string>)
    returns (r: Result<seq<Row>, GradeError>)
    ensures r.Ok? <==> forall i :: 0 <= i < |quiz| ==> RowError(quiz[i], Submitted(form, i), i) == None
    ensures r.Ok? ==> GradedRows(r.value, userId, topic, quizId, quiz, form)
    ensures r.Err? ==>
      r.error.index < |quiz| &&
      RowError(quiz[r.error.index], Submitted(form, r.error.index), r.error.index) == Some(r.error) &&
      forall j :: 0 <= j < r.error.index ==> RowError(quiz[j], Submitted(form, j), j) == None
  {
    var rows: seq<Row> := [];
    for idx := 0 to |quiz|
      invariant |rows| == idx
      invariant forall i :: 0 <= i < idx ==> RowError(quiz[i], Submitted(form, i), i) == None
      invariant forall i :: 0 <= i < idx ==> i in form && RowFor(rows[i], userId, topic, quizId, quiz[i], form[i])
    {
      var q := quiz[idx];
      if q.answer == None {
        return Err(MissingAnswerKey(idx));
      }
      var correct := q.answer.value;
      var user := Submitted(form, idx);
      if user == None {
        return Err(MissingSubmission(idx));
      }
      var isCorrect := if Upper(Strip(user.value)) == Upper(correct) then 1 else 0;
      if q.question == None {
        return Err(MissingQuestionKey(idx));
      }
      rows := rows + [Row(userId, topic, q.question.value, user.value, correct, isCorrect, quizId)];
    }
    r := Ok(rows);
  }
}
