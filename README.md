# CodeMentors quiz core, in Dafny

CodeMentors is a Flask web application. A language model writes a
multiple-choice quiz on a topic. The application then parses the model's
text into question records, grades the user's submitted answers, stores one
result row per question, and lists past quizzes with their scores. A deleted
quiz can be restored with a one-step undo. This project models the
deterministic core of `app.py` and proves properties of it:

- `text.dfy` (module `Text`): the Python string builtins the core relies on.
  It has `str.strip` with Python's `isspace` set, `str.upper` (ASCII),
  `str.split` on one character, and `str.startswith` as a sequence prefix.
- `quiz_parser.dfy` (module `QuizParser`): `generate_quiz`'s line-by-line
  state machine.
  - The method `ParseQuiz` keeps the source's loop and its mutable
    `current` record.
  - It is proved equal to a fold (`Step`, `Run`, `Committed`, `Parse`).
  - The lemmas are stated about that fold.
- `tables.dfy` (module `Tables`): result rows and the SQL queries the routes
  issue. Group selection, group deletion, the two `COUNT(*)` queries and
  `SELECT DISTINCT quiz_id, topic ... ORDER BY quiz_id DESC` are each a
  function over a sequence of rows.
- `grading.dfy` (module `Grading`): the grading loop of `POST /quiz`, as a
  method that either yields every row or reports the first question that
  makes the source raise.
- `result_store.dfy` (module `ResultStore`): the `results` and
  `deleted_results` tables and the session's `deleted_quiz_id` slot.
  - `Store` is a class whose methods (`Submit`, `Delete`, `Undo`,
    `ListQuizzes`) change its fields the way the routes change the
    database.
  - Each method is specified against a function on the snapshot value `Db`
    (`AfterGrade`, `AfterDelete`, `AfterUndo`).
  - The store's invariants are lemmas about those functions.
- `wrappers.dfy` (module `Wrappers`): `Option` and `Result`.

In these places the code behaves in ways a reader of the quiz format might
not expect; the model follows the code:

- **Orphan records.** Text with option or `Answer:` lines but no `Q:` line
  yields one record that has no question, not an empty quiz.
  `WithoutQuestions` states this.
- **Missing answers raise.** A missing submitted answer, or a question
  without an answer key, raises an error in the grading loop. It is not
  graded as incorrect. Nothing is committed (`GradeQuiz`, `Store.Submit`).
- **Listing granularity.** The listing has one entry per distinct
  (quiz id, topic) pair. It has one entry per quiz id only when each quiz id
  carries a single topic (`OneEntryPerQuiz`).
- **A group can end up split.** The session keeps the graded quiz and its
  id. Submitting that quiz again after deleting its results leaves rows of
  the same (user, quiz) group in both tables (`ResubmitAfterDeleteSplits`).
  So "a group is never split across the two tables" is preserved by
  delete, by undo, and by grading a quiz with no deleted rows. It is not
  preserved by every grading.
- **Oversized quiz ids.** The delete route accepts any non-negative
  integer. An id above 2^63 - 1 cannot be bound by SQLite, so the route
  raises before changing the tables or the undo slot (`Store.Delete`,
  `OversizedDeleteKeepsSlot`).
- **Quiz id 0 cannot be undone.** The slot test is falsy for the id 0, so
  a deleted quiz 0 stays deleted (`QuizZeroCannotBeUndone`).

## Model

| member | source | states |
|---|---|---|
| QuizParser.KindIsPrefixTest | app.py:359-369 | A stripped line is classified as a question line exactly when it starts with `Q:`; as an option line exactly when it does not and starts with one of `A)`..`D)`; as an answer line exactly when it is neither and starts with `Answer:` |
| QuizParser.Step | app.py:358-370 | Definition of one loop iteration on the state (committed list, record in progress); its meaning is stated by `BlockBody`, `QuestionBlock`, `QuestionLineSplits` and `IrrelevantLineIgnored` |
| QuizParser.Parse | app.py:357-376 | Definition of the whole parse: fold the lines, commit the last record, keep the first 15; `ParseQuiz` is proved equal to it and `ParseRendered` states its round trip |
| QuizParser.AnswerField | app.py:370 | Definition of an `Answer:` line's answer: the second colon-separated piece, stripped; `AnswerStopsAtColon` and `AnswerLineOf` state what it yields |
| QuizParser.ParseLine | app.py:358-370 | One iteration of the loop: strip the line; a `Q:` line commits a non-empty current record and starts a new one; an option line is appended (creating `options` if absent); an `Answer:` line sets the answer; the new state is the fold's `Step` |
| QuizParser.ParseQuiz | app.py:353-376 | The loop's result is the fold `Parse(lines)`: at most 15 records, a prefix of all committed records, and all of them unless that is more than 15 |
| QuizParser.RunAppend | app.py:357-370 | Parsing two pieces of text one after the other is parsing their concatenation |
| QuizParser.RunKeepsDone | app.py:361-362 | Records already committed are never changed or reordered by later lines |
| QuizParser.IrrelevantLineIgnored | app.py:357-370 | A line that is not a question, option or answer line changes neither the committed records nor the result |
| QuizParser.QuestionLineSplits | app.py:359-363 | A question line closes everything before it: the records of the text before it are unaffected by the text from it onwards |
| QuizParser.BlockBody | app.py:364-370 | Without question lines, the current record gains every option line in order and takes the last answer line's answer |
| QuizParser.QuestionBlock | app.py:359-374 | A question line followed by non-question lines yields exactly one record: the stripped question text, the option lines in order, the last answer |
| QuizParser.WithoutQuestions | app.py:364-374 | Text without question lines yields one orphan record holding its options and answer, or nothing exactly when it has no option and no answer lines |
| QuizParser.QuestionLineOf | app.py:359-363 | The line `Q: t` with trimmed non-empty `t` is a question line whose question text is `t` |
| QuizParser.AnswerSplit | app.py:370 | Splitting `Answer: a` on `:` gives `Answer` and ` a` when `a` has no colon |
| QuizParser.AnswerLineOf | app.py:369-370 | The line `Answer: a` with trimmed non-empty colon-free `a` is an answer line whose answer is `a` |
| QuizParser.AnswerStopsAtColon | app.py:370 | The answer is the stripped text between the first and a second colon; text after a second colon is dropped, and without one the answer runs to the end of the line |
| QuizParser.AnswerWithTrailingText | app.py:370 | The line `Answer: B: extra` records the answer `B` |
| QuizParser.OptionLineOf | app.py:364 | A trimmed line starting with one of `A)`..`D)` is an option line kept whole |
| QuizParser.OptionLinesFrom | app.py:364-370 | The option lines of a rendered question are collected in order and its answer line supplies the answer |
| QuizParser.RenderedQuestion | app.py:357-374 | A well-formed question written as `Q:`, four option lines and `Answer:` parses back to exactly that question |
| QuizParser.RenderedQuiz | app.py:357-374 | A sequence of well-formed questions written out parses back to all of them, in order |
| QuizParser.ParseRendered | app.py:376 | The parser returns the written questions when there are at most 15, and the first 15 otherwise |
| QuizParser.RecordsPrefix | app.py:376 | Taking the first n records commutes with converting questions to records |
| QuizParser.ToRecords | app.py:354-374 | Each question gives exactly one record |
| Text.Strip | app.py:358 | Definition of `str.strip()`: leading and trailing `isspace` characters removed; its meaning is stated by `StripShape`, `StripOf` and `StripIdempotent` |
| Text.StripShape | app.py:358 | `strip` removes a whitespace prefix and a whitespace suffix and leaves a result that starts and ends with non-whitespace |
| Text.StripOf | app.py:358 | Stripping a trimmed text padded by whitespace on both sides gives the text back |
| Text.StripTrimmed | app.py:358 | Stripping a text with no surrounding whitespace gives the text back |
| Text.StripLeadingSpace | app.py:363 | Stripping a trimmed text after one space gives the text back |
| Text.StripIdempotent | app.py:358 | Stripping twice is stripping once |
| Text.TrimStartOfSpaces | app.py:358 | Removing leading whitespace drops exactly a whitespace prefix followed by non-whitespace |
| Text.TrimEndOfSpaces | app.py:358 | Removing trailing whitespace drops exactly a whitespace suffix preceded by non-whitespace |
| Text.Upper | app.py:238 | Upper-casing keeps the length |
| Text.Split | app.py:370 | `split` yields at least one piece, and at least two when the separator occurs |
| Text.JoinSplit | app.py:370 | Joining the pieces of a split with the separator gives the text back |
| Text.SplitNoSep | app.py:370 | A text without the separator splits into itself alone |
| Text.SplitAtFirst | app.py:370 | A split cuts at the first separator and continues on the rest |
| Text.SecondPiece | app.py:370 | The second piece is the text after the first separator, up to the next separator or the end |
| Text.FirstPiece | app.py:370 | The first piece is a separator-free prefix that reaches the first separator or the end |
| Grading.AnswerMatches | app.py:238 | Definition of the correctness test: the stripped, upper-cased submission equals the upper-cased key; `LetterMatches` states what it accepts |
| Grading.LetterMatches | app.py:238 | A submitted letter, padded with whitespace and in upper or lower case, is graded correct exactly when it is the key's letter |
| Grading.GradeQuiz | app.py:235-245 | The loop succeeds exactly when no question raises; then it yields one row per question, in order, with the user, topic, question, submitted answer, key, quiz id and `is_correct` = 1 exactly when the stripped upper-cased submission equals the upper-cased key; otherwise it reports the first question that raises and why |
| Tables.Select | app.py:295-301 | The rows of one (user, quiz) group, in table order, never more than the table holds; `Members`, `SelectAppend` and `SelectAfter` state which rows they are |
| Tables.Remove | app.py:302 | The rows that survive deleting one (user, quiz) group, in table order, never more than the table holds; `Members` and `SelectRemovePartition` state which rows they are |
| Tables.Count | app.py:198-201 | Definition of the total count: the number of rows of the group; `CountBounds` bounds it |
| Tables.CountCorrect | app.py:203-206 | Definition of the correct count: the number of rows of the group with `is_correct` 1; `CountBounds` states it never exceeds the total |
| Tables.SelectRemovePartition | app.py:295-302 | Copying a group out and deleting it from a table loses and duplicates no row |
| Tables.Members | app.py:295-302 | A row is selected exactly when it is in the table and in the group, and kept exactly when it is in the table and not in the group |
| Tables.SelectAppend | app.py:318-323 | Selecting a group from two concatenated tables selects it from each part |
| Tables.RemoveAppend | app.py:302 | Deleting a group from two concatenated tables deletes it from each part |
| Tables.NoGroupRemoved | app.py:323 | Deleting a group a table does not hold leaves the table unchanged |
| Tables.WholeGroupRemoved | app.py:295-302 | Deleting a group from its own selection leaves nothing |
| Tables.SelectAfter | app.py:295-302 | After deleting a group the table holds none of it and every other group as before; a group's selection holds only that group |
| Tables.CountBounds | app.py:197-205 | A quiz never has more correct rows than rows, and has at least one row when the user has a row of it |
| Tables.InsertKey | app.py:188-192 | Adding a (quiz id, topic) pair to a sorted list of distinct pairs keeps it sorted by descending quiz id and distinct, and adds exactly that pair |
| Tables.ConsKey | app.py:188-192 | Putting a pair in front of a sorted list of distinct pairs, when no pair there is larger or equal to it, keeps the list sorted by descending quiz id and distinct |
| Tables.DistinctKeys | app.py:188-192 | The listing's pairs are sorted by descending quiz id, distinct, and exactly the (quiz id, topic) pairs of the user's rows |
| ResultStore.AfterDelete | app.py:295-304 | Definition of a delete's effect on the tables and the slot; `DeleteMovesGroup`, `DeleteKeepsOtherGroups` and `DeleteKeepsUnsplit` state its meaning |
| ResultStore.AfterUndo | app.py:311-326 | Definition of an undo's effect; `UndoWithoutSlot`, `UndoMovesGroupBack`, `UndoKeepsOtherGroups` and `UndoIdempotent` state its meaning |
| ResultStore.AfterGrade | app.py:235-243 | Definition of a committed grading's effect: its rows appended to `results`; `GradeKeepsUnsplit` and `ResubmitAfterDeleteSplits` state its meaning |
| ResultStore.DeleteRoute | app.py:290-306 | Definition of the whole route. A quiz id above the largest SQLite integer (2^63 - 1) makes the first statement raise, so the tables and the slot are unchanged. Otherwise the route is `AfterDelete` |
| ResultStore.OversizedDeleteKeepsSlot | app.py:295-304 | A delete with an id too large to bind leaves the store and the earlier slot in place, so a following undo still restores the quiz deleted before it |
| ResultStore.DeleteMovesGroup | app.py:295-304 | After a delete the group is gone from `results`, `deleted_results` has gained exactly its rows, no row is lost or duplicated, and the slot holds the quiz id |
| ResultStore.DeleteKeepsOtherGroups | app.py:295-302 | A delete leaves every other (user, quiz) group unchanged in both tables |
| ResultStore.DeleteKeepsUnsplit | app.py:295-302 | A delete keeps every group within one table |
| ResultStore.UndoWithoutSlot | app.py:311-314 | With no slot, or the falsy quiz id 0, undo changes nothing |
| ResultStore.UndoMovesGroupBack | app.py:317-326 | Otherwise the remembered group's deleted rows move back to `results`, `deleted_results` keeps none, no row is lost or duplicated, and the slot is cleared |
| ResultStore.UndoKeepsOtherGroups | app.py:317-323 | An undo leaves every other group unchanged in both tables |
| ResultStore.UndoIdempotent | app.py:311-326 | A second undo, by any user, changes nothing |
| ResultStore.UndoKeepsUnsplit | app.py:317-323 | An undo keeps every group within one table |
| ResultStore.DeleteThenUndoRestores | app.py:295-326 | Deleting a quiz with no deleted rows and undoing leaves `deleted_results` as before, `results` with the same rows, and no slot |
| ResultStore.DeleteThenUndoGroups | app.py:295-326 | Deleting a quiz and undoing leaves every group of `results` as before, in order |
| ResultStore.QuizZeroCannotBeUndone | app.py:304-314 | A deleted quiz 0 cannot be restored by undo |
| ResultStore.OneSlotUndo | app.py:304-326 | After deleting two quizzes, undo restores the second only; the first stays deleted |
| ResultStore.GradeKeepsUnsplit | app.py:235-243 | Committing a grading of a quiz with no deleted rows keeps every group within one table |
| ResultStore.ResubmitAfterDeleteSplits | app.py:225-243 | Grading a quiz again after deleting its results leaves the group split across both tables |
| ResultStore.OneEntryPerQuiz | app.py:188-192 | When each quiz id has one topic, the listing has one entry per quiz id |
| ResultStore.ListingScores | app.py:188-213 | Entries built one per distinct (quiz id, topic) pair, each with its two counts, are sorted by descending quiz id and distinct. They cover exactly the user's pairs, and each has 0 ≤ correct ≤ total and total ≥ 1. They have distinct ids when each quiz has one topic |
| ResultStore.DeleteHidesQuiz | app.py:188-192 | After a delete the listing has no entry for the deleted quiz |
| ResultStore.Store.constructor | app.py:34-73 | A new store has empty tables and no slot |
| ResultStore.Store.Submit | app.py:225-245 | With no quiz in the session nothing changes; a grading that raises changes nothing and names the failing question; otherwise the rows are appended to `results`; the tables stay unsplit when the quiz has no deleted rows |
| ResultStore.Store.Delete | app.py:290-306 | The call succeeds exactly when the quiz id fits a SQLite integer. The new state is `DeleteRoute` of the old one: `AfterDelete` on success, unchanged tables and slot otherwise. Unsplit tables stay unsplit |
| ResultStore.Store.Undo | app.py:308-328 | Reports whether there was something to undo; the new state is `AfterUndo` of the old one, and unsplit tables stay unsplit |
| ResultStore.Store.ListQuizzes | app.py:188-213 | One entry per distinct (quiz id, topic) pair of the user's rows, by descending quiz id, each with its total and correct counts, 0 ≤ correct ≤ total and total ≥ 1; one entry per quiz id when each quiz has one topic |

## Left out

- The Flask routes, templates, `flash` messages, redirects and the cookie
  session machinery. The session values become parameters and the `slot`
  field.
- SQLite connections and table creation. Tables are sequences of rows, and
  each route's statements and commit form one atomic step. The
  autoincrement `id` column is not part of a row.
- Registration, login, password hashing and recovery. They are calls into
  `flask_login` and werkzeug.
- The language model call and its prompt. The parser starts from the
  response's lines, so `splitlines` is not modelled.
- `generate_quiz_id`, which reads the wall clock. The quiz id is a
  parameter.
- The report page and the PDF export. They only read rows and format them.
- Text.Upper: only ASCII letters are upper-cased. Python also upper-cases
  other scripts, and some characters (such as `ß`) expand to two.
- Store.ListQuizzes: entries with the same quiz id and different topics
  follow the order of the descending-id sort in the model. SQLite leaves
  their order unspecified.
- The `deleted_quiz_id` slot belongs to the browser session, not to a user.
  The model passes the acting user to each call and shares one slot, as
  the session does.
