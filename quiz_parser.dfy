/**
 * The parsing half of `generate_quiz` (app.py): the language model's reply,
 * already split into lines, becomes an ordered list of question records,
 * capped at fifteen.
 *
 * Each record is a Python dictionary whose keys `question`, `options` and
 * `answer` may each be missing; a missing key is `None` here.
 */
module QuizParser {
  import opened Wrappers
  import opened Text

  /** The number of questions the generator is asked for, and the cap on the list. */
  const MaxQuestions: nat := 15

  datatype Record = Record(question: Option<string>, options: Option<seq<string>>, answer: Option<string>)

  /** The empty dictionary `{}`. */
  const Blank := Record(None, None, None)

  /** Python's truth test `if current:` on a dictionary: it has at least one key. */
  predicate Present(r: Record) {
    r != Blank
  }

  /** What the loop does with a stripped line, decided in the order of its `if`/`elif` chain. */
  datatype LineKind = QuestionLine | OptionLine | AnswerLine | OtherLine

  function Kind(l: string): LineKind {
    if |l| >= 2 && l[0] == 'Q' && l[1] == ':' then QuestionLine
    else if |l| >= 2 && 'A' <= l[0] <= 'D' && l[1] == ')' then OptionLine
    else if |l| >= 7 && l[0] == 'A' && l[1] == 'n' && l[2] == 's' && l[3] == 'w' &&
            l[4] == 'e' && l[5] == 'r' && l[6] == ':' then AnswerLine
    else OtherLine
  }

  /**
   * The classification is the chain of `startswith` tests of the loop:
   * `"Q:"`, then one of `"A)"`, `"B)"`, `"C)"`, `"D)"`, then `"Answer:"`.
   */
  lemma KindIsPrefixTest(l: string)
    ensures Kind(l) == QuestionLine <==> "Q:" <= l
    ensures Kind(l) == OptionLine <==> !("Q:" <= l) && ("A)" <= l || "B)" <= l || "C)" <= l || "D)" <= l)
    ensures Kind(l) == AnswerLine <==>
      !("Q:" <= l) && !("A)" <= l || "B)" <= l || "C)" <= l || "D)" <= l) && "Answer:" <= l
  {
    if |l| >= 7 && "Answer:" <= l {
      assert l[..7] == "Answer:";
    }
  }

  /** The answer of an `Answer:` line: the second colon-separated piece, stripped. */
  function AnswerField(l: string): string
    requires Kind(l) == AnswerLine
  {
    assert l[6] == ':';
    Strip(Split(l, ':')[1])
  }

  /** The question of a `Q:` line: what follows the marker, stripped. */
  function QuestionText(l: string): string
    requires Kind(l) == QuestionLine
  {
    Strip(l[2..])
  }

  /** The effect of an option or `Answer:` line on the record being built. */
  function Absorb(c: Record, l: string): Record {
    match Kind(l)
    case OptionLine => c.(options := Some(c.options.GetOr([]) + [l]))
    case AnswerLine => c.(answer := Some(AnswerField(l)))
    case _ => c
  }

  /** The loop's variables: the list `quiz` built so far and the dictionary `current`. */
  datatype State = State(done: seq<Record>, current: Record)

  const Start := State([], Blank)

  /** The list once `current` is appended, if it is present. */
  function Commit(st: State): seq<Record> {
    if Present(st.current) then st.done + [st.current] else st.done
  }

  /** One iteration of the loop on a raw (unstripped) line. */
  function Step(st: State, raw: string): State {
    var l := Strip(raw);
    if Kind(l) == QuestionLine then State(Commit(st), Record(Some(QuestionText(l)), Some([]), None))
    else State(st.done, Absorb(st.current, l))
  }

  /** The remaining iterations of the loop, from state `st`. */
  function Run(st: State, lines: seq<string>): State
    decreases |lines|
  {
    if lines == [] then st else Run(Step(st, lines[0]), lines[1..])
  }

  /** Every record the loop commits, including the one in progress at the end. */
  function Committed(lines: seq<string>): seq<Record> {
    Commit(Run(Start, lines))
  }

  /** The list `generate_quiz` returns: `quiz[:15]`. */
  function Parse(lines: seq<string>): seq<Record> {
    var all := Committed(lines);
    if |all| <= MaxQuestions then all else all[..MaxQuestions]
  }

  /**
   * The body of the parsing loop for one raw line: strip it, then act on
   * the first of the `startswith` tests it passes.
   */
  method ParseLine(quiz: seq<Record>, current: Record, raw: string)
    returns (quiz': seq<Record>, current': Record)
    ensures State(quiz', current') == Step(State(quiz, current), raw)
  {
    quiz', current' := quiz, current;
    var line := Strip(raw);
    KindIsPrefixTest(line);
    if "Q:" <= line {
      // commit the record in progress, if it has any key
      if current' != Blank {
        quiz' := quiz' + [current'];
      }
      current' := Record(Some(Strip(line[2..])), Some([]), None);
    } else if "A)" <= line || "B)" <= line || "C)" <= line || "D)" <= line {
      // an option line with no record in progress starts one
      if current'.options == None {
        current' := current'.(options := Some([]));
      }
      current' := current'.(options := Some(current'.options.value + [line]));
    } else if "Answer:" <= line {
      current' := current'.(answer := Some(AnswerField(line)));
    }
  }

  /**
   * The parsing loop of `generate_quiz`. The result is the first fifteen
   * committed records, in source order.
   */
  method ParseQuiz(lines: seq<string>) returns (result: seq<Record>)
    ensures result == Parse(lines)
    ensures |result| <= MaxQuestions
    ensures result <= Committed(lines)
    ensures |result| == |Committed(lines)| || |result| == MaxQuestions
  {
    var quiz: seq<Record> := [];
    var current := Blank;
    var i := 0;
    while i < |lines|
      invariant 0 <= i <= |lines|
      invariant State(quiz, current) == Run(Start, lines[..i])
    {
      quiz, current := ParseLine(quiz, current, lines[i]);
      RunSnoc(lines, i);
      i := i + 1;
    }
    assert lines[..i] == lines;
    // the record still in progress at the end is committed too
    if current != Blank {
      quiz := quiz + [current];
    }
    result := if |quiz| <= MaxQuestions then quiz else quiz[..MaxQuestions];
  }

  // ---------------------------------------------------------------------
  // What the loop does, stated without the loop

  /** The stripped option lines of `body`, in order. */
  function OptionLines(body: seq<string>): seq<string>
    decreases |body|
  {
    if body == [] then []
    else
      var l := Strip(body[0]);
      (if Kind(l) == OptionLine then [l] else []) + OptionLines(body[1..])
  }

  /** The answer of the last `Answer:` line of `body`, if there is one. */
  function LastAnswer(body: seq<string>): Option<string>
    decreases |body|
  {
    if body == [] then None
    else
      var later := LastAnswer(body[1..]);
      var l := Strip(body[0]);
      if later.Some? then later
      else if Kind(l) == AnswerLine then Some(AnswerField(l))
      else None
  }

  /** No line of `body` starts a new question. */
  predicate NoQuestionLines(body: seq<string>) {
    forall k :: 0 <= k < |body| ==> Kind(Strip(body[k])) != QuestionLine
  }

  /** The `options` key after appending `added`: created only if something is appended. */
  function Extend(options: Option<seq<string>>, added: seq<string>): Option<seq<string>> {
    if options == None && added == [] then None else Some(options.GetOr([]) + added)
  }

  /** The records already committed take no part in what comes after. */
  lemma {:induction false} RunKeepsDone(d: seq<Record>, c: Record, lines: seq<string>)
    ensures Run(State(d, c), lines).done == d + Run(State([], c), lines).done
    ensures Run(State(d, c), lines).current == Run(State([], c), lines).current
    decreases |lines|
  {
    if lines != [] {
      var l := Strip(lines[0]);
      if Kind(l) == QuestionLine {
        var c' := Record(Some(QuestionText(l)), Some([]), None);
        var e := Commit(State([], c));
        assert Commit(State(d, c)) == d + e;
        RunKeepsDone(d + e, c', lines[1..]);
        RunKeepsDone(e, c', lines[1..]);
      } else {
        RunKeepsDone(d, Absorb(c, l), lines[1..]);
      }
    }
  }

  /** The state after `i + 1` lines is one step from the state after `i` lines. */
  lemma RunSnoc(lines: seq<string>, i: nat)
    requires i < |lines|
    ensures Run(Start, lines[..i + 1]) == Step(Run(Start, lines[..i]), lines[i])
  {
    assert lines[..i + 1] == lines[..i] + [lines[i]];
    RunAppend(Start, lines[..i], [lines[i]]);
    assert [lines[i]][1..] == [];
  }

  lemma {:induction false} RunAppend(st: State, a: seq<string>, b: seq<string>)
    ensures Run(st, a + b) == Run(Run(st, a), b)
    decreases |a|
  {
    if a != [] {
      var st' := Step(st, a[0]);
      assert (a + b)[0] == a[0] && (a + b)[1..] == a[1..] + b;
      calc {
        Run(st, a + b);
        Run(st', a[1..] + b);
        { RunAppend(st', a[1..], b); }
        Run(Run(st', a[1..]), b);
        Run(Run(st, a), b);
      }
    } else {
      assert a + b == b;
    }
  }

  /**
   * Lines that are neither question, option nor `Answer:` lines are ignored:
   * deleting one anywhere leaves the result unchanged.
   */
  lemma IrrelevantLineIgnored(a: seq<string>, l: string, b: seq<string>)
    requires Kind(Strip(l)) == OtherLine
    ensures Committed(a + [l] + b) == Committed(a + b)
    ensures Parse(a + [l] + b) == Parse(a + b)
  {
    RunAppend(Start, a, [l] + b);
    RunAppend(Start, a, b);
    assert a + [l] + b == a + ([l] + b);
    assert ([l] + b)[1..] == b;
  }

  /**
   * A question line closes everything before it: the records of the text
   * before it are committed unchanged, and the text from it onwards is
   * parsed as if it stood alone.
   */
  lemma QuestionLineSplits(a: seq<string>, l: string, b: seq<string>)
    requires Kind(Strip(l)) == QuestionLine
    ensures Committed(a + [l] + b) == Committed(a) + Committed([l] + b)
  {
    var st := Run(Start, a);
    assert a + [l] + b == a + ([l] + b);
    RunAppend(Start, a, [l] + b);
    assert ([l] + b)[1..] == b;
    var c' := Record(Some(QuestionText(Strip(l))), Some([]), None);
    assert Run(st, [l] + b) == Run(State(Commit(st), c'), b);
    assert Run(Start, [l] + b) == Run(State([], c'), b);
    RunKeepsDone(Commit(st), c', b);
  }

  /**
   * Within a block that has no question line, options are appended in
   * order (creating the `options` key if needed) and the last `Answer:`
   * line wins; nothing is committed.
   */
  lemma {:induction false} BlockBody(c: Record, body: seq<string>)
    requires NoQuestionLines(body)
    ensures Run(State([], c), body) ==
      State([], Record(c.question, Extend(c.options, OptionLines(body)),
                       if LastAnswer(body).Some? then LastAnswer(body) else c.answer))
    decreases |body|
  {
    if body != [] {
      var l := Strip(body[0]);
      assert Kind(l) != QuestionLine by { assert Kind(Strip(body[0])) != QuestionLine; }
      var c' := Absorb(c, l);
      assert NoQuestionLines(body[1..]) by {
        forall k | 0 <= k < |body[1..]| ensures Kind(Strip(body[1..][k])) != QuestionLine {
          assert body[1..][k] == body[k + 1];
        }
      }
      BlockBody(c', body[1..]);
      var rest := body[1..];
      assert Run(State([], c), body) == Run(State([], c'), rest);
      assert OptionLines(body) == (if Kind(l) == OptionLine then [l] else []) + OptionLines(rest);
      match Kind(l)
      case OptionLine =>
        assert c'.options == Some(c.options.GetOr([]) + [l]);
        assert c.options.GetOr([]) + [l] + OptionLines(rest) == c.options.GetOr([]) + OptionLines(body);
      case AnswerLine =>
        assert OptionLines(body) == OptionLines(rest);
      case OtherLine =>
        assert OptionLines(body) == OptionLines(rest);
    } else {
      assert c.options.GetOr([]) + [] == c.options.GetOr([]);
    }
  }

  /**
   * A question line followed by lines that start no new question yields
   * exactly one record: its question text, its option lines in order, and
   * the answer of its last `Answer:` line (absent if it has none).
   */
  lemma QuestionBlock(l: string, body: seq<string>)
    requires Kind(Strip(l)) == QuestionLine
    requires NoQuestionLines(body)
    ensures Committed([l] + body) ==
      [Record(Some(QuestionText(Strip(l))), Some(OptionLines(body)), LastAnswer(body))]
  {
    var c' := Record(Some(QuestionText(Strip(l))), Some([]), None);
    assert ([l] + body)[1..] == body;
    assert Run(Start, [l] + body) == Run(State([], c'), body);
    BlockBody(c', body);
    assert [] + OptionLines(body) == OptionLines(body);
  }

  /**
   * Text with no question line yields no record at all, unless it holds an
   * option or `Answer:` line: then it yields one orphan record, without a
   * `question` key.
   */
  lemma WithoutQuestions(lines: seq<string>)
    requires NoQuestionLines(lines)
    ensures Committed(lines) ==
      if OptionLines(lines) == [] && LastAnswer(lines) == None then []
      else [Record(None, Extend(None, OptionLines(lines)), LastAnswer(lines))]
    ensures Committed(lines) == [] <==> OptionLines(lines) == [] && LastAnswer(lines) == None
  {
    BlockBody(Blank, lines);
  }

  // ---------------------------------------------------------------------
  // Round trip: text in the format the prompt asks for parses back

  /** The four option markers, in order. */
  const Markers: seq<string> := ["A)", "B)", "C)", "D)"]

  /** One question as the prompt asks the generator to write it. */
  datatype Question = Question(text: string, options: seq<string>, answer: string)

  predicate WellFormed(q: Question) {
    q.text != [] && Trimmed(q.text) &&
    |q.options| == 4 &&
    (forall i :: 0 <= i < 4 ==> Trimmed(q.options[i]) && Markers[i] <= q.options[i]) &&
    q.answer != [] && Trimmed(q.answer) && ':' !in q.answer
  }

  /** `Q: [question]`, the four option lines, `Answer: [letter]`. */
  function Render(q: Question): seq<string> {
    ["Q: " + q.text] + q.options + ["Answer: " + q.answer]
  }

  function RenderAll(qs: seq<Question>): seq<string>
    decreases |qs|
  {
    if qs == [] then [] else Render(qs[0]) + RenderAll(qs[1..])
  }

  function ToRecord(q: Question): Record {
    Record(Some(q.text), Some(q.options), Some(q.answer))
  }

  function ToRecords(qs: seq<Question>): (r: seq<Record>)
    ensures |r| == |qs|
    decreases |qs|
  {
    if qs == [] then [] else [ToRecord(qs[0])] + ToRecords(qs[1..])
  }

  lemma QuestionLineOf(t: string)
    requires t != [] && Trimmed(t)
    ensures Strip("Q: " + t) == "Q: " + t
    ensures Kind(Strip("Q: " + t)) == QuestionLine
    ensures QuestionText("Q: " + t) == t
  {
    StripTrimmed("Q: " + t);
    assert ("Q: " + t)[2..] == " " + t;
    StripLeadingSpace(t);
  }

  lemma AnswerSplit(a: string)
    requires ':' !in a
    ensures Split("Answer: " + a, ':') == ["Answer", " " + a]
  {
    assert "Answer: " + a == "Answer" + [':'] + (" " + a);
    SplitAtFirst("Answer", " " + a, ':');
    SplitNoSep(" " + a, ':');
  }

  lemma AnswerLineOf(a: string)
    requires a != [] && Trimmed(a) && ':' !in a
    ensures Strip("Answer: " + a) == "Answer: " + a
    ensures Kind(Strip("Answer: " + a)) == AnswerLine
    ensures AnswerField("Answer: " + a) == a
  {
    var l := "Answer: " + a;
    StripTrimmed(l);
    AnswerSplit(a);
    StripLeadingSpace(a);
  }

  /**
   * The answer stops at a second colon: whatever follows it on the line is
   * dropped, and without a second colon the answer runs to the end of the line.
   */
  lemma AnswerStopsAtColon(a: string, rest: string)
    requires ':' !in a
    ensures Kind("Answer:" + a + [':'] + rest) == AnswerLine
    ensures AnswerField("Answer:" + a + [':'] + rest) == Strip(a)
    ensures Kind("Answer:" + a) == AnswerLine
    ensures AnswerField("Answer:" + a) == Strip(a)
  {
    assert "Answer:" + a + [':'] + rest == "Answer" + [':'] + (a + [':'] + rest);
    SplitAtFirst("Answer", a + [':'] + rest, ':');
    SplitAtFirst(a, rest, ':');
    assert "Answer:" + a == "Answer" + [':'] + a;
    SplitAtFirst("Answer", a, ':');
    SplitNoSep(a, ':');
  }

  /** For instance, the line `Answer: B: extra` records the answer `B`. */
  lemma AnswerWithTrailingText()
    ensures AnswerField("Answer: B: extra") == "B"
  {
    AnswerStopsAtColon(" B", " extra");
    assert "Answer: B: extra" == "Answer:" + " B" + [':'] + " extra";
    StripLeadingSpace("B");
  }

  lemma OptionLineOf(o: string, i: nat)
    requires i < 4 && Trimmed(o) && Markers[i] <= o
    ensures Strip(o) == o && Kind(o) == OptionLine
  {
    StripTrimmed(o);
    assert o[..2] == Markers[i];
    assert o[0] == Markers[i][0] && o[1] == ')';
  }

  lemma {:induction false} OptionLinesFrom(q: Question, k: nat)
    requires WellFormed(q) && k <= 4
    ensures NoQuestionLines(q.options[k..] + ["Answer: " + q.answer])
    ensures OptionLines(q.options[k..] + ["Answer: " + q.answer]) == q.options[k..]
    ensures LastAnswer(q.options[k..] + ["Answer: " + q.answer]) == Some(q.answer)
    decreases 4 - k
  {
    var tail := ["Answer: " + q.answer];
    var s := q.options[k..] + tail;
    AnswerLineOf(q.answer);
    if k == 4 {
      assert s == tail && tail[1..] == [];
    } else {
      OptionLinesFrom(q, k + 1);
      OptionLineOf(q.options[k], k);
      assert s[0] == q.options[k] && s[1..] == q.options[k + 1..] + tail;
      assert q.options[k..] == [q.options[k]] + q.options[k + 1..];
    }
  }

  /** A well-formed question renders to a block that parses back to it. */
  lemma RenderedQuestion(q: Question)
    requires WellFormed(q)
    ensures Committed(Render(q)) == [ToRecord(q)]
  {
    QuestionLineOf(q.text);
    OptionLinesFrom(q, 0);
    assert q.options[0..] == q.options;
    assert Render(q) == ["Q: " + q.text] + (q.options + ["Answer: " + q.answer]);
    QuestionBlock("Q: " + q.text, q.options + ["Answer: " + q.answer]);
  }

  /**
   * Text made of well-formed question blocks parses to exactly those
   * questions, in source order.
   */
  lemma {:induction false} RenderedQuiz(qs: seq<Question>)
    requires forall i :: 0 <= i < |qs| ==> WellFormed(qs[i])
    ensures Committed(RenderAll(qs)) == ToRecords(qs)
    decreases |qs|
  {
    if qs != [] {
      RenderedQuestion(qs[0]);
      RenderedQuiz(qs[1..]);
      var rest := qs[1..];
      assert ToRecords(qs) == [ToRecord(qs[0])] + ToRecords(rest);
      if rest == [] {
        assert RenderAll(qs) == Render(qs[0]) + [] == Render(qs[0]);
        assert ToRecords(qs) == [ToRecord(qs[0])];
      } else {
        var q1 := rest[0];
        QuestionLineOf(q1.text);
        var tail := RenderAll(rest)[1..];
        assert RenderAll(rest) == ["Q: " + q1.text] + tail;
        assert RenderAll(qs) == Render(qs[0]) + ["Q: " + q1.text] + tail;
        QuestionLineSplits(Render(qs[0]), "Q: " + q1.text, tail);
      }
    }
  }

  /**
   * The generator's reply in the requested format yields the first fifteen
   * of its questions (all of them if there are fewer), in source order.
   */
  lemma ParseRendered(qs: seq<Question>)
    requires forall i :: 0 <= i < |qs| ==> WellFormed(qs[i])
    ensures |qs| <= MaxQuestions ==> Parse(RenderAll(qs)) == ToRecords(qs)
    ensures |qs| > MaxQuestions ==> Parse(RenderAll(qs)) == ToRecords(qs[..MaxQuestions])
  {
    RenderedQuiz(qs);
    if |qs| > MaxQuestions {
      RecordsPrefix(qs, MaxQuestions);
    }
  }

  lemma {:induction false} RecordsPrefix(qs: seq<Question>, n: nat)
    requires n <= |qs|
    ensures ToRecords(qs)[..n] == ToRecords(qs[..n])
    decreases n
  {
    if n > 0 {
      RecordsPrefix(qs[1..], n - 1);
      assert qs[..n][1..] == qs[1..][..n - 1];
    }
  }
}
