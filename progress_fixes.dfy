/** Corrected versions of the two progress queries, next to the queries as
    written in `QuizRepository`, with the inputs that tell them apart. The
    correction joins the answer table on the full key
    `(user_id, quiz_id, question_id)`, so that a question without a record
    for the user still counts. */
module ProgressFixes {
  import opened Wrappers
  import opened Lists
  import opened Store
  import opened QuizRepository

  /** The verdict recorded under `key`, if there is a record. */
  function RecordedVerdict(answers: seq<AnswerRow>, key: AnswerKey): (v: Option<bool>)
    ensures v.Some? <==> key in AnswerKeys(answers)
    ensures v.Some? ==> AnswerRow(key, v.value) in answers
  {
    var keys := AnswerKeys(answers);
    match IndexOf(keys, key)
    case Some(i) => assert answers[i].key == key; Some(answers[i].correct)
    case None => None
  }

  lemma {:induction false} IndexOfUpdate<T>(s: seq<T>, i: nat, y: T, x: T)
    requires i < |s| && s[i] != x && y != x
    ensures IndexOf(s[i := y], x) == IndexOf(s, x)
  {
    if s != [] && s[0] != x && i > 0 {
      assert s[i := y][1..] == s[1..][i - 1 := y];
      IndexOfUpdate(s[1..], i - 1, y, x);
    }
  }

  lemma {:induction false} IndexOfAppendOther<T>(s: seq<T>, y: T, x: T)
    requires y != x
    ensures IndexOf(s + [y], x) == IndexOf(s, x)
  {
    if s != [] && s[0] != x {
      assert (s + [y])[1..] == s[1..] + [y];
      IndexOfAppendOther(s[1..], y, x);
    }
  }

  /** An upsert sets the verdict of its own key and no other. */
  lemma UpsertVerdict(answers: seq<AnswerRow>, key: AnswerKey, correct: bool, other: AnswerKey)
    ensures RecordedVerdict(Upsert(answers, key, correct), other) ==
              if other == key then Some(correct) else RecordedVerdict(answers, other)
  {
    var keys := AnswerKeys(answers);
    var after := Upsert(answers, key, correct);
    match IndexOf(keys, key)
    case Some(i) =>
      assert AnswerKeys(after) == keys[i := key];
      if other == key {
        assert keys[i := key] == keys;
      } else {
        IndexOfUpdate(keys, i, key, other);
      }
    case None =>
      assert AnswerKeys(after) == keys + [key];
      if other == key {
        assert (keys + [key])[|keys|] == key;
      } else {
        IndexOfAppendOther(keys, key, other);
      }
  }

  /** The verdict recorded for each question of the quiz, for one user. */
  function Verdicts(t: Tables, quizId: nat, userId: UserId): (vs: seq<Option<bool>>)
    ensures |vs| == |QuizQuestions(t.quizzes, t.questions, quizId)|
  {
    var qus := QuizQuestions(t.quizzes, t.questions, quizId);
    seq(|qus|, i requires 0 <= i < |qus| => RecordedVerdict(t.answers, AnswerKey(userId, quizId, qus[i].id)))
  }

  function IsRecorded(vs: seq<Option<bool>>): (s: seq<bool>)
    ensures |s| == |vs| && forall i :: 0 <= i < |vs| ==> s[i] == vs[i].Some?
  {
    seq(|vs|, i requires 0 <= i < |vs| => vs[i].Some?)
  }

  function IsRecordedCorrect(vs: seq<Option<bool>>): (s: seq<bool>)
    ensures |s| == |vs| && forall i :: 0 <= i < |vs| ==> s[i] == (vs[i] == Some(true))
  {
    seq(|vs|, i requires 0 <= i < |vs| => vs[i] == Some(true))
  }

  /** Corrected `get_results`: `count` is the number of questions in the quiz,
      `answered` those with a record for the user, `correct` those whose
      record is a right answer. */
  function IntendedResults(t: Tables, quizId: nat, userId: UserId): (r: QuizResults)
    ensures r.count == |QuizQuestions(t.quizzes, t.questions, quizId)|
    ensures r.correct <= r.answered <= r.count
  {
    var vs := Verdicts(t, quizId, userId);
    CountTrueMonotone(IsRecordedCorrect(vs), IsRecorded(vs));
    QuizResults(|vs|, CountTrue(IsRecorded(vs)), CountTrue(IsRecordedCorrect(vs)))
  }

  /** Two users answering the same quiz keep independent results: an answer
      by one user leaves the other user's results as they were. */
  lemma ResultsIndependentOfOtherUsers(t: Tables, quizId: nat, questionId: nat, optionIndex: int,
                                       userId: UserId, otherUser: UserId, anyQuiz: nat)
    requires userId != otherUser
    ensures IntendedResults(Answered(t, quizId, questionId, optionIndex, userId), anyQuiz, otherUser)
         == IntendedResults(t, anyQuiz, otherUser)
  {
    var after := Answered(t, quizId, questionId, optionIndex, userId);
    var v := AnswerVerdict(t.options, questionId, optionIndex);
    if v.Ok? {
      var qus := QuizQuestions(t.quizzes, t.questions, anyQuiz);
      forall i | 0 <= i < |qus|
        ensures Verdicts(after, anyQuiz, otherUser)[i] == Verdicts(t, anyQuiz, otherUser)[i]
      {
        UpsertVerdict(t.answers, AnswerKey(userId, quizId, questionId), v.value, AnswerKey(otherUser, anyQuiz, qus[i].id));
      }
      assert Verdicts(after, anyQuiz, otherUser) == Verdicts(t, anyQuiz, otherUser);
    }
  }

  /** When the user's record for the question holds a right answer, upserting
      a wrong one rewrites that record in place. */
  lemma RewriteRecord(answers: seq<AnswerRow>, key: AnswerKey) returns (j: nat)
    requires RecordedVerdict(answers, key) == Some(true)
    ensures j < |answers| && answers[j] == AnswerRow(key, true)
    ensures Upsert(answers, key, false) == answers[j := AnswerRow(key, false)]
  {
    j := IndexOf(AnswerKeys(answers), key).value;
  }

  /** Answering a question wrongly after a right answer keeps `count` and
      `answered` and lowers `correct` by one, in the corrected results. */
  lemma WrongAfterRight(t: Tables, quizId: nat, questionId: nat, optionIndex: int, userId: UserId, k0: nat)
    requires k0 < |QuizQuestions(t.quizzes, t.questions, quizId)|
    requires QuizQuestions(t.quizzes, t.questions, quizId)[k0].id == questionId
    requires forall i, j :: 0 <= i < j < |QuizQuestions(t.quizzes, t.questions, quizId)| ==>
               QuizQuestions(t.quizzes, t.questions, quizId)[i].id != QuizQuestions(t.quizzes, t.questions, quizId)[j].id
    requires RecordedVerdict(t.answers, AnswerKey(userId, quizId, questionId)) == Some(true)
    requires AnswerVerdict(t.options, questionId, optionIndex) == Ok(false)
    ensures var before := IntendedResults(t, quizId, userId);
            var after := IntendedResults(Answered(t, quizId, questionId, optionIndex, userId), quizId, userId);
            after.count == before.count && after.answered == before.answered && after.correct + 1 == before.correct
  {
    var key := AnswerKey(userId, quizId, questionId);
    var after := Answered(t, quizId, questionId, optionIndex, userId);
    var qus := QuizQuestions(t.quizzes, t.questions, quizId);
    var vs, vs' := Verdicts(t, quizId, userId), Verdicts(after, quizId, userId);
    forall i | 0 <= i < |qus| ensures vs'[i] == vs[k0 := Some(false)][i] {
      UpsertVerdict(t.answers, key, false, AnswerKey(userId, quizId, qus[i].id));
    }
    assert vs' == vs[k0 := Some(false)];
    assert IsRecorded(vs') == IsRecorded(vs);
    assert IsRecordedCorrect(vs') == IsRecordedCorrect(vs)[k0 := false];
    CountTrueClear(IsRecordedCorrect(vs), k0);
  }

  /** The same holds for `get_results` as written: the upsert rewrites the
      record in place, and that record makes exactly one result row. */
  lemma WrongAfterRightAsWritten(t: Tables, quizId: nat, questionId: nat, optionIndex: int, userId: UserId, k0: nat)
    requires k0 < |QuizQuestions(t.quizzes, t.questions, quizId)|
    requires QuizQuestions(t.quizzes, t.questions, quizId)[k0].id == questionId
    requires forall i, j :: 0 <= i < j < |QuizQuestions(t.quizzes, t.questions, quizId)| ==>
               QuizQuestions(t.quizzes, t.questions, quizId)[i].id != QuizQuestions(t.quizzes, t.questions, quizId)[j].id
    requires RecordedVerdict(t.answers, AnswerKey(userId, quizId, questionId)) == Some(true)
    requires AnswerVerdict(t.options, questionId, optionIndex) == Ok(false)
    ensures var before := GetResults(t, quizId, userId);
            var after := GetResults(Answered(t, quizId, questionId, optionIndex, userId), quizId, userId);
            after.count == before.count && after.answered == before.answered && after.correct + 1 == before.correct
  {
    var key := AnswerKey(userId, quizId, questionId);
    var j := RewriteRecord(t.answers, key);
    var y := AnswerRow(key, false);
    var after := t.(answers := t.answers[j := y]);
    assert Answered(t, quizId, questionId, optionIndex, userId) == after;
    var qu := QuizQuestions(t.quizzes, t.questions, quizId)[k0];
    ResultRowsReplaced(t, quizId, userId, j, y, qu);
    ResultsReplaced(ResultRows(t, quizId, userId), ResultRows(after, quizId, userId),
                    ProgressRow(qu, Some(t.answers[j])), ProgressRow(qu, Some(y)));
  }

  /** Corrected `get_current_question_id`: the smallest id among the quiz's
      questions that have no record for the user; when there is none, the
      same fallback as the code (first question, or the error). */
  function IntendedCurrentQuestionId(t: Tables, quizId: nat, userId: UserId): (r: Result<nat, string>)
    ensures r.Err? <==> QuestionIdsOfQuiz(t.questions, quizId) == []
    ensures r.Ok? ==> r.value in QuestionIdsOfQuiz(t.questions, quizId)
    ensures r.Ok? && r.value in Unanswered(t, quizId, userId) ==>
              forall id :: id in Unanswered(t, quizId, userId) ==> r.value <= id
    ensures Unanswered(t, quizId, userId) != [] ==> r.Ok? && r.value in Unanswered(t, quizId, userId)
    ensures Unanswered(t, quizId, userId) == [] && r.Ok? ==>
              forall id :: id in QuestionIdsOfQuiz(t.questions, quizId) ==> r.value <= id
  {
    var open := Unanswered(t, quizId, userId);
    var first := QuestionIdsOfQuiz(t.questions, quizId);
    if open != [] then
      var m := Min(open, 0);
      assert m in first by {
        var qus := QuizQuestions(t.quizzes, t.questions, quizId);
        var k :| 0 <= k < |qus| && qus[k].id == m;
        var j :| 0 <= j < |t.questions| && t.questions[j] == qus[k];
      }
      Ok(m)
    else if first == [] then Err(QuizMissing)
    else Ok(Min(first, 0))
  }

  /** Ids of the quiz's questions with no record for the user. */
  function Unanswered(t: Tables, quizId: nat, userId: UserId): seq<nat>
  {
    UnansweredAmong(QuizQuestions(t.quizzes, t.questions, quizId), t.answers, quizId, userId)
  }

  function UnansweredAmong(qus: seq<QuestionRow>, answers: seq<AnswerRow>, quizId: nat, userId: UserId): (ids: seq<nat>)
    ensures forall id :: id in ids ==> exists k :: 0 <= k < |qus| && qus[k].id == id
  {
    if qus == [] then []
    else
      var rest := UnansweredAmong(qus[1..], answers, quizId, userId);
      assert forall id :: id in rest ==> exists k :: 0 <= k < |qus| && qus[k].id == id by {
        forall id | id in rest ensures exists k :: 0 <= k < |qus| && qus[k].id == id {
          var k :| 0 <= k < |qus[1..]| && qus[1..][k].id == id;
          assert qus[k + 1].id == id;
        }
      }
      (if RecordedVerdict(answers, AnswerKey(userId, quizId, qus[0].id)).None? then [qus[0].id] else []) + rest
  }

  /** A quiz with two questions, 0 and 1, of which user "u" answered the first. */
  function OneOfTwoAnswered(): Tables
  {
    Tables(
      [QuizRow(0, Some("u"), "p")],
      [QuestionRow(0, 0, "a"), QuestionRow(1, 0, "b")],
      [OptionRow(0, 0, "x", true), OptionRow(1, 1, "y", true)],
      [AnswerRow(AnswerKey("u", 0, 0), true)])
  }

  lemma ExampleQuestions()
    ensures QuizQuestions(OneOfTwoAnswered().quizzes, OneOfTwoAnswered().questions, 0) == OneOfTwoAnswered().questions
  {
    var t := OneOfTwoAnswered();
    var p := (qu: QuestionRow) => qu.quizId == 0;
    assert Filter(t.questions, p) == [t.questions[0]] + Filter(t.questions[1..], p);
    assert t.questions[1..][1..] == [];
  }

  lemma ExampleResultRows()
    ensures ResultRows(OneOfTwoAnswered(), 0, "u") ==
              [ProgressRow(QuestionRow(0, 0, "a"), Some(AnswerRow(AnswerKey("u", 0, 0), true)))]
  {
    var t := OneOfTwoAnswered();
    ExampleQuestions();
    var qus := t.questions;
    assert AnswersOf(t.answers, 0) == t.answers;
    assert AnswersOf(t.answers, 1) == [];
    var rows := ProgressRows(t, 0);
    assert rows == [ProgressRow(qus[0], Some(t.answers[0])), ProgressRow(qus[1], None)] by {
      assert qus[1..][1..] == [];
    }
    assert rows[1..][1..] == [];
  }

  /** A single right answer among the result rows gives (1, 1, 1). */
  lemma OneRightResultRow(t: Tables, quizId: nat, userId: UserId, row: ProgressRow)
    requires ResultRows(t, quizId, userId) == [row] && row.CorrectColumn() == Some(true)
    ensures GetResults(t, quizId, userId) == QuizResults(1, 1, 1)
  {
    assert AnsweredColumn([row]) == [true] && CorrectFlagColumn([row]) == [true];
    assert CountTrue([true]) == 1 by {
      assert [true][..0] == [];
    }
  }

  lemma ExampleResults()
    ensures GetResults(OneOfTwoAnswered(), 0, "u") == QuizResults(1, 1, 1)
  {
    ExampleResultRows();
    OneRightResultRow(OneOfTwoAnswered(), 0, "u",
      ProgressRow(QuestionRow(0, 0, "a"), Some(AnswerRow(AnswerKey("u", 0, 0), true))));
  }

  lemma ExampleVerdicts()
    ensures Verdicts(OneOfTwoAnswered(), 0, "u") == [Some(true), None]
  {
    var t := OneOfTwoAnswered();
    ExampleQuestions();
    assert AnswerKeys(t.answers) == [AnswerKey("u", 0, 0)];
  }

  /** One right answer and one question without a record give (2, 1, 1). */
  lemma OneOfTwoVerdicts(t: Tables, quizId: nat, userId: UserId)
    requires Verdicts(t, quizId, userId) == [Some(true), None]
    ensures IntendedResults(t, quizId, userId) == QuizResults(2, 1, 1)
  {
    var vs := [Some(true), None];
    assert IsRecorded(vs) == [true, false] && IsRecordedCorrect(vs) == [true, false];
    assert CountTrue([true, false]) == 1 by {
      assert [true, false][..1] == [true] && [true][..0] == [];
    }
  }

  /** As written, `get_results` reports a count of 1 for this two-question
      quiz; the corrected query reports 2. */
  lemma ResultsCountDiffers()
    ensures GetResults(OneOfTwoAnswered(), 0, "u") == QuizResults(1, 1, 1)
    ensures IntendedResults(OneOfTwoAnswered(), 0, "u") == QuizResults(2, 1, 1)
  {
    ExampleResults();
    ExampleVerdicts();
    OneOfTwoVerdicts(OneOfTwoAnswered(), 0, "u");
  }

  /** As written, the smaller of two question ids comes back, whatever was answered. */
  lemma SmallerOfTwo(t: Tables, quizId: nat, userId: UserId, a: nat, b: nat)
    requires QuestionIdsOfQuiz(t.questions, quizId) == [a, b] && a < b
    ensures GetCurrentQuestionId(t, quizId, userId) == Ok(a)
  {
    CurrentQuestionIsFirst(t, quizId, userId);
  }

  /** Corrected, the only question without a record comes back. */
  lemma OnlyOpenQuestion(t: Tables, quizId: nat, userId: UserId, id: nat)
    requires Unanswered(t, quizId, userId) == [id]
    ensures IntendedCurrentQuestionId(t, quizId, userId) == Ok(id)
  {
    assert id in Unanswered(t, quizId, userId);
  }

  lemma ExampleQuestionIds()
    ensures QuestionIdsOfQuiz(OneOfTwoAnswered().questions, 0) == [0, 1]
  {
    var qus := OneOfTwoAnswered().questions;
    assert qus[1..][1..] == [];
  }

  lemma ExampleUnanswered()
    ensures Unanswered(OneOfTwoAnswered(), 0, "u") == [1]
  {
    var t := OneOfTwoAnswered();
    ExampleQuestions();
    assert AnswerKeys(t.answers) == [AnswerKey("u", 0, 0)];
    assert t.questions[1..][1..] == [];
  }

  /** As written, `get_current_question_id` sends user "u" back to question 0,
      which they answered; the corrected query gives question 1. */
  lemma CurrentQuestionDiffers()
    ensures GetCurrentQuestionId(OneOfTwoAnswered(), 0, "u") == Ok(0)
    ensures IntendedCurrentQuestionId(OneOfTwoAnswered(), 0, "u") == Ok(1)
  {
    ExampleQuestionIds();
    SmallerOfTwo(OneOfTwoAnswered(), 0, "u", 0, 1);
    ExampleUnanswered();
    OnlyOpenQuestion(OneOfTwoAnswered(), 0, "u", 1);
  }
}
