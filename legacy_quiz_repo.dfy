/** The older repository, which stores a quiz without an owner. */
module LegacyQuizRepo {
  import opened Wrappers
  import opened Lists
  import opened Models
  import opened Store
  import opened QuizRows

  /** `create`: inserts the quiz row (no owner), then every question row
      followed by its option rows, and returns the id the quiz insert
      produced. Rows stored before are kept as they were. */
  method Create(db: Database, quiz: Quiz) returns (quizId: nat)
    requires db.Valid()
    modifies db
    ensures db.Valid()
    ensures quizId == old(db.nextQuizId)
    ensures db.quizzes == old(db.quizzes) + [QuizRow(quizId, None, quiz.prompt)]
    ensures db.questions == old(db.questions) + QuestionRowsOf(quizId, old(db.nextQuestionId), quiz.questions)
    ensures db.options == old(db.options)
              + OptionRowsOf(old(db.nextQuestionId), old(db.nextOptionId), quiz.questions)
    ensures db.answers == old(db.answers)
  {
    quizId := InsertQuizTree(db, None, quiz);
  }

  /** The quiz the module's `__main__` block stores. */
  function Fixture(): (quiz: Quiz)
    ensures quiz.id.None? && quiz.Length() == 2
    ensures forall i :: 0 <= i < quiz.Length() ==>
              var question := quiz.questions[i];
              && question.id.None?
              && 0 <= question.correctAnswerIndex < question.Length()
              && question.options[question.correctAnswerIndex] == question.correctAnswer
  {
    Quiz(None, "Can you do basic maths?", [
      Question(None, "What is 1 + 1", ["1", "2", "3", "4"], "2", 1),
      Question(None, "What is 2 + 2", ["1", "2", "3", "4"], "4", 3)])
  }

  /** Storing the fixture writes eight option rows; the only flagged ones are
      "2" of the first question and "4" of the second. */
  lemma FixtureFlags(firstQuestionId: nat, firstOptionId: nat)
    ensures var rows := OptionRowsOf(firstQuestionId, firstOptionId, Fixture().questions);
            && OptionFlags(rows) == [false, true, false, false, false, false, false, true]
            && rows[1] == OptionRow(firstOptionId + 1, firstQuestionId, "2", true)
            && rows[7] == OptionRow(firstOptionId + 7, firstQuestionId + 1, "4", true)
  {
    var qs := Fixture().questions;
    var q1 := OptionRowsFor(firstQuestionId, firstOptionId, qs[0]);
    var q2 := OptionRowsFor(firstQuestionId + 1, firstOptionId + 4, qs[1]);
    assert qs[..1] == [qs[0]] && qs[..1][..0] == [];
    assert TotalOptions(qs[..1]) == 4;
    assert OptionRowsOf(firstQuestionId, firstOptionId, qs[..1]) == q1;
    var rows := OptionRowsOf(firstQuestionId, firstOptionId, qs);
    assert rows == q1 + q2;
    assert OptionFlags(q1) == [false, true, false, false];
    assert OptionFlags(q2) == [false, false, false, true];
    assert OptionFlags(rows) == OptionFlags(q1) + OptionFlags(q2);
  }
}
