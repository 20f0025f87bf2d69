/** How a quiz tree is flattened into rows of the `quizzes`, `questions` and
    `options` tables, and the nested insert loops that write them. Both
    repositories store quizzes this way. */
module QuizRows {
  import opened Wrappers
  import opened Lists
  import opened Models
  import opened Store

  /** Number of options over all questions. */
  function TotalOptions(qs: seq<Question>): nat
  {
    if qs == [] then 0 else TotalOptions(qs[..|qs| - 1]) + |qs[|qs| - 1].options|
  }

  /** The option rows of one question: option `i` gets the `i`-th fresh id and
      is flagged correct iff `i` is the question's correct index. */
  function OptionRowsFor(questionId: nat, firstOptionId: nat, q: Question): seq<OptionRow>
  {
    seq(|q.options|, i requires 0 <= i < |q.options| =>
      OptionRow(firstOptionId + i, questionId, q.options[i], q.correctAnswerIndex == i))
  }

  /** The question rows of a quiz: question `k` gets the `k`-th fresh id. */
  function QuestionRowsOf(quizId: nat, firstQuestionId: nat, qs: seq<Question>): seq<QuestionRow>
  {
    seq(|qs|, k requires 0 <= k < |qs| => QuestionRow(firstQuestionId + k, quizId, qs[k].text))
  }

  /** The option rows of all questions, question by question in input order. */
  function OptionRowsOf(firstQuestionId: nat, firstOptionId: nat, qs: seq<Question>): seq<OptionRow>
  {
    if qs == [] then []
    else
      var init := qs[..|qs| - 1];
      OptionRowsOf(firstQuestionId, firstOptionId, init)
        + OptionRowsFor(firstQuestionId + |init|, firstOptionId + TotalOptions(init), qs[|qs| - 1])
  }

  function OptionFlags(rows: seq<OptionRow>): (flags: seq<bool>)
    ensures |flags| == |rows| && forall i :: 0 <= i < |rows| ==> flags[i] == rows[i].correct
  {
    seq(|rows|, i requires 0 <= i < |rows| => rows[i].correct)
  }

  lemma {:induction false} IndicatorCount(n: nat, c: int)
    ensures CountTrue(seq(n, i requires 0 <= i < n => c == i)) == if 0 <= c < n then 1 else 0
  {
    if n > 0 {
      var s := seq(n, i requires 0 <= i < n => c == i);
      assert s[..n - 1] == seq(n - 1, i requires 0 <= i < n - 1 => c == i);
      IndicatorCount(n - 1, c);
    }
  }

  /** The correct-flag rule: option `i` is flagged iff `i` equals the correct
      index, so a question gets exactly one flagged option when its index is in
      range and none otherwise. */
  lemma FlagRule(questionId: nat, firstOptionId: nat, q: Question)
    ensures forall i :: 0 <= i < |q.options| ==>
              (OptionRowsFor(questionId, firstOptionId, q)[i].correct <==> i == q.correctAnswerIndex)
    ensures CountTrue(OptionFlags(OptionRowsFor(questionId, firstOptionId, q))) ==
              if 0 <= q.correctAnswerIndex < |q.options| then 1 else 0
  {
    var n := |q.options|;
    assert OptionFlags(OptionRowsFor(questionId, firstOptionId, q))
        == seq(n, i requires 0 <= i < n => q.correctAnswerIndex == i);
    IndicatorCount(n, q.correctAnswerIndex);
  }

  /** One option row per option of every question, and every option row points
      at one of the question rows inserted by the same call. */
  lemma {:induction false} OptionRowsShape(firstQuestionId: nat, firstOptionId: nat, qs: seq<Question>)
    ensures |OptionRowsOf(firstQuestionId, firstOptionId, qs)| == TotalOptions(qs)
    ensures forall o :: o in OptionRowsOf(firstQuestionId, firstOptionId, qs) ==>
              firstQuestionId <= o.questionId < firstQuestionId + |qs|
  {
    if qs != [] {
      OptionRowsShape(firstQuestionId, firstOptionId, qs[..|qs| - 1]);
    }
  }

  /** The inner loop: the option rows of one stored question, in order. */
  method InsertOptions(db: Database, questionId: nat, question: Question)
    requires db.Valid()
    requires questionId in QuestionIds(db.questions)
    modifies db
    ensures db.Valid()
    ensures db.options == old(db.options) + OptionRowsFor(questionId, old(db.nextOptionId), question)
    ensures db.nextOptionId == old(db.nextOptionId) + |question.options|
    ensures db.quizzes == old(db.quizzes) && db.questions == old(db.questions) && db.answers == old(db.answers)
    ensures db.nextQuizId == old(db.nextQuizId) && db.nextQuestionId == old(db.nextQuestionId)
  {
    ghost var rows := OptionRowsFor(questionId, db.nextOptionId, question);
    var i := 0;
    while i < |question.options|
      invariant 0 <= i <= |question.options|
      invariant db.Valid()
      invariant db.options == old(db.options) + rows[..i]
      invariant db.nextOptionId == old(db.nextOptionId) + i
      invariant db.quizzes == old(db.quizzes) && db.questions == old(db.questions) && db.answers == old(db.answers)
      invariant db.nextQuizId == old(db.nextQuizId) && db.nextQuestionId == old(db.nextQuestionId)
    {
      var isCorrect := question.correctAnswerIndex == i;
      db.InsertOption(questionId, question.options[i], isCorrect);
      assert rows[..i + 1] == rows[..i] + [rows[i]];
      i := i + 1;
    }
    assert rows[..i] == rows;
  }

  /** Storing one more question extends the question rows by one. */
  lemma QuestionRowsSnoc(quizId: nat, firstQuestionId: nat, qs: seq<Question>, k: nat)
    requires k < |qs|
    ensures QuestionRowsOf(quizId, firstQuestionId, qs[..k + 1])
         == QuestionRowsOf(quizId, firstQuestionId, qs[..k]) + [QuestionRow(firstQuestionId + k, quizId, qs[k].text)]
  {
  }

  /** Storing one more question extends the option rows by its own. */
  lemma OptionRowsSnoc(firstQuestionId: nat, firstOptionId: nat, qs: seq<Question>, k: nat)
    requires k < |qs|
    ensures OptionRowsOf(firstQuestionId, firstOptionId, qs[..k + 1])
         == OptionRowsOf(firstQuestionId, firstOptionId, qs[..k])
            + OptionRowsFor(firstQuestionId + k, firstOptionId + TotalOptions(qs[..k]), qs[k])
    ensures TotalOptions(qs[..k + 1]) == TotalOptions(qs[..k]) + |qs[k].options|
  {
    assert qs[..k + 1][..k] == qs[..k];
  }

  /** The rows after storing question `k`, given the rows after the first `k`. */
  lemma StoredOneMore(questions0: seq<QuestionRow>, options0: seq<OptionRow>, quizId: nat,
                      firstQuestionId: nat, firstOptionId: nat, qs: seq<Question>, k: nat,
                      questionsBefore: seq<QuestionRow>, optionsBefore: seq<OptionRow>,
                      questionsAfter: seq<QuestionRow>, optionsAfter: seq<OptionRow>)
    requires k < |qs|
    requires questionsBefore == questions0 + QuestionRowsOf(quizId, firstQuestionId, qs[..k])
    requires optionsBefore == options0 + OptionRowsOf(firstQuestionId, firstOptionId, qs[..k])
    requires questionsAfter == questionsBefore + [QuestionRow(firstQuestionId + k, quizId, qs[k].text)]
    requires optionsAfter == optionsBefore
               + OptionRowsFor(firstQuestionId + k, firstOptionId + TotalOptions(qs[..k]), qs[k])
    ensures questionsAfter == questions0 + QuestionRowsOf(quizId, firstQuestionId, qs[..k + 1])
    ensures optionsAfter == options0 + OptionRowsOf(firstQuestionId, firstOptionId, qs[..k + 1])
    ensures TotalOptions(qs[..k + 1]) == TotalOptions(qs[..k]) + |qs[k].options|
  {
    QuestionRowsSnoc(quizId, firstQuestionId, qs, k);
    OptionRowsSnoc(firstQuestionId, firstOptionId, qs, k);
  }

  /** One pass of the outer loop: the question row, then its option rows. */
  method InsertQuestionTree(db: Database, quizId: nat, question: Question) returns (questionId: nat)
    requires db.Valid()
    requires quizId in QuizIds(db.quizzes)
    modifies db
    ensures db.Valid()
    ensures questionId == old(db.nextQuestionId) && db.nextQuestionId == questionId + 1
    ensures db.questions == old(db.questions) + [QuestionRow(questionId, quizId, question.text)]
    ensures db.options == old(db.options) + OptionRowsFor(questionId, old(db.nextOptionId), question)
    ensures db.nextOptionId == old(db.nextOptionId) + |question.options|
    ensures db.quizzes == old(db.quizzes) && db.answers == old(db.answers) && db.nextQuizId == old(db.nextQuizId)
  {
    questionId := db.InsertQuestion(quizId, question.text);
    assert QuestionRow(questionId, quizId, question.text) in db.questions;
    InsertOptions(db, questionId, question);
  }

  /** Writes a quiz tree: one quiz row, then for each question in order its
      question row followed by its option rows, each child row carrying the id
      just returned for its parent. Returns the new quiz id. */
  method InsertQuizTree(db: Database, ownerId: Option<UserId>, quiz: Quiz) returns (quizId: nat)
    requires db.Valid()
    modifies db
    ensures db.Valid()
    ensures quizId == old(db.nextQuizId)
    ensures db.quizzes == old(db.quizzes) + [QuizRow(quizId, ownerId, quiz.prompt)]
    ensures db.questions == old(db.questions) + QuestionRowsOf(quizId, old(db.nextQuestionId), quiz.questions)
    ensures db.options == old(db.options)
              + OptionRowsOf(old(db.nextQuestionId), old(db.nextOptionId), quiz.questions)
    ensures db.answers == old(db.answers)
    ensures db.nextQuizId == quizId + 1
    ensures db.nextQuestionId == old(db.nextQuestionId) + |quiz.questions|
    ensures db.nextOptionId == old(db.nextOptionId) + TotalOptions(quiz.questions)
  {
    var qs := quiz.questions;
    ghost var q0, o0 := db.nextQuestionId, db.nextOptionId;
    quizId := db.InsertQuiz(ownerId, quiz.prompt);
    assert QuizRow(quizId, ownerId, quiz.prompt) in db.quizzes;
    var k := 0;
    while k < |qs|
      invariant 0 <= k <= |qs|
      invariant db.Valid()
      invariant db.quizzes == old(db.quizzes) + [QuizRow(quizId, ownerId, quiz.prompt)]
      invariant db.questions == old(db.questions) + QuestionRowsOf(quizId, q0, qs[..k])
      invariant db.options == old(db.options) + OptionRowsOf(q0, o0, qs[..k])
      invariant db.answers == old(db.answers)
      invariant db.nextQuizId == quizId + 1
      invariant db.nextQuestionId == q0 + k
      invariant db.nextOptionId == o0 + TotalOptions(qs[..k])
    {
      assert quizId in QuizIds(db.quizzes);
      ghost var optionsBefore, questionsBefore := db.options, db.questions;
      var questionId := InsertQuestionTree(db, quizId, qs[k]);
      StoredOneMore(old(db.questions), old(db.options), quizId, q0, o0, qs, k,
                    questionsBefore, optionsBefore, db.questions, db.options);
      k := k + 1;
    }
    assert qs[..k] == qs;
  }
}
