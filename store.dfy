/** The relational store as in-memory tables: `quizzes`, `questions`,
    `options` and `user_quiz_answers`. Ids handed out by the database are
    per-table serial counters, so a fresh id exceeds every id already stored
    and table order is id order. */
module Store {
  import opened Wrappers
  import opened Lists

  type UserId = string

  datatype QuizRow = QuizRow(id: nat, ownerId: Option<UserId>, prompt: string)
  datatype QuestionRow = QuestionRow(id: nat, quizId: nat, text: string)
  datatype OptionRow = OptionRow(id: nat, questionId: nat, text: string, correct: bool)

  /** The unique key `(user_id, quiz_id, question_id)` of `user_quiz_answers`. */
  datatype AnswerKey = AnswerKey(userId: UserId, quizId: nat, questionId: nat)
  datatype AnswerRow = AnswerRow(key: AnswerKey, correct: bool)

  /** The contents of all four tables at one moment. */
  datatype Tables = Tables(
    quizzes: seq<QuizRow>,
    questions: seq<QuestionRow>,
    options: seq<OptionRow>,
    answers: seq<AnswerRow>)

  /** SQL `a = b` in a WHERE clause: NULL equals nothing, not even NULL. */
  predicate SqlEq<T(==)>(a: Option<T>, b: Option<T>)
  {
    a.Some? && b.Some? && a.value == b.value
  }

  function QuizIds(rows: seq<QuizRow>): set<nat> { set r | r in rows :: r.id }
  function QuestionIds(rows: seq<QuestionRow>): set<nat> { set r | r in rows :: r.id }

  function AnswerKeys(rows: seq<AnswerRow>): (keys: seq<AnswerKey>)
    ensures |keys| == |rows| && forall i :: 0 <= i < |rows| ==> keys[i] == rows[i].key
  {
    seq(|rows|, i requires 0 <= i < |rows| => rows[i].key)
  }

  /** No two records of `user_quiz_answers` share a key. */
  predicate UniqueKeys(rows: seq<AnswerRow>)
  {
    forall i, j :: 0 <= i < j < |rows| ==> rows[i].key != rows[j].key
  }

  /** `INSERT ... ON CONFLICT (user_id, quiz_id, question_id) DO UPDATE SET correct`:
      overwrite the verdict of the record with that key, or append a new record. */
  function Upsert(rows: seq<AnswerRow>, key: AnswerKey, correct: bool): (r: seq<AnswerRow>)
    ensures key in AnswerKeys(rows) ==> |r| == |rows|
    ensures key !in AnswerKeys(rows) ==> |r| == |rows| + 1
    ensures AnswerRow(key, correct) in r
  {
    match IndexOf(AnswerKeys(rows), key)
    case Some(i) => assert rows[i := AnswerRow(key, correct)][i] == AnswerRow(key, correct); rows[i := AnswerRow(key, correct)]
    case None => assert (rows + [AnswerRow(key, correct)])[|rows|] == AnswerRow(key, correct); rows + [AnswerRow(key, correct)]
  }

  /** After an upsert exactly one record has the key and it holds the new
      verdict; every record with another key is kept, and no other record appears. */
  lemma UpsertEffect(rows: seq<AnswerRow>, key: AnswerKey, correct: bool)
    requires UniqueKeys(rows)
    ensures UniqueKeys(Upsert(rows, key, correct))
    ensures AnswerRow(key, correct) in Upsert(rows, key, correct)
    ensures forall i :: 0 <= i < |Upsert(rows, key, correct)| && Upsert(rows, key, correct)[i].key == key ==>
              Upsert(rows, key, correct)[i].correct == correct
    ensures forall row :: row in rows && row.key != key ==> row in Upsert(rows, key, correct)
    ensures forall row :: row in Upsert(rows, key, correct) ==> row.key == key || row in rows
  {
    var keys := AnswerKeys(rows);
    match IndexOf(keys, key)
    case Some(i) =>
      var r := rows[i := AnswerRow(key, correct)];
      assert r[i] == AnswerRow(key, correct);
      forall row | row in rows && row.key != key ensures row in r {
        var j :| 0 <= j < |rows| && rows[j] == row;
        assert r[j] == row;
      }
    case None =>
      var r := rows + [AnswerRow(key, correct)];
      assert r[|rows|] == AnswerRow(key, correct);
      forall i, j | 0 <= i < j < |r| ensures r[i].key != r[j].key {
        if j == |rows| { assert keys[i] == rows[i].key; }
      }
  }

  /** Upserting the same verdict twice leaves the table as upserting it once. */
  lemma UpsertIdempotent(rows: seq<AnswerRow>, key: AnswerKey, correct: bool)
    ensures Upsert(Upsert(rows, key, correct), key, correct) == Upsert(rows, key, correct)
  {
    var once := Upsert(rows, key, correct);
    var keys := AnswerKeys(rows);
    match IndexOf(keys, key)
    case Some(i) =>
      assert AnswerKeys(once) == keys;
    case None =>
      assert AnswerKeys(once) == keys + [key];
      IndexOfAppend(keys + [key], [], key);
      var j := IndexOf(keys + [key], key).value;
      assert j == |keys|;
  }

  /** Ids are below the table's counter and increase in table order. */
  predicate IdsIncreasingBelow(ids: seq<nat>, next: nat)
  {
    && (forall i :: 0 <= i < |ids| ==> ids[i] < next)
    && (forall i, j :: 0 <= i < j < |ids| ==> ids[i] < ids[j])
  }

  function QuizRowIds(rows: seq<QuizRow>): seq<nat> { seq(|rows|, i requires 0 <= i < |rows| => rows[i].id) }
  function QuestionRowIds(rows: seq<QuestionRow>): seq<nat> { seq(|rows|, i requires 0 <= i < |rows| => rows[i].id) }
  function OptionRowIds(rows: seq<OptionRow>): seq<nat> { seq(|rows|, i requires 0 <= i < |rows| => rows[i].id) }

  /** What the database keeps true: serial ids, every question belongs to a
      stored quiz, every option and every answer to a stored question, and
      answer keys are unique. */
  predicate Consistent(t: Tables, nextQuizId: nat, nextQuestionId: nat, nextOptionId: nat)
  {
    && IdsIncreasingBelow(QuizRowIds(t.quizzes), nextQuizId)
    && IdsIncreasingBelow(QuestionRowIds(t.questions), nextQuestionId)
    && IdsIncreasingBelow(OptionRowIds(t.options), nextOptionId)
    && (forall qu :: qu in t.questions ==> qu.quizId in QuizIds(t.quizzes))
    && (forall o :: o in t.options ==> o.questionId in QuestionIds(t.questions))
    && (forall a :: a in t.answers ==> a.key.questionId in QuestionIds(t.questions))
    && UniqueKeys(t.answers)
  }

  /** The database: four tables the operations reassign, and the serial
      counters that hand out ids. */
  class Database {
    var quizzes: seq<QuizRow>
    var questions: seq<QuestionRow>
    var options: seq<OptionRow>
    var answers: seq<AnswerRow>
    var nextQuizId: nat
    var nextQuestionId: nat
    var nextOptionId: nat

    function Snapshot(): Tables
      reads this
    {
      Tables(quizzes, questions, options, answers)
    }

    ghost predicate Valid()
      reads this
    {
      Consistent(Snapshot(), nextQuizId, nextQuestionId, nextOptionId)
    }

    constructor ()
      ensures Valid()
      ensures Snapshot() == Tables([], [], [], [])
    {
      quizzes, questions, options, answers := [], [], [], [];
      nextQuizId, nextQuestionId, nextOptionId := 0, 0, 0;
    }

    /** `INSERT INTO quizzes (owner_id, prompt) VALUES (...) RETURNING id`. */
    method InsertQuiz(ownerId: Option<UserId>, prompt: string) returns (id: nat)
      requires Valid()
      modifies this
      ensures Valid()
      ensures id == old(nextQuizId) && nextQuizId == id + 1
      ensures quizzes == old(quizzes) + [QuizRow(id, ownerId, prompt)]
      ensures questions == old(questions) && options == old(options) && answers == old(answers)
      ensures nextQuestionId == old(nextQuestionId) && nextOptionId == old(nextOptionId)
    {
      id := nextQuizId;
      quizzes := quizzes + [QuizRow(id, ownerId, prompt)];
      nextQuizId := nextQuizId + 1;
      assert QuizRowIds(quizzes) == QuizRowIds(old(quizzes)) + [id];
      assert forall qu :: qu in questions ==> qu.quizId in QuizIds(quizzes) by {
        assert QuizIds(old(quizzes)) <= QuizIds(quizzes);
      }
    }

    /** `INSERT INTO questions (quiz_id, text) VALUES (...) RETURNING id`;
        the quiz must already be stored. */
    method InsertQuestion(quizId: nat, text: string) returns (id: nat)
      requires Valid()
      requires quizId in QuizIds(quizzes)
      modifies this
      ensures Valid()
      ensures id == old(nextQuestionId) && nextQuestionId == id + 1
      ensures questions == old(questions) + [QuestionRow(id, quizId, text)]
      ensures quizzes == old(quizzes) && options == old(options) && answers == old(answers)
      ensures nextQuizId == old(nextQuizId) && nextOptionId == old(nextOptionId)
    {
      id := nextQuestionId;
      questions := questions + [QuestionRow(id, quizId, text)];
      nextQuestionId := nextQuestionId + 1;
      assert QuestionRowIds(questions) == QuestionRowIds(old(questions)) + [id];
      assert QuestionIds(old(questions)) <= QuestionIds(questions);
    }

    /** `INSERT INTO options (question_id, text, correct) VALUES (...)`;
        the question must already be stored. */
    method InsertOption(questionId: nat, text: string, correct: bool)
      requires Valid()
      requires questionId in QuestionIds(questions)
      modifies this
      ensures Valid()
      ensures options == old(options) + [OptionRow(old(nextOptionId), questionId, text, correct)]
      ensures nextOptionId == old(nextOptionId) + 1
      ensures quizzes == old(quizzes) && questions == old(questions) && answers == old(answers)
      ensures nextQuizId == old(nextQuizId) && nextQuestionId == old(nextQuestionId)
    {
      options := options + [OptionRow(nextOptionId, questionId, text, correct)];
      nextOptionId := nextOptionId + 1;
      assert OptionRowIds(options) == OptionRowIds(old(options)) + [old(nextOptionId)];
    }

    /** The upsert into `user_quiz_answers`, as one statement. */
    method UpsertAnswer(key: AnswerKey, correct: bool)
      requires Valid()
      requires key.questionId in QuestionIds(questions)
      modifies this
      ensures Valid()
      ensures answers == Upsert(old(answers), key, correct)
      ensures quizzes == old(quizzes) && questions == old(questions) && options == old(options)
      ensures nextQuizId == old(nextQuizId) && nextQuestionId == old(nextQuestionId)
      ensures nextOptionId == old(nextOptionId)
    {
      UpsertEffect(answers, key, correct);
      answers := Upsert(answers, key, correct);
    }
  }
}
