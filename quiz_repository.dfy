/** The quiz progression store: saving a quiz, loading it back, recording
    answers and the two progress queries, each as one atomic step on the
    tables of `Store`. SQL queries are functions of the tables; the joins
    return rows in table order, which is id order. */
module QuizRepository {
  import opened Wrappers
  import opened Lists
  import opened Models
  import opened Store
  import opened QuizRows

  // ---------------------------------------------------------------------
  // Loading a quiz: the joined rows and how they are regrouped.

  /** One row of the `get` query: a quiz, one of its questions, one of that
      question's options and, from the LEFT JOIN, the verdict of one answer to
      that question (NULL when it has none). */
  datatype JoinedRow = JoinedRow(
    quizId: nat,
    quizPrompt: string,
    questionId: nat,
    questionText: string,
    optionId: nat,
    optionText: string,
    optionCorrect: bool,
    answeredCorrect: Option<bool>)

  /** The answers whose `question_id` is `questionId`, any user, any quiz. */
  function AnswersOf(answers: seq<AnswerRow>, questionId: nat): seq<AnswerRow>
  {
    Filter(answers, (a: AnswerRow) => a.key.questionId == questionId)
  }

  /** `row` carries the columns of quiz row `q`, question row `qu` and option
      row `o`, and its verdict, when it has one, is that of an answer record of
      the option's question. */
  ghost predicate JoinedFrom(row: JoinedRow, q: QuizRow, qu: QuestionRow, o: OptionRow, answers: seq<AnswerRow>)
  {
    && row.quizId == q.id && row.quizPrompt == q.prompt
    && row.questionId == qu.id && row.questionText == qu.text
    && row.optionId == o.id && row.optionText == o.text && row.optionCorrect == o.correct
    && (row.answeredCorrect.Some? ==>
          exists a :: a in answers && a.key.questionId == o.questionId && a.correct == row.answeredCorrect.value)
  }

  /** `LEFT JOIN user_quiz_answers a ON o.question_id = a.question_id`: the
      option once per answer record of its question, whoever gave it, or once
      with a NULL verdict when there is none. */
  function AnswerJoin(q: QuizRow, qu: QuestionRow, o: OptionRow, answers: seq<AnswerRow>): (r: seq<JoinedRow>)
    ensures |r| == if AnswersOf(answers, o.questionId) == [] then 1 else |AnswersOf(answers, o.questionId)|
    ensures forall i :: 0 <= i < |r| ==> JoinedFrom(r[i], q, qu, o, answers)
    ensures forall i :: 0 <= i < |r| ==> (r[i].answeredCorrect.None? <==> AnswersOf(answers, o.questionId) == [])
  {
    var matching := AnswersOf(answers, o.questionId);
    if matching == [] then
      [JoinedRow(q.id, q.prompt, qu.id, qu.text, o.id, o.text, o.correct, None)]
    else
      seq(|matching|, i requires 0 <= i < |matching| =>
        JoinedRow(q.id, q.prompt, qu.id, qu.text, o.id, o.text, o.correct, Some(matching[i].correct)))
  }

  /** `JOIN options o ON qu.id = o.question_id`. */
  function OptionJoin(q: QuizRow, qu: QuestionRow, os: seq<OptionRow>, answers: seq<AnswerRow>): (r: seq<JoinedRow>)
    ensures forall i :: 0 <= i < |r| ==> r[i].quizId == q.id && r[i].questionId == qu.id
  {
    if os == [] then []
    else (if os[0].questionId == qu.id then AnswerJoin(q, qu, os[0], answers) else [])
         + OptionJoin(q, qu, os[1..], answers)
  }

  /** `JOIN questions qu ON q.id = qu.quiz_id`. */
  function QuestionJoin(q: QuizRow, qus: seq<QuestionRow>, t: Tables): (r: seq<JoinedRow>)
    ensures forall i :: 0 <= i < |r| ==> r[i].quizId == q.id
  {
    if qus == [] then []
    else (if qus[0].quizId == q.id then OptionJoin(q, qus[0], t.options, t.answers) else [])
         + QuestionJoin(q, qus[1..], t)
  }

  /** `FROM quizzes q ... WHERE q.id = %s AND q.owner_id = %s`. */
  function QuizJoin(qs: seq<QuizRow>, t: Tables, quizId: nat, userId: Option<UserId>): (r: seq<JoinedRow>)
    ensures forall i :: 0 <= i < |r| ==> r[i].quizId == quizId
  {
    if qs == [] then []
    else (if qs[0].id == quizId && SqlEq(qs[0].ownerId, userId) then QuestionJoin(qs[0], t.questions, t) else [])
         + QuizJoin(qs[1..], t, quizId, userId)
  }

  /** The rows the `get` query returns: all of the requested quiz, and none
      unless the requesting user is not NULL and owns a quiz row with that id. */
  function GetRows(t: Tables, quizId: nat, userId: Option<UserId>): (r: seq<JoinedRow>)
    ensures forall i :: 0 <= i < |r| ==> r[i].quizId == quizId
    ensures r != [] ==> userId.Some? && exists q :: q in t.quizzes && q.id == quizId && q.ownerId == userId
  {
    GetRowsNeedOwner(t.quizzes, t, quizId, userId);
    QuizJoin(t.quizzes, t, quizId, userId)
  }

  /** Every row of the option join comes from an option row of the question. */
  lemma {:induction false} OptionJoinFrom(q: QuizRow, qu: QuestionRow, os: seq<OptionRow>, answers: seq<AnswerRow>, i: nat)
    requires i < |OptionJoin(q, qu, os, answers)|
    ensures exists o :: o in os && o.questionId == qu.id && JoinedFrom(OptionJoin(q, qu, os, answers)[i], q, qu, o, answers)
  {
    var head := if os[0].questionId == qu.id then AnswerJoin(q, qu, os[0], answers) else [];
    var rest := OptionJoin(q, qu, os[1..], answers);
    var r := OptionJoin(q, qu, os, answers);
    assert r == head + rest;
    if i < |head| {
      assert os[0].questionId == qu.id && r[i] == head[i];
      assert os[0] in os && JoinedFrom(r[i], q, qu, os[0], answers);
    } else {
      OptionJoinFrom(q, qu, os[1..], answers, i - |head|);
      var o :| o in os[1..] && o.questionId == qu.id && JoinedFrom(rest[i - |head|], q, qu, o, answers);
      assert o in os && r[i] == rest[i - |head|];
      assert JoinedFrom(r[i], q, qu, o, answers);
    }
  }

  /** Every option row of the question gives a row of the option join. */
  lemma {:induction false} OptionJoinCovers(q: QuizRow, qu: QuestionRow, os: seq<OptionRow>, answers: seq<AnswerRow>, o: OptionRow)
    requires o in os && o.questionId == qu.id
    ensures exists row :: row in OptionJoin(q, qu, os, answers) && JoinedFrom(row, q, qu, o, answers)
  {
    var r := OptionJoin(q, qu, os, answers);
    var head := if os[0].questionId == qu.id then AnswerJoin(q, qu, os[0], answers) else [];
    var rest := OptionJoin(q, qu, os[1..], answers);
    if o == os[0] {
      assert r[0] == head[0] && JoinedFrom(head[0], q, qu, o, answers);
    } else {
      assert o in os[1..];
      OptionJoinCovers(q, qu, os[1..], answers, o);
      var row :| row in rest && JoinedFrom(row, q, qu, o, answers);
      assert row in r;
    }
  }

  /** Every row of the question join comes from a question row of the quiz
      and an option row of that question. */
  lemma {:induction false} QuestionJoinFrom(q: QuizRow, qus: seq<QuestionRow>, t: Tables, i: nat)
    requires i < |QuestionJoin(q, qus, t)|
    ensures exists qu, o :: qu in qus && qu.quizId == q.id && o in t.options && o.questionId == qu.id
                            && JoinedFrom(QuestionJoin(q, qus, t)[i], q, qu, o, t.answers)
  {
    var head := if qus[0].quizId == q.id then OptionJoin(q, qus[0], t.options, t.answers) else [];
    var rest := QuestionJoin(q, qus[1..], t);
    var r := QuestionJoin(q, qus, t);
    assert r == head + rest;
    if i < |head| {
      assert qus[0].quizId == q.id && r[i] == head[i];
      OptionJoinFrom(q, qus[0], t.options, t.answers, i);
      var o :| o in t.options && o.questionId == qus[0].id && JoinedFrom(head[i], q, qus[0], o, t.answers);
      assert qus[0] in qus && JoinedFrom(r[i], q, qus[0], o, t.answers);
    } else {
      QuestionJoinFrom(q, qus[1..], t, i - |head|);
      var qu, o :| qu in qus[1..] && qu.quizId == q.id && o in t.options && o.questionId == qu.id
                   && JoinedFrom(rest[i - |head|], q, qu, o, t.answers);
      assert qu in qus && r[i] == rest[i - |head|];
      assert JoinedFrom(r[i], q, qu, o, t.answers);
    }
  }

  /** Every question row of the quiz and option row of that question give a
      row of the question join. */
  lemma {:induction false} QuestionJoinCovers(q: QuizRow, qus: seq<QuestionRow>, t: Tables, qu: QuestionRow, o: OptionRow)
    requires qu in qus && qu.quizId == q.id && o in t.options && o.questionId == qu.id
    ensures exists row :: row in QuestionJoin(q, qus, t) && JoinedFrom(row, q, qu, o, t.answers)
  {
    var r := QuestionJoin(q, qus, t);
    var head := if qus[0].quizId == q.id then OptionJoin(q, qus[0], t.options, t.answers) else [];
    var rest := QuestionJoin(q, qus[1..], t);
    assert r == head + rest;
    if qu == qus[0] {
      OptionJoinCovers(q, qu, t.options, t.answers, o);
      var row :| row in head && JoinedFrom(row, q, qu, o, t.answers);
      assert row in r;
    } else {
      assert qu in qus[1..];
      QuestionJoinCovers(q, qus[1..], t, qu, o);
      var row :| row in rest && JoinedFrom(row, q, qu, o, t.answers);
      assert row in r;
    }
  }

  /** Every row of the `get` join comes from a quiz row with the requested id
      and the requesting (non-NULL) owner, one of its question rows and one of
      that question's option rows. */
  lemma {:induction false} QuizJoinFrom(qs: seq<QuizRow>, t: Tables, quizId: nat, userId: Option<UserId>, i: nat)
    requires i < |QuizJoin(qs, t, quizId, userId)|
    ensures exists q, qu, o :: q in qs && q.id == quizId && SqlEq(q.ownerId, userId)
                               && qu in t.questions && qu.quizId == q.id && o in t.options && o.questionId == qu.id
                               && JoinedFrom(QuizJoin(qs, t, quizId, userId)[i], q, qu, o, t.answers)
  {
    var head := if qs[0].id == quizId && SqlEq(qs[0].ownerId, userId) then QuestionJoin(qs[0], t.questions, t) else [];
    var rest := QuizJoin(qs[1..], t, quizId, userId);
    var r := QuizJoin(qs, t, quizId, userId);
    assert r == head + rest;
    if i < |head| {
      assert qs[0].id == quizId && SqlEq(qs[0].ownerId, userId) && r[i] == head[i];
      QuestionJoinFrom(qs[0], t.questions, t, i);
      var qu, o :| qu in t.questions && qu.quizId == qs[0].id && o in t.options && o.questionId == qu.id
                   && JoinedFrom(head[i], qs[0], qu, o, t.answers);
      assert qs[0] in qs && JoinedFrom(r[i], qs[0], qu, o, t.answers);
    } else {
      QuizJoinFrom(qs[1..], t, quizId, userId, i - |head|);
      var q, qu, o :| q in qs[1..] && q.id == quizId && SqlEq(q.ownerId, userId)
                      && qu in t.questions && qu.quizId == q.id && o in t.options && o.questionId == qu.id
                      && JoinedFrom(rest[i - |head|], q, qu, o, t.answers);
      assert q in qs && r[i] == rest[i - |head|];
      assert JoinedFrom(r[i], q, qu, o, t.answers);
    }
  }

  /** Every quiz row with the requested id and owner, question row of it and
      option row of that question give a row of the `get` join. */
  lemma {:induction false} QuizJoinCovers(qs: seq<QuizRow>, t: Tables, quizId: nat, userId: Option<UserId>,
                                          q: QuizRow, qu: QuestionRow, o: OptionRow)
    requires q in qs && q.id == quizId && SqlEq(q.ownerId, userId)
    requires qu in t.questions && qu.quizId == q.id && o in t.options && o.questionId == qu.id
    ensures exists row :: row in QuizJoin(qs, t, quizId, userId) && JoinedFrom(row, q, qu, o, t.answers)
  {
    var r := QuizJoin(qs, t, quizId, userId);
    var head := if qs[0].id == quizId && SqlEq(qs[0].ownerId, userId) then QuestionJoin(qs[0], t.questions, t) else [];
    var rest := QuizJoin(qs[1..], t, quizId, userId);
    assert r == head + rest;
    if q == qs[0] {
      QuestionJoinCovers(q, t.questions, t, qu, o);
      var row :| row in head && JoinedFrom(row, q, qu, o, t.answers);
      assert row in r;
    } else {
      assert q in qs[1..];
      QuizJoinCovers(qs[1..], t, quizId, userId, q, qu, o);
      var row :| row in rest && JoinedFrom(row, q, qu, o, t.answers);
      assert row in r;
    }
  }

  /** With serial question ids, the question join comes out by question id,
      and no row has an id below that of the first question row. */
  lemma {:induction false} QuestionJoinOrdered(q: QuizRow, qus: seq<QuestionRow>, t: Tables)
    requires forall i, j :: 0 <= i < j < |qus| ==> qus[i].id < qus[j].id
    ensures forall i, j :: 0 <= i < j < |QuestionJoin(q, qus, t)| ==>
              QuestionJoin(q, qus, t)[i].questionId <= QuestionJoin(q, qus, t)[j].questionId
    ensures qus != [] ==> forall i :: 0 <= i < |QuestionJoin(q, qus, t)| ==> qus[0].id <= QuestionJoin(q, qus, t)[i].questionId
  {
    if qus != [] {
      QuestionJoinOrdered(q, qus[1..], t);
      var head := if qus[0].quizId == q.id then OptionJoin(q, qus[0], t.options, t.answers) else [];
      var rest := QuestionJoin(q, qus[1..], t);
      assert QuestionJoin(q, qus, t) == head + rest;
      assert forall i :: 0 <= i < |head| ==> head[i].questionId == qus[0].id;
      assert |qus| > 1 ==> qus[0].id < qus[1].id;
    } else {
      assert QuestionJoin(q, qus, t) == [];
    }
  }

  /** A quiz id no quiz row has gives no rows. */
  lemma {:induction false} QuizJoinMissing(qs: seq<QuizRow>, t: Tables, quizId: nat, userId: Option<UserId>)
    requires forall i :: 0 <= i < |qs| ==> qs[i].id != quizId
    ensures QuizJoin(qs, t, quizId, userId) == []
  {
    if qs != [] {
      QuizJoinMissing(qs[1..], t, quizId, userId);
    }
  }

  /** `ORDER BY q.id, qu.id`: with serial quiz and question ids, the rows of
      `get` come out by question id. */
  lemma {:induction false} QuizJoinOrdered(qs: seq<QuizRow>, t: Tables, quizId: nat, userId: Option<UserId>)
    requires forall i, j :: 0 <= i < j < |qs| ==> qs[i].id < qs[j].id
    requires forall i, j :: 0 <= i < j < |t.questions| ==> t.questions[i].id < t.questions[j].id
    ensures forall i, j :: 0 <= i < j < |QuizJoin(qs, t, quizId, userId)| ==>
              QuizJoin(qs, t, quizId, userId)[i].questionId <= QuizJoin(qs, t, quizId, userId)[j].questionId
  {
    if qs != [] {
      var rest := QuizJoin(qs[1..], t, quizId, userId);
      if qs[0].id == quizId && SqlEq(qs[0].ownerId, userId) {
        QuizJoinMissing(qs[1..], t, quizId, userId);
        QuestionJoinOrdered(qs[0], t.questions, t);
        assert QuizJoin(qs, t, quizId, userId) == QuestionJoin(qs[0], t.questions, t) + rest;
      } else {
        QuizJoinOrdered(qs[1..], t, quizId, userId);
        assert QuizJoin(qs, t, quizId, userId) == [] + rest;
      }
    }
  }

  /** `get` finds rows only for a quiz row with that id whose owner is the
      (non-NULL) requesting user: a missing quiz, another user's quiz and an
      anonymous request all give no rows. */
  lemma {:induction false} GetRowsNeedOwner(qs: seq<QuizRow>, t: Tables, quizId: nat, userId: Option<UserId>)
    ensures QuizJoin(qs, t, quizId, userId) != [] ==>
              userId.Some? && exists q :: q in qs && q.id == quizId && q.ownerId == userId
  {
    if qs != [] {
      GetRowsNeedOwner(qs[1..], t, quizId, userId);
      if QuizJoin(qs[1..], t, quizId, userId) != [] {
        var q :| q in qs[1..] && q.id == quizId && q.ownerId == userId;
        assert q in qs;
      }
    }
  }

  /** The prompt `get` keeps: the first non-empty prompt among the rows. */
  function FirstPrompt(rows: seq<JoinedRow>): (p: string)
    ensures p == "" <==> forall i :: 0 <= i < |rows| ==> rows[i].quizPrompt == ""
    ensures p != "" ==> exists i :: 0 <= i < |rows| && rows[i].quizPrompt == p &&
                                    (forall j :: 0 <= j < i ==> rows[j].quizPrompt == "")
  {
    if rows == [] then ""
    else
      var init := rows[..|rows| - 1];
      var p := FirstPrompt(init);
      assert forall i :: 0 <= i < |init| ==> init[i] == rows[i];
      if p == "" then rows[|rows| - 1].quizPrompt else p
  }

  function RowQuestionIds(rows: seq<JoinedRow>): (ids: seq<nat>)
    ensures |ids| == |rows| && forall i :: 0 <= i < |rows| ==> ids[i] == rows[i].questionId
  {
    seq(|rows|, i requires 0 <= i < |rows| => rows[i].questionId)
  }

  /** The keys of `rows_by_question_id` in insertion order: the distinct
      question ids of the rows. */
  function GroupKeys(rows: seq<JoinedRow>): (keys: seq<nat>)
    ensures forall k :: k in keys <==> k in RowQuestionIds(rows)
    ensures forall i, j :: 0 <= i < j < |keys| ==> keys[i] != keys[j]
  {
    if rows == [] then []
    else
      var init := rows[..|rows| - 1];
      var keys := GroupKeys(init);
      assert RowQuestionIds(rows) == RowQuestionIds(init) + [rows[|rows| - 1].questionId];
      if rows[|rows| - 1].questionId in keys then keys else keys + [rows[|rows| - 1].questionId]
  }

  /** `rows_by_question_id[k]`: the rows of question `k`, in row order. */
  function RowsFor(rows: seq<JoinedRow>, k: nat): (group: seq<JoinedRow>)
    ensures forall i :: 0 <= i < |group| ==> group[i].questionId == k
    ensures group == [] <==> k !in RowQuestionIds(rows)
  {
    if rows == [] then []
    else
      var init := rows[..|rows| - 1];
      assert RowQuestionIds(rows) == RowQuestionIds(init) + [rows[|rows| - 1].questionId];
      RowsFor(init, k) + if rows[|rows| - 1].questionId == k then [rows[|rows| - 1]] else []
  }

  /** `row.questionId == k` as a row predicate. */
  function OfQuestion(k: nat): JoinedRow -> bool
  {
    (r: JoinedRow) => r.questionId == k
  }

  /** `rows_by_question_id[k]` holds every row of question `k`, in row order. */
  lemma {:induction false} RowsForKeepsEveryRow(rows: seq<JoinedRow>, k: nat)
    ensures RowsFor(rows, k) == Filter(rows, OfQuestion(k))
  {
    if rows != [] {
      RowsForKeepsEveryRow(rows[..|rows| - 1], k);
      FilterSnoc(rows, OfQuestion(k));
    }
  }

  /** The question ids come out in order of first appearance among the rows. */
  lemma {:induction false} GroupKeysInFirstAppearanceOrder(rows: seq<JoinedRow>, i: nat, j: nat)
    requires i < j < |GroupKeys(rows)|
    ensures IndexOf(RowQuestionIds(rows), GroupKeys(rows)[i]).value
          < IndexOf(RowQuestionIds(rows), GroupKeys(rows)[j]).value
  {
    var init := rows[..|rows| - 1];
    var last := rows[|rows| - 1].questionId;
    var ids := RowQuestionIds(rows);
    assert ids == RowQuestionIds(init) + [last];
    var keys := GroupKeys(rows);
    var keys0 := GroupKeys(init);
    assert keys0[i] in keys0;
    IndexOfAppend(RowQuestionIds(init), [last], keys0[i]);
    if j < |keys0| {
      assert keys[i] == keys0[i] && keys[j] == keys0[j];
      assert keys0[j] in keys0;
      IndexOfAppend(RowQuestionIds(init), [last], keys0[j]);
      GroupKeysInFirstAppearanceOrder(init, i, j);
    } else {
      assert keys == keys0 + [last] && keys[j] == last && last !in RowQuestionIds(init);
      assert ids[|init|] == last;
    }
  }

  function OptionTexts(group: seq<JoinedRow>): (texts: seq<string>)
    ensures |texts| == |group| && forall i :: 0 <= i < |group| ==> texts[i] == group[i].optionText
  {
    seq(|group|, i requires 0 <= i < |group| => group[i].optionText)
  }

  function RowFlags(group: seq<JoinedRow>): (flags: seq<bool>)
    ensures |flags| == |group| && forall i :: 0 <= i < |group| ==> flags[i] == group[i].optionCorrect
  {
    seq(|group|, i requires 0 <= i < |group| => group[i].optionCorrect)
  }

  /** The correct index `get` derives: the position of the first flagged
      option, or 0 when none is flagged. */
  function CorrectIndex(flags: seq<bool>): (i: nat)
    ensures flags != [] ==> i < |flags|
    ensures true in flags ==> flags[i] && forall j :: 0 <= j < i ==> !flags[j]
    ensures true !in flags ==> i == 0
  {
    match IndexOf(flags, true)
    case Some(i) => i
    case None => 0
  }

  /** The question `get` builds from the rows of one question id. Its correct
      index is in range and names the first flagged option (0 if none), and
      its correct answer is the text at that index. */
  function BuildQuestion(questionId: nat, group: seq<JoinedRow>): (q: Question)
    requires group != []
    ensures q.id == Some(questionId) && q.text == group[0].questionText
    ensures q.options == OptionTexts(group)
    ensures 0 <= q.correctAnswerIndex < |q.options|
    ensures q.correctAnswer == q.options[q.correctAnswerIndex]
    ensures (exists i :: 0 <= i < |group| && group[i].optionCorrect) ==>
              group[q.correctAnswerIndex].optionCorrect &&
              forall j :: 0 <= j < q.correctAnswerIndex ==> !group[j].optionCorrect
    ensures (forall i :: 0 <= i < |group| ==> !group[i].optionCorrect) ==> q.correctAnswerIndex == 0
  {
    var texts := OptionTexts(group);
    var flags := RowFlags(group);
    var index := CorrectIndex(flags);
    assert (exists i :: 0 <= i < |group| && group[i].optionCorrect) <==> true in flags by {
      if true in flags {
        var i :| 0 <= i < |flags| && flags[i];
        assert group[i].optionCorrect;
      }
    }
    Question(Some(questionId), group[0].questionText, texts, texts[index], index)
  }

  /** The questions `get` builds, one per distinct question id in order of
      first appearance. */
  function GroupedQuestions(rows: seq<JoinedRow>): (qs: seq<Question>)
    ensures |qs| == |GroupKeys(rows)|
  {
    QuestionsUpTo(rows, |GroupKeys(rows)|)
  }

  /** The questions of the first `n` keys, each built from the rows of its key. */
  function QuestionsUpTo(rows: seq<JoinedRow>, n: nat): (qs: seq<Question>)
    requires n <= |GroupKeys(rows)|
    ensures |qs| == n
  {
    if n == 0 then []
    else
      var k := GroupKeys(rows)[n - 1];
      assert k in GroupKeys(rows);
      QuestionsUpTo(rows, n - 1) + [BuildQuestion(k, RowsFor(rows, k))]
  }

  /** Building one more question keeps the earlier ones and adds that of the next key. */
  lemma QuestionsUpToStep(rows: seq<JoinedRow>, n: nat)
    requires 0 < n <= |GroupKeys(rows)|
    ensures GroupKeys(rows)[n - 1] in RowQuestionIds(rows)
    ensures forall j :: 0 <= j < n - 1 ==> QuestionsUpTo(rows, n)[j] == QuestionsUpTo(rows, n - 1)[j]
    ensures QuestionsUpTo(rows, n)[n - 1]
         == BuildQuestion(GroupKeys(rows)[n - 1], RowsFor(rows, GroupKeys(rows)[n - 1]))
  {
    var keys := GroupKeys(rows);
    assert keys[n - 1] in keys;
  }

  lemma {:induction false} QuestionsUpToAt(rows: seq<JoinedRow>, n: nat, i: nat)
    requires i < n <= |GroupKeys(rows)|
    ensures GroupKeys(rows)[i] in RowQuestionIds(rows)
    ensures QuestionsUpTo(rows, n)[i] == BuildQuestion(GroupKeys(rows)[i], RowsFor(rows, GroupKeys(rows)[i]))
  {
    var keys := GroupKeys(rows);
    QuestionsUpToStep(rows, n);
    if i < n - 1 {
      QuestionsUpToAt(rows, n - 1, i);
      assert QuestionsUpTo(rows, n - 1)[i] == BuildQuestion(keys[i], RowsFor(rows, keys[i]));
    }
  }

  /** Question `i` of `get` is built from the rows of the `i`-th distinct
      question id. */
  lemma GroupedQuestionsFromKeys(rows: seq<JoinedRow>, i: nat)
    requires i < |GroupedQuestions(rows)|
    ensures GroupKeys(rows)[i] in RowQuestionIds(rows)
    ensures GroupedQuestions(rows)[i] == BuildQuestion(GroupKeys(rows)[i], Filter(rows, OfQuestion(GroupKeys(rows)[i])))
  {
    QuestionsUpToAt(rows, |GroupKeys(rows)|, i);
    RowsForKeepsEveryRow(rows, GroupKeys(rows)[i]);
  }

  /** The result of `get` on the given rows: nothing for no rows, otherwise
      the quiz with the requested id, the first non-empty prompt and the
      regrouped questions. */
  function Grouped(quizId: nat, rows: seq<JoinedRow>): (r: Option<Quiz>)
    ensures r.None? <==> rows == []
    ensures r.Some? ==> r.value.id == Some(quizId) && r.value.questions == GroupedQuestions(rows)
    ensures r.Some? ==> r.value.prompt == FirstPrompt(rows)
  {
    if rows == [] then None else Some(Quiz(Some(quizId), FirstPrompt(rows), GroupedQuestions(rows)))
  }

  /** The break loop of `get`: the position of the first option flagged
      correct, or 0 when none is. */
  method CorrectAnswerIndex(group: seq<JoinedRow>) returns (index: nat)
    ensures group != [] ==> index < |group|
    ensures (exists i :: 0 <= i < |group| && group[i].optionCorrect) ==>
              group[index].optionCorrect && forall j :: 0 <= j < index ==> !group[j].optionCorrect
    ensures (forall i :: 0 <= i < |group| ==> !group[i].optionCorrect) ==> index == 0
  {
    index := 0;
    var i := 0;
    while i < |group|
      invariant 0 <= i <= |group|
      invariant index == 0
      invariant forall j :: 0 <= j < i ==> !group[j].optionCorrect
    {
      if group[i].optionCorrect {
        index := i;
        break;
      }
      i := i + 1;
    }
  }

  /** The first loop of `get`: remembers the first non-empty prompt and
      collects the rows per question id, keys in insertion order. */
  method CollectRows(rows: seq<JoinedRow>) returns (prompt: string, keys: seq<nat>, groups: map<nat, seq<JoinedRow>>)
    ensures prompt == FirstPrompt(rows)
    ensures keys == GroupKeys(rows)
    ensures forall k :: k in groups <==> k in keys
    ensures forall k :: k in groups ==> groups[k] == RowsFor(rows, k)
  {
    prompt := "";
    keys := [];
    groups := map[];
    var i := 0;
    while i < |rows|
      invariant 0 <= i <= |rows|
      invariant Collected(rows[..i], prompt, keys, groups)
    {
      var row := rows[i];
      ghost var prompt0, keys0, groups0 := prompt, keys, groups;
      if prompt == "" {
        prompt := row.quizPrompt;
      }
      if row.questionId !in groups {
        keys := keys + [row.questionId];
        groups := groups[row.questionId := []];
      }
      groups := groups[row.questionId := groups[row.questionId] + [row]];
      CollectedGrow(rows, i, prompt0, keys0, groups0);
      i := i + 1;
    }
    assert rows[..i] == rows;
  }

  /** What the first loop has gathered from `rows`. */
  ghost predicate Collected(rows: seq<JoinedRow>, prompt: string, keys: seq<nat>, groups: map<nat, seq<JoinedRow>>)
  {
    && prompt == FirstPrompt(rows)
    && keys == GroupKeys(rows)
    && (forall k :: k in groups <==> k in keys)
    && (forall k :: k in groups ==> groups[k] == RowsFor(rows, k))
  }

  /** One pass of the first loop keeps `Collected`. */
  lemma CollectedGrow(rows: seq<JoinedRow>, i: nat, prompt: string, keys: seq<nat>, groups: map<nat, seq<JoinedRow>>)
    requires i < |rows| && Collected(rows[..i], prompt, keys, groups)
    ensures var row := rows[i];
            var keys' := if row.questionId in groups then keys else keys + [row.questionId];
            var groups0 := if row.questionId in groups then groups else groups[row.questionId := []];
            Collected(rows[..i + 1], if prompt == "" then row.quizPrompt else prompt, keys',
                      groups0[row.questionId := groups0[row.questionId] + [row]])
  {
    GrowByOneRow(rows, i);
    GroupsGrow(rows, i, keys, groups);
  }

  /** One pass of the first loop: the new row joins the rows of its key, a new
      key being added with no rows first. */
  lemma GroupsGrow(rows: seq<JoinedRow>, i: nat, keys: seq<nat>, groups: map<nat, seq<JoinedRow>>)
    requires i < |rows| && keys == GroupKeys(rows[..i])
    requires forall k :: k in groups <==> k in keys
    requires forall k :: k in groups ==> groups[k] == RowsFor(rows[..i], k)
    ensures var row := rows[i];
            var keys' := if row.questionId in groups then keys else keys + [row.questionId];
            var groups0 := if row.questionId in groups then groups else groups[row.questionId := []];
            var groups' := groups0[row.questionId := groups0[row.questionId] + [row]];
            && (forall k :: k in groups' <==> k in keys')
            && (forall k :: k in groups' ==> groups'[k] == RowsFor(rows[..i + 1], k))
  {
    var row := rows[i];
    var id := row.questionId;
    var groups0 := if id in groups then groups else groups[id := []];
    assert groups0[id] == RowsFor(rows[..i], id);
    var groups' := groups0[id := groups0[id] + [row]];
    forall k | k in groups' ensures groups'[k] == RowsFor(rows[..i + 1], k) {
      RowsForGrow(rows, i, k);
    }
  }

  /** Taking one more row: the kept prompt and the keys. */
  lemma GrowByOneRow(rows: seq<JoinedRow>, i: nat)
    requires i < |rows|
    ensures FirstPrompt(rows[..i + 1]) ==
              if FirstPrompt(rows[..i]) == "" then rows[i].quizPrompt else FirstPrompt(rows[..i])
    ensures GroupKeys(rows[..i + 1]) ==
              if rows[i].questionId in GroupKeys(rows[..i]) then GroupKeys(rows[..i])
              else GroupKeys(rows[..i]) + [rows[i].questionId]
  {
    assert rows[..i + 1][..i] == rows[..i];
  }

  /** Taking one more row: the rows of each key. */
  lemma RowsForGrow(rows: seq<JoinedRow>, i: nat, k: nat)
    requires i < |rows|
    ensures RowsFor(rows[..i + 1], k) == RowsFor(rows[..i], k) + if rows[i].questionId == k then [rows[i]] else []
  {
    assert rows[..i + 1][..i] == rows[..i];
  }

  /** One iteration of the second loop of `get`: the question built from the
      rows of one question id. */
  method MakeQuestion(questionId: nat, group: seq<JoinedRow>) returns (q: Question)
    requires group != []
    ensures q == BuildQuestion(questionId, group)
  {
    var texts := OptionTexts(group);
    var index := CorrectAnswerIndex(group);
    assert index == CorrectIndex(RowFlags(group));
    q := Question(Some(questionId), group[0].questionText, texts, texts[index], index);
  }

  /** The second loop of `get`: one question per collected key. */
  method BuildQuestions(rows: seq<JoinedRow>, keys: seq<nat>, groups: map<nat, seq<JoinedRow>>)
    returns (questions: seq<Question>)
    requires keys == GroupKeys(rows)
    requires forall k :: k in groups <==> k in keys
    requires forall k :: k in groups ==> groups[k] == RowsFor(rows, k)
    ensures questions == GroupedQuestions(rows)
  {
    questions := [];
    var j := 0;
    while j < |keys|
      invariant 0 <= j <= |keys|
      invariant questions == QuestionsUpTo(rows, j)
    {
      var questionId := keys[j];
      assert questionId in keys;
      var q := MakeQuestion(questionId, groups[questionId]);
      questions := questions + [q];
      j := j + 1;
    }
  }

  /** The regrouping part of `get`, from the fetched rows on. */
  method Regroup(quizId: nat, rows: seq<JoinedRow>) returns (r: Option<Quiz>)
    ensures r == Grouped(quizId, rows)
  {
    if rows == [] {
      return None;
    }
    var prompt, keys, groups := CollectRows(rows);
    var questions := BuildQuestions(rows, keys, groups);
    r := Some(Quiz(Some(quizId), prompt, questions));
  }

  /** `get`: runs the query and regroups its rows. No quiz comes back unless
      the requesting user owns a quiz row with that id. */
  method Get(db: Database, quizId: nat, userId: Option<UserId>) returns (r: Option<Quiz>)
    requires db.Valid()
    ensures r == Grouped(quizId, GetRows(db.Snapshot(), quizId, userId))
    ensures r.Some? ==> userId.Some? && exists q :: q in db.quizzes && q.id == quizId && q.ownerId == userId
  {
    var rows := GetRows(db.Snapshot(), quizId, userId);
    GetRowsNeedOwner(db.quizzes, db.Snapshot(), quizId, userId);
    r := Regroup(quizId, rows);
  }

  /** `save`: writes the quiz tree with the given owner, then loads the new
      quiz back with `get` for that same owner. Without an owner the load
      compares `owner_id = NULL`, finds nothing and the result is `None`. */
  method Save(db: Database, quiz: Quiz, userId: Option<UserId>) returns (r: Option<Quiz>)
    requires db.Valid()
    modifies db
    ensures db.Valid()
    ensures db.quizzes == old(db.quizzes) + [QuizRow(old(db.nextQuizId), userId, quiz.prompt)]
    ensures db.questions == old(db.questions)
              + QuestionRowsOf(old(db.nextQuizId), old(db.nextQuestionId), quiz.questions)
    ensures db.options == old(db.options)
              + OptionRowsOf(old(db.nextQuestionId), old(db.nextOptionId), quiz.questions)
    ensures db.answers == old(db.answers)
    ensures r == Grouped(old(db.nextQuizId), GetRows(db.Snapshot(), old(db.nextQuizId), userId))
    ensures userId.None? ==> r.None?
  {
    var quizId := InsertQuizTree(db, userId, quiz);
    r := Get(db, quizId, userId);
  }

  // ---------------------------------------------------------------------
  // Recording an answer.

  /** `SELECT ... FROM options WHERE question_id = %s ORDER BY id`: exactly
      the option rows of the question. */
  function OptionsOf(options: seq<OptionRow>, questionId: nat): (r: seq<OptionRow>)
    ensures forall i :: 0 <= i < |r| ==> r[i] in options && r[i].questionId == questionId
    ensures forall o :: o in options && o.questionId == questionId ==> o in r
  {
    Filter(options, (o: OptionRow) => o.questionId == questionId)
  }

  /** `ORDER BY id`: with serial option ids, the question's options come out
      in id order. */
  lemma OptionsOfOrdered(options: seq<OptionRow>, questionId: nat)
    requires forall i, j :: 0 <= i < j < |options| ==> options[i].id < options[j].id
    ensures forall i, j :: 0 <= i < j < |OptionsOf(options, questionId)| ==>
              OptionsOf(options, questionId)[i].id < OptionsOf(options, questionId)[j].id
  {
    FilterKeepsOrder(options, (o: OptionRow) => o.questionId == questionId, (a: OptionRow, b: OptionRow) => a.id < b.id);
  }

  /** A flagged row among the question's options is a flagged option row of that question. */
  lemma FlaggedOwnOption(options: seq<OptionRow>, questionId: nat, k: nat)
    requires k < |OptionsOf(options, questionId)| && OptionsOf(options, questionId)[k].correct
    ensures exists i :: 0 <= i < |options| && options[i].questionId == questionId && options[i].correct
  {
    var own := OptionsOf(options, questionId);
    var i :| 0 <= i < |options| && options[i] == own[k];
  }

  /** A flagged option row of the question shows up among its flags. */
  lemma OwnOptionFlagged(options: seq<OptionRow>, questionId: nat, i: nat)
    requires i < |options| && options[i].questionId == questionId && options[i].correct
    ensures true in OptionFlags(OptionsOf(options, questionId))
  {
    var own := OptionsOf(options, questionId);
    var k :| 0 <= k < |own| && own[k] == options[i];
    assert OptionFlags(own)[k];
  }

  /** The `correct` flags of one question's options, in id order. */
  function QuestionFlags(options: seq<OptionRow>, questionId: nat): (flags: seq<bool>)
    ensures true in flags <==>
              exists i :: 0 <= i < |options| && options[i].questionId == questionId && options[i].correct
  {
    var flags := OptionFlags(OptionsOf(options, questionId));
    assert true in flags ==>
             exists i :: 0 <= i < |options| && options[i].questionId == questionId && options[i].correct by {
      if true in flags {
        var k :| 0 <= k < |flags| && flags[k];
        FlaggedOwnOption(options, questionId, k);
      }
    }
    assert (exists i :: 0 <= i < |options| && options[i].questionId == questionId && options[i].correct) ==>
             true in flags by {
      if exists i :: 0 <= i < |options| && options[i].questionId == questionId && options[i].correct {
        var i :| 0 <= i < |options| && options[i].questionId == questionId && options[i].correct;
        OwnOptionFlagged(options, questionId, i);
      }
    }
    flags
  }

  /** The verdict `answer` computes: `options.index(True)` over the question's
      flags, compared with the chosen index. It fails when no option of the
      question is flagged, and otherwise is true iff the chosen index is the
      position of the first flagged option. */
  function AnswerVerdict(options: seq<OptionRow>, questionId: nat, optionIndex: int): (r: Result<bool, Error>)
    ensures r.Ok? <==> exists i :: 0 <= i < |options| && options[i].questionId == questionId && options[i].correct
    ensures r.Err? ==> r.error == ValueError(NotInList)
    ensures r.Ok? ==> (r.value <==> IsFirstFlagged(QuestionFlags(options, questionId), optionIndex))
  {
    match ListIndex(QuestionFlags(options, questionId), true)
    case Ok(i) => Ok(optionIndex == i)
    case Err(e) => Err(e)
  }

  /** `i` is the position of the first `true` in `flags`. */
  predicate IsFirstFlagged(flags: seq<bool>, i: int)
  {
    0 <= i < |flags| && flags[i] && forall j :: 0 <= j < i ==> !flags[j]
  }

  /** The tables after `answer`: on a verdict, the upsert of that verdict
      under `(user_id, quiz_id, question_id)`; on a failure, nothing changes. */
  function Answered(t: Tables, quizId: nat, questionId: nat, optionIndex: int, userId: UserId): (r: Tables)
    ensures r.quizzes == t.quizzes && r.questions == t.questions && r.options == t.options
    ensures AnswerVerdict(t.options, questionId, optionIndex).Err? ==> r == t
    ensures AnswerVerdict(t.options, questionId, optionIndex).Ok? ==>
              AnswerRow(AnswerKey(userId, quizId, questionId), AnswerVerdict(t.options, questionId, optionIndex).value) in r.answers
              && |t.answers| <= |r.answers| <= |t.answers| + 1
  {
    match AnswerVerdict(t.options, questionId, optionIndex)
    case Ok(v) => t.(answers := Upsert(t.answers, AnswerKey(userId, quizId, questionId), v))
    case Err(_) => t
  }

  /** `answer`: works out the verdict from the question's flags in id order
      and upserts it. */
  method Answer(db: Database, quizId: nat, questionId: nat, optionIndex: int, userId: UserId)
    returns (r: Result<bool, Error>)
    requires db.Valid()
    modifies db
    ensures db.Valid()
    ensures r == AnswerVerdict(old(db.options), questionId, optionIndex)
    ensures db.Snapshot() == Answered(old(db.Snapshot()), quizId, questionId, optionIndex, userId)
    ensures db.nextQuizId == old(db.nextQuizId) && db.nextQuestionId == old(db.nextQuestionId)
    ensures db.nextOptionId == old(db.nextOptionId)
  {
    var flags := QuestionFlags(db.options, questionId);
    var correctIndex := ListIndex(flags, true);
    if correctIndex.Err? {
      return Err(correctIndex.error);
    }
    var isCorrect := optionIndex == correctIndex.value;
    var i :| 0 <= i < |db.options| && db.options[i].questionId == questionId && db.options[i].correct;
    assert db.options[i] in db.options;
    db.UpsertAnswer(AnswerKey(userId, quizId, questionId), isCorrect);
    r := Ok(isCorrect);
  }

  /** After `answer` the key `(user_id, quiz_id, question_id)` has exactly one
      record, holding the returned verdict, and every record under another key
      is kept. */
  lemma AnswerRecordsVerdict(t: Tables, quizId: nat, questionId: nat, optionIndex: int, userId: UserId)
    requires UniqueKeys(t.answers)
    requires AnswerVerdict(t.options, questionId, optionIndex).Ok?
    ensures var after := Answered(t, quizId, questionId, optionIndex, userId).answers;
            var v := AnswerVerdict(t.options, questionId, optionIndex).value;
            && UniqueKeys(after)
            && AnswerRow(AnswerKey(userId, quizId, questionId), v) in after
            && (forall row :: row in t.answers && row.key != AnswerKey(userId, quizId, questionId) ==> row in after)
            && (forall row :: row in after ==> row.key == AnswerKey(userId, quizId, questionId) || row in t.answers)
  {
    UpsertEffect(t.answers, AnswerKey(userId, quizId, questionId), AnswerVerdict(t.options, questionId, optionIndex).value);
  }

  /** Giving the same answer again leaves every table as it was after the
      first time. */
  lemma AnswerIdempotent(t: Tables, quizId: nat, questionId: nat, optionIndex: int, userId: UserId)
    ensures Answered(Answered(t, quizId, questionId, optionIndex, userId), quizId, questionId, optionIndex, userId)
         == Answered(t, quizId, questionId, optionIndex, userId)
  {
    var v := AnswerVerdict(t.options, questionId, optionIndex);
    if v.Ok? {
      UpsertIdempotent(t.answers, AnswerKey(userId, quizId, questionId), v.value);
    }
  }

  // ---------------------------------------------------------------------
  // Progress queries.

  /** Aggregate counts for one user and one quiz. */
  datatype QuizResults = QuizResults(count: nat, answered: nat, correct: nat)

  /** One row of `FROM quizzes q JOIN questions qu ON q.id = qu.quiz_id
      LEFT JOIN user_quiz_answers a ON qu.id = a.question_id`. */
  datatype ProgressRow = ProgressRow(question: QuestionRow, answer: Option<AnswerRow>)
  {
    /** `a.user_id`, NULL on a row the LEFT JOIN padded. */
    function UserIdColumn(): Option<UserId>
    {
      if answer.Some? then Some(answer.value.key.userId) else None
    }

    /** `a.correct`, NULL on a row the LEFT JOIN padded. */
    function CorrectColumn(): Option<bool>
    {
      if answer.Some? then Some(answer.value.correct) else None
    }
  }

  /** `FROM quizzes q JOIN questions qu ON q.id = qu.quiz_id WHERE q.id = %s`. */
  function QuizQuestions(qs: seq<QuizRow>, questions: seq<QuestionRow>, quizId: nat): (r: seq<QuestionRow>)
    ensures forall i :: 0 <= i < |r| ==> r[i] in questions && r[i].quizId == quizId
    ensures quizId in QuizIds(qs) ==> forall qu :: qu in questions && qu.quizId == quizId ==> qu in r
  {
    if qs == [] then []
    else
      var rest := QuizQuestions(qs[1..], questions, quizId);
      assert quizId in QuizIds(qs) && qs[0].id != quizId ==> quizId in QuizIds(qs[1..]) by {
        if quizId in QuizIds(qs) && qs[0].id != quizId {
          var row :| row in qs && row.id == quizId;
          assert row in qs[1..];
        }
      }
      (if qs[0].id == quizId then Filter(questions, (qu: QuestionRow) => qu.quizId == qs[0].id) else []) + rest
  }

  /** `LEFT JOIN user_quiz_answers a ON qu.id = a.question_id`: a row per
      question and answer record of that question, whoever gave it, and a
      padded row for a question without any record. */
  function LeftJoinAnswers(qus: seq<QuestionRow>, answers: seq<AnswerRow>): (r: seq<ProgressRow>)
    ensures forall i :: 0 <= i < |r| ==> r[i].question in qus
    ensures forall i :: 0 <= i < |r| && r[i].answer.Some? ==>
              r[i].answer.value in answers && r[i].answer.value.key.questionId == r[i].question.id
    ensures forall i :: 0 <= i < |r| && r[i].answer.None? ==> AnswersOf(answers, r[i].question.id) == []
    ensures forall qu :: qu in qus && AnswersOf(answers, qu.id) == [] ==> ProgressRow(qu, None) in r
  {
    if qus == [] then []
    else
      var matching := AnswersOf(answers, qus[0].id);
      (if matching == [] then [ProgressRow(qus[0], None)]
       else seq(|matching|, i requires 0 <= i < |matching| => ProgressRow(qus[0], Some(matching[i]))))
      + LeftJoinAnswers(qus[1..], answers)
  }

  /** Every answer record of a joined question gives that question a row:
      the LEFT JOIN drops no match. */
  lemma {:induction false} LeftJoinCovers(qus: seq<QuestionRow>, answers: seq<AnswerRow>)
    ensures forall qu, a :: qu in qus && a in AnswersOf(answers, qu.id) ==>
              ProgressRow(qu, Some(a)) in LeftJoinAnswers(qus, answers)
  {
    if qus != [] {
      LeftJoinCovers(qus[1..], answers);
      var matching := AnswersOf(answers, qus[0].id);
      var rest := LeftJoinAnswers(qus[1..], answers);
      var head := if matching == [] then [ProgressRow(qus[0], None)]
                  else seq(|matching|, i requires 0 <= i < |matching| => ProgressRow(qus[0], Some(matching[i])));
      assert LeftJoinAnswers(qus, answers) == head + rest;
      forall qu, a | qu in qus && a in AnswersOf(answers, qu.id)
        ensures ProgressRow(qu, Some(a)) in head + rest
      {
        if qu == qus[0] {
          var k :| 0 <= k < |matching| && matching[k] == a;
          assert head[k] == ProgressRow(qu, Some(a));
        } else {
          assert qu in qus[1..];
          assert ProgressRow(qu, Some(a)) in rest;
        }
      }
    }
  }

  /** With distinct question ids and distinct answer records, no row of the
      LEFT JOIN repeats: with the ensures of `LeftJoinAnswers` and
      `LeftJoinCovers`, each question/record pair gives exactly one row and
      each question without a record exactly one padded row. */
  lemma {:induction false} LeftJoinOnce(qus: seq<QuestionRow>, answers: seq<AnswerRow>)
    requires forall i, j :: 0 <= i < j < |qus| ==> qus[i].id != qus[j].id
    requires Distinct(answers)
    ensures Distinct(LeftJoinAnswers(qus, answers))
  {
    if qus != [] {
      LeftJoinOnce(qus[1..], answers);
      var matching := AnswersOf(answers, qus[0].id);
      FilterDistinct(answers, (a: AnswerRow) => a.key.questionId == qus[0].id);
      var rest := LeftJoinAnswers(qus[1..], answers);
      var head := if matching == [] then [ProgressRow(qus[0], None)]
                  else seq(|matching|, i requires 0 <= i < |matching| => ProgressRow(qus[0], Some(matching[i])));
      assert LeftJoinAnswers(qus, answers) == head + rest;
      assert forall i :: 0 <= i < |head| ==> head[i].question == qus[0];
      assert forall j :: 0 <= j < |rest| ==> rest[j].question.id != qus[0].id by {
        forall j | 0 <= j < |rest|
          ensures rest[j].question.id != qus[0].id
        {
          var m :| 0 <= m < |qus[1..]| && qus[1..][m] == rest[j].question;
          assert qus[m + 1] == rest[j].question;
        }
      }
      assert Distinct(head) by {
        if matching != [] {
          assert forall i, j :: 0 <= i < j < |head| ==> matching[i] != matching[j];
        }
      }
      DistinctConcat(head, rest);
    }
  }

  /** Rewriting an answer record of question `qid`, without changing its
      question, leaves the rows of every other question as they were. */
  lemma {:induction false} LeftJoinUnaffected(qus: seq<QuestionRow>, answers: seq<AnswerRow>, m: nat, y: AnswerRow)
    requires m < |answers| && answers[m].key.questionId == y.key.questionId
    requires forall i :: 0 <= i < |qus| ==> qus[i].id != y.key.questionId
    ensures LeftJoinAnswers(qus, answers[m := y]) == LeftJoinAnswers(qus, answers)
  {
    if qus != [] {
      FilterReplaced(answers, m, y, (a: AnswerRow) => a.key.questionId == qus[0].id);
      LeftJoinUnaffected(qus[1..], answers, m, y);
    }
  }

  /** Rewriting an answer record of a question joined once rewrites exactly
      the one row the LEFT JOIN built from it. */
  lemma {:induction false} LeftJoinReplaced(qus: seq<QuestionRow>, answers: seq<AnswerRow>, m: nat, y: AnswerRow, qu: QuestionRow)
    requires m < |answers| && answers[m].key.questionId == y.key.questionId
    requires qu in qus && qu.id == y.key.questionId
    requires forall i, j :: 0 <= i < j < |qus| ==> qus[i].id != qus[j].id
    ensures ReplacedOnce(LeftJoinAnswers(qus, answers), LeftJoinAnswers(qus, answers[m := y]),
                         ProgressRow(qu, Some(answers[m])), ProgressRow(qu, Some(y)))
  {
    var answers' := answers[m := y];
    var ofHead := (a: AnswerRow) => a.key.questionId == qus[0].id;
    FilterReplaced(answers, m, y, ofHead);
    var matching, matching' := AnswersOf(answers, qus[0].id), AnswersOf(answers', qus[0].id);
    if qus[0].id == qu.id {
      var i :| 0 <= i < |qus| && qus[i] == qu;
      assert i == 0;
      LeftJoinUnaffected(qus[1..], answers, m, y);
      var k :| 0 <= k < |matching| && matching[k] == answers[m] && matching' == matching[k := y];
      var head := seq(|matching|, i requires 0 <= i < |matching| => ProgressRow(qu, Some(matching[i])));
      var head' := seq(|matching'|, i requires 0 <= i < |matching'| => ProgressRow(qu, Some(matching'[i])));
      assert head' == head[k := ProgressRow(qu, Some(y))];
      assert head[k] == ProgressRow(qu, Some(answers[m]));
      ReplacedOnceLeft(head, head', LeftJoinAnswers(qus[1..], answers), ProgressRow(qu, Some(answers[m])), ProgressRow(qu, Some(y)));
    } else {
      assert qu in qus[1..];
      LeftJoinReplaced(qus[1..], answers, m, y, qu);
      var head := if matching == [] then [ProgressRow(qus[0], None)]
                  else seq(|matching|, i requires 0 <= i < |matching| => ProgressRow(qus[0], Some(matching[i])));
      ReplacedOnceRight(head, LeftJoinAnswers(qus[1..], answers), LeftJoinAnswers(qus[1..], answers'),
                        ProgressRow(qu, Some(answers[m])), ProgressRow(qu, Some(y)));
    }
  }

  /** The rows of `FROM quizzes q JOIN questions qu ... LEFT JOIN
      user_quiz_answers a` for one quiz: only its questions, and each of its
      questions without any answer record once, padded. */
  function ProgressRows(t: Tables, quizId: nat): (r: seq<ProgressRow>)
    ensures forall i :: 0 <= i < |r| ==> r[i].question in t.questions && r[i].question.quizId == quizId
    ensures quizId in QuizIds(t.quizzes) ==>
              forall qu :: qu in t.questions && qu.quizId == quizId && AnswersOf(t.answers, qu.id) == [] ==>
                ProgressRow(qu, None) in r
  {
    LeftJoinAnswers(QuizQuestions(t.quizzes, t.questions, quizId), t.answers)
  }

  /** The rows `get_results` aggregates: `WHERE q.id = %s AND a.user_id = %s`.
      Padded rows have a NULL user and never pass, so the LEFT JOIN acts as
      an inner join. */
  function ResultRows(t: Tables, quizId: nat, userId: UserId): (rows: seq<ProgressRow>)
    ensures forall i :: 0 <= i < |rows| ==> rows[i].answer.Some? && rows[i].answer.value.key.userId == userId
  {
    Filter(ProgressRows(t, quizId), (r: ProgressRow) => SqlEq(r.UserIdColumn(), Some(userId)))
  }

  /** Per row: is `a.correct` non-NULL (for `COUNT(a.correct)`). */
  function AnsweredColumn(rows: seq<ProgressRow>): (s: seq<bool>)
    ensures |s| == |rows| && forall i :: 0 <= i < |rows| ==> s[i] == rows[i].CorrectColumn().Some?
  {
    seq(|rows|, i requires 0 <= i < |rows| => rows[i].CorrectColumn().Some?)
  }

  /** Per row: `CASE WHEN a.correct THEN 1 ELSE 0 END` as a flag. */
  function CorrectFlagColumn(rows: seq<ProgressRow>): (s: seq<bool>)
    ensures |s| == |rows| && forall i :: 0 <= i < |rows| ==> s[i] == (rows[i].CorrectColumn() == Some(true))
  {
    seq(|rows|, i requires 0 <= i < |rows| => rows[i].CorrectColumn() == Some(true))
  }

  /** `get_results`: `COUNT(q.id)`, `COUNT(a.correct)` and
      `COALESCE(SUM(...), 0)` over the result rows. */
  function GetResults(t: Tables, quizId: nat, userId: UserId): (r: QuizResults)
    ensures r.correct <= r.answered <= r.count
    ensures ResultRows(t, quizId, userId) == [] ==> r == QuizResults(0, 0, 0)
  {
    var rows := ResultRows(t, quizId, userId);
    CountTrueMonotone(CorrectFlagColumn(rows), AnsweredColumn(rows));
    QuizResults(|rows|, CountTrue(AnsweredColumn(rows)), CountTrue(CorrectFlagColumn(rows)))
  }

  /** As written, `count` counts the user's answer rows, not the quiz's
      questions, so it always equals `answered`. */
  lemma ResultsCountEqualsAnswered(t: Tables, quizId: nat, userId: UserId)
    ensures GetResults(t, quizId, userId).count == GetResults(t, quizId, userId).answered
  {
    CountTrueAll(AnsweredColumn(ResultRows(t, quizId, userId)));
  }

  /** Rewriting one of the user's answer records, keeping its key, rewrites
      exactly one result row when its question is joined once. */
  lemma ResultRowsReplaced(t: Tables, quizId: nat, userId: UserId, m: nat, y: AnswerRow, qu: QuestionRow)
    requires m < |t.answers| && t.answers[m].key == y.key && y.key.userId == userId
    requires qu in QuizQuestions(t.quizzes, t.questions, quizId) && qu.id == y.key.questionId
    requires forall i, j :: 0 <= i < j < |QuizQuestions(t.quizzes, t.questions, quizId)| ==>
               QuizQuestions(t.quizzes, t.questions, quizId)[i].id != QuizQuestions(t.quizzes, t.questions, quizId)[j].id
    ensures ReplacedOnce(ResultRows(t, quizId, userId), ResultRows(t.(answers := t.answers[m := y]), quizId, userId),
                         ProgressRow(qu, Some(t.answers[m])), ProgressRow(qu, Some(y)))
  {
    var t' := t.(answers := t.answers[m := y]);
    var qus := QuizQuestions(t.quizzes, t.questions, quizId);
    LeftJoinReplaced(qus, t.answers, m, y, qu);
    var rows, rows' := ProgressRows(t, quizId), ProgressRows(t', quizId);
    var k :| 0 <= k < |rows| && rows[k] == ProgressRow(qu, Some(t.answers[m])) && rows' == rows[k := ProgressRow(qu, Some(y))];
    FilterReplaced(rows, k, ProgressRow(qu, Some(y)), (r: ProgressRow) => SqlEq(r.UserIdColumn(), Some(userId)));
  }

  /** Turning one right answer row into a wrong one keeps `count` and
      `answered` and lowers `correct` by one. */
  lemma ResultsReplaced(rows: seq<ProgressRow>, rows': seq<ProgressRow>, x: ProgressRow, y: ProgressRow)
    requires ReplacedOnce(rows, rows', x, y)
    requires x.CorrectColumn() == Some(true) && y.CorrectColumn() == Some(false)
    ensures |rows'| == |rows|
    ensures CountTrue(AnsweredColumn(rows')) == CountTrue(AnsweredColumn(rows))
    ensures CountTrue(CorrectFlagColumn(rows')) + 1 == CountTrue(CorrectFlagColumn(rows))
  {
    var m :| 0 <= m < |rows| && rows[m] == x && rows' == rows[m := y];
    assert AnsweredColumn(rows') == AnsweredColumn(rows);
    assert CorrectFlagColumn(rows') == CorrectFlagColumn(rows)[m := false];
    CountTrueClear(CorrectFlagColumn(rows), m);
  }

  /** The message of the error `get_current_question_id` returns. */
  const QuizMissing := "The quiz does not exist"

  /** The rows of the first query of `get_current_question_id`:
      `WHERE q.id = %s AND a.correct IS NULL AND a.user_id = %s`. */
  function UnansweredRows(t: Tables, quizId: nat, userId: UserId): (r: seq<ProgressRow>)
    ensures forall i :: 0 <= i < |r| ==> r[i] in ProgressRows(t, quizId) && UnansweredWhere(userId)(r[i])
  {
    Filter(ProgressRows(t, quizId), UnansweredWhere(userId))
  }

  /** `a.correct IS NULL AND a.user_id = %s` as a row predicate. No row can
      pass it: `a.correct` is NULL only on a padded row, whose `a.user_id` is
      NULL too. */
  function UnansweredWhere(userId: UserId): (p: ProgressRow -> bool)
    ensures forall row :: !p(row)
  {
    (r: ProgressRow) => r.CorrectColumn().None? && SqlEq(r.UserIdColumn(), Some(userId))
  }

  function ProgressQuestionIds(rows: seq<ProgressRow>): (ids: seq<nat>)
    ensures |ids| == |rows| && forall i :: 0 <= i < |rows| ==> ids[i] == rows[i].question.id
  {
    seq(|rows|, i requires 0 <= i < |rows| => rows[i].question.id)
  }

  /** `SELECT qu.id FROM questions qu WHERE qu.quiz_id = %s`. */
  function QuestionIdsOfQuiz(questions: seq<QuestionRow>, quizId: nat): (ids: seq<nat>)
    ensures forall id :: id in ids <==> exists i :: 0 <= i < |questions| && questions[i].quizId == quizId && questions[i].id == id
  {
    if questions == [] then []
    else (if questions[0].quizId == quizId then [questions[0].id] else [])
         + QuestionIdsOfQuiz(questions[1..], quizId)
  }

  /** `get_current_question_id`: the smallest question id the first query
      finds; failing that, the quiz's smallest question id; failing that, the
      error. An error comes back exactly when the quiz has no questions. */
  function GetCurrentQuestionId(t: Tables, quizId: nat, userId: UserId): (r: Result<nat, string>)
    ensures r.Err? <==> QuestionIdsOfQuiz(t.questions, quizId) == []
    ensures r.Err? ==> r.error == QuizMissing
    ensures r.Ok? ==> r.value in QuestionIdsOfQuiz(t.questions, quizId)
    ensures UnansweredRows(t, quizId, userId) == [] && r.Ok? ==>
              forall id :: id in QuestionIdsOfQuiz(t.questions, quizId) ==> r.value <= id
  {
    var found := UnansweredRows(t, quizId, userId);
    // the first query's ids if it found a row, else those of `first_question_stmt`
    var candidates := if found != [] then ProgressQuestionIds(found) else QuestionIdsOfQuiz(t.questions, quizId);
    if candidates == [] then Err(QuizMissing) else Ok(Min(candidates, 0))
  }

  /** As written, the first query never finds a row: a row with a user has a
      non-NULL verdict, and a padded row has a NULL user. So the result is
      always the quiz's first question, answered or not. */
  lemma CurrentQuestionIsFirst(t: Tables, quizId: nat, userId: UserId)
    ensures UnansweredRows(t, quizId, userId) == []
    ensures GetCurrentQuestionId(t, quizId, userId).Ok? ==>
              forall id :: id in QuestionIdsOfQuiz(t.questions, quizId) ==>
                GetCurrentQuestionId(t, quizId, userId).value <= id
  {
    FilterNone(ProgressRows(t, quizId), UnansweredWhere(userId));
  }
}
