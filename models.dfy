/** The quiz value model: a quiz is a prompt and an ordered sequence of
    questions, each with ordered option texts and the index of the correct one.
    Ids are absent until the quiz has been stored. */
module Models {
  import opened Wrappers
  import opened Lists

  /** The message of the `ValueError` raised when some question has no id. */
  const MissingIds := "Some questions do not have an ID set and cannot be compared"

  datatype Question = Question(
    id: Option<nat>,
    text: string,
    options: seq<string>,
    correctAnswer: string,
    correctAnswerIndex: int)
  {
    /** `len(question)`: the number of options. */
    function Length(): (n: nat)
      ensures n == |options|
    {
      |options|
    }
  }

  datatype Quiz = Quiz(id: Option<nat>, prompt: string, questions: seq<Question>)
  {
    /** `len(quiz)`: the number of questions. */
    function Length(): (n: nat)
      ensures n == |questions|
    {
      |questions|
    }

    /** The list comprehension `[q.id for q in self.questions]`. */
    function QuestionIds(): (ids: seq<Option<nat>>)
      ensures |ids| == Length()
      ensures forall i :: 0 <= i < |ids| ==> ids[i] == questions[i].id
    {
      seq(|questions|, i requires 0 <= i < |questions| => questions[i].id)
    }

    /** The position of the question with id `questionId`. Fails when any
        question lacks an id, whatever is searched for, and when no question
        has that id (`list.index` raises; it never returns -1). */
    function GetQuestionIndex(questionId: nat): (r: Result<nat, Error>)
      ensures (exists i :: 0 <= i < Length() && questions[i].id.None?) ==>
                r == Err(ValueError(MissingIds))
      ensures r.Ok? ==> r.value < Length() && questions[r.value].id == Some(questionId)
      ensures r.Ok? ==> forall j :: 0 <= j < r.value ==> questions[j].id != Some(questionId)
      ensures (forall i :: 0 <= i < Length() ==> questions[i].id.Some?) ==>
                (r.Ok? <==> exists i :: 0 <= i < Length() && questions[i].id == Some(questionId))
      ensures r.Err? ==> r.error == ValueError(MissingIds) || r.error == ValueError(NotInList)
    {
      var ids := QuestionIds();
      if None in ids then Err(ValueError(MissingIds))
      else ListIndex(ids, Some(questionId))
    }

    /** Every question has an id and no two questions share one. */
    predicate HasDistinctIds()
    {
      && (forall i :: 0 <= i < |questions| ==> questions[i].id.Some?)
      && (forall i, j :: 0 <= i < j < |questions| ==> questions[i].id != questions[j].id)
    }
  }

  /** For a quiz with distinct ids, looking a question up by its id gives back
      its position: `GetQuestionIndex` inverts "question at index". */
  lemma QuestionIndexInverse(quiz: Quiz, i: nat)
    requires quiz.HasDistinctIds()
    requires i < quiz.Length()
    ensures quiz.GetQuestionIndex(quiz.questions[i].id.value) == Ok(i)
  {
  }
}
