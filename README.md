# quizai progression core in Dafny

This project models the quiz progression and scoring core of the quizai web
application: the quiz value model (`models.py`), the PostgreSQL-backed quiz
repository that stores quizzes, loads them back, records per-user answers and
reports progress (`persistance/repositories/quiz_repo.py`), the older
repository that only stores quizzes (`persistance/quiz_repo.py`), and the
scoring loop of the command-line quiz (`main.py`).

Layout, one module per file:

- `wrappers.dfy` (`Wrappers`): `Option`, `Result` and the `ValueError` exception value.
- `lists.dfy` (`Lists`): Python's `list.index`, counting, the smallest element, filtering.
- `models.dfy` (`Models`): `Question` and `Quiz` with `Length()` (`__len__`) and `GetQuestionIndex`.
- `store.dfy` (`Store`): the four tables as rows, the `Database` class whose methods are the
  single SQL statements (inserts with `RETURNING id`, the upsert), and the invariant
  `Consistent` the database keeps (serial ids, references, unique answer keys).
- `quiz_rows.dfy` (`QuizRows`): how a quiz tree is flattened into rows, and the nested insert
  loops both repositories run.
- `quiz_repository.dfy` (`QuizRepository`): `save`, `get`, `answer`, `get_results`,
  `get_current_question_id`.
- `legacy_quiz_repo.dfy` (`LegacyQuizRepo`): `create` and its fixture.
- `cli.dfy` (`Cli`): the scoring loop of `main`.
- `progress_fixes.dfy` (`ProgressFixes`): corrected versions of the two progress queries,
  with the inputs that separate them from the code as written.

How the model treats the database:

- Ids handed out by the database are per-table serial counters in the `Database` class, so a
  fresh id exceeds every stored id and table order is id order. The quiz id, a string in the
  Python model, is a natural number here. So are `Question.id`, an `int` in `models.py`, and
  the `question_id` argument of `get_question_index`: stored ids are never negative, and a
  negative argument can only miss.
- Each repository method is one atomic step on the tables. Read queries are functions of a
  `Tables` value, the database contents at that moment.
- Joins enumerate rows in table order. `ORDER BY q.id, qu.id` holds for that order. The order
  of the options within one question is not fixed by the SQL; the model returns them in id order.
- Of SQL's NULL logic only what the code depends on is modelled. `x = NULL` never holds
  (`Store.SqlEq`). Rows padded by a LEFT JOIN have NULL columns (`ProgressRow.UserIdColumn`,
  `ProgressRow.CorrectColumn`). `answer` always stores a boolean, never NULL.
- The filters are modelled as written. Both progress queries test `a.user_id = %s` in the
  WHERE clause, which drops the rows the LEFT JOIN padded. `get_current_question_id` also
  tests `a.correct IS NULL`. No row can pass both tests, so its first query never finds
  anything and the fallback branch always runs (`QuizRepository.CurrentQuestionIsFirst`).
- The docstring of `get_question_index` promises -1 for an unknown id, but the code calls
  `list.index`, which raises `ValueError`. The model follows the code (`Models.Quiz.GetQuestionIndex`).
- `save` calls `get` with the same `user_id`. `get` tests `q.owner_id = %s`, so `save`
  without an owner returns `None`.

## Model

| member | source | states |
|---|---|---|
| `Models.Question.Length` | models.py:11-12 | `len(question)` is the number of options |
| `Models.Quiz.Length` | models.py:26-27 | `len(quiz)` is the number of questions |
| `Lists.ListIndex` | models.py:42 | `list.index` returns the first position holding the value; when the value is missing it fails with `ValueError` and never returns -1 |
| `Models.Quiz.GetQuestionIndex` | models.py:35-42 | fails with the missing-id `ValueError` whenever some question has no id, whatever is searched for; on success the index is in range, holds the id, and no earlier question has it; with all ids set it succeeds iff some question has the id; otherwise it fails with `list.index`'s error |
| `Models.QuestionIndexInverse` | models.py:38-42 | for a quiz whose ids are all set and distinct, looking up the id of question `i` gives `i` |
| `Store.Upsert` | persistance/repositories/quiz_repo.py:111-115 | the upsert overwrites the record with the same `(user_id, quiz_id, question_id)` key in place, keeping the table length, or appends one record |
| `Store.UpsertEffect` | persistance/repositories/quiz_repo.py:111-126 | after the upsert keys stay unique, the key has exactly one record and it holds the new verdict, every record under another key is kept, and no other record appears |
| `Store.UpsertIdempotent` | persistance/repositories/quiz_repo.py:111-126 | upserting the same verdict twice leaves the table as upserting it once |
| `Store.Database.InsertQuiz` | persistance/repositories/quiz_repo.py:30-31 | appends one quiz row with the next serial id, returns that id, keeps the invariant and changes no other table |
| `Store.Database.InsertQuestion` | persistance/repositories/quiz_repo.py:34-35 | appends one question row referencing a stored quiz, with the next serial id, and returns that id |
| `Store.Database.InsertOption` | persistance/repositories/quiz_repo.py:39 | appends one option row referencing a stored question, with the next serial id |
| `Store.Database.UpsertAnswer` | persistance/repositories/quiz_repo.py:125 | the answer table becomes `Upsert` of the old one; nothing else changes and the invariant holds |
| `QuizRows.FlagRule` | persistance/repositories/quiz_repo.py:37-39 | option `i` is stored flagged iff `i` equals `correct_answer_index`, so a question gets exactly one flagged option when the index is in range and none otherwise |
| `QuizRows.OptionRowsShape` | persistance/repositories/quiz_repo.py:33-39 | one option row per option over all questions, each pointing at one of the ids handed to this quiz's question rows |
| `QuizRows.InsertOptions` | persistance/repositories/quiz_repo.py:37-39 | the inner loop appends the question's option rows, in order, with fresh ids and the correct-flag rule |
| `QuizRows.InsertQuestionTree` | persistance/repositories/quiz_repo.py:33-39 | one pass of the outer loop: the question row with the next id, carrying the quiz id, then that question's option rows carrying the new question id |
| `QuizRows.InsertQuizTree` | persistance/repositories/quiz_repo.py:29-41 | one quiz row, then per question in input order its question row and its option rows, each child row carrying the id just returned for its parent; earlier rows and the answer table are kept; returns the new quiz id |
| `QuizRepository.AnswerJoin` | persistance/repositories/quiz_repo.py:60 | each option row is repeated once per answer record of its question, whoever gave it, or kept once with a NULL verdict when there is none; every copy carries the quiz, question and option columns |
| `QuizRepository.OptionJoinFrom` | persistance/repositories/quiz_repo.py:59 | every row of `JOIN options o ON qu.id = o.question_id` comes from an option row of that question |
| `QuizRepository.OptionJoinCovers` | persistance/repositories/quiz_repo.py:59 | every option row of the question gives a row |
| `QuizRepository.QuestionJoinFrom` | persistance/repositories/quiz_repo.py:58-59 | every row of `JOIN questions qu ON q.id = qu.quiz_id` comes from a question row of the quiz and an option row of that question |
| `QuizRepository.QuestionJoinCovers` | persistance/repositories/quiz_repo.py:58-59 | every such question and option pair gives a row |
| `QuizRepository.QuizJoinFrom` | persistance/repositories/quiz_repo.py:57-61 | every row of the `get` query comes from a quiz row with the requested id and the non-NULL requesting owner, one of its question rows and one of that question's option rows; its verdict, when not NULL, is that of an answer record of that question |
| `QuizRepository.QuizJoinCovers` | persistance/repositories/quiz_repo.py:57-61 | every such quiz, question and option triple gives a row |
| `QuizRepository.QuestionJoinOrdered` | persistance/repositories/quiz_repo.py:58-62 | with serial question ids, the question join comes out ordered by question id |
| `QuizRepository.QuizJoinOrdered` | persistance/repositories/quiz_repo.py:57-62 | `ORDER BY q.id, qu.id`: with serial quiz and question ids, the rows of `get` come out ordered by question id |
| `QuizRepository.GetRows` | persistance/repositories/quiz_repo.py:47-66 | every row returned carries the requested quiz id, and rows come back only when the requesting user is not NULL and owns a quiz row with that id |
| `QuizRepository.GetRowsNeedOwner` | persistance/repositories/quiz_repo.py:47-62 | the `get` query returns rows only when the requesting user is not NULL and owns a quiz row with that id |
| `QuizRepository.FirstPrompt` | persistance/repositories/quiz_repo.py:72-76 | the prompt kept is that of the first row with a non-empty prompt, or empty when all are |
| `QuizRepository.GroupKeys` | persistance/repositories/quiz_repo.py:73-81 | the keys of `rows_by_question_id` are exactly the question ids of the rows, each once |
| `QuizRepository.RowsFor` | persistance/repositories/quiz_repo.py:78-81 | a group holds only rows of its question id, and is empty iff no row has that id |
| `QuizRepository.RowsForKeepsEveryRow` | persistance/repositories/quiz_repo.py:78-81 | the group of question id `k` is exactly the subsequence of the rows with that id, in row order: none is dropped and none reordered |
| `QuizRepository.GroupKeysInFirstAppearanceOrder` | persistance/repositories/quiz_repo.py:73-84 | the questions come out in the order in which their ids first appear among the rows |
| `QuizRepository.CorrectIndex` | persistance/repositories/quiz_repo.py:89-93 | the derived index is the position of the first flagged option, or 0 when none is flagged, and is in range for a non-empty list |
| `QuizRepository.CorrectAnswerIndex` | persistance/repositories/quiz_repo.py:89-93 | the break loop finds the first flagged option, or leaves 0 when none is flagged |
| `QuizRepository.BuildQuestion` | persistance/repositories/quiz_repo.py:85-102 | the question built from one group has that id, the group's first question text and its option texts in row order; its correct index is in range and first-flagged (0 if none), and `correct_answer` is the option at that index |
| `QuizRepository.GroupedQuestions` | persistance/repositories/quiz_repo.py:83-104 | one question per distinct question id |
| `QuizRepository.GroupedQuestionsFromKeys` | persistance/repositories/quiz_repo.py:73-104 | question `i` is the one built from the `i`-th distinct question id of the rows and from all the rows carrying that id, in row order |
| `QuizRepository.Grouped` | persistance/repositories/quiz_repo.py:69-106 | no quiz for no rows; otherwise the requested id, the first non-empty prompt and the regrouped questions |
| `QuizRepository.CollectRows` | persistance/repositories/quiz_repo.py:72-81 | the first loop computes the kept prompt, the keys in insertion order and each key's rows |
| `QuizRepository.MakeQuestion` | persistance/repositories/quiz_repo.py:85-102 | one pass of the second loop builds the question `BuildQuestion` describes |
| `QuizRepository.BuildQuestions` | persistance/repositories/quiz_repo.py:83-104 | the second loop builds the questions `GroupedQuestions` describes, in key order |
| `QuizRepository.Regroup` | persistance/repositories/quiz_repo.py:69-106 | regrouping the fetched rows gives `Grouped` of them |
| `QuizRepository.Get` | persistance/repositories/quiz_repo.py:46-106 | on a consistent database, `get` regroups the rows of its query; a quiz comes back only for its non-NULL owner |
| `QuizRepository.Save` | persistance/repositories/quiz_repo.py:22-44 | `save` writes the quiz tree with the given owner and returns what `get` finds for that owner; with no owner it returns `None` |
| `QuizRepository.OptionsOf` | persistance/repositories/quiz_repo.py:109-120 | the option query returns exactly the option rows of the question |
| `QuizRepository.OptionsOfOrdered` | persistance/repositories/quiz_repo.py:109 | `ORDER BY id`: with serial option ids, the question's options come out in increasing id order |
| `QuizRepository.QuestionFlags` | persistance/repositories/quiz_repo.py:109-120 | the question's flags, in id order, contain `True` iff some option of that question is flagged |
| `QuizRepository.AnswerVerdict` | persistance/repositories/quiz_repo.py:119-124 | fails with `list.index`'s `ValueError` iff no option of the question is flagged; otherwise the verdict is true iff the chosen index is the position of the first flagged option |
| `QuizRepository.Answered` | persistance/repositories/quiz_repo.py:111-126 | `answer` leaves quizzes, questions and options unchanged; on `ValueError` it changes nothing; on a verdict the answer table holds the record of `(user_id, quiz_id, question_id)` with that verdict and grows by at most one row |
| `QuizRepository.Answer` | persistance/repositories/quiz_repo.py:108-128 | returns the verdict; on success the answer table is upserted under `(user_id, quiz_id, question_id)`, on failure nothing changes; other tables and the invariant are kept |
| `QuizRepository.AnswerRecordsVerdict` | persistance/repositories/quiz_repo.py:111-126 | after `answer`, the key has exactly one record and it holds the returned verdict; all other records are unchanged |
| `QuizRepository.AnswerIdempotent` | persistance/repositories/quiz_repo.py:108-128 | giving the same answer again leaves every table identical to after the first time |
| `QuizRepository.QuizQuestions` | persistance/repositories/quiz_repo.py:136-137 | the joined questions all belong to the requested quiz, and when the quiz row exists every question row of that quiz is joined |
| `QuizRepository.LeftJoinAnswers` | persistance/repositories/quiz_repo.py:138 | every row joins a question of the input with an answer record of that question, whoever gave it, or with a NULL answer, and a NULL-padded row only for a question without any record; every unanswered question appears padded |
| `QuizRepository.LeftJoinCovers` | persistance/repositories/quiz_repo.py:138 | completeness of the LEFT JOIN: every answer record of a joined question gives a row pairing that question with it, whoever gave it |
| `QuizRepository.LeftJoinOnce` | persistance/repositories/quiz_repo.py:138 | with distinct question ids and distinct answer records, no joined row repeats, so each question/record pair gives exactly one row and each question without a record exactly one padded row |
| `QuizRepository.ProgressRows` | persistance/repositories/quiz_repo.py:136-138 | the joined rows are only of the quiz's questions, and each of its questions without any answer record appears padded |
| `QuizRepository.ResultRows` | persistance/repositories/quiz_repo.py:136-139 | every row that passes `a.user_id = %s` carries an answer record of that user, so the LEFT JOIN acts as an inner join |
| `QuizRepository.GetResults` | persistance/repositories/quiz_repo.py:130-144 | `correct <= answered <= count`, and all three are 0 when no row matches (the COALESCE) |
| `QuizRepository.ResultsCountEqualsAnswered` | persistance/repositories/quiz_repo.py:133-139 | as written, `count` always equals `answered` |
| `QuizRepository.UnansweredWhere` | persistance/repositories/quiz_repo.py:152-155 | `a.correct IS NULL AND a.user_id = %s` holds for no row: `a.correct` is NULL only on a padded row, whose `a.user_id` is NULL too |
| `QuizRepository.UnansweredRows` | persistance/repositories/quiz_repo.py:147-157 | the first query keeps only rows of the quiz's join that pass its WHERE clause |
| `QuizRepository.QuestionIdsOfQuiz` | persistance/repositories/quiz_repo.py:159 | the fallback query returns exactly the ids of the quiz's question rows |
| `QuizRepository.GetCurrentQuestionId` | persistance/repositories/quiz_repo.py:146-175 | fails with "The quiz does not exist" iff the quiz has no questions; otherwise returns one of its question ids, and when the first query finds nothing, the smallest one |
| `QuizRepository.CurrentQuestionIsFirst` | persistance/repositories/quiz_repo.py:152-157 | the first query never finds a row, so the result is always the quiz's smallest question id |
| `ProgressFixes.UpsertVerdict` | persistance/repositories/quiz_repo.py:111-115 | after an upsert, the recorded verdict of its own key is the new one and that of every other key is unchanged |
| `ProgressFixes.IntendedResults` | persistance/repositories/quiz_repo.py:130-144 | corrected `get_results`: `count` is the number of the quiz's questions, and `correct <= answered <= count` |
| `ProgressFixes.ResultsIndependentOfOtherUsers` | persistance/repositories/quiz_repo.py:108-144 | an answer by one user leaves another user's corrected results unchanged |
| `ProgressFixes.WrongAfterRight` | persistance/repositories/quiz_repo.py:108-144 | answering a question of the quiz wrongly after a right answer, with the quiz's question ids distinct, keeps the corrected `count` and `answered` and lowers `correct` by one |
| `ProgressFixes.WrongAfterRightAsWritten` | persistance/repositories/quiz_repo.py:108-144 | the same holds for `get_results` as written: the upsert rewrites the record in place, and it makes exactly one result row |
| `ProgressFixes.IntendedCurrentQuestionId` | persistance/repositories/quiz_repo.py:146-175 | corrected `get_current_question_id`: the smallest id among the quiz's questions that the user has not answered; when every question is answered, the smallest question id of the quiz; an error iff the quiz has no questions |
| `ProgressFixes.ResultsCountDiffers` | persistance/repositories/quiz_repo.py:133-139 | for a two-question quiz with one answer, the code reports count 1 and the corrected query 2 |
| `ProgressFixes.CurrentQuestionDiffers` | persistance/repositories/quiz_repo.py:152-173 | after answering question 0 of two, the code returns question 0 again and the corrected query question 1 |
| `LegacyQuizRepo.Create` | persistance/quiz_repo.py:9-30 | one quiz row without owner, then per question its row and its option rows with the same correct-flag rule; earlier rows are kept; returns the id from the quiz insert |
| `LegacyQuizRepo.Fixture` | persistance/quiz_repo.py:34-36 | the fixture quiz has no id and two questions, none with an id, each with its correct index in range and `correct_answer` equal to the option at that index |
| `LegacyQuizRepo.FixtureFlags` | persistance/quiz_repo.py:34-35 | of the fixture's eight option rows only "2" of the first question and "4" of the second are flagged |
| `Cli.CorrectCount` | main.py:13-22 | the running count never exceeds the number of questions seen |
| `Cli.CorrectCountIsHits` | main.py:20-22 | the running count is the number of questions whose typed number minus one equals the correct index |
| `Cli.NatToString` | main.py:32 | the f-string's decimal notation: digits only, no leading zero, and reading the digits back gives the number |
| `Cli.Score` | main.py:13-32 | the count is the number of right answers and at most `len(quiz)`; the prefix is "Too bad." iff `2 * correct < len(quiz)` and "Well done!" otherwise; the final line reports the count out of `len(quiz)` |

## Left out

- Printing and reading: `input()`, `print`, the per-question feedback lines of `main` and `int()` parse errors. The typed numbers are an input sequence with one number per question.
- The quiz generator (`quiz_builder.py`): an external language-model call plus JSON parsing. `main` takes its quiz as an input.
- Connections, cursors, commits and `persistance/database.py`: each repository method is one atomic step on the tables.
- SQL beyond what the code depends on: no full three-valued logic, no aggregates over NULL columns other than those written out, no foreign-key or integrity errors. `Store.Database.InsertQuestion` and `InsertOption` require their parent row to exist, and the callers always meet this.
- Option order within a question in `get`: SQL leaves it unspecified; the model returns id order.
- The `answered_correct` keyword that `get` passes to `Question`: pydantic ignores unknown fields, so it has no effect.
- The `get` query joins `user_quiz_answers` on the question id alone. A question with several answer records therefore yields each option once per record: `QuizRepository.AnswerJoin` states the repetition count for one option row. No lemma follows the repeated rows through regrouping to the duplicated option texts of the returned question.
- The text of `list.index`'s `ValueError`: Python's message names the missing value; the model uses one fixed message (`Lists.NotInList`), since values are never printed.
- Concurrency between requests and users: the composite key is a key of the answer table, nothing more.
- Authentication, sessions, users, routers, templates and the front end: no standalone logic.

## Findings

| source | as written | input that shows it | evidently intended | confidence | as-written member | corrected member |
|---|---|---|---|---|---|---|
| persistance/repositories/quiz_repo.py:133-139 | `COUNT(q.id)` counts the user's answer rows, because `a.user_id = %s` in the WHERE clause drops questions without an answer; `count` always equals `answered` | quiz 0 with questions 0 and 1, user "u" answered question 0: results (1, 1, 1) | `count` is the number of questions in the quiz: (2, 1, 1) | high; not executed | `QuizRepository.ResultsCountEqualsAnswered`, `ProgressFixes.ResultsCountDiffers` | `ProgressFixes.IntendedResults` |
| persistance/repositories/quiz_repo.py:152-157 | `a.correct IS NULL AND a.user_id = %s` can never both hold, so the fallback always returns the quiz's first question | the same quiz after "u" answered question 0: `Ok(0)` | the first question the user has not answered: `Ok(1)` | high; not executed | `QuizRepository.CurrentQuestionIsFirst`, `ProgressFixes.CurrentQuestionDiffers` | `ProgressFixes.IntendedCurrentQuestionId` |
