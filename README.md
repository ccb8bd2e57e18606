# Survey application: a verified model of its database handlers

The application is a small Flask survey tool with a SQLite database behind
SQLAlchemy. An admin creates surveys, adds, edits and deletes questions, and deletes
surveys and notes. Any logged-in user fills in a survey: one completed survey holds one
"tak"/"nie" (yes/no) answer with an optional explanation per question. A daily counter
records visits to the `success` page, and `index` and `view_count` read it back.

This project models what each request handler does to the database:

- `Schema`: the six tables as Dafny values. `Db` is the whole database, with the next
  primary key of every table that gains rows. `ValidDb` is the key discipline that every
  handler keeps: ids increase along the ordered tables and stay below their counter.
- `Queries`: the ORM queries the handlers issue. These are a survey's question list, a
  lookup by primary key, the first page-view row for a page, and the tables left after
  deleting rows.
- `ViewCounter`, `Catalogue`, `Responses`, `Notes`: each handler as a pure function from
  the database before a request to an `Outcome` and the database after it. The
  properties of each handler are lemmas about that function.
- `SurveyApp`: the database session as a class `Store`, with one field per table and one
  method per handler. Each method changes the fields step by step, with loops shaped like
  the handler's own loops, and is proved to leave exactly the database its effect function
  describes, with keys still valid.

The outcomes are:

- `Done`: the handler finished and committed.
- `Denied`: a non-admin got "Brak uprawnień" ("no permission").
- `Rejected`: the form did not validate and the page was shown again.
- `Aborted`: the handler raised. What it had not yet committed is lost; what it committed
  earlier stays.

Behaviours of the code that the model keeps:

- `add_question_to_survey` does not check that the survey exists.
- `delete_survey` deletes the answers to the survey's questions and the questions,
  committing as it goes, then the survey. It never deletes notes or completed surveys.
  `Survey.notes` has no delete cascade and `Note.survey_id` is NOT NULL. So for a survey
  that has notes, the last commit raises: the survey and its notes stay, but its
  questions and their answers are already gone.
- `delete_question` fails in the same way for a question that has answers
  (`Question.answers` has no delete cascade and `Answer.question_id` is NOT NULL). Nothing
  is deleted then.
- `edit_survey` with a question of the survey left without a `question_<id>` value stores
  None in the NOT NULL `content` column. The next flush raises and the whole edit is lost.
  So does a `delete_<id>` key whose `Question.query.get` finds nothing.
  `get` answers from the session's identity map first. The question the previous key
  deleted is still held there, because nothing has flushed since, so a key that repeats
  the id just before it (`delete_5` right after `delete_05`) finds it again. Any later
  query or bulk delete flushes that deletion, and the question leaves the identity map.
  So the same id coming back after a different one (`[5, 7, 5]`) finds nothing and
  rolls the edit back.
- Answers are paired with questions by position (`zip`, which stops at the shorter list).
- Nothing makes "tak" and "nie" exclusive.

## Model

| member | source | states |
|---|---|---|
| Queries.QuestionsOf | surveys.py:301 | `survey.questions`: the questions whose survey_id is the survey, in table order (definition; its properties are the lemmas below) |
| Queries.QuestionsExcept | surveys.py:305 | the question table after deleting the rows with the given ids, order kept (definition) |
| Queries.AnswersExcept | surveys.py:302-303 | the answer table after deleting the answers to the given questions, order kept (definition) |
| Queries.Lookup | surveys.py:349 | `Question.query.get(id)` is the row with that primary key, or nothing when no row has it |
| Queries.FirstPage | surveys.py:367 | `filter_by(page_name=...).first()` gives the first row for the page: earlier rows are other pages; None only when no row is for the page |
| Queries.QuestionsOfMembers | surveys.py:301 | a survey's question list holds exactly the questions whose survey_id is that survey |
| Queries.QuestionsExceptMembers | surveys.py:305 | deleting questions keeps exactly the rows whose ids are not deleted |
| Queries.AnswersExceptMembers | surveys.py:302-303 | deleting the answers to some questions keeps exactly the answers to the other questions |
| Queries.QuestionsExceptIncreasing | surveys.py:305 | deleting questions keeps the remaining primary keys increasing |
| Queries.AnswersExceptIncreasing | surveys.py:303 | deleting answers keeps the remaining primary keys increasing |
| Queries.QuestionsExceptTwice | surveys.py:301-306 | deleting one set of questions and then another is deleting their union |
| Queries.AnswersExceptTwice | surveys.py:301-306 | deleting the answers to one set of questions and then another is deleting those to the union |
| Queries.QuestionsOfAfterExcept | surveys.py:301-306 | deleting questions of other surveys leaves a survey's question list unchanged |
| Queries.QuestionsOfAppend | surveys.py:212-214 | a question added at the end of the table comes last in its own survey's list and changes no other list |
| Queries.UniqueQuestionIds | surveys.py:81 | with increasing primary keys, two questions with the same id are the same row |
| ViewCounter.RecordViewEffect | surveys.py:364-378 | `success`: a new row with one view and today when there is no "success" row; otherwise the first one restarts at 1 on a new day or gains one view on the same day (definition; see the lemmas below) |
| ViewCounter.ViewCount | surveys.py:185-186 | the count `index` shows is the first "success" row's views, or 0 when there is no such row |
| ViewCounter.RecordViewFirstVisit | surveys.py:367-370 | the first visit adds exactly one row, with one view and today's date, after all others; the count becomes 1 and no other table changes |
| ViewCounter.RecordViewNewDay | surveys.py:372-375 | the first visit on a new day sets the first "success" row to one view and today; no other row or field changes and the count becomes 1 |
| ViewCounter.RecordViewSameDay | surveys.py:376-377 | another visit on the same day adds one view to the first "success" row; no other row or field changes and the count goes up by exactly one |
| ViewCounter.RecordViewKeepsValid | surveys.py:364-378 | every visit keeps the page-view keys valid |
| SurveyApp.Store.RecordView | surveys.py:364-378 | the handler's updates leave exactly the database of the `success` effect, with keys valid |
| Catalogue.CreateSurveyEffect | surveys.py:193-199 | `create_survey`, POST: refusal, re-render on a blank title, or a new survey under the next id (definition) |
| Catalogue.CreateSurveyAdds | surveys.py:193-199 | a survey is created exactly when an admin submits a non-blank title; it gets a fresh id and the other tables are unchanged; otherwise nothing changes |
| SurveyApp.Store.CreateSurvey | surveys.py:193-199 | the method leaves the database of the `create_survey` effect and returns the new survey's fresh id |
| Catalogue.AddQuestionEffect | surveys.py:207-214 | `add_question_to_survey`, POST: refusal, re-render on blank content, or a new question at the end of the table (definition) |
| Catalogue.AddQuestionAppends | surveys.py:207-214 | a question is added exactly when an admin submits non-blank content; it gets a fresh id and becomes the last question of its survey's list; other surveys' lists and other tables are unchanged |
| Catalogue.AddQuestionsInOrder | surveys.py:211-216 | adding N questions one after another gives the old list followed by the N questions, in the order added, with consecutive fresh ids |
| SurveyApp.Store.AddQuestion | surveys.py:207-214 | the method leaves the database of the `add_question_to_survey` effect, with keys valid |
| Catalogue.DeleteSurveyEffect | surveys.py:297-309 | `delete_survey`: refusal; a missing survey raises before any change; otherwise the survey's answers and questions go, and the survey goes too unless it has notes, in which case the last commit raises (definition) |
| Catalogue.DeleteSurveyCascades | surveys.py:297-309 | an admin deleting an existing survey removes every question of it and every answer to them, and keeps every other answer and every other survey's question list. The survey is removed, and the outcome is `Done`, exactly when it has no notes. Notes, completed surveys and page views are never touched. A refusal or a missing survey changes nothing |
| Catalogue.DeleteSurveyKeepsValid | surveys.py:297-309 | deleting a survey keeps all keys valid, whether or not the last commit fails |
| SurveyApp.DropAnswersTo | surveys.py:302-303 | deleting the answers to one question one by one leaves the other answers in order |
| SurveyApp.DropQuestions | surveys.py:301-306 | the loop over the survey's questions leaves exactly the answers and questions that the cascade keeps |
| SurveyApp.Store.DeleteSurvey | surveys.py:297-309 | the method leaves the database of the `delete_survey` effect, the partial deletion of a failed last commit included, with keys valid |
| Catalogue.DeleteQuestionEffect | surveys.py:317-321 | `delete_question`: refusal; an unknown id or a question with answers raises and changes nothing; otherwise the question row goes (definition) |
| Catalogue.DeleteQuestionRemovesOne | surveys.py:317-321 | the deletion commits exactly when an admin names an existing question that no answer references. It then removes exactly the rows with that id, keeps the others in order and changes no other table; otherwise nothing changes. Keys stay valid |
| SurveyApp.Store.DeleteQuestion | surveys.py:317-321 | the method leaves the database of the `delete_question` effect, with keys valid |
| Catalogue.Rewritten | surveys.py:338-339 | first phase: each question of the survey takes its submitted content, other rows unchanged; same length as the table |
| Catalogue.RewrittenRows | surveys.py:338-339 | the i-th row after the first phase is the i-th row before it, rewritten when it belongs to the survey |
| Catalogue.NewQuestions | surveys.py:341-344 | second phase: one question of the survey per `question_new_*` value; as many as there are values |
| Catalogue.NewQuestionsRows | surveys.py:341-344 | the i-th new question carries the i-th value and id `firstId + i` |
| Catalogue.DeleteMarked | surveys.py:346-351 | third phase: for each marked id in turn, its answers and the question; a key raises unless its id names a question still in the table or repeats the key just before it (definition) |
| Catalogue.DeleteMarkedResumes | surveys.py:346-351 | resumed after any prefix of the keys, the third phase finds every remaining question exactly when each remaining key finds its question (`MarkFound`) |
| Catalogue.DeleteMarkedSucceeds | surveys.py:346-351 | the third phase finds every marked question exactly when each key repeats the key just before it or brings an id not seen earlier in the phase that names a question of the table the phase began with; `[5, 5]` commits and `[5, 7, 5]` does not |
| Catalogue.DeleteMarkedDeletes | surveys.py:346-351 | deleting the marked questions one at a time, each with its answers, is deleting all of them and every answer to them at once |
| Catalogue.EditSurveyEffect | surveys.py:329-353 | `edit_survey`, POST: refusal; a missing survey, a missing content or a `delete_<id>` key that finds no question raises and changes nothing; otherwise the three phases, committed together (definition) |
| Catalogue.ExtendedIds | surveys.py:338-344 | after the first two phases the table holds exactly the old ids and the new ones |
| Catalogue.EditSurveyCommits | surveys.py:329-353 | an edit commits exactly when an admin edits an existing survey, every question of the survey has a submitted content, and every `delete_<id>` key repeats the key just before it or brings an id not seen earlier in the phase that names an existing or a newly appended question (`EditMarkFound`) |
| Catalogue.EditSurveyDone | surveys.py:337-353 | a committed edit is: the rewritten survey questions, then the new ones, minus every marked question and every answer to one |
| Catalogue.EditSurveyKeepsValid | surveys.py:329-353 | a non-admin is refused; a missing survey or a question left without content aborts; a refused or aborted edit changes nothing; every edit keeps keys valid (when it commits: `EditSurveyCommits`) |
| Catalogue.EditSurveyRewrites | surveys.py:338-339 | after a committed edit every old question of the survey carries its submitted content, and every unmarked one is still there with that content |
| Catalogue.EditSurveyAppends | surveys.py:341-344 | after a committed edit each `question_new_*` value is a question of the survey, with consecutive fresh ids in form order, unless a `delete_<id>` names its id |
| Catalogue.EditSurveyDeletes | surveys.py:346-351 | after a committed edit no marked question is left and no answer references one; every other answer, every unmarked question of another survey and every other table are kept |
| SurveyApp.RewriteQuestions | surveys.py:338-339 | the first loop gives each question of the survey its submitted content and leaves other rows alone |
| SurveyApp.AppendQuestions | surveys.py:341-344 | the second loop appends one question per new value, in form order, with consecutive ids |
| SurveyApp.DeleteMarkedQuestions | surveys.py:346-351 | the third loop deletes each marked question and its answers, finding a question still in the table or the one the previous key deleted, or reports the first key that finds nothing |
| SurveyApp.Store.EditSurvey | surveys.py:329-353 | the method leaves the database of the `edit_survey` effect, all or nothing, with keys valid |
| Responses.NewAnswers | surveys.py:249-260 | the answers `zip` pairs up, defined the way `zip` walks both lists; as many as the shorter of questions and entries |
| Responses.NewAnswersPairs | surveys.py:249-260 | the i-th answer refers to the i-th question, copies the i-th entry's check boxes and explanation unchanged and has id `firstId + i` |
| Responses.FillSurveyEffect | surveys.py:241-261 | `fill_survey`, POST: re-render on a blank name (which raises for a missing survey); a missing survey raises; otherwise one completed survey and the answers `zip` pairs up (definition) |
| Responses.FillSurveyRecords | surveys.py:241-261 | a submission is recorded exactly when the name is not blank and the survey exists. It adds one completed survey with a fresh id and min(#questions, #entries) answers after the existing ones. Each of them belongs to the new completed survey, refers to the survey's i-th question and copies the i-th entry. Nothing else changes, and a rejected or failed submission changes nothing |
| Responses.FillSurveyKeepsValid | surveys.py:241-261 | a submission keeps all keys valid |
| Responses.FillSurveyKeepsBothFlags | surveys.py:250-258 | an entry with both "tak" and "nie" checked is stored with both set |
| SurveyApp.AppendAnswers | surveys.py:249-260 | the `zip` loop appends exactly the answers of the submission, with consecutive ids |
| SurveyApp.Store.FillSurvey | surveys.py:241-261 | the method leaves the database of the `fill_survey` effect, with keys valid |
| Notes.DeleteNoteEffect | surveys.py:400-407 | `delete_note`: refusal; the note removed when it exists, nothing otherwise (definition) |
| Notes.DeleteNoteRemovesOne | surveys.py:400-407 | an admin's deletion removes exactly that note and keeps the others unchanged; an unknown id changes nothing; a non-admin is refused; no other table changes |
| SurveyApp.Store.DeleteNote | surveys.py:400-407 | the method leaves the database of the `delete_note` effect, with keys valid |
| SurveyApp.NonAdminChangesNothing | surveys.py:193-194 | every admin-only handler (create, add question, delete survey, delete question, edit, delete note) answers a non-admin with a refusal and changes nothing |
| SurveyApp.Store.constructor | surveys.py:423-424 | `create_all` gives the empty database, whose keys are valid |

## Left out

- Flask routing, WTForms rendering, CSRF, login and the user table are not modelled.
  The current user's role and id are parameters. A blank field is the only validation
  failure modelled (`DataRequired`, with Python whitespace).
- GET requests, the pages they render and the handlers that only read (`survey`,
  `completed_surveys`, `view_completed_survey`) are not modelled. `index` and
  `view_count` are modelled only as the count they return.
- `add_note_to_survey` is not part of this model.
- The clock and the Europe/Warsaw time zone are not modelled. `fill_survey` takes the
  timestamp and `success` takes today's date as parameters.
- Concurrent requests are not modelled; each handler runs alone.
- The primary keys come from counters that never reuse an id. SQLite without
  AUTOINCREMENT may reuse the largest deleted rowid; the model does not capture that.
- `edit_survey` reads the submitted form as a map of contents by question id plus two
  sequences. Parsing the form keys is not modelled, so a `delete_` key that is not a number
  (where `int()` raises) has no counterpart.
- The failed flushes of `delete_survey`, `delete_question` and `edit_survey` are modelled
  from the ORM's documented behaviour (a relationship without a delete cascade nulls the
  children's foreign key; a NOT NULL column refuses None). The ORM itself is not part of
  this model.
- SurveyApp.Store.DeleteSurvey: the handler's commits after each question appear as one
  update of the answer and question tables, followed by the survey's deletion. Nothing
  between those commits can fail, so only the database between them is not modelled.
- Responses.FillSurveyRecords: assumes the completed survey has its id when the answers
  are built. In the handler that id comes from the flush that loading `survey.questions`
  triggers.
