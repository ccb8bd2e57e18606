/**
 * The tables of the survey application (the SQLAlchemy models Survey, Question,
 * CompletedSurvey, Answer, Note and PageView) as Dafny values, the whole database as
 * one record `Db`, and the facts every handler keeps true of it.
 */
module Schema {
  import opened Wrappers

  /** A calendar day in the application's fixed time zone. */
  datatype Date = Date(year: int, month: int, day: int)

  /** A point in time (seconds); the handlers take it as a parameter instead of reading a clock. */
  type Timestamp = int

  /** The role string every admin-only handler compares against. */
  const Admin: string := "admin"

  /** The only page whose visits are counted. */
  const SuccessPage: string := "success"

  datatype Survey = Survey(title: string)

  datatype Question = Question(id: int, content: string, surveyId: int)

  datatype CompletedSurvey = CompletedSurvey(userId: string, name: string, timestamp: Timestamp, surveyId: int)

  /** One answer: the "tak" (yes) and "nie" (no) check boxes and an optional explanation. */
  datatype Answer = Answer(
    id: int,
    completedSurveyId: int,
    questionId: int,
    tak: bool,
    nie: bool,
    explanation: Option<string>)

  datatype Note = Note(content: string, timestamp: Timestamp, surveyId: int)

  datatype PageView = PageView(id: int, pageName: string, views: int, lastViewDate: Date)

  /**
   * The database. Tables whose row order the application observes (a survey's question
   * list, a submission's answers, the "first" page-view row) are sequences in primary-key
   * order; the others are maps keyed by primary key. Each table that gains rows has the
   * next primary key it hands out.
   */
  datatype Db = Db(
    surveys: map<int, Survey>,
    nextSurveyId: int,
    questions: seq<Question>,
    nextQuestionId: int,
    completed: map<int, CompletedSurvey>,
    nextCompletedId: int,
    answers: seq<Answer>,
    nextAnswerId: int,
    notes: map<int, Note>,
    pageViews: seq<PageView>,
    nextPageViewId: int)

  /**
   * What a handler did: finished, refused a non-admin, re-rendered an invalid form, or
   * raised. A handler that raises loses what it had not yet committed; what it committed
   * earlier stays.
   */
  datatype Outcome = Done | Denied | Rejected | Aborted

  /** A handler's outcome together with the database it leaves behind. */
  datatype Step = Step(outcome: Outcome, db: Db)

  /** The freshly created schema. */
  const EmptyDb: Db := Db(map[], 1, [], 1, map[], 1, [], 1, map[], [], 1)

  ghost predicate QuestionIdsIncrease(qs: seq<Question>) {
    forall i, j :: 0 <= i < j < |qs| ==> qs[i].id < qs[j].id
  }

  ghost predicate AnswerIdsIncrease(rows: seq<Answer>) {
    forall i, j :: 0 <= i < j < |rows| ==> rows[i].id < rows[j].id
  }

  ghost predicate PageViewIdsIncrease(rows: seq<PageView>) {
    forall i, j :: 0 <= i < j < |rows| ==> rows[i].id < rows[j].id
  }

  /** Primary keys are unique, listed in increasing order, and below the next key to hand out. */
  ghost predicate ValidDb(db: Db) {
    && (forall id :: id in db.surveys ==> id < db.nextSurveyId)
    && QuestionIdsIncrease(db.questions)
    && (forall q :: q in db.questions ==> q.id < db.nextQuestionId)
    && (forall id :: id in db.completed ==> id < db.nextCompletedId)
    && AnswerIdsIncrease(db.answers)
    && (forall a :: a in db.answers ==> a.id < db.nextAnswerId)
    && PageViewIdsIncrease(db.pageViews)
    && (forall p :: p in db.pageViews ==> p.id < db.nextPageViewId)
  }

  /** The characters Python's `str.strip()` removes. */
  predicate IsSpace(c: char) {
    var n := c as int;
    || 9 <= n <= 13 || 0x1c <= n <= 0x20 || n == 0x85 || n == 0xa0 || n == 0x1680
    || 0x2000 <= n <= 0x200a || n == 0x2028 || n == 0x2029 || n == 0x202f
    || n == 0x205f || n == 0x3000
  }

  /** A text field the `DataRequired` validator rejects: empty, or only white space. */
  predicate Blank(s: string) {
    forall i :: 0 <= i < |s| ==> IsSpace(s[i])
  }

  function Min(a: int, b: int): int {
    if a <= b then a else b
  }
}
