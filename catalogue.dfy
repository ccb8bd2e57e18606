/**
 * The survey catalogue handlers (`create_survey`, `add_question_to_survey`,
 * `delete_survey`, `edit_survey`) as functions from the database before the request to
 * the outcome and the database after it, and the properties each of them has.
 */
module Catalogue {
  import opened Wrappers
  import opened Schema
  import opened Queries

  /** `create_survey`, POST: a new survey row with the next survey id. */
  function CreateSurveyEffect(db: Db, role: string, title: string): Step {
    if role != Admin then Step(Denied, db)
    else if Blank(title) then Step(Rejected, db)
    else Step(Done, db.(surveys := db.surveys[db.nextSurveyId := Survey(title)],
                        nextSurveyId := db.nextSurveyId + 1))
  }

  /**
   * `add_question_to_survey`, POST: a new question row at the end of the table. The
   * handler never checks that survey `sid` exists, so neither does this.
   */
  function AddQuestionEffect(db: Db, role: string, sid: int, content: string): Step {
    if role != Admin then Step(Denied, db)
    else if Blank(content) then Step(Rejected, db)
    else Step(Done, db.(questions := db.questions + [Question(db.nextQuestionId, content, sid)],
                        nextQuestionId := db.nextQuestionId + 1))
  }

  /** Some note belongs to survey `sid`. */
  predicate SurveyHasNotes(notes: map<int, Note>, sid: int) {
    exists id :: id in notes && notes[id].surveyId == sid
  }

  /** Some answer references question `qid`. */
  predicate Answered(answers: seq<Answer>, qid: int) {
    exists a :: a in answers && a.questionId == qid
  }

  /**
   * `delete_survey`: the answers to each of the survey's questions and the questions,
   * committed question by question, then the survey. A missing survey makes the handler
   * raise before anything is deleted. The relationship `Survey.notes` has no delete
   * cascade, so deleting a survey that has notes sets their non-nullable survey_id to
   * NULL and the last commit raises: the answers and questions are gone, the survey stays.
   * Notes and completed surveys are never deleted.
   */
  function DeleteSurveyEffect(db: Db, role: string, sid: int): Step {
    if role != Admin then Step(Denied, db)
    else if sid !in db.surveys then Step(Aborted, db)
    else
      var ids := IdsOf(QuestionsOf(db.questions, sid));
      var cleared := db.(answers := AnswersExcept(db.answers, ids),
                         questions := QuestionsExcept(db.questions, ids));
      if SurveyHasNotes(db.notes, sid) then Step(Aborted, cleared)
      else Step(Done, cleared.(surveys := db.surveys - {sid}))
  }

  /**
   * `delete_question`: deletes the question row. An unknown id makes the handler raise.
   * The backref `Question.answers` has no delete cascade, so deleting a question that has
   * answers sets their non-nullable question_id to NULL and the commit raises.
   */
  function DeleteQuestionEffect(db: Db, role: string, qid: int): Step {
    if role != Admin then Step(Denied, db)
    else if Lookup(db.questions, qid).None? then Step(Aborted, db)
    else if Answered(db.answers, qid) then Step(Aborted, db)
    else Step(Done, db.(questions := QuestionsExcept(db.questions, {qid})))
  }

  /**
   * The fields `edit_survey` reads from the submitted form: `question_<id>` values by id,
   * the `question_new_*` values and the ids of the `delete_<id>` keys, both in form order.
   */
  datatype EditForm = EditForm(contents: map<int, string>, added: seq<string>, deleted: seq<int>)

  /**
   * Every question of survey `sid` has a submitted `question_<id>` value. For a question
   * without one the handler stores None in the non-nullable `content` column, and the
   * flush that follows raises.
   */
  predicate CoversQuestions(qs: seq<Question>, sid: int, contents: map<int, string>) {
    forall q :: q in qs && q.surveyId == sid ==> q.id in contents
  }

  function Rewrite(q: Question, sid: int, contents: map<int, string>): Question
    requires q.surveyId == sid ==> q.id in contents
  {
    if q.surveyId == sid then q.(content := contents[q.id]) else q
  }

  /** First phase of `edit_survey`: each question of the survey takes its submitted content. */
  function Rewritten(qs: seq<Question>, sid: int, contents: map<int, string>): (r: seq<Question>)
    requires CoversQuestions(qs, sid, contents)
    ensures |r| == |qs|
  {
    if qs == [] then []
    else
      assert qs[0] in qs;
      assert forall q :: q in qs[1..] ==> q in qs;
      [Rewrite(qs[0], sid, contents)] + Rewritten(qs[1..], sid, contents)
  }

  /**
   * Second phase: one question of survey `sid` per `question_new_*` value, in form order,
   * numbered from `firstId`.
   */
  function NewQuestions(firstId: int, sid: int, contents: seq<string>): (r: seq<Question>)
    decreases |contents|
    ensures |r| == |contents|
  {
    if contents == [] then []
    else [Question(firstId, contents[0], sid)] + NewQuestions(firstId + 1, sid, contents[1..])
  }

  /** The first phase rewrites each row in place: the i-th row becomes the i-th row rewritten. */
  lemma {:induction false} RewrittenRows(qs: seq<Question>, sid: int, contents: map<int, string>)
    requires CoversQuestions(qs, sid, contents)
    ensures forall i :: 0 <= i < |qs| ==> Rewritten(qs, sid, contents)[i] == Rewrite(qs[i], sid, contents)
  {
    if qs != [] {
      assert forall q :: q in qs[1..] ==> q in qs;
      RewrittenRows(qs[1..], sid, contents);
    }
  }

  /** The i-th new question carries the i-th `question_new_*` value and id `firstId + i`. */
  lemma {:induction false} NewQuestionsRows(firstId: int, sid: int, contents: seq<string>)
    decreases |contents|
    ensures forall i :: 0 <= i < |contents| ==>
      NewQuestions(firstId, sid, contents)[i] == Question(firstId + i, contents[i], sid)
  {
    if contents != [] {
      NewQuestionsRows(firstId + 1, sid, contents[1..]);
    }
  }

  /**
   * Third phase: for each `delete_<id>` in turn, the answers to that question and the
   * question itself. `Question.query.get` answers from the session's identity map first.
   * The question deleted by the previous key, `prev`, is still held there, because nothing
   * has flushed since, so a key repeating the id just before it (`delete_5` right after
   * `delete_05`) finds it again. Any other id must name a question still in the table:
   * an earlier deletion has been flushed by then and left the identity map. An id that
   * finds nothing makes the handler raise, which rolls the whole edit back: None.
   */
  function DeleteMarked(db: Db, prev: Option<int>, ids: seq<int>): Option<Db>
    decreases |ids|
  {
    if ids == [] then Some(db)
    else if Lookup(db.questions, ids[0]).None? && prev != Some(ids[0]) then None
    else DeleteMarked(db.(answers := AnswersExcept(db.answers, {ids[0]}),
                          questions := QuestionsExcept(db.questions, {ids[0]})),
                      Some(ids[0]), ids[1..])
  }

  /** The database after the first two phases of `edit_survey`. */
  function RewrittenAndExtended(db: Db, sid: int, form: EditForm): Db
    requires CoversQuestions(db.questions, sid, form.contents)
  {
    db.(questions := Rewritten(db.questions, sid, form.contents)
                     + NewQuestions(db.nextQuestionId, sid, form.added),
        nextQuestionId := db.nextQuestionId + |form.added|)
  }

  /**
   * `edit_survey`, POST: the three phases in order, committed together. A missing survey,
   * a missing `question_<id>` value or a `delete_<id>` key that finds no question makes
   * the handler raise, and nothing is committed.
   */
  function EditSurveyEffect(db: Db, role: string, sid: int, form: EditForm): Step {
    if role != Admin then Step(Denied, db)
    else if sid !in db.surveys then Step(Aborted, db)
    else if !CoversQuestions(db.questions, sid, form.contents) then Step(Aborted, db)
    else var ext := RewrittenAndExtended(db, sid, form);
      match DeleteMarked(ext, None, form.deleted)
      case None => Step(Aborted, db)
      case Some(after) => Step(Done, after)
  }

  /** The ids named by some `delete_<id>` keys. */
  function SetOf(ids: seq<int>): (s: set<int>)
    ensures forall d :: d in s <==> d in ids
  {
    if ids == [] then {}
    else
      assert ids == [ids[0]] + ids[1..];
      {ids[0]} + SetOf(ids[1..])
  }

  // ---------------------------------------------------------------------------------------
  // Properties

  lemma CreateSurveyAdds(db: Db, role: string, title: string)
    requires ValidDb(db)
    ensures var r := CreateSurveyEffect(db, role, title);
      && ValidDb(r.db)
      && (r.outcome == Done <==> role == Admin && !Blank(title))
      && (r.outcome != Done ==> r.db == db)
      && (r.outcome == Done ==>
            && db.nextSurveyId !in db.surveys
            && r.db.surveys == db.surveys[db.nextSurveyId := Survey(title)]
            && |r.db.surveys| == |db.surveys| + 1
            && r.db.questions == db.questions && r.db.answers == db.answers
            && r.db.completed == db.completed && r.db.notes == db.notes
            && r.db.pageViews == db.pageViews)
  {
  }

  /** Adding a question appends it to its survey's question list and to no other list. */
  lemma AddQuestionAppends(db: Db, role: string, sid: int, content: string)
    requires ValidDb(db)
    ensures var r := AddQuestionEffect(db, role, sid, content);
      && ValidDb(r.db)
      && (r.outcome == Done <==> role == Admin && !Blank(content))
      && (r.outcome != Done ==> r.db == db)
      && (r.outcome == Done ==>
            && (forall q :: q in db.questions ==> q.id != db.nextQuestionId)
            && QuestionsOf(r.db.questions, sid) == QuestionsOf(db.questions, sid) + [Question(db.nextQuestionId, content, sid)]
            && (forall other :: other != sid ==> QuestionsOf(r.db.questions, other) == QuestionsOf(db.questions, other))
            && r.db.surveys == db.surveys && r.db.answers == db.answers
            && r.db.completed == db.completed && r.db.notes == db.notes
            && r.db.pageViews == db.pageViews)
  {
    var r := AddQuestionEffect(db, role, sid, content);
    if r.outcome == Done {
      var q := Question(db.nextQuestionId, content, sid);
      QuestionsOfAppend(db.questions, q, sid);
      forall other | other != sid
        ensures QuestionsOf(r.db.questions, other) == QuestionsOf(db.questions, other)
      {
        QuestionsOfAppend(db.questions, q, other);
      }
    }
  }

  /** Applies `add_question_to_survey` once per content, in order. */
  function AddQuestions(db: Db, sid: int, contents: seq<string>): Db
    decreases |contents|
  {
    if contents == [] then db
    else AddQuestions(AddQuestionEffect(db, Admin, sid, contents[0]).db, sid, contents[1..])
  }

  /**
   * Adding N questions to a survey one after the other and then reading the survey's
   * question list gives the old list followed by the N new questions, in the order they
   * were added, with consecutive fresh ids.
   */
  lemma {:induction false} AddQuestionsInOrder(db: Db, sid: int, contents: seq<string>)
    requires forall i :: 0 <= i < |contents| ==> !Blank(contents[i])
    decreases |contents|
    ensures QuestionsOf(AddQuestions(db, sid, contents).questions, sid)
      == QuestionsOf(db.questions, sid) + NewQuestions(db.nextQuestionId, sid, contents)
  {
    if contents != [] {
      var q := Question(db.nextQuestionId, contents[0], sid);
      var db1 := AddQuestionEffect(db, Admin, sid, contents[0]).db;
      var front, rest := QuestionsOf(db.questions, sid), NewQuestions(db.nextQuestionId + 1, sid, contents[1..]);
      assert db1 == db.(questions := db.questions + [q], nextQuestionId := db.nextQuestionId + 1);
      assert QuestionsOf(AddQuestions(db, sid, contents).questions, sid) == QuestionsOf(db1.questions, sid) + rest by {
        assert AddQuestions(db, sid, contents) == AddQuestions(db1, sid, contents[1..]);
        AddQuestionsInOrder(db1, sid, contents[1..]);
      }
      assert QuestionsOf(db1.questions, sid) == front + [q] by {
        QuestionsOfAppend(db.questions, q, sid);
      }
      assert NewQuestions(db.nextQuestionId, sid, contents) == [q] + rest;
      assert (front + [q]) + rest == front + ([q] + rest);
    }
  }

  /**
   * An admin's deletion of an existing survey removes all its questions and every answer
   * to them, and keeps every other survey's question list and every other answer; it
   * removes the survey too, and commits, exactly when the survey has no notes. Notes,
   * completed surveys and page views are never touched; a refusal or a missing survey
   * changes nothing.
   */
  lemma DeleteSurveyCascades(db: Db, role: string, sid: int)
    requires ValidDb(db)
    ensures var r := DeleteSurveyEffect(db, role, sid);
      && (r.outcome == Done <==> role == Admin && sid in db.surveys && !SurveyHasNotes(db.notes, sid))
      && (role != Admin || sid !in db.surveys ==> r.db == db)
      && (role == Admin && sid in db.surveys ==>
            && r.db.surveys == (if r.outcome == Done then db.surveys - {sid} else db.surveys)
            && (forall q :: q in r.db.questions ==> q.surveyId != sid)
            && (forall a, q :: a in r.db.answers && q in db.questions && q.surveyId == sid ==> a.questionId != q.id)
            && (forall other :: other != sid ==> QuestionsOf(r.db.questions, other) == QuestionsOf(db.questions, other))
            && (forall a :: a in r.db.answers <==> a in db.answers && a.questionId !in IdsOf(QuestionsOf(db.questions, sid)))
            && r.db.notes == db.notes && r.db.completed == db.completed
            && r.db.pageViews == db.pageViews)
  {
    var r := DeleteSurveyEffect(db, role, sid);
    if role == Admin && sid in db.surveys {
      var ids := IdsOf(QuestionsOf(db.questions, sid));
      QuestionsOfMembers(db.questions, sid);
      IdsOfMembers(QuestionsOf(db.questions, sid));
      QuestionsExceptMembers(db.questions, ids);
      AnswersExceptMembers(db.answers, ids);
      forall other | other != sid
        ensures QuestionsOf(r.db.questions, other) == QuestionsOf(db.questions, other)
      {
        forall q | q in db.questions && q.surveyId == other ensures q.id !in ids {
          if q.id in ids {
            var p :| p in QuestionsOf(db.questions, sid) && p.id == q.id;
            UniqueQuestionIds(db.questions, p, q);
          }
        }
        QuestionsOfAfterExcept(db.questions, ids, other);
      }
    }
  }

  /** Deleting a survey keeps the primary keys valid, whether or not the last commit fails. */
  lemma DeleteSurveyKeepsValid(db: Db, role: string, sid: int)
    requires ValidDb(db)
    ensures ValidDb(DeleteSurveyEffect(db, role, sid).db)
  {
    if role == Admin && sid in db.surveys {
      var ids := IdsOf(QuestionsOf(db.questions, sid));
      QuestionsExceptIncreasing(db.questions, ids);
      AnswersExceptIncreasing(db.answers, ids);
      QuestionsExceptMembers(db.questions, ids);
      AnswersExceptMembers(db.answers, ids);
    }
  }

  /**
   * Deleting a question commits exactly when an admin names an existing question that no
   * answer references; it then removes that one row, keeps the order of the others and
   * changes no other table. Otherwise nothing changes.
   */
  lemma DeleteQuestionRemovesOne(db: Db, role: string, qid: int)
    requires ValidDb(db)
    ensures var r := DeleteQuestionEffect(db, role, qid);
      && ValidDb(r.db)
      && (r.outcome == Done <==>
            role == Admin && (exists q :: q in db.questions && q.id == qid) && !Answered(db.answers, qid))
      && (r.outcome != Done ==> r.db == db)
      && (r.outcome == Done ==>
            && (forall q :: q in r.db.questions <==> q in db.questions && q.id != qid)
            && (forall a :: a in r.db.answers ==> a.questionId != qid)
            && r.db.(questions := db.questions) == db)
  {
    var r := DeleteQuestionEffect(db, role, qid);
    if role == Admin && Lookup(db.questions, qid).Some? {
      QuestionsExceptMembers(db.questions, {qid});
      QuestionsExceptIncreasing(db.questions, {qid});
    }
  }

  /** Deleting the marked questions one by one is deleting all of them and all answers to them. */
  lemma {:induction false} DeleteMarkedDeletes(db: Db, prev: Option<int>, ids: seq<int>)
    requires DeleteMarked(db, prev, ids).Some?
    decreases |ids|
    ensures DeleteMarked(db, prev, ids).value
      == db.(questions := QuestionsExcept(db.questions, SetOf(ids)),
             answers := AnswersExcept(db.answers, SetOf(ids)))
  {
    if ids == [] {
      assert SetOf(ids) == {};
      QuestionsExceptNothing(db.questions);
      AnswersExceptNothing(db.answers);
    } else {
      var next := db.(answers := AnswersExcept(db.answers, {ids[0]}),
                      questions := QuestionsExcept(db.questions, {ids[0]}));
      assert DeleteMarked(db, prev, ids) == DeleteMarked(next, Some(ids[0]), ids[1..]);
      DeleteMarkedDeletes(next, Some(ids[0]), ids[1..]);
      QuestionsExceptTwice(db.questions, {ids[0]}, SetOf(ids[1..]));
      AnswersExceptTwice(db.answers, {ids[0]}, SetOf(ids[1..]));
      var s1 := SetOf(ids[1..]);
      var q1 := QuestionsExcept(QuestionsExcept(db.questions, {ids[0]}), s1);
      var a1 := AnswersExcept(AnswersExcept(db.answers, {ids[0]}), s1);
      assert DeleteMarked(db, prev, ids).value == db.(questions := q1, answers := a1);
    }
  }

  /**
   * The `k`-th `delete_<id>` key finds its question: it repeats the key just before it, or
   * its id is new to the phase and names a question of `start`, the table the phase began with.
   */
  ghost predicate MarkFound(start: seq<Question>, ids: seq<int>, k: int)
    requires 0 <= k < |ids|
  {
    || (k > 0 && ids[k] == ids[k - 1])
    || (ids[k] !in ids[..k] && exists q :: q in start && q.id == ids[k])
  }

  /** Every `delete_<id>` key finds its question. */
  ghost predicate MarksFound(start: seq<Question>, ids: seq<int>) {
    forall k :: 0 <= k < |ids| ==> MarkFound(start, ids, k)
  }

  /**
   * After the first `j` keys of `all`, whose questions the table has lost and the last of
   * which the session still holds, key `j` finds a question exactly when `MarkFound` says so.
   */
  lemma NextMarkFound(start: seq<Question>, all: seq<int>, j: int, db: Db, prev: Option<int>)
    requires 0 <= j < |all|
    requires db.questions == QuestionsExcept(start, SetOf(all[..j]))
    requires prev == (if j == 0 then None else Some(all[j - 1]))
    ensures Lookup(db.questions, all[j]).Some? || prev == Some(all[j]) <==> MarkFound(start, all, j)
  {
    var x := all[j];
    QuestionsExceptMembers(start, SetOf(all[..j]));
    if Lookup(db.questions, x).Some? {
      assert Lookup(db.questions, x).value in start;
    }
    if x !in all[..j] && exists q :: q in start && q.id == x {
      var q :| q in start && q.id == x;
      assert q in db.questions;
    }
  }

  /** When key `j` finds its question, the keys from `j` on do exactly when those after it do. */
  lemma MarksFoundFrom(start: seq<Question>, all: seq<int>, j: int)
    requires 0 <= j < |all| && MarkFound(start, all, j)
    ensures (forall k :: j <= k < |all| ==> MarkFound(start, all, k))
        <==> (forall k :: j + 1 <= k < |all| ==> MarkFound(start, all, k))
  {
  }

  /**
   * The phase resumed at key `j` of `all`: the table has lost the questions of the keys
   * before it, and the session still holds the last one.
   */
  lemma {:induction false} DeleteMarkedResumes(start: seq<Question>, all: seq<int>, j: int,
                                               db: Db, prev: Option<int>)
    requires 0 <= j <= |all|
    requires db.questions == QuestionsExcept(start, SetOf(all[..j]))
    requires prev == (if j == 0 then None else Some(all[j - 1]))
    decreases |all| - j
    ensures DeleteMarked(db, prev, all[j..]).Some?
        <==> forall k :: j <= k < |all| ==> MarkFound(start, all, k)
  {
    if j < |all| {
      var x := all[j];
      assert all[j..][0] == x && all[j..][1..] == all[j + 1..];
      assert all[..j + 1] == all[..j] + [x];
      NextMarkFound(start, all, j, db, prev);
      if Lookup(db.questions, x).Some? || prev == Some(x) {
        var next := db.(answers := AnswersExcept(db.answers, {x}),
                        questions := QuestionsExcept(db.questions, {x}));
        assert DeleteMarked(db, prev, all[j..]) == DeleteMarked(next, Some(x), all[j + 1..]);
        QuestionsExceptTwice(start, SetOf(all[..j]), {x});
        assert SetOf(all[..j + 1]) == SetOf(all[..j]) + {x};
        DeleteMarkedResumes(start, all, j + 1, next, Some(x));
        MarksFoundFrom(start, all, j);
      }
    }
  }

  /**
   * The third phase finds every marked question exactly when each key repeats the key just
   * before it, or brings a new id that names a question of the table the phase began with.
   */
  lemma DeleteMarkedSucceeds(db: Db, ids: seq<int>)
    ensures DeleteMarked(db, None, ids).Some? <==> MarksFound(db.questions, ids)
  {
    assert SetOf(ids[..0]) == {};
    QuestionsExceptNothing(db.questions);
    DeleteMarkedResumes(db.questions, ids, 0, db, None);
    assert ids[0..] == ids;
  }

  /** After the first two phases the table has the old ids and the new ones, and no others. */
  lemma ExtendedIds(db: Db, sid: int, form: EditForm, y: int)
    requires CoversQuestions(db.questions, sid, form.contents)
    ensures (exists q :: q in RewrittenAndExtended(db, sid, form).questions && q.id == y)
        <==> (exists q :: q in db.questions && q.id == y)
             || db.nextQuestionId <= y < db.nextQuestionId + |form.added|
  {
    var rows, n := RewrittenAndExtended(db, sid, form).questions, |db.questions|;
    ExtendedRowIds(db, sid, form);
    if exists q :: q in rows && q.id == y {
      var q :| q in rows && q.id == y;
      var k :| 0 <= k < |rows| && rows[k] == q;
      if k < n {
        assert db.questions[k] in db.questions;
      }
    }
    if exists q :: q in db.questions && q.id == y {
      var q :| q in db.questions && q.id == y;
      var k :| 0 <= k < n && db.questions[k] == q;
      assert rows[k] in rows;
    }
    if db.nextQuestionId <= y < db.nextQuestionId + |form.added| {
      assert rows[n + (y - db.nextQuestionId)] in rows;
    }
  }


  /**
   * The `k`-th `delete_<id>` key of an edit finds its question: it repeats the key just
   * before it, or brings a new id naming an existing question or one the edit appends.
   */
  ghost predicate EditMarkFound(db: Db, form: EditForm, k: int)
    requires 0 <= k < |form.deleted|
  {
    var d := form.deleted;
    || (k > 0 && d[k] == d[k - 1])
    || (&& d[k] !in d[..k]
        && ((exists q :: q in db.questions && q.id == d[k])
            || db.nextQuestionId <= d[k] < db.nextQuestionId + |form.added|))
  }

  /**
   * An edit commits exactly when an admin edits an existing survey, every question of it
   * has a submitted content, and every `delete_<id>` key finds its question.
   */
  lemma EditSurveyCommits(db: Db, role: string, sid: int, form: EditForm)
    ensures EditSurveyEffect(db, role, sid, form).outcome == Done <==>
      && role == Admin && sid in db.surveys && CoversQuestions(db.questions, sid, form.contents)
      && (forall k :: 0 <= k < |form.deleted| ==> EditMarkFound(db, form, k))
  {
    if role == Admin && sid in db.surveys && CoversQuestions(db.questions, sid, form.contents) {
      var ext := RewrittenAndExtended(db, sid, form);
      DeleteMarkedSucceeds(ext, form.deleted);
      forall k | 0 <= k < |form.deleted|
        ensures MarkFound(ext.questions, form.deleted, k) <==> EditMarkFound(db, form, k)
      {
        ExtendedIds(db, sid, form, form.deleted[k]);
      }
    }
  }

  /** After the first two phases, row `k` keeps the id of old row `k`, or takes the `k - n`-th new id. */
  lemma ExtendedRowIds(db: Db, sid: int, form: EditForm)
    requires CoversQuestions(db.questions, sid, form.contents)
    ensures var qs, n := RewrittenAndExtended(db, sid, form).questions, |db.questions|;
      && |qs| == n + |form.added|
      && (forall k :: 0 <= k < n ==> qs[k].id == db.questions[k].id)
      && (forall k :: n <= k < |qs| ==> qs[k].id == db.nextQuestionId + (k - n))
  {
    RewrittenRows(db.questions, sid, form.contents);
    NewQuestionsRows(db.nextQuestionId, sid, form.added);
  }

  /** The first two phases keep primary keys unique, increasing and below the counter. */
  lemma RewrittenAndExtendedValid(db: Db, sid: int, form: EditForm)
    requires ValidDb(db) && CoversQuestions(db.questions, sid, form.contents)
    ensures ValidDb(RewrittenAndExtended(db, sid, form))
  {
    var qs, n := RewrittenAndExtended(db, sid, form).questions, |db.questions|;
    ExtendedRowIds(db, sid, form);
    assert QuestionIdsIncrease(qs) by {
      forall i, j | 0 <= i < j < |qs| ensures qs[i].id < qs[j].id {
        if i < n {
          assert db.questions[i] in db.questions;
        }
      }
    }
    forall q | q in qs ensures q.id < db.nextQuestionId + |form.added| {
      var k :| 0 <= k < |qs| && qs[k] == q;
      if k < n {
        assert db.questions[k] in db.questions;
      }
    }
  }

  /** A successful edit is the first two phases followed by deleting every marked question and its answers. */
  lemma EditSurveyDone(db: Db, role: string, sid: int, form: EditForm)
    requires EditSurveyEffect(db, role, sid, form).outcome == Done
    ensures role == Admin && sid in db.surveys && CoversQuestions(db.questions, sid, form.contents)
    ensures var ext := RewrittenAndExtended(db, sid, form);
      EditSurveyEffect(db, role, sid, form).db
        == ext.(questions := QuestionsExcept(ext.questions, SetOf(form.deleted)),
                answers := AnswersExcept(db.answers, SetOf(form.deleted)))
  {
    var ext := RewrittenAndExtended(db, sid, form);
    DeleteMarkedDeletes(ext, None, form.deleted);
  }

  /** A refused or failed edit changes nothing; every edit keeps the keys valid. */
  lemma EditSurveyKeepsValid(db: Db, role: string, sid: int, form: EditForm)
    requires ValidDb(db)
    ensures var r := EditSurveyEffect(db, role, sid, form);
      && ValidDb(r.db)
      && (role != Admin ==> r.outcome == Denied)
      && (role == Admin && sid !in db.surveys ==> r.outcome == Aborted)
      && (role == Admin && !CoversQuestions(db.questions, sid, form.contents) ==> r.outcome == Aborted)
      && (r.outcome != Done ==> r.db == db)
  {
    if EditSurveyEffect(db, role, sid, form).outcome == Done {
      EditSurveyDone(db, role, sid, form);
      var ext := RewrittenAndExtended(db, sid, form);
      RewrittenAndExtendedValid(db, sid, form);
      QuestionsExceptIncreasing(ext.questions, SetOf(form.deleted));
      AnswersExceptIncreasing(ext.answers, SetOf(form.deleted));
      QuestionsExceptMembers(ext.questions, SetOf(form.deleted));
      AnswersExceptMembers(ext.answers, SetOf(form.deleted));
    }
  }

  /** A row of the first two phases with an id below `firstId` is an old row, rewritten when it belongs to `sid`. */
  lemma OldRowRewritten(qs: seq<Question>, sid: int, contents: map<int, string>, firstId: int,
                        added: seq<string>, q: Question)
    requires CoversQuestions(qs, sid, contents)
    requires q in Rewritten(qs, sid, contents) + NewQuestions(firstId, sid, added)
    requires q.surveyId == sid && q.id < firstId
    ensures q.id in contents && q.content == contents[q.id]
  {
    var rows := Rewritten(qs, sid, contents) + NewQuestions(firstId, sid, added);
    RewrittenRows(qs, sid, contents);
    NewQuestionsRows(firstId, sid, added);
    var k :| 0 <= k < |rows| && rows[k] == q;
    assert k < |qs|;
    assert qs[k] in qs;
  }

  /**
   * First phase: after a successful edit every question of the survey that existed
   * before carries its submitted content, whether or not it survives the third phase.
   */
  lemma EditSurveyRewrites(db: Db, role: string, sid: int, form: EditForm)
    ensures var r := EditSurveyEffect(db, role, sid, form);
      r.outcome == Done ==>
        && (forall q :: q in r.db.questions && q.surveyId == sid && q.id < db.nextQuestionId ==>
              q.id in form.contents && q.content == form.contents[q.id])
        && (forall q :: q in db.questions && q.surveyId == sid && q.id !in SetOf(form.deleted) ==>
              q.(content := form.contents[q.id]) in r.db.questions)
  {
    var r := EditSurveyEffect(db, role, sid, form);
    if r.outcome == Done {
      EditSurveyDone(db, role, sid, form);
      var rewritten := Rewritten(db.questions, sid, form.contents);
      var ext := RewrittenAndExtended(db, sid, form);
      QuestionsExceptMembers(ext.questions, SetOf(form.deleted));
      forall q | q in r.db.questions && q.surveyId == sid && q.id < db.nextQuestionId
        ensures q.id in form.contents && q.content == form.contents[q.id]
      {
        OldRowRewritten(db.questions, sid, form.contents, db.nextQuestionId, form.added, q);
      }
      RewrittenRows(db.questions, sid, form.contents);
      forall q | q in db.questions && q.surveyId == sid && q.id !in SetOf(form.deleted)
        ensures q.(content := form.contents[q.id]) in r.db.questions
      {
        var k :| 0 <= k < |db.questions| && db.questions[k] == q;
        assert ext.questions[k] == rewritten[k];
      }
    }
  }

  /** Questions appended after any others survive a deletion that does not name their ids. */
  lemma AppendedSurvive(front: seq<Question>, firstId: int, sid: int, contents: seq<string>, ids: set<int>)
    ensures forall i :: 0 <= i < |contents| && firstId + i !in ids ==>
      Question(firstId + i, contents[i], sid) in QuestionsExcept(front + NewQuestions(firstId, sid, contents), ids)
  {
    var added := NewQuestions(firstId, sid, contents);
    var rows := front + added;
    NewQuestionsRows(firstId, sid, contents);
    QuestionsExceptMembers(rows, ids);
    forall i | 0 <= i < |contents| && firstId + i !in ids
      ensures Question(firstId + i, contents[i], sid) in QuestionsExcept(rows, ids)
    {
      assert rows[|front| + i] == added[i] == Question(firstId + i, contents[i], sid);
      assert rows[|front| + i] in rows;
    }
  }

  /** The questions the second phase appends survive the third unless a `delete_<id>` names them. */
  lemma AppendedSurviveEdit(db: Db, sid: int, form: EditForm, ids: set<int>)
    requires CoversQuestions(db.questions, sid, form.contents)
    ensures forall i :: 0 <= i < |form.added| && db.nextQuestionId + i !in ids ==>
      Question(db.nextQuestionId + i, form.added[i], sid)
        in QuestionsExcept(RewrittenAndExtended(db, sid, form).questions, ids)
  {
    var front := Rewritten(db.questions, sid, form.contents);
    assert RewrittenAndExtended(db, sid, form).questions
      == front + NewQuestions(db.nextQuestionId, sid, form.added);
    AppendedSurvive(front, db.nextQuestionId, sid, form.added, ids);
  }

  /**
   * Second phase: after a successful edit each `question_new_*` value is a question of
   * the survey with a fresh id, numbered in form order after every existing question,
   * unless a `delete_<id>` named that id.
   */
  lemma EditSurveyAppends(db: Db, role: string, sid: int, form: EditForm)
    ensures var r := EditSurveyEffect(db, role, sid, form);
      r.outcome == Done ==>
        && r.db.nextQuestionId == db.nextQuestionId + |form.added|
        && (forall i :: 0 <= i < |form.added| && db.nextQuestionId + i !in SetOf(form.deleted) ==>
              Question(db.nextQuestionId + i, form.added[i], sid) in r.db.questions)
  {
    var r := EditSurveyEffect(db, role, sid, form);
    if r.outcome == Done {
      EditSurveyDone(db, role, sid, form);
      AppendedSurviveEdit(db, sid, form, SetOf(form.deleted));
    }
  }

  /**
   * Third phase: after a successful edit no question with a `delete_<id>` id is left and
   * no answer references one, even if the question was also edited; every other answer,
   * every unmarked question of another survey and every other table is kept.
   */
  lemma EditSurveyDeletes(db: Db, role: string, sid: int, form: EditForm)
    ensures var r := EditSurveyEffect(db, role, sid, form);
      r.outcome == Done ==>
        && (forall q :: q in r.db.questions ==> q.id !in SetOf(form.deleted))
        && (forall a :: a in r.db.answers <==> a in db.answers && a.questionId !in SetOf(form.deleted))
        && (forall q :: q in db.questions && q.surveyId != sid && q.id !in SetOf(form.deleted) ==>
              q in r.db.questions)
        && r.db.surveys == db.surveys && r.db.completed == db.completed
        && r.db.notes == db.notes && r.db.pageViews == db.pageViews
  {
    var r := EditSurveyEffect(db, role, sid, form);
    if r.outcome == Done {
      EditSurveyDone(db, role, sid, form);
      var ext := RewrittenAndExtended(db, sid, form);
      QuestionsExceptMembers(ext.questions, SetOf(form.deleted));
      AnswersExceptMembers(db.answers, SetOf(form.deleted));
      RewrittenRows(db.questions, sid, form.contents);
      forall q | q in db.questions && q.surveyId != sid && q.id !in SetOf(form.deleted)
        ensures q in r.db.questions
      {
        var k :| 0 <= k < |db.questions| && db.questions[k] == q;
        assert ext.questions[k] == q;
      }
    }
  }
}
