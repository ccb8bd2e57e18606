/**
 * The application's database session: one field per table and one method per request
 * handler. Each method changes the tables the way the handler does, step by step, and is
 * proved to leave exactly the database its effect function describes.
 */
module SurveyApp {
  import opened Wrappers
  import opened Schema
  import opened Queries
  import opened ViewCounter
  import opened Catalogue
  import opened Responses
  import opened Notes

  /**
   * Deletes the answers to question `qid` one row at a time (`for answer in
   * question.answers: db.session.delete(answer)`), keeping the other rows in order.
   */
  method DropAnswersTo(rows: seq<Answer>, qid: int) returns (kept: seq<Answer>)
    ensures kept == AnswersExcept(rows, {qid})
  {
    kept := [];
    var i := 0;
    while i < |rows|
      invariant 0 <= i <= |rows|
      invariant kept == AnswersExcept(rows[..i], {qid})
    {
      assert rows[..i + 1][..i] == rows[..i];
      if rows[i].questionId != qid {
        kept := kept + [rows[i]];
      }
      i := i + 1;
    }
    assert rows[..|rows|] == rows;
  }

  /**
   * `delete_survey`'s loop: for each question in `qs`, its answers and then the question,
   * on pending copies of the two tables.
   */
  method DropQuestions(answers: seq<Answer>, questions: seq<Question>, qs: seq<Question>)
    returns (keptAnswers: seq<Answer>, keptQuestions: seq<Question>)
    ensures keptAnswers == AnswersExcept(answers, IdsOf(qs))
    ensures keptQuestions == QuestionsExcept(questions, IdsOf(qs))
  {
    keptAnswers, keptQuestions := answers, questions;
    ExceptNone(answers, questions, qs);
    var i := 0;
    while i < |qs|
      invariant 0 <= i <= |qs|
      invariant keptAnswers == AnswersExcept(answers, IdsOf(qs[..i]))
      invariant keptQuestions == QuestionsExcept(questions, IdsOf(qs[..i]))
    {
      keptAnswers := DropAnswersTo(keptAnswers, qs[i].id);
      keptQuestions := QuestionsExcept(keptQuestions, {qs[i].id});
      ExceptOneMore(answers, questions, qs, i);
      i := i + 1;
    }
    assert qs[..|qs|] == qs;
  }

  /** `edit_survey`'s first loop: each question of survey `sid` takes its `question_<id>` value. */
  method RewriteQuestions(qs: seq<Question>, sid: int, contents: map<int, string>) returns (rows: seq<Question>)
    requires CoversQuestions(qs, sid, contents)
    ensures rows == Rewritten(qs, sid, contents)
  {
    rows := qs;
    var k := 0;
    while k < |rows|
      invariant 0 <= k <= |rows| == |qs|
      invariant forall j :: 0 <= j < k ==> rows[j] == Rewrite(qs[j], sid, contents)
      invariant forall j :: k <= j < |rows| ==> rows[j] == qs[j]
    {
      if rows[k].surveyId == sid {
        assert qs[k] in qs;
        rows := rows[k := rows[k].(content := contents[rows[k].id])];
      }
      k := k + 1;
    }
    RewrittenRows(qs, sid, contents);
  }

  /** `edit_survey`'s second loop: one new question per `question_new_*` value, numbered from `firstId`. */
  method AppendQuestions(rows: seq<Question>, firstId: int, sid: int, added: seq<string>)
    returns (extended: seq<Question>, next: int)
    ensures extended == rows + NewQuestions(firstId, sid, added)
    ensures next == firstId + |added|
  {
    extended, next := rows, firstId;
    var j := 0;
    while j < |added|
      invariant 0 <= j <= |added|
      invariant next == firstId + j
      invariant extended == rows + NewQuestions(firstId, sid, added[..j])
    {
      NewQuestionsRows(firstId, sid, added[..j + 1]);
      NewQuestionsRows(firstId, sid, added[..j]);
      assert NewQuestions(firstId, sid, added[..j + 1])
        == NewQuestions(firstId, sid, added[..j]) + [Question(next, added[j], sid)];
      extended := extended + [Question(next, added[j], sid)];
      next := next + 1;
      j := j + 1;
    }
    assert added[..|added|] == added;
  }

  /**
   * `edit_survey`'s third loop: for each `delete_<id>`, the question's answers and then the
   * question. `held` is the id the previous key deleted: the identity map still holds that
   * question until the next flush, so `Question.query.get` finds it again for a key that
   * repeats it. None when a key finds no question, which makes the handler raise.
   */
  method DeleteMarkedQuestions(pending: Db, ids: seq<int>) returns (r: Option<Db>)
    ensures r == DeleteMarked(pending, None, ids)
  {
    var session := pending;
    var held: Option<int> := None;
    var d := 0;
    while d < |ids|
      invariant 0 <= d <= |ids|
      invariant DeleteMarked(session, held, ids[d..]) == DeleteMarked(pending, None, ids)
    {
      var id := ids[d];
      assert ids[d..][0] == id && ids[d..][1..] == ids[d + 1..];
      var question := Lookup(session.questions, id);
      var kept := DropAnswersTo(session.answers, id);
      if question.None? && held != Some(id) {
        assert DeleteMarked(session, held, ids[d..]) == None;
        return None;
      }
      var next := session.(answers := kept, questions := QuestionsExcept(session.questions, {id}));
      assert DeleteMarked(session, held, ids[d..]) == DeleteMarked(next, Some(id), ids[d + 1..]);
      session, held := next, Some(id);
      d := d + 1;
    }
    assert ids[|ids|..] == [];
    r := Some(session);
  }

  /** `fill_survey`'s loop: one answer per pair that `zip` forms, numbered from `firstId`. */
  method AppendAnswers(rows: seq<Answer>, firstId: int, csId: int, qs: seq<Question>,
                       entries: seq<AnswerEntry>)
    returns (extended: seq<Answer>, next: int)
    ensures extended == rows + NewAnswers(firstId, csId, qs, entries)
    ensures next == firstId + Min(|qs|, |entries|)
  {
    ghost var added := NewAnswers(firstId, csId, qs, entries);
    NewAnswersPairs(firstId, csId, qs, entries);
    extended, next := rows, firstId;
    var i := 0;
    while i < |qs| && i < |entries|
      invariant 0 <= i <= |added|
      invariant extended == rows + added[..i]
      invariant next == firstId + i
    {
      var entry := entries[i];
      assert added[..i + 1] == added[..i] + [added[i]];
      extended := extended + [Answer(next, csId, qs[i].id, entry.tak, entry.nie, entry.explanation)];
      next := next + 1;
      i := i + 1;
    }
    assert added[..i] == added;
  }

  /** The admin check every admin-only handler makes first: a non-admin changes nothing. */
  lemma NonAdminChangesNothing(db: Db, role: string, sid: int, title: string, content: string,
                               qid: int, form: EditForm, noteId: int)
    requires role != Admin
    ensures CreateSurveyEffect(db, role, title) == Step(Denied, db)
    ensures AddQuestionEffect(db, role, sid, content) == Step(Denied, db)
    ensures DeleteSurveyEffect(db, role, sid) == Step(Denied, db)
    ensures DeleteQuestionEffect(db, role, qid) == Step(Denied, db)
    ensures EditSurveyEffect(db, role, sid, form) == Step(Denied, db)
    ensures DeleteNoteEffect(db, role, noteId) == Step(Denied, db)
  {
  }

  class Store {
    var surveys: map<int, Survey>
    var nextSurveyId: int
    var questions: seq<Question>
    var nextQuestionId: int
    var completed: map<int, CompletedSurvey>
    var nextCompletedId: int
    var answers: seq<Answer>
    var nextAnswerId: int
    var notes: map<int, Note>
    var pageViews: seq<PageView>
    var nextPageViewId: int

    /** The committed contents of all tables. */
    function Snapshot(): Db
      reads this
    {
      Db(surveys, nextSurveyId, questions, nextQuestionId, completed, nextCompletedId,
         answers, nextAnswerId, notes, pageViews, nextPageViewId)
    }

    ghost predicate Valid()
      reads this
    {
      ValidDb(Snapshot())
    }

    /** `create_tables`: a fresh, empty schema. */
    constructor ()
      ensures Valid() && Snapshot() == EmptyDb
    {
      surveys, nextSurveyId := map[], 1;
      questions, nextQuestionId := [], 1;
      completed, nextCompletedId := map[], 1;
      answers, nextAnswerId := [], 1;
      notes := map[];
      pageViews, nextPageViewId := [], 1;
    }

    /** `db.session.commit()` of a pending session: every table takes its pending contents. */
    method Commit(pending: Db)
      modifies this
      ensures Snapshot() == pending
    {
      surveys, nextSurveyId := pending.surveys, pending.nextSurveyId;
      questions, nextQuestionId := pending.questions, pending.nextQuestionId;
      completed, nextCompletedId := pending.completed, pending.nextCompletedId;
      answers, nextAnswerId := pending.answers, pending.nextAnswerId;
      notes := pending.notes;
      pageViews, nextPageViewId := pending.pageViews, pending.nextPageViewId;
    }

    /** `success`: records one visit of the success page on day `today`. */
    method RecordView(today: Date)
      requires Valid()
      modifies this
      ensures Valid()
      ensures Snapshot() == RecordViewEffect(old(Snapshot()), today)
    {
      ghost var before := Snapshot();
      ghost var after := RecordViewEffect(before, today);
      RecordViewKeepsValid(before, today);
      var first := FirstPage(pageViews, SuccessPage);
      match first
      case None =>
        pageViews := pageViews + [PageView(nextPageViewId, SuccessPage, 1, today)];
        nextPageViewId := nextPageViewId + 1;
        assert after == before.(pageViews := pageViews, nextPageViewId := nextPageViewId);
      case Some(i) =>
        var row := pageViews[i];
        if row.lastViewDate != today {
          row := row.(views := 1, lastViewDate := today);
        } else {
          row := row.(views := row.views + 1);
        }
        pageViews := pageViews[i := row];
        assert after == before.(pageViews := pageViews);
    }

    /** `create_survey`, POST: returns the new survey's id when it was created. */
    method CreateSurvey(role: string, title: string) returns (outcome: Outcome, id: int)
      requires Valid()
      modifies this
      ensures Valid()
      ensures Step(outcome, Snapshot()) == CreateSurveyEffect(old(Snapshot()), role, title)
      ensures outcome == Done ==> id == old(nextSurveyId) && id !in old(surveys) && surveys[id] == Survey(title)
    {
      CreateSurveyAdds(Snapshot(), role, title);
      id := 0;
      if role != Admin {
        return Denied, id;
      }
      if Blank(title) {
        return Rejected, id;
      }
      id := nextSurveyId;
      surveys := surveys[id := Survey(title)];
      nextSurveyId := nextSurveyId + 1;
      outcome := Done;
    }

    /** `add_question_to_survey`, POST. */
    method AddQuestion(role: string, sid: int, content: string) returns (outcome: Outcome)
      requires Valid()
      modifies this
      ensures Valid()
      ensures Step(outcome, Snapshot()) == AddQuestionEffect(old(Snapshot()), role, sid, content)
    {
      AddQuestionAppends(Snapshot(), role, sid, content);
      if role != Admin {
        return Denied;
      }
      if Blank(content) {
        return Rejected;
      }
      questions := questions + [Question(nextQuestionId, content, sid)];
      nextQuestionId := nextQuestionId + 1;
      outcome := Done;
    }

    /**
     * `delete_survey`: for each of the survey's questions, its answers and then the
     * question; then the survey, whose deletion fails when the survey has notes.
     */
    method DeleteSurvey(role: string, sid: int) returns (outcome: Outcome)
      requires Valid()
      modifies this
      ensures Valid()
      ensures Step(outcome, Snapshot()) == DeleteSurveyEffect(old(Snapshot()), role, sid)
    {
      ghost var before := Snapshot();
      if role != Admin {
        return Denied;
      }
      if sid !in surveys {
        return Aborted;
      }
      var keptAnswers, keptQuestions := DropQuestions(answers, questions, QuestionsOf(questions, sid));
      ghost var cleared := before.(answers := keptAnswers, questions := keptQuestions);
      DeleteSurveyKeepsValid(before, role, sid);
      // the commits inside the loop and after it
      answers, questions := keptAnswers, keptQuestions;
      assert Snapshot() == cleared;
      if SurveyHasNotes(notes, sid) {
        // the flush nulls the notes' survey_id, which is NOT NULL, and the last commit raises
        assert DeleteSurveyEffect(before, role, sid) == Step(Aborted, cleared);
        return Aborted;
      }
      assert DeleteSurveyEffect(before, role, sid) == Step(Done, cleared.(surveys := before.surveys - {sid}));
      surveys := surveys - {sid};
      outcome := Done;
    }

    /**
     * `delete_question`: deletes the question row; the commit fails when answers
     * reference it.
     */
    method DeleteQuestion(role: string, qid: int) returns (outcome: Outcome)
      requires Valid()
      modifies this
      ensures Valid()
      ensures Step(outcome, Snapshot()) == DeleteQuestionEffect(old(Snapshot()), role, qid)
    {
      DeleteQuestionRemovesOne(Snapshot(), role, qid);
      if role != Admin {
        return Denied;
      }
      var question := Lookup(questions, qid);
      if question.None? {
        // db.session.delete(None) raises; nothing was committed
        return Aborted;
      }
      if Answered(answers, qid) {
        // the flush nulls the answers' question_id, which is NOT NULL, and the commit raises
        return Aborted;
      }
      questions := QuestionsExcept(questions, {qid});
      outcome := Done;
    }

    /**
     * `edit_survey`, POST: rewrites the survey's questions, appends the new ones, then
     * deletes the marked ones with their answers, all in one pending session that is
     * committed at the end or, when a marked question is missing, discarded.
     */
    method EditSurvey(role: string, sid: int, form: EditForm) returns (outcome: Outcome)
      requires Valid()
      modifies this
      ensures Valid()
      ensures Step(outcome, Snapshot()) == EditSurveyEffect(old(Snapshot()), role, sid, form)
    {
      ghost var before := Snapshot();
      if role != Admin {
        return Denied;
      }
      if sid !in surveys {
        return Aborted;
      }
      if !CoversQuestions(questions, sid, form.contents) {
        // a question left without content fails the NOT NULL constraint when flushed
        return Aborted;
      }
      var rows := RewriteQuestions(questions, sid, form.contents);
      var next;
      rows, next := AppendQuestions(rows, nextQuestionId, sid, form.added);
      var extended := Snapshot().(questions := rows, nextQuestionId := next);
      assert extended == RewrittenAndExtended(before, sid, form);
      var pending := DeleteMarkedQuestions(extended, form.deleted);
      assert EditSurveyEffect(before, role, sid, form)
        == if pending.None? then Step(Aborted, before) else Step(Done, pending.value);
      EditSurveyKeepsValid(before, role, sid, form);
      if pending.None? {
        // db.session.delete(None) raises and the pending session is discarded
        return Aborted;
      }
      Commit(pending.value);
      outcome := Done;
    }

    /** `fill_survey`, POST: one completed survey and the answers `zip` pairs up. */
    method FillSurvey(userId: string, name: string, now: Timestamp, sid: int, entries: seq<AnswerEntry>)
      returns (outcome: Outcome)
      requires Valid()
      modifies this
      ensures Valid()
      ensures Step(outcome, Snapshot()) == FillSurveyEffect(old(Snapshot()), userId, name, now, sid, entries)
    {
      if Blank(name) {
        return if sid in surveys then Rejected else Aborted;
      }
      if sid !in surveys {
        return Aborted;
      }
      FillSurveyKeepsValid(Snapshot(), userId, name, now, sid, entries);
      var csId := nextCompletedId;
      var rows, next := AppendAnswers(answers, nextAnswerId, csId, QuestionsOf(questions, sid), entries);
      completed := completed[csId := CompletedSurvey(userId, name, now, sid)];
      nextCompletedId := csId + 1;
      answers, nextAnswerId := rows, next;
      outcome := Done;
    }

    /** `delete_note`: deletes the note if there is one with that id. */
    method DeleteNote(role: string, noteId: int) returns (outcome: Outcome)
      requires Valid()
      modifies this
      ensures Valid()
      ensures Step(outcome, Snapshot()) == DeleteNoteEffect(old(Snapshot()), role, noteId)
    {
      if role != Admin {
        return Denied;
      }
      if noteId in notes {
        notes := notes - {noteId};
      }
      outcome := Done;
    }
  }
}
