/**
 * Response submission: `fill_survey`, POST. One completed survey and one answer per pair
 * of the survey's questions and the submitted answer entries, matched by position.
 */
module Responses {
  import opened Wrappers
  import opened Schema
  import opened Queries

  /** One submitted answer entry: the two check boxes and the explanation field. */
  datatype AnswerEntry = AnswerEntry(tak: bool, nie: bool, explanation: Option<string>)

  /**
   * The answers of completed survey `csId`, one per pair that `zip` forms: the first
   * question with the first entry, and so on until either list runs out. The answers
   * are numbered from `firstId`.
   */
  function NewAnswers(firstId: int, csId: int, qs: seq<Question>, entries: seq<AnswerEntry>): (r: seq<Answer>)
    decreases |qs|
    ensures |r| == Min(|qs|, |entries|)
  {
    if qs == [] || entries == [] then []
    else
      [Answer(firstId, csId, qs[0].id, entries[0].tak, entries[0].nie, entries[0].explanation)]
        + NewAnswers(firstId + 1, csId, qs[1..], entries[1..])
  }

  /**
   * The i-th answer pairs the i-th question with the i-th entry, copies the entry's
   * fields unchanged and has id `firstId + i`.
   */
  lemma {:induction false} NewAnswersPairs(firstId: int, csId: int, qs: seq<Question>, entries: seq<AnswerEntry>)
    decreases |qs|
    ensures forall i :: 0 <= i < Min(|qs|, |entries|) ==>
      NewAnswers(firstId, csId, qs, entries)[i]
        == Answer(firstId + i, csId, qs[i].id, entries[i].tak, entries[i].nie, entries[i].explanation)
  {
    if qs != [] && entries != [] {
      NewAnswersPairs(firstId + 1, csId, qs[1..], entries[1..]);
    }
  }

  /**
   * `fill_survey`, POST, by any logged-in user. A blank name fails validation and the page
   * is shown again (which raises when the survey is missing); an unknown survey makes
   * the handler raise before the commit.
   */
  function FillSurveyEffect(db: Db, userId: string, name: string, now: Timestamp, sid: int,
                            entries: seq<AnswerEntry>): Step
  {
    if Blank(name) then Step(if sid in db.surveys then Rejected else Aborted, db)
    else if sid !in db.surveys then Step(Aborted, db)
    else
      var csId := db.nextCompletedId;
      var added := NewAnswers(db.nextAnswerId, csId, QuestionsOf(db.questions, sid), entries);
      Step(Done, db.(completed := db.completed[csId := CompletedSurvey(userId, name, now, sid)],
                     nextCompletedId := csId + 1,
                     answers := db.answers + added,
                     nextAnswerId := db.nextAnswerId + |added|))
  }

  /**
   * A submission adds exactly one completed survey and min(#questions, #entries) answers
   * after the existing ones; the i-th answer belongs to the new completed survey, refers
   * to the survey's i-th question and copies the i-th entry unchanged, so "tak" and "nie"
   * may both be set. Nothing else changes; a rejected or failed submission changes nothing.
   */
  lemma FillSurveyRecords(db: Db, userId: string, name: string, now: Timestamp, sid: int,
                          entries: seq<AnswerEntry>)
    requires ValidDb(db)
    ensures var r := FillSurveyEffect(db, userId, name, now, sid, entries);
      && (r.outcome == Done <==> !Blank(name) && sid in db.surveys)
      && (r.outcome != Done ==> r.db == db)
      && (r.outcome == Done ==>
            var qs, n, csId := QuestionsOf(db.questions, sid), |db.answers|, db.nextCompletedId;
            && csId !in db.completed
            && r.db.completed == db.completed[csId := CompletedSurvey(userId, name, now, sid)]
            && |r.db.completed| == |db.completed| + 1
            && |r.db.answers| == n + Min(|qs|, |entries|)
            && r.db.answers[..n] == db.answers
            && (forall i :: 0 <= i < Min(|qs|, |entries|) ==>
                  && r.db.answers[n + i].completedSurveyId == csId
                  && r.db.answers[n + i].questionId == qs[i].id
                  && r.db.answers[n + i].tak == entries[i].tak
                  && r.db.answers[n + i].nie == entries[i].nie
                  && r.db.answers[n + i].explanation == entries[i].explanation)
            && r.db.surveys == db.surveys && r.db.questions == db.questions
            && r.db.notes == db.notes && r.db.pageViews == db.pageViews)
  {
    var r := FillSurveyEffect(db, userId, name, now, sid, entries);
    if r.outcome == Done {
      var added := NewAnswers(db.nextAnswerId, db.nextCompletedId, QuestionsOf(db.questions, sid), entries);
      NewAnswersPairs(db.nextAnswerId, db.nextCompletedId, QuestionsOf(db.questions, sid), entries);
      assert r.db.answers == db.answers + added;
      assert r.db.answers[..|db.answers|] == db.answers;
      forall i | 0 <= i < |added| ensures r.db.answers[|db.answers| + i] == added[i] {
      }
    }
  }

  /** A submission keeps primary keys valid: the new answers get ids no existing answer has. */
  lemma FillSurveyKeepsValid(db: Db, userId: string, name: string, now: Timestamp, sid: int,
                             entries: seq<AnswerEntry>)
    requires ValidDb(db)
    ensures ValidDb(FillSurveyEffect(db, userId, name, now, sid, entries).db)
  {
    var r := FillSurveyEffect(db, userId, name, now, sid, entries);
    if r.outcome == Done {
      var added := NewAnswers(db.nextAnswerId, db.nextCompletedId, QuestionsOf(db.questions, sid), entries);
      NewAnswersPairs(db.nextAnswerId, db.nextCompletedId, QuestionsOf(db.questions, sid), entries);
      var rows := db.answers + added;
      assert r.db.answers == rows;
      forall i, j | 0 <= i < j < |rows| ensures rows[i].id < rows[j].id {
        if i < |db.answers| && j >= |db.answers| {
          assert db.answers[i] in db.answers;
        }
      }
      forall a | a in rows ensures a.id < db.nextAnswerId + |added| {
        var k :| 0 <= k < |rows| && rows[k] == a;
        if k < |db.answers| {
          assert db.answers[k] in db.answers;
        }
      }
    }
  }

  /** Both check boxes set in an entry end up both set in the stored answer: nothing makes them exclusive. */
  lemma FillSurveyKeepsBothFlags(db: Db, userId: string, name: string, now: Timestamp, sid: int,
                                 entries: seq<AnswerEntry>, i: nat)
    requires ValidDb(db) && !Blank(name) && sid in db.surveys
    requires i < |entries| && i < |QuestionsOf(db.questions, sid)|
    requires entries[i].tak && entries[i].nie
    ensures var r := FillSurveyEffect(db, userId, name, now, sid, entries);
      r.db.answers[|db.answers| + i].tak && r.db.answers[|db.answers| + i].nie
  {
    FillSurveyRecords(db, userId, name, now, sid, entries);
    assert i < Min(|QuestionsOf(db.questions, sid)|, |entries|);
  }
}
