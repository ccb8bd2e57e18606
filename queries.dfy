/**
 * The ORM queries the handlers issue, as functions on tables: a survey's question list,
 * a lookup by primary key, the first row for a page name, and the tables left after
 * deleting rows. The filters are defined from the last row backwards, so that a loop
 * scanning a table from the front matches them one row at a time.
 */
module Queries {
  import opened Wrappers
  import opened Schema

  /** `survey.questions`: the questions whose survey_id is `sid`, in table order. */
  function QuestionsOf(qs: seq<Question>, sid: int): seq<Question>
  {
    if qs == [] then []
    else
      var init, last := qs[..|qs| - 1], qs[|qs| - 1];
      assert qs == init + [last];
      QuestionsOf(init, sid) + (if last.surveyId == sid then [last] else [])
  }

  /** The question table after deleting every question whose id is in `ids`. */
  function QuestionsExcept(qs: seq<Question>, ids: set<int>): seq<Question>
  {
    if qs == [] then []
    else
      var init, last := qs[..|qs| - 1], qs[|qs| - 1];
      assert qs == init + [last];
      QuestionsExcept(init, ids) + (if last.id !in ids then [last] else [])
  }

  /** The answer table after deleting every answer that references a question whose id is in `ids`. */
  function AnswersExcept(rows: seq<Answer>, ids: set<int>): seq<Answer>
  {
    if rows == [] then []
    else
      var init, last := rows[..|rows| - 1], rows[|rows| - 1];
      assert rows == init + [last];
      AnswersExcept(init, ids) + (if last.questionId !in ids then [last] else [])
  }

  /** The primary keys of some questions. */
  function IdsOf(qs: seq<Question>): set<int> {
    if qs == [] then {}
    else IdsOf(qs[..|qs| - 1]) + {qs[|qs| - 1].id}
  }

  /** A survey's question list holds exactly the questions of the table that belong to it. */
  lemma {:induction false} QuestionsOfMembers(qs: seq<Question>, sid: int)
    ensures forall q :: q in QuestionsOf(qs, sid) <==> q in qs && q.surveyId == sid
  {
    if qs != [] {
      var init, last := qs[..|qs| - 1], qs[|qs| - 1];
      assert qs == init + [last];
      QuestionsOfMembers(init, sid);
    }
  }

  /** Deleting questions keeps exactly the rows whose ids are not named. */
  lemma {:induction false} QuestionsExceptMembers(qs: seq<Question>, ids: set<int>)
    ensures forall q :: q in QuestionsExcept(qs, ids) <==> q in qs && q.id !in ids
  {
    if qs != [] {
      var init, last := qs[..|qs| - 1], qs[|qs| - 1];
      assert qs == init + [last];
      QuestionsExceptMembers(init, ids);
    }
  }

  /** Deleting the answers to some questions keeps exactly the answers to the other questions. */
  lemma {:induction false} AnswersExceptMembers(rows: seq<Answer>, ids: set<int>)
    ensures forall a :: a in AnswersExcept(rows, ids) <==> a in rows && a.questionId !in ids
  {
    if rows != [] {
      var init, last := rows[..|rows| - 1], rows[|rows| - 1];
      assert rows == init + [last];
      AnswersExceptMembers(init, ids);
    }
  }

  /** An id is among the keys of some questions exactly when one of them has it. */
  lemma {:induction false} IdsOfMembers(qs: seq<Question>)
    ensures forall q :: q in qs ==> q.id in IdsOf(qs)
    ensures forall id :: id in IdsOf(qs) ==> exists q :: q in qs && q.id == id
  {
    if qs != [] {
      var init, last := qs[..|qs| - 1], qs[|qs| - 1];
      assert qs == init + [last];
      IdsOfMembers(init);
      forall id | id in IdsOf(qs) ensures exists q :: q in qs && q.id == id {
        if id != last.id {
          var p :| p in init && p.id == id;
          assert p in qs;
        }
      }
    }
  }

  lemma IdsOfAppend(qs: seq<Question>, q: Question)
    ensures IdsOf(qs + [q]) == IdsOf(qs) + {q.id}
  {
    assert (qs + [q])[..|qs|] == qs;
  }

  /** Dropping the rows of the questions `qs[..i]` and then those of `qs[i]` drops the rows of `qs[..i + 1]`. */
  lemma ExceptOneMore(answers: seq<Answer>, questions: seq<Question>, qs: seq<Question>, i: nat)
    requires i < |qs|
    ensures AnswersExcept(AnswersExcept(answers, IdsOf(qs[..i])), {qs[i].id})
            == AnswersExcept(answers, IdsOf(qs[..i + 1]))
    ensures QuestionsExcept(QuestionsExcept(questions, IdsOf(qs[..i])), {qs[i].id})
            == QuestionsExcept(questions, IdsOf(qs[..i + 1]))
  {
    assert qs[..i + 1] == qs[..i] + [qs[i]];
    IdsOfAppend(qs[..i], qs[i]);
    AnswersExceptTwice(answers, IdsOf(qs[..i]), {qs[i].id});
    QuestionsExceptTwice(questions, IdsOf(qs[..i]), {qs[i].id});
  }

  /** Dropping the rows of no question keeps every row. */
  lemma ExceptNone(answers: seq<Answer>, questions: seq<Question>, qs: seq<Question>)
    ensures AnswersExcept(answers, IdsOf(qs[..0])) == answers
    ensures QuestionsExcept(questions, IdsOf(qs[..0])) == questions
  {
    assert qs[..0] == [];
    assert IdsOf(qs[..0]) == {};
    AnswersExceptNothing(answers);
    QuestionsExceptNothing(questions);
  }

  /** `Question.query.get(id)`: the question with that primary key, if there is one. */
  function Lookup(qs: seq<Question>, id: int): (r: Option<Question>)
    ensures r.Some? ==> r.value in qs && r.value.id == id
    ensures r.None? ==> forall q :: q in qs ==> q.id != id
  {
    if qs == [] then None
    else if qs[0].id == id then Some(qs[0])
    else Lookup(qs[1..], id)
  }

  /** `PageView.query.filter_by(page_name=name).first()`: the index of the first row for that page. */
  function FirstPage(rows: seq<PageView>, name: string): (r: Option<nat>)
    ensures r.Some? ==> r.value < |rows| && rows[r.value].pageName == name
    ensures r.Some? ==> forall j :: 0 <= j < r.value ==> rows[j].pageName != name
    ensures r.None? ==> forall j :: 0 <= j < |rows| ==> rows[j].pageName != name
  {
    if rows == [] then None
    else if rows[0].pageName == name then Some(0)
    else match FirstPage(rows[1..], name)
      case None => None
      case Some(i) => Some(i + 1)
  }

  /** Deleting questions keeps the remaining primary keys in increasing order. */
  lemma {:induction false} QuestionsExceptIncreasing(qs: seq<Question>, ids: set<int>)
    requires QuestionIdsIncrease(qs)
    ensures QuestionIdsIncrease(QuestionsExcept(qs, ids))
  {
    if qs != [] {
      var init, last := qs[..|qs| - 1], qs[|qs| - 1];
      QuestionsExceptIncreasing(init, ids);
      QuestionsExceptMembers(init, ids);
      var r0 := QuestionsExcept(init, ids);
      if last.id !in ids {
        forall i | 0 <= i < |r0| ensures r0[i].id < last.id {
          assert r0[i] in init;
        }
      }
    }
  }

  /** Deleting answers keeps the remaining primary keys in increasing order. */
  lemma {:induction false} AnswersExceptIncreasing(rows: seq<Answer>, ids: set<int>)
    requires AnswerIdsIncrease(rows)
    ensures AnswerIdsIncrease(AnswersExcept(rows, ids))
  {
    if rows != [] {
      var init, last := rows[..|rows| - 1], rows[|rows| - 1];
      AnswersExceptIncreasing(init, ids);
      AnswersExceptMembers(init, ids);
      var r0 := AnswersExcept(init, ids);
      if last.questionId !in ids {
        forall i | 0 <= i < |r0| ensures r0[i].id < last.id {
          assert r0[i] in init;
        }
      }
    }
  }

  /** Two question ids of a table with increasing ids are equal only for the same row. */
  lemma UniqueQuestionIds(qs: seq<Question>, p: Question, q: Question)
    requires QuestionIdsIncrease(qs)
    requires p in qs && q in qs && p.id == q.id
    ensures p == q
  {
    var i :| 0 <= i < |qs| && qs[i] == p;
    var j :| 0 <= j < |qs| && qs[j] == q;
    assert !(i < j) && !(j < i);
  }

  lemma {:induction false} QuestionsExceptNothing(qs: seq<Question>)
    ensures QuestionsExcept(qs, {}) == qs
  {
    if qs != [] {
      var init, last := qs[..|qs| - 1], qs[|qs| - 1];
      QuestionsExceptNothing(init);
      assert QuestionsExcept(qs, {}) == QuestionsExcept(init, {}) + [last];
      assert qs == init + [last];
    }
  }

  lemma {:induction false} AnswersExceptNothing(rows: seq<Answer>)
    ensures AnswersExcept(rows, {}) == rows
  {
    if rows != [] {
      var init, last := rows[..|rows| - 1], rows[|rows| - 1];
      AnswersExceptNothing(init);
      assert AnswersExcept(rows, {}) == AnswersExcept(init, {}) + [last];
      assert rows == init + [last];
    }
  }

  /** Deleting the questions of `a` and then those of `b` is deleting those of `a + b`. */
  lemma {:induction false} QuestionsExceptTwice(qs: seq<Question>, a: set<int>, b: set<int>)
    ensures QuestionsExcept(QuestionsExcept(qs, a), b) == QuestionsExcept(qs, a + b)
  {
    if qs != [] {
      var init, last := qs[..|qs| - 1], qs[|qs| - 1];
      QuestionsExceptTwice(init, a, b);
      var r0 := QuestionsExcept(init, a);
      if last.id !in a {
        assert QuestionsExcept(qs, a) == r0 + [last];
        assert (r0 + [last])[..|r0|] == r0;
      } else {
        assert QuestionsExcept(qs, a) == r0;
        assert QuestionsExcept(qs, a + b) == QuestionsExcept(init, a + b);
      }
    }
  }

  /** Deleting the answers to the questions of `a` and then to those of `b` is deleting those to `a + b`. */
  lemma {:induction false} AnswersExceptTwice(rows: seq<Answer>, a: set<int>, b: set<int>)
    ensures AnswersExcept(AnswersExcept(rows, a), b) == AnswersExcept(rows, a + b)
  {
    if rows != [] {
      var init, last := rows[..|rows| - 1], rows[|rows| - 1];
      AnswersExceptTwice(init, a, b);
      var r0 := AnswersExcept(init, a);
      if last.questionId !in a {
        assert AnswersExcept(rows, a) == r0 + [last];
        assert (r0 + [last])[..|r0|] == r0;
      } else {
        assert AnswersExcept(rows, a) == r0;
        assert AnswersExcept(rows, a + b) == AnswersExcept(init, a + b);
      }
    }
  }

  /** Deleting questions none of which belongs to survey `sid` leaves that survey's question list as it was. */
  lemma {:induction false} QuestionsOfAfterExcept(qs: seq<Question>, ids: set<int>, sid: int)
    requires forall q :: q in qs && q.surveyId == sid ==> q.id !in ids
    ensures QuestionsOf(QuestionsExcept(qs, ids), sid) == QuestionsOf(qs, sid)
  {
    if qs != [] {
      var init, last := qs[..|qs| - 1], qs[|qs| - 1];
      assert qs == init + [last];
      QuestionsOfAfterExcept(init, ids, sid);
      var r0 := QuestionsExcept(init, ids);
      if last.id !in ids {
        assert QuestionsExcept(qs, ids) == r0 + [last];
        assert (r0 + [last])[..|r0|] == r0;
        assert QuestionsOf(r0 + [last], sid) == QuestionsOf(r0, sid) + (if last.surveyId == sid then [last] else []);
      } else {
        assert last.surveyId != sid;
        assert QuestionsExcept(qs, ids) == r0;
        assert QuestionsOf(qs, sid) == QuestionsOf(init, sid);
      }
    }
  }

  /** A question added at the end of the table comes last in its survey's list and nowhere else. */
  lemma QuestionsOfAppend(qs: seq<Question>, q: Question, sid: int)
    ensures QuestionsOf(qs + [q], sid) == QuestionsOf(qs, sid) + (if q.surveyId == sid then [q] else [])
  {
    assert (qs + [q])[..|qs|] == qs;
  }
}
