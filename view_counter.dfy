/**
 * The daily view counter of the `success` page: the `success` handler records a visit,
 * `index` and `view_count` read the count back.
 */
module ViewCounter {
  import opened Wrappers
  import opened Schema
  import opened Queries

  /**
   * `success`: without a "success" row, a new row with one view and today's date;
   * otherwise the first such row restarts at one view on a new day and counts one more
   * view on the same day.
   */
  function RecordViewEffect(db: Db, today: Date): Db {
    match FirstPage(db.pageViews, SuccessPage)
    case None =>
      db.(pageViews := db.pageViews + [PageView(db.nextPageViewId, SuccessPage, 1, today)],
          nextPageViewId := db.nextPageViewId + 1)
    case Some(i) =>
      var row := db.pageViews[i];
      var row' := if row.lastViewDate != today then row.(views := 1, lastViewDate := today)
                  else row.(views := row.views + 1);
      db.(pageViews := db.pageViews[i := row'])
  }

  /** The count `index` shows and `view_count` returns: the first "success" row's views, or 0. */
  function ViewCount(rows: seq<PageView>): (n: int)
    ensures (forall j :: 0 <= j < |rows| ==> rows[j].pageName != SuccessPage) ==> n == 0
    ensures forall i :: 0 <= i < |rows| && rows[i].pageName == SuccessPage
                        && (forall j :: 0 <= j < i ==> rows[j].pageName != SuccessPage)
                        ==> n == rows[i].views
  {
    match FirstPage(rows, SuccessPage)
    case None => 0
    case Some(i) => rows[i].views
  }

  /** The first visit creates exactly one row, with one view and today's date. */
  lemma RecordViewFirstVisit(db: Db, today: Date)
    requires ValidDb(db)
    requires forall j :: 0 <= j < |db.pageViews| ==> db.pageViews[j].pageName != SuccessPage
    ensures var after := RecordViewEffect(db, today);
      && ValidDb(after)
      && after.pageViews == db.pageViews + [PageView(db.nextPageViewId, SuccessPage, 1, today)]
      && ViewCount(after.pageViews) == 1
      && after.(pageViews := db.pageViews, nextPageViewId := db.nextPageViewId) == db
  {
    var after := RecordViewEffect(db, today);
    assert after.pageViews[|db.pageViews|].pageName == SuccessPage;
  }

  /**
   * A later visit on the same day adds exactly one view to the first "success" row;
   * no other row, no other field of that row and no other table changes.
   */
  lemma RecordViewSameDay(db: Db, today: Date, i: nat)
    requires ValidDb(db)
    requires i < |db.pageViews| && db.pageViews[i].pageName == SuccessPage
    requires forall j :: 0 <= j < i ==> db.pageViews[j].pageName != SuccessPage
    requires db.pageViews[i].lastViewDate == today
    ensures var after := RecordViewEffect(db, today);
      && ValidDb(after)
      && after.pageViews == db.pageViews[i := db.pageViews[i].(views := db.pageViews[i].views + 1)]
      && ViewCount(after.pageViews) == ViewCount(db.pageViews) + 1
      && after.(pageViews := db.pageViews) == db
  {
    var after := RecordViewEffect(db, today);
    assert after.pageViews[i].pageName == SuccessPage;
  }

  /**
   * The first visit of a new day sets the first "success" row back to one view and
   * stamps it with today; no other row, no other field of that row and no other table changes.
   */
  lemma RecordViewNewDay(db: Db, today: Date, i: nat)
    requires ValidDb(db)
    requires i < |db.pageViews| && db.pageViews[i].pageName == SuccessPage
    requires forall j :: 0 <= j < i ==> db.pageViews[j].pageName != SuccessPage
    requires db.pageViews[i].lastViewDate != today
    ensures var after := RecordViewEffect(db, today);
      && ValidDb(after)
      && after.pageViews == db.pageViews[i := db.pageViews[i].(views := 1, lastViewDate := today)]
      && ViewCount(after.pageViews) == 1
      && after.(pageViews := db.pageViews) == db
  {
    var after := RecordViewEffect(db, today);
    assert after.pageViews[i].pageName == SuccessPage;
  }

  /** Every visit keeps the primary keys of the page-view table valid. */
  lemma RecordViewKeepsValid(db: Db, today: Date)
    requires ValidDb(db)
    ensures ValidDb(RecordViewEffect(db, today))
  {
    match FirstPage(db.pageViews, SuccessPage)
    case None =>
      RecordViewFirstVisit(db, today);
    case Some(i) =>
      if db.pageViews[i].lastViewDate != today {
        RecordViewNewDay(db, today, i);
      } else {
        RecordViewSameDay(db, today, i);
      }
  }
}
