/** The session list of the index page (app.py:92): the sessions dated today
    or later, in ascending date order. The database's ORDER BY is modelled as
    a stable insertion sort over the rows in table order. */
module Upcoming {
  import opened Records

  /** Ascending by date. */
  predicate SortedByDate(rows: seq<Session>)
  {
    forall i, j :: 0 <= i < j < |rows| ==> DateLe(rows[i].date, rows[j].date)
  }

  /** `filter(Session.date >= today)`, keeping table order. */
  function OnOrAfter(rows: seq<Session>, today: Date): (r: seq<Session>)
    ensures forall s :: s in r <==> s in rows && DateLe(today, s.date)
    ensures forall i :: 0 <= i < |r| ==> DateLe(today, r[i].date)
    ensures |r| <= |rows|
    ensures forall s :: multiset(r)[s] == if DateLe(today, s.date) then multiset(rows)[s] else 0
  {
    if |rows| == 0 then []
    else
      assert rows == [rows[0]] + rows[1..];
      if DateLe(today, rows[0].date) then [rows[0]] + OnOrAfter(rows[1..], today)
      else OnOrAfter(rows[1..], today)
  }

  /** Places `x` before the first row whose date is not earlier. */
  function Insert(x: Session, rows: seq<Session>): (r: seq<Session>)
    ensures multiset(r) == multiset(rows) + multiset{x}
  {
    if |rows| == 0 || DateLe(x.date, rows[0].date) then [x] + rows
    else
      assert rows == [rows[0]] + rows[1..];
      [rows[0]] + Insert(x, rows[1..])
  }

  /** `order_by(Session.date.asc())`. */
  function SortByDate(rows: seq<Session>): (r: seq<Session>)
    ensures multiset(r) == multiset(rows)
  {
    if |rows| == 0 then []
    else
      assert rows == [rows[0]] + rows[1..];
      Insert(rows[0], SortByDate(rows[1..]))
  }

  lemma {:induction false} InsertSorted(x: Session, rows: seq<Session>)
    requires SortedByDate(rows)
    ensures SortedByDate(Insert(x, rows))
    decreases |rows|
  {
    if |rows| == 0 || DateLe(x.date, rows[0].date) {
      var r := [x] + rows;
      forall i, j | 0 <= i < j < |r| ensures DateLe(r[i].date, r[j].date) {
        if i == 0 && j > 1 {
          DateLeTransitive(x.date, rows[0].date, rows[j - 1].date);
        }
      }
    } else {
      var rest := Insert(x, rows[1..]);
      InsertSorted(x, rows[1..]);
      forall s | s in rest ensures DateLe(rows[0].date, s.date) {
        assert s in multiset(rest);
        if s != x {
          assert s in rows[1..];
        }
      }
      var r := [rows[0]] + rest;
      forall i, j | 0 <= i < j < |r| ensures DateLe(r[i].date, r[j].date) {
        assert r[j] == rest[j - 1];
        if i > 0 {
          assert r[i] == rest[i - 1];
        }
      }
    }
  }

  /** The sort orders by date. */
  lemma {:induction false} SortByDateSorted(rows: seq<Session>)
    ensures SortedByDate(SortByDate(rows))
    decreases |rows|
  {
    if |rows| > 0 {
      SortByDateSorted(rows[1..]);
      InsertSorted(rows[0], SortByDate(rows[1..]));
    }
  }

  /** The sessions shown on the index page. */
  function UpcomingSessions(rows: seq<Session>, today: Date): (r: seq<Session>)
    ensures multiset(r) == multiset(OnOrAfter(rows, today))
  {
    SortByDate(OnOrAfter(rows, today))
  }

  /** The index page lists exactly the sessions dated today or later, each
      as often as it is stored, in ascending date order. */
  lemma UpcomingExactly(rows: seq<Session>, today: Date)
    ensures SortedByDate(UpcomingSessions(rows, today))
    ensures multiset(UpcomingSessions(rows, today)) == multiset(OnOrAfter(rows, today))
    ensures forall s :: s in UpcomingSessions(rows, today) <==> s in rows && DateLe(today, s.date)
  {
    var r := UpcomingSessions(rows, today);
    SortByDateSorted(OnOrAfter(rows, today));
    forall s ensures s in r <==> s in OnOrAfter(rows, today) {
      assert s in r <==> s in multiset(r);
    }
  }

  /** Sessions of yesterday, today and tomorrow, stored in any order, are
      listed as today's and then tomorrow's. */
  lemma YesterdayTodayTomorrow(rows: seq<Session>, past: Session, now: Session, next: Session, today: Date)
    requires multiset(rows) == multiset{past, now, next}
    requires DateLe(past.date, today) && past.date != today
    requires now.date == today
    requires DateLe(today, next.date) && next.date != today
    ensures UpcomingSessions(rows, today) == [now, next]
  {
    KeepsTodayAndTomorrow(rows, past, now, next, today);
    UpcomingExactly(rows, today);
    assert !DateLe(next.date, now.date);
    SortedPair(UpcomingSessions(rows, today), now, next);
  }

  lemma KeepsTodayAndTomorrow(rows: seq<Session>, past: Session, now: Session, next: Session, today: Date)
    requires multiset(rows) == multiset{past, now, next}
    requires !DateLe(today, past.date) && DateLe(today, now.date) && DateLe(today, next.date)
    ensures multiset(OnOrAfter(rows, today)) == multiset{now, next}
  {
    var kept := OnOrAfter(rows, today);
    forall s ensures multiset(kept)[s] == multiset{now, next}[s] {
      if s == past {
        assert s != now && s != next;
      }
    }
  }

  /** The only date-sorted arrangement of two sessions, the second dated
      strictly later, puts the earlier first. */
  lemma SortedPair(r: seq<Session>, first: Session, second: Session)
    requires SortedByDate(r) && multiset(r) == multiset{first, second}
    requires !DateLe(second.date, first.date)
    ensures r == [first, second]
  {
    assert |r| == |multiset(r)| == 2;
    assert r == [r[0], r[1]];
    assert multiset{r[0], r[1]} == multiset{first, second};
    assert DateLe(r[0].date, r[1].date);
    assert r[0] in multiset{first, second};
    assert r[0] == first;
    assert r[1] in multiset{first, second} - multiset{first};
  }
}
