/** The date-window filter that narrows all rows to the user's date range
    (dashboard/dashboard.py:124). Both bounds are compared against 00:00 of the
    chosen dates, so the end date only admits purchases at exactly midnight. */
module Window {
  import opened Orders

  /** A row is in the window when its purchase timestamp lies between 00:00 of the
      start date and 00:00 of the end date, both inclusive. A missing timestamp
      compares false against both bounds. */
  predicate InWindow(r: Row, startDay: int, endDay: int)
  {
    match r.purchasedAt
    case None => false
    case Some(t) => Midnight(startDay) <= t <= Midnight(endDay)
  }

  function Filter(rows: seq<Row>, startDay: int, endDay: int): (kept: seq<Row>)
    ensures |kept| <= |rows|
    ensures forall i :: 0 <= i < |kept| ==> kept[i] in rows && InWindow(kept[i], startDay, endDay)
    ensures forall r :: r in rows && InWindow(r, startDay, endDay) ==> r in kept
  {
    if rows == [] then []
    else (if InWindow(rows[0], startDay, endDay) then [rows[0]] else []) + Filter(rows[1..], startDay, endDay)
  }

  /** Every row the window keeps carries a purchase timestamp. */
  lemma FilteredArePurchased(rows: seq<Row>, startDay: int, endDay: int)
    ensures AllPurchased(Filter(rows, startDay, endDay))
  {
  }

  /** The filter keeps the input order: filtering a concatenation concatenates the
      filtered parts, and a single row is kept exactly when it is in the window. */
  lemma {:induction false} FilterConcat(a: seq<Row>, b: seq<Row>, startDay: int, endDay: int)
    ensures Filter(a + b, startDay, endDay) == Filter(a, startDay, endDay) + Filter(b, startDay, endDay)
  {
    if a != [] {
      assert (a + b)[1..] == a[1..] + b;
      FilterConcat(a[1..], b, startDay, endDay);
    } else {
      assert a + b == b;
    }
  }

  lemma FilterSingle(r: Row, startDay: int, endDay: int)
    ensures Filter([r], startDay, endDay) == if InWindow(r, startDay, endDay) then [r] else []
  {
    assert [r][1..] == [];
  }

  /** Each row is kept as many times as it occurs, or not at all. */
  lemma {:induction false} FilterMultiset(rows: seq<Row>, startDay: int, endDay: int, r: Row)
    ensures multiset(Filter(rows, startDay, endDay))[r] ==
            if InWindow(r, startDay, endDay) then multiset(rows)[r] else 0
  {
    if rows != [] {
      assert rows == [rows[0]] + rows[1..];
      FilterMultiset(rows[1..], startDay, endDay, r);
    }
  }

  lemma {:induction false} FilterIdempotent(rows: seq<Row>, startDay: int, endDay: int)
    ensures Filter(Filter(rows, startDay, endDay), startDay, endDay) == Filter(rows, startDay, endDay)
  {
    if rows != [] {
      var head := if InWindow(rows[0], startDay, endDay) then [rows[0]] else [];
      var rest := Filter(rows[1..], startDay, endDay);
      assert Filter(rows, startDay, endDay) == head + rest;
      FilterIdempotent(rows[1..], startDay, endDay);
      FilterConcat(head, rest, startDay, endDay);
      if head != [] {
        FilterSingle(rows[0], startDay, endDay);
      }
    }
  }

  /** In calendar days, a kept purchase falls on a day from the start date to the end
      date; on the end date itself only a purchase at exactly 00:00 is kept. */
  lemma WindowInDays(r: Row, startDay: int, endDay: int)
    requires r.purchasedAt.Some?
    ensures InWindow(r, startDay, endDay) ==> startDay <= DayOf(r.purchasedAt.value) <= endDay
    ensures DayOf(r.purchasedAt.value) == endDay ==>
              (InWindow(r, startDay, endDay) <==> r.purchasedAt.value == Midnight(endDay) && startDay <= endDay)
    ensures startDay <= DayOf(r.purchasedAt.value) < endDay ==> InWindow(r, startDay, endDay)
  {
  }

  /** A start date after the end date leaves nothing in the window. */
  lemma EmptyWhenReversed(rows: seq<Row>, startDay: int, endDay: int)
    requires endDay < startDay
    ensures Filter(rows, startDay, endDay) == []
  {
  }
}
