/** Monthly order counts and monthly revenue, bucketed by the calendar month of the
    approval timestamp (dashboard/dashboard.py:25-43). The series runs over every
    calendar month from the first approval month present to the last one; a month
    without approvals gets a count of 0 or a revenue of 0. Rows without an approval
    timestamp fall in no bucket. */
module Monthly {
  import opened Orders

  /** The month index of a row's approval timestamp, if it has one. The dashboard
      buckets by `CalendarMonth`; every function here takes the bucketing as `monthOf`,
      and nothing proved here depends on which function it is. */
  function ApprovalMonth(r: Row, monthOf: int -> int): Option<int>
  {
    match r.approvedAt
    case None => None
    case Some(t) => Some(monthOf(t))
  }

  /** The number of rows that carry an approval timestamp. */
  function ApprovedCount(rows: seq<Row>): nat
  {
    if rows == [] then 0
    else (if rows[0].approvedAt.Some? then 1 else 0) + ApprovedCount(rows[1..])
  }

  /** The price sum of the rows that carry an approval timestamp. */
  function ApprovedRevenue(rows: seq<Row>): real
  {
    if rows == [] then 0.0
    else (if rows[0].approvedAt.Some? then rows[0].price else 0.0) + ApprovedRevenue(rows[1..])
  }

  /** Rows approved in months `lo..hi`, both inclusive: their number and their price sum. */
  function OrdersInMonths(rows: seq<Row>, monthOf: int -> int, lo: int, hi: int): nat
  {
    if rows == [] then 0
    else
      var m := ApprovalMonth(rows[0], monthOf);
      (if m.Some? && lo <= m.value <= hi then 1 else 0) + OrdersInMonths(rows[1..], monthOf, lo, hi)
  }

  function RevenueInMonths(rows: seq<Row>, monthOf: int -> int, lo: int, hi: int): real
  {
    if rows == [] then 0.0
    else
      var m := ApprovalMonth(rows[0], monthOf);
      (if m.Some? && lo <= m.value <= hi then rows[0].price else 0.0) + RevenueInMonths(rows[1..], monthOf, lo, hi)
  }

  function EarlierOf(a: Option<int>, b: Option<int>): Option<int>
  {
    match (a, b)
    case (None, _) => b
    case (_, None) => a
    case (Some(x), Some(y)) => Some(if x <= y then x else y)
  }

  function LaterOf(a: Option<int>, b: Option<int>): Option<int>
  {
    match (a, b)
    case (None, _) => b
    case (_, None) => a
    case (Some(x), Some(y)) => Some(if x >= y then x else y)
  }

  predicate AnyApproved(rows: seq<Row>)
  {
    exists i :: 0 <= i < |rows| && rows[i].approvedAt.Some?
  }

  /** The earliest approval month present, if any. */
  function FirstMonth(rows: seq<Row>, monthOf: int -> int): (first: Option<int>)
    ensures first.Some? <==> AnyApproved(rows)
    ensures first.Some? ==> exists i :: 0 <= i < |rows| && ApprovalMonth(rows[i], monthOf) == first
    ensures forall i :: 0 <= i < |rows| && ApprovalMonth(rows[i], monthOf).Some? ==>
              first.Some? && first.value <= ApprovalMonth(rows[i], monthOf).value
  {
    if rows == [] then None
    else
      var rest := FirstMonth(rows[1..], monthOf);
      assert forall i :: 1 <= i < |rows| ==> rows[i] == rows[1..][i - 1];
      assert AnyApproved(rows[1..]) ==> AnyApproved(rows) by {
        if AnyApproved(rows[1..]) {
          var i :| 0 <= i < |rows[1..]| && rows[1..][i].approvedAt.Some?;
          assert rows[i + 1] == rows[1..][i];
        }
      }
      assert rest.Some? ==> exists i :: 0 <= i < |rows| && ApprovalMonth(rows[i], monthOf) == rest by {
        if rest.Some? {
          var i :| 0 <= i < |rows[1..]| && ApprovalMonth(rows[1..][i], monthOf) == rest;
          assert rows[i + 1] == rows[1..][i];
        }
      }
      EarlierOf(ApprovalMonth(rows[0], monthOf), rest)
  }

  /** The latest approval month present, if any. */
  function LastMonth(rows: seq<Row>, monthOf: int -> int): (last: Option<int>)
    ensures last.Some? <==> AnyApproved(rows)
    ensures last.Some? ==> exists i :: 0 <= i < |rows| && ApprovalMonth(rows[i], monthOf) == last
    ensures forall i :: 0 <= i < |rows| && ApprovalMonth(rows[i], monthOf).Some? ==>
              last.Some? && ApprovalMonth(rows[i], monthOf).value <= last.value
  {
    if rows == [] then None
    else
      var rest := LastMonth(rows[1..], monthOf);
      assert forall i :: 1 <= i < |rows| ==> rows[i] == rows[1..][i - 1];
      assert AnyApproved(rows[1..]) ==> AnyApproved(rows) by {
        if AnyApproved(rows[1..]) {
          var i :| 0 <= i < |rows[1..]| && rows[1..][i].approvedAt.Some?;
          assert rows[i + 1] == rows[1..][i];
        }
      }
      assert rest.Some? ==> exists i :: 0 <= i < |rows| && ApprovalMonth(rows[i], monthOf) == rest by {
        if rest.Some? {
          var i :| 0 <= i < |rows[1..]| && ApprovalMonth(rows[1..][i], monthOf) == rest;
          assert rows[i + 1] == rows[1..][i];
        }
      }
      LaterOf(ApprovalMonth(rows[0], monthOf), rest)
  }

  // ---- the two series ----

  datatype MonthCount = MonthCount(month: Month, orders: nat)

  datatype MonthRevenue = MonthRevenue(month: Month, revenue: real)

  /** One bucket per month index `lo..hi`. */
  function OrderSeries(rows: seq<Row>, monthOf: int -> int, lo: int, hi: int): (series: seq<MonthCount>)
    ensures |series| == if lo <= hi then hi - lo + 1 else 0
    ensures forall i :: 0 <= i < |series| ==>
              ValidMonth(series[i].month) && MonthIndex(series[i].month) == lo + i
              && series[i].orders == OrdersInMonths(rows, monthOf, MonthIndex(series[i].month), MonthIndex(series[i].month))
    decreases hi - lo
  {
    if lo > hi then [] else [MonthCount(MonthFromIndex(lo), OrdersInMonths(rows, monthOf, lo, lo))] + OrderSeries(rows, monthOf, lo + 1, hi)
  }

  function RevenueSeries(rows: seq<Row>, monthOf: int -> int, lo: int, hi: int): (series: seq<MonthRevenue>)
    ensures |series| == if lo <= hi then hi - lo + 1 else 0
    ensures forall i :: 0 <= i < |series| ==>
              ValidMonth(series[i].month) && MonthIndex(series[i].month) == lo + i
              && series[i].revenue == RevenueInMonths(rows, monthOf, MonthIndex(series[i].month), MonthIndex(series[i].month))
    decreases hi - lo
  {
    if lo > hi then [] else [MonthRevenue(MonthFromIndex(lo), RevenueInMonths(rows, monthOf, lo, lo))] + RevenueSeries(rows, monthOf, lo + 1, hi)
  }

  function TotalOrders(series: seq<MonthCount>): nat
  {
    if series == [] then 0 else series[0].orders + TotalOrders(series[1..])
  }

  function TotalRevenue(series: seq<MonthRevenue>): real
  {
    if series == [] then 0.0 else series[0].revenue + TotalRevenue(series[1..])
  }

  /** `create_monthly_orders_df`: consecutive months from the first approval month to
      the last, each with the number of rows approved in it; the counts add up to the
      number of approved rows. */
  function MonthlyOrders(rows: seq<Row>, monthOf: int -> int): (series: seq<MonthCount>)
    ensures series == [] <==> !AnyApproved(rows)
    ensures series != [] ==>
              |series| == LastMonth(rows, monthOf).value - FirstMonth(rows, monthOf).value + 1
    ensures forall i :: 0 <= i < |series| ==>
              ValidMonth(series[i].month) && MonthIndex(series[i].month) == FirstMonth(rows, monthOf).value + i &&
              series[i].orders == OrdersInMonths(rows, monthOf, MonthIndex(series[i].month), MonthIndex(series[i].month))
    ensures TotalOrders(series) == ApprovedCount(rows)
  {
    if !AnyApproved(rows) then
      ApprovedCountNone(rows);
      []
    else
      OrderSeriesCovers(rows, monthOf);
      OrderSeries(rows, monthOf, FirstMonth(rows, monthOf).value, LastMonth(rows, monthOf).value)
  }

  lemma OrderSeriesCovers(rows: seq<Row>, monthOf: int -> int)
    requires AnyApproved(rows)
    ensures FirstMonth(rows, monthOf).value <= LastMonth(rows, monthOf).value
    ensures TotalOrders(OrderSeries(rows, monthOf, FirstMonth(rows, monthOf).value, LastMonth(rows, monthOf).value))
            == ApprovedCount(rows)
  {
    var lo, hi := FirstMonth(rows, monthOf).value, LastMonth(rows, monthOf).value;
    FirstNotAfterLast(rows, monthOf);
    OrderSeriesTotal(rows, monthOf, lo, hi);
    AllInRangeOrders(rows, monthOf, lo, hi);
  }

  /** `create_monthly_revenue_df`: the same months, each with the price sum of the rows
      approved in it; the revenues add up to the price sum of the approved rows. */
  function MonthlyRevenue(rows: seq<Row>, monthOf: int -> int): (series: seq<MonthRevenue>)
    ensures series == [] <==> !AnyApproved(rows)
    ensures series != [] ==>
              |series| == LastMonth(rows, monthOf).value - FirstMonth(rows, monthOf).value + 1
    ensures forall i :: 0 <= i < |series| ==>
              ValidMonth(series[i].month) && MonthIndex(series[i].month) == FirstMonth(rows, monthOf).value + i &&
              series[i].revenue == RevenueInMonths(rows, monthOf, MonthIndex(series[i].month), MonthIndex(series[i].month))
    ensures TotalRevenue(series) == ApprovedRevenue(rows)
  {
    if !AnyApproved(rows) then
      ApprovedRevenueNone(rows);
      []
    else
      RevenueSeriesCovers(rows, monthOf);
      RevenueSeries(rows, monthOf, FirstMonth(rows, monthOf).value, LastMonth(rows, monthOf).value)
  }

  lemma RevenueSeriesCovers(rows: seq<Row>, monthOf: int -> int)
    requires AnyApproved(rows)
    ensures FirstMonth(rows, monthOf).value <= LastMonth(rows, monthOf).value
    ensures TotalRevenue(RevenueSeries(rows, monthOf, FirstMonth(rows, monthOf).value, LastMonth(rows, monthOf).value))
            == ApprovedRevenue(rows)
  {
    var lo, hi := FirstMonth(rows, monthOf).value, LastMonth(rows, monthOf).value;
    FirstNotAfterLast(rows, monthOf);
    RevenueSeriesTotal(rows, monthOf, lo, hi);
    AllInRangeRevenue(rows, monthOf, lo, hi);
  }

  lemma FirstNotAfterLast(rows: seq<Row>, monthOf: int -> int)
    requires AnyApproved(rows)
    ensures FirstMonth(rows, monthOf).value <= LastMonth(rows, monthOf).value
  {
    var i :| 0 <= i < |rows| && ApprovalMonth(rows[i], monthOf) == FirstMonth(rows, monthOf);
  }

  // ---- partition lemmas ----

  /** Splitting off the first month of a range splits the count. */
  lemma {:induction false} OrdersSplit(rows: seq<Row>, monthOf: int -> int, lo: int, hi: int)
    requires lo <= hi
    ensures OrdersInMonths(rows, monthOf, lo, hi) == OrdersInMonths(rows, monthOf, lo, lo) + OrdersInMonths(rows, monthOf, lo + 1, hi)
  {
    if rows != [] {
      OrdersSplit(rows[1..], monthOf, lo, hi);
    }
  }

  lemma {:induction false} RevenueSplit(rows: seq<Row>, monthOf: int -> int, lo: int, hi: int)
    requires lo <= hi
    ensures RevenueInMonths(rows, monthOf, lo, hi) == RevenueInMonths(rows, monthOf, lo, lo) + RevenueInMonths(rows, monthOf, lo + 1, hi)
  {
    if rows != [] {
      RevenueSplit(rows[1..], monthOf, lo, hi);
    }
  }

  lemma {:induction false} OrdersEmptyRange(rows: seq<Row>, monthOf: int -> int, lo: int, hi: int)
    requires hi < lo
    ensures OrdersInMonths(rows, monthOf, lo, hi) == 0
  {
    if rows != [] {
      OrdersEmptyRange(rows[1..], monthOf, lo, hi);
    }
  }

  lemma {:induction false} RevenueEmptyRange(rows: seq<Row>, monthOf: int -> int, lo: int, hi: int)
    requires hi < lo
    ensures RevenueInMonths(rows, monthOf, lo, hi) == 0.0
  {
    if rows != [] {
      RevenueEmptyRange(rows[1..], monthOf, lo, hi);
    }
  }

  /** The buckets of a range together hold the rows approved in that range. */
  lemma {:induction false} OrderSeriesTotal(rows: seq<Row>, monthOf: int -> int, lo: int, hi: int)
    ensures TotalOrders(OrderSeries(rows, monthOf, lo, hi)) == OrdersInMonths(rows, monthOf, lo, hi)
    decreases hi - lo
  {
    if lo > hi {
      OrdersEmptyRange(rows, monthOf, lo, hi);
    } else {
      var series := OrderSeries(rows, monthOf, lo, hi);
      assert series[1..] == OrderSeries(rows, monthOf, lo + 1, hi);
      OrderSeriesTotal(rows, monthOf, lo + 1, hi);
      OrdersSplit(rows, monthOf, lo, hi);
    }
  }

  lemma {:induction false} RevenueSeriesTotal(rows: seq<Row>, monthOf: int -> int, lo: int, hi: int)
    ensures TotalRevenue(RevenueSeries(rows, monthOf, lo, hi)) == RevenueInMonths(rows, monthOf, lo, hi)
    decreases hi - lo
  {
    if lo > hi {
      RevenueEmptyRange(rows, monthOf, lo, hi);
    } else {
      var series := RevenueSeries(rows, monthOf, lo, hi);
      assert series[1..] == RevenueSeries(rows, monthOf, lo + 1, hi);
      RevenueSeriesTotal(rows, monthOf, lo + 1, hi);
      RevenueSplit(rows, monthOf, lo, hi);
    }
  }

  /** When the range covers every approval month, it holds every approved row. */
  lemma {:induction false} AllInRangeOrders(rows: seq<Row>, monthOf: int -> int, lo: int, hi: int)
    requires forall i :: 0 <= i < |rows| && ApprovalMonth(rows[i], monthOf).Some? ==> lo <= ApprovalMonth(rows[i], monthOf).value <= hi
    ensures OrdersInMonths(rows, monthOf, lo, hi) == ApprovedCount(rows)
  {
    if rows != [] {
      assert forall i :: 1 <= i < |rows| ==> rows[i] == rows[1..][i - 1];
      AllInRangeOrders(rows[1..], monthOf, lo, hi);
    }
  }

  lemma {:induction false} AllInRangeRevenue(rows: seq<Row>, monthOf: int -> int, lo: int, hi: int)
    requires forall i :: 0 <= i < |rows| && ApprovalMonth(rows[i], monthOf).Some? ==> lo <= ApprovalMonth(rows[i], monthOf).value <= hi
    ensures RevenueInMonths(rows, monthOf, lo, hi) == ApprovedRevenue(rows)
  {
    if rows != [] {
      assert forall i :: 1 <= i < |rows| ==> rows[i] == rows[1..][i - 1];
      AllInRangeRevenue(rows[1..], monthOf, lo, hi);
    }
  }

  lemma {:induction false} ApprovedCountNone(rows: seq<Row>)
    requires !AnyApproved(rows)
    ensures ApprovedCount(rows) == 0
  {
    if rows != [] {
      assert !AnyApproved(rows[1..]) by {
        forall i | 0 <= i < |rows[1..]| ensures rows[1..][i].approvedAt.None? {
          assert rows[1..][i] == rows[i + 1];
        }
      }
      ApprovedCountNone(rows[1..]);
    }
  }

  lemma {:induction false} ApprovedRevenueNone(rows: seq<Row>)
    requires !AnyApproved(rows)
    ensures ApprovedRevenue(rows) == 0.0
  {
    if rows != [] {
      assert !AnyApproved(rows[1..]) by {
        forall i | 0 <= i < |rows[1..]| ensures rows[1..][i].approvedAt.None? {
          assert rows[1..][i] == rows[i + 1];
        }
      }
      ApprovedRevenueNone(rows[1..]);
    }
  }

  /** A month in the series without approvals gets 0 orders and 0 revenue; a month
      with approvals gets at least one order. */
  lemma {:induction false} EmptyMonth(rows: seq<Row>, monthOf: int -> int, k: int)
    ensures OrdersInMonths(rows, monthOf, k, k) == 0 <==> forall i :: 0 <= i < |rows| ==> ApprovalMonth(rows[i], monthOf) != Some(k)
    ensures OrdersInMonths(rows, monthOf, k, k) == 0 ==> RevenueInMonths(rows, monthOf, k, k) == 0.0
  {
    if rows != [] {
      EmptyMonth(rows[1..], monthOf, k);
      assert forall i :: 1 <= i < |rows| ==> rows[i] == rows[1..][i - 1];
    }
  }
}
