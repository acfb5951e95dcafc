/** The per-customer RFM table (dashboard/dashboard.py:45-89): for each customer the
    recency, frequency and monetary measures, a normalised 0..5 score per measure, their
    mean, and the segment that mean falls in. */
module Rfm {
  import opened Orders
  import opened Tally
  import opened Ranking

  // ---- grouping by customer (lines 46-52) ----

  /** The customer column. */
  function Customers(rows: seq<Row>): (cs: seq<string>)
    ensures |cs| == |rows|
    ensures forall i :: 0 <= i < |rows| ==> cs[i] == rows[i].customer
  {
    seq(|rows|, i requires 0 <= i < |rows| => rows[i].customer)
  }

  lemma CustomersPrefix(rows: seq<Row>)
    requires rows != []
    ensures Customers(rows[..|rows| - 1]) == Customers(rows)[..|rows| - 1]
  {
  }

  /** The rows of customer `c`, in input order. */
  function RowsOf(rows: seq<Row>, c: string): (rs: seq<Row>)
    ensures |rs| <= |rows|
    ensures forall i :: 0 <= i < |rs| ==> rs[i] in rows && rs[i].customer == c
    ensures forall i :: 0 <= i < |rows| && rows[i].customer == c ==> rows[i] in rs
  {
    if rows == [] then []
    else
      var init, last := rows[..|rows| - 1], rows[|rows| - 1];
      assert forall i :: 0 <= i < |rows| - 1 ==> rows[i] == init[i];
      RowsOf(init, c) + (if last.customer == c then [last] else [])
  }

  function TotalPrice(rows: seq<Row>): real
  {
    if rows == [] then 0.0 else TotalPrice(rows[..|rows| - 1]) + rows[|rows| - 1].price
  }

  /** The latest purchase timestamp among `rows` (`max` of the group). */
  function LatestPurchase(rows: seq<Row>): (t: int)
    requires rows != [] && AllPurchased(rows)
    ensures exists i :: 0 <= i < |rows| && rows[i].purchasedAt == Some(t)
    ensures forall i :: 0 <= i < |rows| ==> rows[i].purchasedAt.value <= t
  {
    var t0 := rows[|rows| - 1].purchasedAt.value;
    if |rows| == 1 then t0
    else
      var init := rows[..|rows| - 1];
      assert forall i :: 0 <= i < |rows| - 1 ==> rows[i] == init[i];
      var t1 := LatestPurchase(init);
      if t0 >= t1 then t0 else t1
  }

  /** The latest purchase date among `rows` (`dt.date.max()`). */
  function RecentDay(rows: seq<Row>): (d: int)
    requires rows != [] && AllPurchased(rows)
    ensures exists i :: 0 <= i < |rows| && DayOf(rows[i].purchasedAt.value) == d
    ensures forall i :: 0 <= i < |rows| ==> DayOf(rows[i].purchasedAt.value) <= d
  {
    var d0 := DayOf(rows[|rows| - 1].purchasedAt.value);
    if |rows| == 1 then d0
    else
      var init := rows[..|rows| - 1];
      assert forall i :: 0 <= i < |rows| - 1 ==> rows[i] == init[i];
      var d1 := RecentDay(init);
      if d0 >= d1 then d0 else d1
  }

  /** The three measures of one customer before scoring. */
  datatype Measures = Measures(customer: string, recency: int, frequency: nat, monetary: real)

  /** Frequency is the number of the customer's rows (`size`, one per order item). */
  function Frequency(rows: seq<Row>, c: string): nat
  {
    |RowsOf(rows, c)|
  }

  /** Monetary is the price sum of the customer's rows. */
  function Monetary(rows: seq<Row>, c: string): real
  {
    TotalPrice(RowsOf(rows, c))
  }

  /** Recency is the number of days from the customer's latest purchase date to the
      latest purchase date of all rows. */
  function Recency(rows: seq<Row>, c: string): int
    requires AllPurchased(rows) && c in Customers(rows)
  {
    CustomerHasRows(rows, c);
    RecentDay(rows) - DayOf(LatestPurchase(RowsOf(rows, c)))
  }

  lemma CustomerHasRows(rows: seq<Row>, c: string)
    requires c in Customers(rows)
    ensures RowsOf(rows, c) != []
    ensures AllPurchased(rows) ==> AllPurchased(RowsOf(rows, c))
  {
    var i :| 0 <= i < |rows| && Customers(rows)[i] == c;
    assert rows[i] in RowsOf(rows, c);
  }

  /** The date of a customer's latest purchase is the latest date among the customer's
      rows, and one of them falls on it. */
  lemma CustomerLatestDay(rows: seq<Row>, c: string)
    requires AllPurchased(rows) && c in Customers(rows)
    ensures RowsOf(rows, c) != [] && AllPurchased(RowsOf(rows, c))
    ensures exists i :: 0 <= i < |rows| && rows[i].customer == c &&
              DayOf(rows[i].purchasedAt.value) == DayOf(LatestPurchase(RowsOf(rows, c)))
    ensures forall i :: 0 <= i < |rows| && rows[i].customer == c ==>
              DayOf(rows[i].purchasedAt.value) <= DayOf(LatestPurchase(RowsOf(rows, c)))
  {
    CustomerHasRows(rows, c);
    var rs := RowsOf(rows, c);
    var t := LatestPurchase(rs);
    var k :| 0 <= k < |rs| && rs[k].purchasedAt == Some(t);
    var j :| 0 <= j < |rows| && rows[j] == rs[k];
    forall i | 0 <= i < |rows| && rows[i].customer == c
      ensures DayOf(rows[i].purchasedAt.value) <= DayOf(t)
    {
      assert rows[i] in rs;
      DayOfMonotone(rows[i].purchasedAt.value, t);
    }
  }

  /** The customer ids of the table, one per distinct customer. */
  function CustomerIds(rows: seq<Row>): (ids: seq<string>)
    ensures NoDuplicates(ids)
    ensures forall c :: c in ids <==> c in Customers(rows)
  {
    Distinct(Customers(rows))
  }

  /** One measures row per distinct customer (lines 46-57). */
  function MeasuresOf(rows: seq<Row>): (ms: seq<Measures>)
    requires AllPurchased(rows)
    ensures |ms| == |CustomerIds(rows)|
    ensures forall i :: 0 <= i < |ms| ==>
              ms[i].customer == CustomerIds(rows)[i] && ms[i].recency == Recency(rows, ms[i].customer) &&
              ms[i].frequency == Frequency(rows, ms[i].customer) && ms[i].monetary == Monetary(rows, ms[i].customer)
  {
    var ids := CustomerIds(rows);
    seq(|ids|, i requires 0 <= i < |ids| =>
      Measures(ids[i], Recency(rows, ids[i]), Frequency(rows, ids[i]), Monetary(rows, ids[i])))
  }

  // ---- properties of the measures ----

  /** Every customer in the table has at least one row, and its frequency is its group
      size among the customer column. */
  lemma {:induction false} FrequencyIsGroupSize(rows: seq<Row>, c: string)
    ensures Frequency(rows, c) == Occurrences(Customers(rows), c)
  {
    if rows != [] {
      var init := rows[..|rows| - 1];
      CustomersPrefix(rows);
      FrequencyIsGroupSize(init, c);
      assert Customers(rows) == Customers(init) + [rows[|rows| - 1].customer];
    }
  }

  /** The frequencies of all customers add up to the number of rows. */
  lemma FrequenciesSum(rows: seq<Row>)
    ensures OccurrencesOver(CustomerIds(rows), Customers(rows)) == |rows|
  {
    GroupSizesSum(Customers(rows));
  }

  /** The sum of `Monetary(rows, d)` over the customers `d` of `ds`. */
  function MonetaryOver(ds: seq<string>, rows: seq<Row>): real
  {
    if ds == [] then 0.0 else Monetary(rows, ds[0]) + MonetaryOver(ds[1..], rows)
  }

  lemma {:induction false} MonetaryOverAppendRow(ds: seq<string>, rows: seq<Row>, x: Row)
    requires NoDuplicates(ds)
    ensures MonetaryOver(ds, rows + [x]) == MonetaryOver(ds, rows) + (if x.customer in ds then x.price else 0.0)
  {
    if ds != [] {
      MonetaryAppendRow(rows, x, ds[0]);
      MonetaryOverAppendRow(ds[1..], rows, x);
    }
  }

  lemma {:induction false} MonetaryOverAppendCustomer(ds: seq<string>, c: string, rows: seq<Row>)
    ensures MonetaryOver(ds + [c], rows) == MonetaryOver(ds, rows) + Monetary(rows, c)
  {
    if ds != [] {
      assert (ds + [c])[1..] == ds[1..] + [c];
      MonetaryOverAppendCustomer(ds[1..], c, rows);
    } else {
      assert [c][1..] == [];
    }
  }

  lemma NoRowsNoSpending(rows: seq<Row>, c: string)
    requires c !in Customers(rows)
    ensures Monetary(rows, c) == 0.0
  {
  }

  lemma MonetaryAppendRow(rows: seq<Row>, x: Row, c: string)
    ensures Monetary(rows + [x], c) == Monetary(rows, c) + (if x.customer == c then x.price else 0.0)
  {
    var rs := rows + [x];
    assert rs[..|rs| - 1] == rows;
    var own := RowsOf(rows, c);
    if x.customer == c {
      assert (own + [x])[..|own + [x]| - 1] == own;
    } else {
      assert RowsOf(rs, c) == own + [];
      assert own + [] == own;
    }
  }

  /** The customers' monetary values add up to the price sum of all rows. */
  lemma {:induction false} SpendingSum(rows: seq<Row>)
    ensures MonetaryOver(CustomerIds(rows), rows) == TotalPrice(rows)
  {
    if rows == [] {
    } else {
      var init, x := rows[..|rows| - 1], rows[|rows| - 1];
      assert rows == init + [x];
      CustomersPrefix(rows);
      var ds := CustomerIds(init);
      SpendingSum(init);
      MonetaryOverAppendRow(ds, init, x);
      if x.customer !in ds {
        NoRowsNoSpending(init, x.customer);
        MonetaryOverAppendCustomer(ds, x.customer, rows);
      }
    }
  }

  /** A customer's recency is never negative, and it is 0 exactly when the customer
      bought something on the latest purchase date. */
  lemma RecencyBounds(rows: seq<Row>, c: string)
    requires AllPurchased(rows) && c in Customers(rows)
    ensures Recency(rows, c) >= 0
    ensures Recency(rows, c) == 0 <==>
            exists i :: 0 <= i < |rows| && rows[i].customer == c && DayOf(rows[i].purchasedAt.value) == RecentDay(rows)
  {
    CustomerLatestDay(rows, c);
    var j :| 0 <= j < |rows| && rows[j].customer == c &&
             DayOf(rows[j].purchasedAt.value) == DayOf(LatestPurchase(RowsOf(rows, c)));
    assert DayOf(rows[j].purchasedAt.value) <= RecentDay(rows);
  }

  // ---- scores and segments (lines 59-87) ----

  function RecencyValues(ms: seq<Measures>): seq<real>
  {
    seq(|ms|, i requires 0 <= i < |ms| => ms[i].recency as real)
  }

  function FrequencyValues(ms: seq<Measures>): seq<real>
  {
    seq(|ms|, i requires 0 <= i < |ms| => ms[i].frequency as real)
  }

  function MonetaryValues(ms: seq<Measures>): seq<real>
  {
    seq(|ms|, i requires 0 <= i < |ms| => ms[i].monetary)
  }

  /** The mean of the three scores. An undefined (NaN) score makes the mean undefined. */
  function RfmScore(r: Option<real>, f: Option<real>, m: Option<real>): (s: Option<real>)
    ensures s.Some? <==> r.Some? && f.Some? && m.Some?
    ensures s.Some? ==> (r.value <= s.value || f.value <= s.value || m.value <= s.value)
    ensures s.Some? ==> (s.value <= r.value || s.value <= f.value || s.value <= m.value)
    ensures InScoreRange(r) && InScoreRange(f) && InScoreRange(m) ==> InScoreRange(s)
  {
    if r.Some? && f.Some? && m.Some? then Some((r.value + f.value + m.value) / 3.0) else None
  }

  datatype Segment = Champions | PotentialLoyalist | Promising | AboutToSleep | Lost

  /** The segment labels the dashboard shows. */
  function SegmentName(s: Segment): string
  {
    match s
    case Champions => "Champions"
    case PotentialLoyalist => "Potential Loyalist"
    case Promising => "Promising"
    case AboutToSleep => "About To Sleep"
    case Lost => "Lost"
  }

  lemma SegmentNamesDistinct(s: Segment, t: Segment)
    ensures SegmentName(s) == SegmentName(t) ==> s == t
  {
  }

  /** Segments from worst to best. */
  function Tier(s: Segment): nat
  {
    match s
    case Lost => 0
    case AboutToSleep => 1
    case Promising => 2
    case PotentialLoyalist => 3
    case Champions => 4
  }

  /** `customer_segmentation`: the first threshold the score exceeds. Every comparison
      with NaN is false, so an undefined score is `Lost`. */
  function Classify(score: Option<real>): (seg: Segment)
    ensures score.None? ==> seg == Lost
  {
    match score
    case None => Lost
    case Some(x) =>
      if x > 4.5 then Champions
      else if x > 4.0 then PotentialLoyalist
      else if x > 3.0 then Promising
      else if x > 2.0 then AboutToSleep
      else Lost
  }

  /** The segments split the scores into the bands (4.5, oo), (4, 4.5], (3, 4], (2, 3] and
      (-oo, 2]. */
  lemma ClassifyBands(x: real)
    ensures Classify(Some(x)) == Champions <==> 4.5 < x
    ensures Classify(Some(x)) == PotentialLoyalist <==> 4.0 < x <= 4.5
    ensures Classify(Some(x)) == Promising <==> 3.0 < x <= 4.0
    ensures Classify(Some(x)) == AboutToSleep <==> 2.0 < x <= 3.0
    ensures Classify(Some(x)) == Lost <==> x <= 2.0
  {
  }

  /** A higher score never lands in a worse segment. */
  lemma ClassifyMonotone(x: real, y: real)
    requires x <= y
    ensures Tier(Classify(Some(x))) <= Tier(Classify(Some(y)))
  {
  }

  /** One row of the RFM table. */
  datatype RfmEntry = RfmEntry(
    customer: string,
    recency: int,
    frequency: nat,
    monetary: real,
    recencyScore: Option<real>,
    frequencyScore: Option<real>,
    monetaryScore: Option<real>,
    rfmScore: Option<real>,
    segment: Segment)

  /** Scores every customer (lines 59-87). */
  function Score(ms: seq<Measures>): (table: seq<RfmEntry>)
    ensures |table| == |ms|
    ensures forall i :: 0 <= i < |ms| ==>
              table[i].customer == ms[i].customer && table[i].recency == ms[i].recency &&
              table[i].frequency == ms[i].frequency && table[i].monetary == ms[i].monetary &&
              table[i].segment == Classify(table[i].rfmScore) &&
              (table[i].rfmScore.Some? <==>
                table[i].recencyScore.Some? && table[i].frequencyScore.Some? && table[i].monetaryScore.Some?) &&
              InScoreRange(table[i].rfmScore)
  {
    var rs, fs, ss := MeasureScores(RecencyValues(ms)), MeasureScores(FrequencyValues(ms)), MeasureScores(MonetaryValues(ms));
    seq(|ms|, i requires 0 <= i < |ms| => Scored(ms[i], rs[i], fs[i], ss[i]))
  }

  /** The table row of one customer's measures and scores. */
  function Scored(m: Measures, r: Option<real>, f: Option<real>, s: Option<real>): (e: RfmEntry)
    requires InScoreRange(r) && InScoreRange(f) && InScoreRange(s)
    ensures e.customer == m.customer && e.recency == m.recency
    ensures e.frequency == m.frequency && e.monetary == m.monetary
    ensures e.recencyScore == r && e.frequencyScore == f && e.monetaryScore == s
    ensures e.rfmScore.Some? <==> r.Some? && f.Some? && s.Some?
    ensures InScoreRange(e.rfmScore)
    ensures e.segment == Classify(e.rfmScore)
  {
    var score := RfmScore(r, f, s);
    RfmEntry(m.customer, m.recency, m.frequency, m.monetary, r, f, s, score, Classify(score))
  }

  /** Each score column is the measure's column, ranked and normalised. */
  lemma ScoreColumns(ms: seq<Measures>, i: int)
    requires 0 <= i < |ms|
    ensures Score(ms)[i].recencyScore == MeasureScores(RecencyValues(ms))[i]
    ensures Score(ms)[i].frequencyScore == MeasureScores(FrequencyValues(ms))[i]
    ensures Score(ms)[i].monetaryScore == MeasureScores(MonetaryValues(ms))[i]
    ensures Score(ms)[i].rfmScore ==
            RfmScore(Score(ms)[i].recencyScore, Score(ms)[i].frequencyScore, Score(ms)[i].monetaryScore)
  {
  }

  /** A measure's score is defined for every customer unless all customers tie on that
      measure, in which case it is undefined for all of them. */
  lemma ScoresDefinedUnlessTied(ms: seq<Measures>, i: int)
    requires 0 <= i < |ms|
    ensures Score(ms)[i].recencyScore.Some? <==> !AllSame(RecencyValues(ms))
    ensures Score(ms)[i].frequencyScore.Some? <==> !AllSame(FrequencyValues(ms))
    ensures Score(ms)[i].monetaryScore.Some? <==> !AllSame(MonetaryValues(ms))
  {
  }

  /** Customers equal on a measure score alike on it; a strictly larger measure gets a
      strictly lower score. */
  lemma ScoreOrder(ms: seq<Measures>, i: int, j: int)
    requires 0 <= i < |ms| && 0 <= j < |ms|
    ensures ms[i].recency == ms[j].recency ==> Score(ms)[i].recencyScore == Score(ms)[j].recencyScore
    ensures ms[i].frequency == ms[j].frequency ==> Score(ms)[i].frequencyScore == Score(ms)[j].frequencyScore
    ensures ms[i].monetary == ms[j].monetary ==> Score(ms)[i].monetaryScore == Score(ms)[j].monetaryScore
    ensures ms[i].recency > ms[j].recency && !AllSame(RecencyValues(ms)) ==>
              Score(ms)[i].recencyScore.value < Score(ms)[j].recencyScore.value
    ensures ms[i].frequency > ms[j].frequency && !AllSame(FrequencyValues(ms)) ==>
              Score(ms)[i].frequencyScore.value < Score(ms)[j].frequencyScore.value
    ensures ms[i].monetary > ms[j].monetary && !AllSame(MonetaryValues(ms)) ==>
              Score(ms)[i].monetaryScore.value < Score(ms)[j].monetaryScore.value
  {
    var rv, fv, mv := RecencyValues(ms), FrequencyValues(ms), MonetaryValues(ms);
    assert rv[i] == ms[i].recency as real && rv[j] == ms[j].recency as real;
    assert fv[i] == ms[i].frequency as real && fv[j] == ms[j].frequency as real;
    ScoreColumns(ms, i);
    ScoreColumns(ms, j);
    MeasureScoreOrder(rv, i, j);
    MeasureScoreOrder(fv, i, j);
    MeasureScoreOrder(mv, i, j);
  }

  /** As written, the largest frequency scores 0 and the smallest 5. */
  lemma ExtremeFrequency(ms: seq<Measures>, i: int)
    requires 0 <= i < |ms| && !AllSame(FrequencyValues(ms))
    ensures (forall j :: 0 <= j < |ms| ==> ms[j].frequency <= ms[i].frequency) ==> Score(ms)[i].frequencyScore == Some(0.0)
    ensures (forall j :: 0 <= j < |ms| ==> ms[i].frequency <= ms[j].frequency) ==> Score(ms)[i].frequencyScore == Some(5.0)
  {
    var vs := FrequencyValues(ms);
    ExtremeScores(vs, i);
    ScoreColumns(ms, i);
    if forall j :: 0 <= j < |ms| ==> ms[j].frequency <= ms[i].frequency {
      forall j | 0 <= j < |vs| ensures vs[j] <= vs[i] {
        assert ms[j].frequency <= ms[i].frequency;
      }
    }
    if forall j :: 0 <= j < |ms| ==> ms[i].frequency <= ms[j].frequency {
      forall j | 0 <= j < |vs| ensures vs[i] <= vs[j] {
        assert ms[i].frequency <= ms[j].frequency;
      }
    }
  }

  /** As written, the largest monetary value scores 0 and the smallest 5. */
  lemma ExtremeMonetary(ms: seq<Measures>, i: int)
    requires 0 <= i < |ms| && !AllSame(MonetaryValues(ms))
    ensures (forall j :: 0 <= j < |ms| ==> ms[j].monetary <= ms[i].monetary) ==> Score(ms)[i].monetaryScore == Some(0.0)
    ensures (forall j :: 0 <= j < |ms| ==> ms[i].monetary <= ms[j].monetary) ==> Score(ms)[i].monetaryScore == Some(5.0)
  {
    var vs := MonetaryValues(ms);
    ExtremeScores(vs, i);
    ScoreColumns(ms, i);
    if forall j :: 0 <= j < |ms| ==> ms[j].monetary <= ms[i].monetary {
      forall j | 0 <= j < |vs| ensures vs[j] <= vs[i] {
        assert ms[j].monetary <= ms[i].monetary;
      }
    }
    if forall j :: 0 <= j < |ms| ==> ms[i].monetary <= ms[j].monetary {
      forall j | 0 <= j < |vs| ensures vs[i] <= vs[j] {
        assert ms[i].monetary <= ms[j].monetary;
      }
    }
  }

  /** The most recent customer (smallest recency) scores 5 and the least recent 0. */
  lemma ExtremeRecency(ms: seq<Measures>, i: int)
    requires 0 <= i < |ms| && !AllSame(RecencyValues(ms))
    ensures (forall j :: 0 <= j < |ms| ==> ms[i].recency <= ms[j].recency) ==> Score(ms)[i].recencyScore == Some(5.0)
    ensures (forall j :: 0 <= j < |ms| ==> ms[j].recency <= ms[i].recency) ==> Score(ms)[i].recencyScore == Some(0.0)
  {
    var vs := RecencyValues(ms);
    ExtremeScores(vs, i);
    ScoreColumns(ms, i);
    if forall j :: 0 <= j < |ms| ==> ms[j].recency <= ms[i].recency {
      forall j | 0 <= j < |vs| ensures vs[j] <= vs[i] {
        assert ms[j].recency <= ms[i].recency;
      }
    }
    if forall j :: 0 <= j < |ms| ==> ms[i].recency <= ms[j].recency {
      forall j | 0 <= j < |vs| ensures vs[i] <= vs[j] {
        assert ms[i].recency <= ms[j].recency;
      }
    }
  }

  /** When all customers tie on any one measure, every customer's RFM score is undefined
      and every customer is `Lost`; a table of one customer is such a table. */
  lemma TiedMeasureMeansLost(ms: seq<Measures>)
    requires AllSame(RecencyValues(ms)) || AllSame(FrequencyValues(ms)) || AllSame(MonetaryValues(ms))
    ensures forall i :: 0 <= i < |ms| ==> Score(ms)[i].rfmScore == None && Score(ms)[i].segment == Lost
  {
    forall i | 0 <= i < |ms| ensures Score(ms)[i].rfmScore == None {
      ScoresDefinedUnlessTied(ms, i);
    }
  }

  lemma SingleCustomerIsLost(ms: seq<Measures>)
    requires |ms| == 1
    ensures Score(ms)[0].recencyScore == None && Score(ms)[0].frequencyScore == None
    ensures Score(ms)[0].monetaryScore == None && Score(ms)[0].segment == Lost
  {
    assert AllSame(RecencyValues(ms));
    ScoresDefinedUnlessTied(ms, 0);
    TiedMeasureMeansLost(ms);
  }

  /** Three customers where the first buys most often, spends most and bought last,
      and the third is worst on all three, as with (frequency, monetary, recency) =
      (5, 500, 0), (3, 300, 10) and (1, 100, 30). Ranking every measure descending gives
      the first customer the lowest RFM score and the segment `Lost`. */
  lemma BestCustomerIsLost(ms: seq<Measures>)
    requires |ms| == 3
    requires ms[0].frequency > ms[1].frequency > ms[2].frequency
    requires ms[0].monetary > ms[1].monetary > ms[2].monetary
    requires ms[0].recency < ms[1].recency < ms[2].recency
    ensures Score(ms)[0].rfmScore == Some(5.0 / 3.0) && Score(ms)[0].segment == Lost
    ensures Score(ms)[1].rfmScore == Some(2.5) && Score(ms)[1].segment == AboutToSleep
    ensures Score(ms)[2].rfmScore == Some(10.0 / 3.0) && Score(ms)[2].segment == Promising
  {
    ThreeMeasureScores(ms);
    ScoredEntry(ms, 0, Some(5.0), Some(0.0), Some(0.0));
    ScoredEntry(ms, 1, Some(2.5), Some(2.5), Some(2.5));
    ScoredEntry(ms, 2, Some(0.0), Some(5.0), Some(5.0));
    MeansOfThreeScores();
  }

  /** The RFM scores and segments of the score triples (5, 0, 0), (2.5, 2.5, 2.5) and
      (0, 5, 5). */
  lemma MeansOfThreeScores()
    ensures RfmScore(Some(5.0), Some(0.0), Some(0.0)) == Some(5.0 / 3.0) && Classify(Some(5.0 / 3.0)) == Lost
    ensures RfmScore(Some(2.5), Some(2.5), Some(2.5)) == Some(2.5) && Classify(Some(2.5)) == AboutToSleep
    ensures RfmScore(Some(0.0), Some(5.0), Some(5.0)) == Some(10.0 / 3.0) && Classify(Some(10.0 / 3.0)) == Promising
  {
  }

  /** An entry's RFM score and segment follow from its three measure scores. */
  lemma ScoredEntry(ms: seq<Measures>, i: int, r: Option<real>, f: Option<real>, m: Option<real>)
    requires 0 <= i < |ms|
    requires MeasureScores(RecencyValues(ms))[i] == r
    requires MeasureScores(FrequencyValues(ms))[i] == f
    requires MeasureScores(MonetaryValues(ms))[i] == m
    ensures Score(ms)[i].rfmScore == RfmScore(r, f, m)
    ensures Score(ms)[i].segment == Classify(RfmScore(r, f, m))
  {
    ScoreColumns(ms, i);
  }

  lemma ThreeMeasureScores(ms: seq<Measures>)
    requires |ms| == 3
    requires ms[0].frequency > ms[1].frequency > ms[2].frequency
    requires ms[0].monetary > ms[1].monetary > ms[2].monetary
    requires ms[0].recency < ms[1].recency < ms[2].recency
    ensures MeasureScores(RecencyValues(ms)) == [Some(5.0), Some(2.5), Some(0.0)]
    ensures MeasureScores(FrequencyValues(ms)) == [Some(0.0), Some(2.5), Some(5.0)]
    ensures MeasureScores(MonetaryValues(ms)) == [Some(0.0), Some(2.5), Some(5.0)]
  {
    var rv, fv, mv := RecencyValues(ms), FrequencyValues(ms), MonetaryValues(ms);
    assert rv == [rv[0], rv[1], rv[2]] && fv == [fv[0], fv[1], fv[2]] && mv == [mv[0], mv[1], mv[2]];
    ThreeDistinctScores(rv[0], rv[1], rv[2]);
    ThreeDistinctScores(fv[0], fv[1], fv[2]);
    ThreeDistinctScores(mv[0], mv[1], mv[2]);
  }

  // ---- the whole table (lines 45-89) ----

  datatype RfmError = EmptyFrame

  /** The customer column of a table. */
  function TableCustomers(table: seq<RfmEntry>): seq<string>
  {
    seq(|table|, i requires 0 <= i < |table| => table[i].customer)
  }

  function TotalFrequency(table: seq<RfmEntry>): nat
  {
    if table == [] then 0 else table[0].frequency + TotalFrequency(table[1..])
  }

  function TotalMonetary(table: seq<RfmEntry>): real
  {
    if table == [] then 0.0 else table[0].monetary + TotalMonetary(table[1..])
  }

  /** A table whose entries carry the measures of the customers `ds` totals their sums. */
  lemma {:induction false} TableTotals(table: seq<RfmEntry>, ds: seq<string>, rows: seq<Row>)
    requires |table| == |ds|
    requires forall i :: 0 <= i < |table| ==>
               table[i].frequency == Frequency(rows, ds[i]) && table[i].monetary == Monetary(rows, ds[i])
    ensures TotalFrequency(table) == OccurrencesOver(ds, Customers(rows))
    ensures TotalMonetary(table) == MonetaryOver(ds, rows)
  {
    if table != [] {
      FrequencyIsGroupSize(rows, ds[0]);
      TableTotals(table[1..], ds[1..], rows);
    }
  }

  /** The RFM table of a frame has one entry per distinct customer, in order of first
      appearance. */
  lemma TableCustomersOf(rows: seq<Row>)
    requires AllPurchased(rows)
    ensures |Score(MeasuresOf(rows))| == |set c | c in Customers(rows)|
    ensures TableCustomers(Score(MeasuresOf(rows))) == CustomerIds(rows)
  {
    CountOfDistinct(Customers(rows));
  }

  /** Every entry of the RFM table counts its customer's rows and has a recency of at
      least 0. */
  lemma TableColumns(rows: seq<Row>)
    requires AllPurchased(rows) && rows != []
    ensures forall i :: 0 <= i < |Score(MeasuresOf(rows))| ==>
              Score(MeasuresOf(rows))[i].frequency == Occurrences(Customers(rows), Score(MeasuresOf(rows))[i].customer) >= 1 &&
              Score(MeasuresOf(rows))[i].recency >= 0
  {
    var ids := CustomerIds(rows);
    var table := Score(MeasuresOf(rows));
    forall i | 0 <= i < |table|
      ensures table[i].frequency == Occurrences(Customers(rows), table[i].customer) >= 1
      ensures table[i].recency >= 0
    {
      FrequencyIsGroupSize(rows, ids[i]);
      RecencyBounds(rows, ids[i]);
    }
  }

  /** The frequencies of the RFM table add up to the number of rows, and its monetary
      values to the total price. */
  lemma TableSums(rows: seq<Row>)
    requires AllPurchased(rows)
    ensures TotalFrequency(Score(MeasuresOf(rows))) == |rows|
    ensures TotalMonetary(Score(MeasuresOf(rows))) == TotalPrice(rows)
  {
    TableMeasures(rows);
    TableTotals(Score(MeasuresOf(rows)), CustomerIds(rows), rows);
    FrequenciesSum(rows);
    SpendingSum(rows);
  }

  /** Entry `i` of the RFM table carries the recency, frequency and monetary value of
      the `i`-th distinct customer. */
  lemma TableMeasures(rows: seq<Row>)
    requires AllPurchased(rows)
    ensures |Score(MeasuresOf(rows))| == |CustomerIds(rows)|
    ensures forall i :: 0 <= i < |Score(MeasuresOf(rows))| ==>
              CustomerIds(rows)[i] in Customers(rows) &&
              Score(MeasuresOf(rows))[i].recency == Recency(rows, CustomerIds(rows)[i]) &&
              Score(MeasuresOf(rows))[i].frequency == Frequency(rows, CustomerIds(rows)[i]) &&
              Score(MeasuresOf(rows))[i].monetary == Monetary(rows, CustomerIds(rows)[i])
  {
    var ids, ms := CustomerIds(rows), MeasuresOf(rows);
    var table := Score(ms);
    forall i | 0 <= i < |table|
      ensures ids[i] in Customers(rows) && table[i].recency == Recency(rows, ids[i])
      ensures table[i].frequency == Frequency(rows, ids[i]) && table[i].monetary == Monetary(rows, ids[i])
    {
      assert ids[i] in ids;
      assert table[i].recency == ms[i].recency;
      assert table[i].frequency == ms[i].frequency && table[i].monetary == ms[i].monetary;
    }
  }

  /** An entry's recency is 0 exactly when its customer bought something on the latest
      purchase date of the frame. */
  lemma TableRecency(rows: seq<Row>)
    requires AllPurchased(rows) && rows != []
    ensures forall i :: 0 <= i < |Score(MeasuresOf(rows))| ==>
              (Score(MeasuresOf(rows))[i].recency == 0 <==>
                exists j :: 0 <= j < |rows| && rows[j].customer == Score(MeasuresOf(rows))[i].customer &&
                  DayOf(rows[j].purchasedAt.value) == RecentDay(rows))
  {
    var ids, table := CustomerIds(rows), Score(MeasuresOf(rows));
    TableMeasures(rows);
    forall i | 0 <= i < |table|
      ensures table[i].recency == 0 <==>
                exists j :: 0 <= j < |rows| && rows[j].customer == table[i].customer &&
                  DayOf(rows[j].purchasedAt.value) == RecentDay(rows)
    {
      RecencyBounds(rows, ids[i]);
    }
  }

  /** Each entry's RFM score is the mean of its three measure scores, lies in 0..5 when
      defined, and its segment is the classification of that score. */
  lemma TableScores(rows: seq<Row>)
    requires AllPurchased(rows)
    ensures forall i :: 0 <= i < |Score(MeasuresOf(rows))| ==>
              var e := Score(MeasuresOf(rows))[i];
              e.rfmScore == RfmScore(e.recencyScore, e.frequencyScore, e.monetaryScore) &&
              InScoreRange(e.rfmScore) && e.segment == Classify(e.rfmScore)
  {
    var ms := MeasuresOf(rows);
    forall i | 0 <= i < |Score(ms)|
      ensures Score(ms)[i].rfmScore ==
                RfmScore(Score(ms)[i].recencyScore, Score(ms)[i].frequencyScore, Score(ms)[i].monetaryScore)
    {
      ScoreColumns(ms, i);
    }
  }

  /** `create_rfm_df`. The window-filtered rows it is given always carry a purchase
      timestamp. On no rows there is no customer row to segment, and the result is the
      page's error (`Failure`). */
  function CreateRfm(rows: seq<Row>): (r: Result<seq<RfmEntry>, RfmError>)
    requires AllPurchased(rows)
    ensures r.Success? <==> rows != []
    ensures r.Success? ==> |r.value| == |set c | c in Customers(rows)|
    ensures r.Success? ==> NoDuplicates(TableCustomers(r.value))
    ensures r.Success? ==> forall c :: c in TableCustomers(r.value) <==> c in Customers(rows)
    ensures r.Success? ==> forall i :: 0 <= i < |r.value| ==>
              r.value[i].frequency == Occurrences(Customers(rows), r.value[i].customer) >= 1 &&
              r.value[i].recency >= 0
    ensures r.Success? ==> forall i :: 0 <= i < |r.value| ==>
              r.value[i].monetary == Monetary(rows, r.value[i].customer) &&
              (r.value[i].recency == 0 <==>
                exists j :: 0 <= j < |rows| && rows[j].customer == r.value[i].customer &&
                  DayOf(rows[j].purchasedAt.value) == RecentDay(rows))
    ensures r.Success? ==> forall i :: 0 <= i < |r.value| ==>
              r.value[i].rfmScore == RfmScore(r.value[i].recencyScore, r.value[i].frequencyScore, r.value[i].monetaryScore) &&
              InScoreRange(r.value[i].rfmScore) && r.value[i].segment == Classify(r.value[i].rfmScore)
    ensures r.Success? ==> TotalFrequency(r.value) == |rows| && TotalMonetary(r.value) == TotalPrice(rows)
  {
    if rows == [] then Failure(EmptyFrame)
    else
      TableCustomersOf(rows);
      TableColumns(rows);
      TableSums(rows);
      TableMeasures(rows);
      TableRecency(rows);
      TableScores(rows);
      Success(Score(MeasuresOf(rows)))
  }
}
