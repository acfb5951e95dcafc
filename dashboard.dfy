/** The data set-up of the dashboard page (dashboard/dashboard.py:124-141): the window
    filter, the five derived tables, the customer count per segment and the three
    headline totals, from one date window over all rows. */
module Dashboard {
  import opened Orders
  import opened Tally
  import opened Window
  import opened Aggregates
  import opened Monthly
  import opened Rfm

  // ---- customers per segment (lines 130-132) ----

  /** `groupby` emits its groups sorted by label: "About To Sleep", "Champions",
      "Lost", "Potential Loyalist", "Promising". */
  const LabelOrder: seq<Segment> := [AboutToSleep, Champions, Lost, PotentialLoyalist, Promising]

  /** A segment's place in `LabelOrder`. */
  function Position(s: Segment): (k: nat)
    ensures k < |LabelOrder| && LabelOrder[k] == s
  {
    match s
    case AboutToSleep => 0
    case Champions => 1
    case Lost => 2
    case PotentialLoyalist => 3
    case Promising => 4
  }

  /** Strict lexicographic order on strings. */
  predicate LexLess(a: string, b: string)
  {
    b != [] && (a == [] || a[0] < b[0] || (a[0] == b[0] && LexLess(a[1..], b[1..])))
  }

  /** `LabelOrder` is the order of the labels. */
  lemma LabelOrderSorted(i: int, j: int)
    requires 0 <= i < j < |LabelOrder|
    ensures LexLess(SegmentName(LabelOrder[i]), SegmentName(LabelOrder[j]))
  {
    var potential, promising := SegmentName(PotentialLoyalist), SegmentName(Promising);
    assert potential[0] == promising[0] && potential[1] < promising[1];
    assert LexLess(potential[1..], promising[1..]);
  }

  /** The segment column of a table. */
  function Segments(table: seq<RfmEntry>): seq<Segment>
  {
    seq(|table|, i requires 0 <= i < |table| => table[i].segment)
  }

  /** The customers of the entries in segment `s`, in table order. */
  function CustomersIn(table: seq<RfmEntry>, s: Segment): (cs: seq<string>)
    ensures forall c :: c in cs <==> exists j :: 0 <= j < |table| && table[j].customer == c && table[j].segment == s
  {
    if table == [] then []
    else
      var init, last := table[..|table| - 1], table[|table| - 1];
      assert forall j :: 0 <= j < |table| - 1 ==> table[j] == init[j];
      CustomersIn(init, s) + (if last.segment == s then [last.customer] else [])
  }

  /** The segments of `LabelOrder[k..]` present in `segs`, in label order. */
  function PresentFrom(segs: seq<Segment>, k: nat): (ps: seq<Segment>)
    requires k <= |LabelOrder|
    ensures forall s :: s in ps <==> s in segs && Position(s) >= k
    ensures forall i, j :: 0 <= i < j < |ps| ==> Position(ps[i]) < Position(ps[j])
    ensures forall i :: 0 <= i < |ps| ==> Position(ps[i]) >= k
    decreases |LabelOrder| - k
  {
    if k == |LabelOrder| then []
    else
      var s, rest := LabelOrder[k], PresentFrom(segs, k + 1);
      assert Position(s) == k;
      if s in segs then [s] + rest else rest
  }

  /** The number of distinct customers in segment `s` (`nunique`). */
  function CustomerCount(table: seq<RfmEntry>, s: Segment): nat
  {
    |set c | c in CustomersIn(table, s)|
  }

  lemma CustomerCountPositive(table: seq<RfmEntry>, s: Segment)
    requires s in Segments(table)
    ensures CustomerCount(table, s) >= 1
  {
    var j :| 0 <= j < |table| && Segments(table)[j] == s;
    var customers := set c | c in CustomersIn(table, s);
    assert table[j].customer in customers;
    assert customers != {};
  }

  /** `customer_segments`: one row per segment that has customers, in label order,
      holding the number of distinct customers in it. */
  function SegmentCounts(table: seq<RfmEntry>): (counts: seq<Entry<Segment>>)
    ensures forall i, j :: 0 <= i < j < |counts| ==> Position(counts[i].key) < Position(counts[j].key)
    ensures forall s :: HasKey(counts, s) <==> s in Segments(table)
    ensures forall i :: 0 <= i < |counts| ==> counts[i].count == CustomerCount(table, counts[i].key) >= 1
  {
    var present := PresentFrom(Segments(table), 0);
    var counts := CountRows(table, present);
    KeysOfTable(counts, present);
    counts
  }

  /** One count row per segment of `ps`, in that order. */
  function CountRows(table: seq<RfmEntry>, ps: seq<Segment>): (counts: seq<Entry<Segment>>)
    requires forall i :: 0 <= i < |ps| ==> ps[i] in Segments(table)
    ensures |counts| == |ps|
    ensures forall i :: 0 <= i < |ps| ==> counts[i].key == ps[i] && counts[i].count == CustomerCount(table, ps[i]) >= 1
  {
    if ps == [] then []
    else
      CustomerCountPositive(table, ps[0]);
      [Entry(ps[0], CustomerCount(table, ps[0]))] + CountRows(table, ps[1..])
  }

  /** Segment `s` lists one customer per entry in it. */
  lemma {:induction false} CustomersInLength(table: seq<RfmEntry>, s: Segment)
    ensures |CustomersIn(table, s)| == Occurrences(Segments(table), s)
  {
    if table != [] {
      var init := table[..|table| - 1];
      CustomersInLength(init, s);
      assert Segments(init) == Segments(table)[..|table| - 1];
    }
  }

  /** When the table's customers are distinct, so are the customers of each segment. */
  lemma {:induction false} CustomersInDistinct(table: seq<RfmEntry>, s: Segment)
    requires NoDuplicates(TableCustomers(table))
    ensures NoDuplicates(CustomersIn(table, s))
  {
    if table != [] {
      var init, last := table[..|table| - 1], table[|table| - 1];
      assert NoDuplicates(TableCustomers(init)) by {
        assert forall j :: 0 <= j < |init| ==> TableCustomers(init)[j] == TableCustomers(table)[j];
      }
      CustomersInDistinct(init, s);
      assert forall j :: 0 <= j < |init| ==> init[j].customer != last.customer by {
        forall j | 0 <= j < |init| ensures init[j].customer != last.customer {
          assert TableCustomers(table)[j] == init[j].customer;
          assert TableCustomers(table)[|table| - 1] == last.customer;
        }
      }
      assert last.customer !in CustomersIn(init, s);
    }
  }

  /** With distinct customers, each segment row counts the entries in its segment. */
  lemma SegmentCountsAreOccurrences(table: seq<RfmEntry>)
    requires NoDuplicates(TableCustomers(table))
    ensures |SegmentCounts(table)| == |PresentFrom(Segments(table), 0)|
    ensures forall i :: 0 <= i < |SegmentCounts(table)| ==>
              SegmentCounts(table)[i].key == PresentFrom(Segments(table), 0)[i] &&
              SegmentCounts(table)[i].count == Occurrences(Segments(table), SegmentCounts(table)[i].key)
  {
    var counts := SegmentCounts(table);
    forall i | 0 <= i < |counts|
      ensures counts[i].count == Occurrences(Segments(table), counts[i].key)
    {
      CustomersInLength(table, counts[i].key);
      CustomersInDistinct(table, counts[i].key);
      DistinctCardinality(CustomersIn(table, counts[i].key));
    }
  }

  /** Every customer of the table is counted in exactly one segment row. */
  lemma SegmentCountsTotal(table: seq<RfmEntry>)
    requires NoDuplicates(TableCustomers(table))
    ensures TotalCount(SegmentCounts(table)) == |table|
  {
    var segs := Segments(table);
    var present := PresentFrom(segs, 0);
    SegmentCountsAreOccurrences(table);
    TotalOfGroupSizes(SegmentCounts(table), present, segs);
    assert NoDuplicates(present);
    CoveringGroupsSum(present, segs);
  }

  // ---- the page's data (lines 124-141) ----

  /** Everything the page plots or prints, computed from the rows in the window. */
  datatype Summary = Summary(
    categories: seq<Entry<string>>,
    ratings: seq<Entry<int>>,
    monthlyOrders: seq<MonthCount>,
    monthlyRevenue: seq<MonthRevenue>,
    rfm: seq<RfmEntry>,
    segments: seq<Entry<Segment>>,
    totalOrders: nat,
    totalCustomers: nat,
    totalRevenue: real)

  /** The order column. */
  function OrderIds(rows: seq<Row>): seq<string>
  {
    seq(|rows|, i requires 0 <= i < |rows| => rows[i].order)
  }

  /** A column of a non-empty frame has between one and as many distinct values as rows. */
  lemma DistinctValuesBounds(ks: seq<string>)
    requires ks != []
    ensures 1 <= |set k | k in ks| <= |ks|
  {
    CountOfDistinct(ks);
    assert ks[0] in Distinct(ks);
  }

  /** The set-up block for the window from `startDay` to `endDay`. It fails exactly when
      the window holds no rows, which is when building the RFM table fails. Otherwise
      each customer counted in the headline has one RFM row and one segment count, every
      row of the window adds one to the frequency of its customer, the revenue splits over
      the customers' monetary values, and the monthly series and the rating table account
      for every approved and every rated row. */
  function Build(all: seq<Row>, startDay: int, endDay: int): (r: Result<Summary, RfmError>)
    ensures r.Success? <==> Filter(all, startDay, endDay) != []
    ensures r.Success? ==> r.value.totalCustomers == |r.value.rfm| == TotalCount(r.value.segments)
    ensures r.Success? ==> 1 <= r.value.totalCustomers <= |Filter(all, startDay, endDay)|
    ensures r.Success? ==> 1 <= r.value.totalOrders <= |Filter(all, startDay, endDay)|
    ensures r.Success? ==> TotalFrequency(r.value.rfm) == |Filter(all, startDay, endDay)|
    ensures r.Success? ==> TotalMonetary(r.value.rfm) == r.value.totalRevenue
    ensures r.Success? ==> TotalCount(r.value.ratings) == |Scores(Filter(all, startDay, endDay))|
    ensures r.Success? ==> TotalOrders(r.value.monthlyOrders) == ApprovedCount(Filter(all, startDay, endDay))
    ensures r.Success? ==> TotalRevenue(r.value.monthlyRevenue) == ApprovedRevenue(Filter(all, startDay, endDay))
  {
    var main := Filter(all, startDay, endDay);
    FilteredArePurchased(all, startDay, endDay);
    match CreateRfm(main)
    case Failure(e) => Failure(e)
    case Success(rfm) =>
      SegmentCountsTotal(rfm);
      DistinctValuesBounds(Customers(main));
      DistinctValuesBounds(OrderIds(main));
      Success(Summary(
        SumOrderItems(main),
        Ratings(main),
        MonthlyOrders(main, CalendarMonth),
        MonthlyRevenue(main, CalendarMonth),
        rfm,
        SegmentCounts(rfm),
        |set o | o in OrderIds(main)|,
        |set c | c in Customers(main)|,
        TotalPrice(main)))
  }
}
