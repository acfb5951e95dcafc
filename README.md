# RFM dashboard data set-up, modelled in Dafny

The dashboard (`dashboard/dashboard.py`) is a Streamlit page over the rows of a
merged e-commerce order-items table. Each row carries a customer id, an order id,
a purchase timestamp, an approval timestamp, a price, a product category and a
review score. The user picks a date window. The page then derives:

- the rows in the window;
- the number of distinct orders per product category, largest first;
- the review-score histogram, largest first;
- the monthly order count and monthly revenue over approval months;
- the per-customer RFM table: recency, frequency and monetary value, a 0..5
  score per measure, their mean, and a segment;
- the number of distinct customers per segment;
- three headline totals: distinct orders, distinct customers, revenue.

This project models that data set-up as pure Dafny functions over a sequence of
rows, and proves what each derived table says about the rows it came from. The
source is pandas column code without explicit loops or in-place updates of its
input, so the model has no classes or methods.

Modules, in dependency order:

- `Orders` (`orders.dfy`): the row type, `Option`/`Result`, and calendar
  arithmetic. It covers the day of a timestamp, the proleptic Gregorian month of
  a day (civil-from-days and days-from-civil), and `YYYY-MM` labels.
- `Window` (`window.dfy`): the date-window filter.
- `Tally` (`tally.dfy`): distinct keys, occurrence counts, count tables and
  their descending sort.
- `Aggregates` (`aggregates.dfy`): orders per category and the rating histogram.
- `Monthly` (`monthly.dfy`): the monthly order and revenue series.
- `Ranking` (`ranking.dfy`): pandas' average rank in descending order, and
  min-max normalisation to 0..5.
- `Rfm` (`rfm.dfy`): the RFM measures, scores, segments and the table.
- `Dashboard` (`dashboard.dfy`): customers per segment, the headline totals,
  and `Build`, the whole set-up block for one window.

Representation choices:

- Timestamps are integer seconds. A day is the timestamp divided by 86 400,
  rounded down. That is `.dt.date`, and also the midnight against which the
  window compares.
- A missing timestamp, category or review score (NaT or NaN after parsing) is
  `None`.
- Prices and scores are mathematical reals, not IEEE doubles.
- A normalised score that pandas computes as 0/0 (NaN) is `None`.

Behaviour as written, which the model keeps:

- Every measure is ranked with `ascending=False`. So the largest frequency and
  the largest monetary value score 0, and the smallest score 5. For recency the
  largest value (the oldest last purchase) scores 0 and the most recent scores 5.
- When all customers tie on a measure, its normalisation divides 0 by 0. Every
  score of that measure is then NaN. So is every RFM score, and the segmentation
  puts every customer in `Lost`. A window with a single customer is such a case.
- Take three customers with (frequency, monetary, recency) = (5, 500, 0),
  (3, 300, 10) and (1, 100, 30). They get RFM scores 5/3, 2.5 and 10/3. Their
  segments are `Lost`, `About To Sleep` and `Promising`. The customer who is
  best on every measure ends up `Lost` (`Rfm.BestCustomerIsLost` proves this
  for any three customers ordered that way).
- The window compares timestamps against 00:00 of both chosen dates. The end
  date therefore admits only purchases made at exactly midnight.
- A window with no rows leaves no customer row to segment at line 87, and the
  page shows its error message instead of the data; `Rfm.CreateRfm` and `Build`
  return `Failure` for it.

## Model

| member | source | states |
|---|---|---|
| `Orders.DayOf` | dashboard/dashboard.py:54-55 | the date of a timestamp is the day whose midnight-to-midnight interval holds it |
| `Orders.DayOfMonotone` | dashboard/dashboard.py:54-55 | a later timestamp never falls on an earlier date, so the date of the latest purchase is the latest date |
| `Orders.MonthFromIndex` | dashboard/dashboard.py:26 | every month number names one valid calendar month with that number |
| `Orders.MonthIndexInjective` | dashboard/dashboard.py:30 | distinct calendar months get distinct month numbers, so monthly buckets never merge |
| `Orders.YearOfEra` | dashboard/dashboard.py:26 | the year-of-era of a day of a 400-year era lies in 0..399 |
| `Orders.DayOfYearBound` | dashboard/dashboard.py:26 | the day left after removing whole years of an era is a day of a (possibly leap) year, 0..365 |
| `Orders.ShiftedMonth` | dashboard/dashboard.py:26 | a day of a March-based year falls in one of its 12 months |
| `Orders.MonthOfDay` | dashboard/dashboard.py:26 | every day lies in a valid calendar month; `Orders.MonthOfDayWithin` shows it is the month whose span holds the day |
| `Orders.MonthInEra` | dashboard/dashboard.py:26 | a day of a 400-year era lies in a valid calendar month |
| `Orders.CivilMonth` | dashboard/dashboard.py:26 | months counted from March map to valid calendar months, January and February of the next year |
| `Orders.YearOfEraRecovered` | dashboard/dashboard.py:26 | the first day of any month of year `yoe` of an era maps back to year `yoe` |
| `Orders.ShiftedMonthRecovered` | dashboard/dashboard.py:26 | the first day of March-based month `mp` maps back to month `mp` |
| `Orders.MonthInEraOfFirstDay` | dashboard/dashboard.py:26 | the first day of a month of an era is assigned that month |
| `Orders.MonthOfFirstDayInEra` | dashboard/dashboard.py:26 | day-from-month followed by month-of-day gives back the month, for any era |
| `Orders.MonthOfFirstDay` | dashboard/dashboard.py:26 | for every valid month, its first day is bucketed into that very month (the calendar round trip) |
| `Orders.CalendarMonth` | dashboard/dashboard.py:26 | a timestamp's bucket number names the calendar month of its date |
| `Orders.YearOfEraWithin` | dashboard/dashboard.py:26 | every day of a year of an era, up to the start of the next year, is read back as that year |
| `Orders.YearLength` | dashboard/dashboard.py:26 | a year has 365 days, or 366 when it ends with a leap February |
| `Orders.ShiftedMonthWithin` | dashboard/dashboard.py:26 | every day of a month counted from March, not only its first, is read back as that month; February runs to the year's end |
| `Orders.CivilMonthIndex` | dashboard/dashboard.py:26 | consecutive March-based months of consecutive years are consecutive calendar months |
| `Orders.FirstDayOfCivil` | dashboard/dashboard.py:26 | the month built from an era, year and March-based month starts on the day computed from them |
| `Orders.CivilOfMonth` | dashboard/dashboard.py:26 | every valid month is the month built from its era, year and March-based month |
| `Orders.DayOfEraParts` | dashboard/dashboard.py:26 | a day between the first days of two consecutive months reads back as the year and month of the first |
| `Orders.DayInMonthOfEra` | dashboard/dashboard.py:26 | such a day lies in that month |
| `Orders.MonthOfDayWithin` | dashboard/dashboard.py:26 | every day from a month's first day up to the next month's first day lies in that month, so each monthly bucket is exactly its calendar month |
| `Orders.EpochIsFirstOfJanuary1970` | dashboard/dashboard.py:26 | day 0 of the timestamps is 1 January 1970 |
| `Orders.Digit` | dashboard/dashboard.py:30 | a digit character has the decimal value it stands for |
| `Orders.MonthLabel` | dashboard/dashboard.py:30 | a `YYYY-MM` label has seven characters, digits around one dash |
| `Orders.LabelRoundTrip` | dashboard/dashboard.py:40 | parsing a month's label gives back that month, so labels identify months |
| `Window.Filter` | dashboard/dashboard.py:124 | exactly the rows in the window are kept, and no others |
| `Window.FilteredArePurchased` | dashboard/dashboard.py:124 | every kept row has a purchase timestamp (NaT compares false) |
| `Window.FilterConcat` | dashboard/dashboard.py:124 | filtering keeps row order: the filter of a concatenation concatenates the filtered parts |
| `Window.FilterSingle` | dashboard/dashboard.py:124 | one row is kept exactly when it is in the window |
| `Window.FilterMultiset` | dashboard/dashboard.py:124 | each row in the window is kept as often as it occurs; others not at all |
| `Window.FilterIdempotent` | dashboard/dashboard.py:124 | filtering twice with the same window changes nothing |
| `Window.WindowInDays` | dashboard/dashboard.py:124 | a kept purchase falls between the start and end dates; on the end date only at 00:00; every day strictly before the end date is fully kept |
| `Window.EmptyWhenReversed` | dashboard/dashboard.py:124 | a start date after the end date keeps no rows |
| `Tally.Distinct` | dashboard/dashboard.py:15 | the group keys: no duplicates, exactly the keys present, never more than the rows |
| `Tally.Occurrences` | dashboard/dashboard.py:22 | a key's count is at most the number of rows, and positive exactly when it occurs |
| `Tally.OccurrencesAreMultiplicity` | dashboard/dashboard.py:22 | a key's count is its multiplicity in the column's multiset, as `value_counts` counts |
| `Tally.OccurrencesOverAppendKey` | dashboard/dashboard.py:22 | adding a row adds one to the summed counts of the distinct keys exactly when its key is among them |
| `Tally.OccurrencesOverAppendGroup` | dashboard/dashboard.py:22 | adding a group adds its own count to the sum of group sizes |
| `Tally.GroupSizesSum` | dashboard/dashboard.py:22 | the group sizes of all distinct keys add up to the number of rows |
| `Tally.CoveringGroupsSum` | dashboard/dashboard.py:131 | distinct groups that cover every row have sizes adding up to the number of rows |
| `Tally.OccurrencesOverNothing` | dashboard/dashboard.py:22 | no rows give groups of size 0 |
| `Tally.DistinctCardinality` | dashboard/dashboard.py:131 | a duplicate-free column has as many distinct values (`nunique`) as entries |
| `Tally.CountOfDistinct` | dashboard/dashboard.py:139 | the number of group keys is the number of distinct values (`nunique`) |
| `Tally.KeysOfTable` | dashboard/dashboard.py:15-17 | a table built key by key from a key list has exactly those keys |
| `Tally.CountEach` | dashboard/dashboard.py:22 | one entry per key, holding that key's number of rows; the entries add up to the rows counted |
| `Tally.TotalOfGroupSizes` | dashboard/dashboard.py:131 | a table holding group sizes totals the summed group sizes |
| `Tally.Insert` | dashboard/dashboard.py:17 | inserting into a table sorted by descending count keeps it sorted, one longer |
| `Tally.InsertAdds` | dashboard/dashboard.py:17 | insertion adds exactly the new entry and its count, and loses nothing |
| `Tally.SortDesc` | dashboard/dashboard.py:17 | `sort_values(ascending=False)`: sorted by descending count, a permutation of its input, same total |
| `Tally.InsertKeepsKeysDistinct` | dashboard/dashboard.py:17 | inserting a new key keeps keys unique |
| `Tally.ConsKeysDistinct` | dashboard/dashboard.py:17 | prefixing an entry with a new key keeps keys unique |
| `Tally.SortKeepsKeysDistinct` | dashboard/dashboard.py:17 | sorting keeps one row per key |
| `Tally.SortedEntryFrom` | dashboard/dashboard.py:17 | every sorted entry is an entry of the unsorted table |
| `Tally.PermutationKeepsKeys` | dashboard/dashboard.py:17 | a reordering has the same keys |
| `Aggregates.Categories` | dashboard/dashboard.py:15 | the grouping keys are exactly the categories present (a missing category forms no group) |
| `Aggregates.CategoryTable` | dashboard/dashboard.py:15-16 | each category gets its number of distinct order ids (`nunique`) |
| `Aggregates.CategoryGroups` | dashboard/dashboard.py:15-16 | one group per category present, each with at least one distinct order |
| `Aggregates.SumOrderItems` | dashboard/dashboard.py:14-19 | one row per category present, no category twice, holding its number of distinct orders, sorted largest first |
| `Aggregates.Scores` | dashboard/dashboard.py:22 | the counted values are exactly the review scores present (NaN is not counted) |
| `Aggregates.ScoreGroups` | dashboard/dashboard.py:22 | one group per score present with its row count; the counts add up to the scored rows |
| `Aggregates.Ratings` | dashboard/dashboard.py:21-23 | `value_counts` sorted descending: each score present once with its number of rows, sorted, adding up to the scored rows |
| `Monthly.FirstMonth` | dashboard/dashboard.py:26 | the earliest approval month: present exactly when some row is approved, it occurs, and no approval is earlier |
| `Monthly.LastMonth` | dashboard/dashboard.py:26 | the latest approval month: present exactly when some row is approved, it occurs, and no approval is later |
| `Monthly.OrderSeries` | dashboard/dashboard.py:26-28 | one bucket per consecutive month of a range, each counting the rows approved in it |
| `Monthly.RevenueSeries` | dashboard/dashboard.py:36-38 | one bucket per consecutive month of a range, each summing the prices of the rows approved in it |
| `Monthly.MonthlyOrders` | dashboard/dashboard.py:25-33 | empty exactly when nothing is approved; otherwise every month from the first to the last approval month, in order, each with its count (0 for a gap month), adding up to the approved rows |
| `Monthly.OrderSeriesCovers` | dashboard/dashboard.py:26-28 | the buckets from the first to the last approval month hold every approved row |
| `Monthly.MonthlyRevenue` | dashboard/dashboard.py:35-43 | the same months, each with its revenue (0 for a gap month), adding up to the price sum of the approved rows |
| `Monthly.RevenueSeriesCovers` | dashboard/dashboard.py:36-38 | the buckets from the first to the last approval month hold all approved revenue |
| `Monthly.FirstNotAfterLast` | dashboard/dashboard.py:26 | the first approval month is not after the last |
| `Monthly.OrdersSplit` | dashboard/dashboard.py:27 | the count over a month range is the first month's count plus the rest's |
| `Monthly.RevenueSplit` | dashboard/dashboard.py:37 | the revenue over a month range is the first month's revenue plus the rest's |
| `Monthly.OrdersEmptyRange` | dashboard/dashboard.py:27 | an empty month range counts no rows |
| `Monthly.RevenueEmptyRange` | dashboard/dashboard.py:37 | an empty month range has no revenue |
| `Monthly.OrderSeriesTotal` | dashboard/dashboard.py:26-28 | the buckets of a range add up to the rows approved in that range |
| `Monthly.RevenueSeriesTotal` | dashboard/dashboard.py:36-38 | the bucket revenues of a range add up to the revenue approved in that range |
| `Monthly.AllInRangeOrders` | dashboard/dashboard.py:26-28 | a range covering every approval month counts every approved row |
| `Monthly.AllInRangeRevenue` | dashboard/dashboard.py:36-38 | a range covering every approval month holds all approved revenue |
| `Monthly.ApprovedCountNone` | dashboard/dashboard.py:26-28 | with nothing approved there is nothing to count |
| `Monthly.ApprovedRevenueNone` | dashboard/dashboard.py:36-38 | with nothing approved there is no revenue |
| `Monthly.EmptyMonth` | dashboard/dashboard.py:26-28 | a month counts 0 exactly when no row is approved in it, and then its revenue is 0 |
| `Ranking.CountsWithin` | dashboard/dashboard.py:60-62 | larger and tied values together are at most all values; a present value ties with itself |
| `Ranking.CountAboveGrows` | dashboard/dashboard.py:60-62 | a smaller value has at least the larger and tied values of a bigger one above it |
| `Ranking.RankDesc` | dashboard/dashboard.py:60-62 | `rank(ascending=False)`: ranks lie in 1..n, tied values share a rank, a larger value has a strictly smaller rank |
| `Ranking.CountsAppend` | dashboard/dashboard.py:60-62 | one more value adds one to the count above, or to the count tied, exactly when it is above or tied |
| `Ranking.PositionsAppend` | dashboard/dashboard.py:60-62 | one more value adds its position to the positions above, or tied, exactly when it is above or tied |
| `Ranking.CountsArePositions` | dashboard/dashboard.py:60-62 | the counts above and tied are the numbers of positions holding a larger and an equal value |
| `Ranking.RankIsMeanPosition` | dashboard/dashboard.py:60-62 | the default tie rule: a value ranks after the `a` larger values and takes the mean `a + (k + 1) / 2` of the `k` positions its ties occupy |
| `Ranking.RanksWithTie` | dashboard/dashboard.py:60-62 | the ranks of 3, 2, 2, 1 are 1, 2.5, 2.5, 4: a tie takes the mean of its positions, not the lowest |
| `Ranking.Min` | dashboard/dashboard.py:64-66 | `min()` is a value of the column and no value is smaller |
| `Ranking.Max` | dashboard/dashboard.py:64-66 | `max()` is a value of the column and no value is larger |
| `Ranking.FractionBounds` | dashboard/dashboard.py:64-66 | `(r - min) / (max - min)` lies in [0, 1]; it is 0 at the minimum and 1 at the maximum |
| `Ranking.FractionStrict` | dashboard/dashboard.py:64-66 | dividing by a positive span keeps a strict order |
| `Ranking.Scale` | dashboard/dashboard.py:64-66 | a normalised value lies in [0, 5]; it is 0 exactly at the minimum and 5 exactly at the maximum |
| `Ranking.ScaleMonotone` | dashboard/dashboard.py:64-66 | normalisation is strictly increasing |
| `Ranking.SameIffExtremesMeet` | dashboard/dashboard.py:64-66 | the span `max - min` is 0 exactly when all values tie |
| `Ranking.NormaliseValue` | dashboard/dashboard.py:64-66 | one value normalised: NaN exactly when the span is 0, else in [0, 5] with 0 and 5 at the extremes |
| `Ranking.NormaliseAll` | dashboard/dashboard.py:64-66 | the whole column normalised against one minimum and maximum, element by element |
| `Ranking.NormaliseAllOrder` | dashboard/dashboard.py:64-66 | with a positive span a larger value normalises strictly larger |
| `Ranking.Normalise` | dashboard/dashboard.py:64-66 | all NaN when the values tie; otherwise every score in [0, 5], 0 exactly at the minimum, 5 exactly at the maximum, ties equal, strictly increasing |
| `Ranking.RanksSameIffValuesSame` | dashboard/dashboard.py:60-66 | the ranks all tie exactly when the values do |
| `Ranking.ExtremeRanks` | dashboard/dashboard.py:60-66 | a largest value gets the smallest rank and a smallest value the largest |
| `Ranking.MeasureScores` | dashboard/dashboard.py:60-70 | a measure's score column: defined exactly when the values do not all tie, and then in [0, 5] |
| `Ranking.MeasureScoreOrder` | dashboard/dashboard.py:60-66 | equal measures score alike; a strictly larger measure scores strictly lower |
| `Ranking.RankScores` | dashboard/dashboard.py:60-66 | rank-then-normalise: NaN when tied, else in [0, 5], ties equal, larger value strictly lower |
| `Ranking.ExtremeScores` | dashboard/dashboard.py:60-66 | a largest value scores exactly 0 and a smallest exactly 5 |
| `Ranking.RanksOfThree` | dashboard/dashboard.py:60-62 | three distinct values rank 1, 2, 3 from the largest |
| `Ranking.NormaliseUp` | dashboard/dashboard.py:64-66 | ranks 1, 2, 3 normalise to 0, 2.5, 5 |
| `Ranking.NormaliseDown` | dashboard/dashboard.py:64-66 | ranks 3, 2, 1 normalise to 5, 2.5, 0 |
| `Ranking.ThreeDistinctScores` | dashboard/dashboard.py:60-66 | three distinct values score 0, 2.5, 5 from the largest |
| `Rfm.Customers` | dashboard/dashboard.py:46 | the column grouped by: one entry per row, each that row's customer id |
| `Rfm.RowsOf` | dashboard/dashboard.py:46 | a customer's group holds exactly that customer's rows |
| `Rfm.LatestPurchase` | dashboard/dashboard.py:47 | the group's `max` timestamp occurs in the group and no row is later |
| `Rfm.RecentDay` | dashboard/dashboard.py:55 | `recent_date` is a purchase date of some row and no purchase date is later |
| `Rfm.CustomerHasRows` | dashboard/dashboard.py:46 | every customer present has a non-empty group, purchased throughout |
| `Rfm.CustomerLatestDay` | dashboard/dashboard.py:54 | the date of a customer's latest purchase is the latest date among that customer's rows, and some row falls on it |
| `Rfm.CustomerIds` | dashboard/dashboard.py:46 | one id per distinct customer: duplicate-free and exactly the customers present |
| `Rfm.MeasuresOf` | dashboard/dashboard.py:46-57 | one measures row per distinct customer, in id order, carrying that customer's recency, frequency and monetary value |
| `Rfm.FrequencyIsGroupSize` | dashboard/dashboard.py:48 | frequency (`size`) is the number of rows with that customer id |
| `Rfm.FrequenciesSum` | dashboard/dashboard.py:48 | the frequencies of all customers add up to the number of rows |
| `Rfm.MonetaryOverAppendRow` | dashboard/dashboard.py:49 | one more row adds its price to the monetary sum of its customer only |
| `Rfm.MonetaryOverAppendCustomer` | dashboard/dashboard.py:49 | one more customer adds that customer's monetary value |
| `Rfm.NoRowsNoSpending` | dashboard/dashboard.py:49 | a customer without rows has monetary value 0 |
| `Rfm.MonetaryAppendRow` | dashboard/dashboard.py:49 | one more row adds its price to its own customer's monetary value |
| `Rfm.SpendingSum` | dashboard/dashboard.py:49 | the customers' monetary values add up to the price sum of all rows |
| `Rfm.RecencyBounds` | dashboard/dashboard.py:54-56 | recency is never negative, and 0 exactly when the customer bought on the latest purchase date |
| `Rfm.RfmScore` | dashboard/dashboard.py:72 | the mean is NaN exactly when a score is NaN, lies between the smallest and largest score, and in [0, 5] when they do |
| `Rfm.SegmentNamesDistinct` | dashboard/dashboard.py:77-85 | the five segment labels are pairwise different |
| `Rfm.Classify` | dashboard/dashboard.py:75-87 | a NaN score is `Lost` (every comparison with NaN is false) |
| `Rfm.ClassifyBands` | dashboard/dashboard.py:75-87 | each segment is exactly its band: above 4.5; (4, 4.5]; (3, 4]; (2, 3]; at most 2 |
| `Rfm.ClassifyMonotone` | dashboard/dashboard.py:75-87 | a higher score never lands in a worse segment |
| `Rfm.Score` | dashboard/dashboard.py:59-87 | one entry per customer carrying its measures; the segment is the classification of the RFM score; that score is defined exactly when all three measure scores are, and then lies in [0, 5] |
| `Rfm.Scored` | dashboard/dashboard.py:68-87 | one customer's row: the measures and scores copied in, the mean and its segment |
| `Rfm.ScoreColumns` | dashboard/dashboard.py:60-73 | each score column is its measure ranked and normalised, and the RFM score is their mean |
| `Rfm.ScoresDefinedUnlessTied` | dashboard/dashboard.py:64-66 | a measure's score is defined exactly when not all customers tie on it |
| `Rfm.ScoreOrder` | dashboard/dashboard.py:60-66 | equal measures score alike; a strictly larger recency, frequency or monetary value scores strictly lower |
| `Rfm.ExtremeFrequency` | dashboard/dashboard.py:61 | as written, the largest frequency scores 0 and the smallest 5 |
| `Rfm.ExtremeMonetary` | dashboard/dashboard.py:62 | as written, the largest monetary value scores 0 and the smallest 5 |
| `Rfm.ExtremeRecency` | dashboard/dashboard.py:60 | the most recent customer scores 5 and the least recent 0 |
| `Rfm.TiedMeasureMeansLost` | dashboard/dashboard.py:64-87 | if all customers tie on any measure, every RFM score is NaN and every customer is `Lost` |
| `Rfm.SingleCustomerIsLost` | dashboard/dashboard.py:64-87 | a lone customer has three NaN scores and is `Lost` |
| `Rfm.BestCustomerIsLost` | dashboard/dashboard.py:60-87 | three customers strictly ordered on all measures score 5/3, 2.5, 10/3 and are `Lost`, `About To Sleep`, `Promising`; the best one is `Lost` |
| `Rfm.MeansOfThreeScores` | dashboard/dashboard.py:72-87 | the means and segments of the score triples (5,0,0), (2.5,2.5,2.5), (0,5,5) |
| `Rfm.ScoredEntry` | dashboard/dashboard.py:72-87 | an entry's RFM score and segment follow from its three measure scores |
| `Rfm.ThreeMeasureScores` | dashboard/dashboard.py:60-66 | those three customers' measure scores, per measure |
| `Rfm.TableTotals` | dashboard/dashboard.py:48-49 | a table carrying per-customer measures totals the group sizes and the monetary sum |
| `Rfm.TableCustomersOf` | dashboard/dashboard.py:46 | the RFM table has one row per distinct customer, in first-appearance order |
| `Rfm.TableColumns` | dashboard/dashboard.py:46-56 | every row's frequency is its customer's row count (at least 1), and its recency is at least 0 |
| `Rfm.TableSums` | dashboard/dashboard.py:48-49 | the frequencies add up to the number of rows and the monetary values to the total price |
| `Rfm.TableMeasures` | dashboard/dashboard.py:46-57 | row `i` carries the recency, frequency and monetary value of the `i`-th distinct customer |
| `Rfm.TableRecency` | dashboard/dashboard.py:54-56 | a row's recency is 0 exactly when its customer bought on the latest purchase date |
| `Rfm.TableScores` | dashboard/dashboard.py:68-87 | a row's RFM score is the mean of its three scores, in 0..5 when defined, and its segment classifies that score |
| `Rfm.CreateRfm` | dashboard/dashboard.py:45-89 | fails exactly on no rows; otherwise one row per distinct customer, no customer twice, exactly the customers present; each row's frequency is its row count, its monetary value its price sum, its recency 0 exactly when it bought on the latest date; its RFM score is the mean of its scores and its segment classifies that score; frequencies and monetary values add up to the row count and the total price |
| `Dashboard.Position` | dashboard/dashboard.py:130 | each segment has a place in the sorted label order |
| `Dashboard.LabelOrderSorted` | dashboard/dashboard.py:130 | that order is the lexicographic order of the labels, which is `groupby`'s |
| `Dashboard.CustomersIn` | dashboard/dashboard.py:131 | the customers listed for a segment are exactly those of its rows |
| `Dashboard.PresentFrom` | dashboard/dashboard.py:130 | the segments present, each once, in label order |
| `Dashboard.CustomerCountPositive` | dashboard/dashboard.py:131 | a present segment has at least one customer |
| `Dashboard.CountRows` | dashboard/dashboard.py:130-132 | one row per listed segment, holding its `nunique` customer count |
| `Dashboard.SegmentCounts` | dashboard/dashboard.py:130-132 | one row per segment present, in label order, holding its distinct-customer count of at least 1 |
| `Dashboard.CustomersInLength` | dashboard/dashboard.py:131 | a segment lists one customer per row in it |
| `Dashboard.CustomersInDistinct` | dashboard/dashboard.py:131 | with distinct customers, a segment's customers are distinct |
| `Dashboard.SegmentCountsAreOccurrences` | dashboard/dashboard.py:130-132 | each segment's `nunique` count is its number of rows |
| `Dashboard.SegmentCountsTotal` | dashboard/dashboard.py:130-132 | the per-segment counts add up to the number of customers: each customer is counted in exactly one segment |
| `Dashboard.DistinctValuesBounds` | dashboard/dashboard.py:137-139 | a non-empty column has between 1 and as many distinct values as rows |
| `Dashboard.Build` | dashboard/dashboard.py:124-141 | fails exactly on an empty window; otherwise the customer total equals the RFM rows and the segment counts, both totals lie between 1 and the window's rows, the frequencies add up to the window's rows, the monetary values to the revenue total, the ratings to the scored rows, and the monthly series to the approved rows and revenue |

## Left out

- Reading the CSV and parsing timestamps are left out. The model starts from parsed rows, in which an unparsable timestamp is `None`.
- The Streamlit page is left out: the sidebar, the date picker and its one-date case, headers, metrics, the charts, and `format_currency`. `Build` returns the data they display.
- Rfm.CreateRfm / Dashboard.Build: `Failure` on an empty window stands in for the error message the page's `try`/`except` shows. Which pandas call raises on an empty frame (the row-wise `apply` of line 87 returns a frame rather than a column when there is no row) is pandas behaviour and is not modelled.
- Monthly.MonthlyOrders and Monthly.MonthlyRevenue: a non-empty window in which no row has an approval timestamp gives an empty series here. pandas' resample over an all-NaT column may raise instead, which would send the page to its error message; `Build` does not model that case and returns `Success`.
- Floating point is not modelled. Prices and scores are exact reals, and a NaN score is `None`.
- Row order of grouped tables is not modelled. `groupby` sorts its groups by key, while the model lists categories, scores and customers in order of first appearance. The segment counts are the exception: they follow the label order, which is proved sorted.
- Monthly.MonthlyOrders: months are identified by number and `Month`; the `YYYY-MM` text index is `Orders.MonthLabel`, and `Orders.LabelRoundTrip` shows it identifies the month. Years beyond 0..9999 are not labelled.
- Monthly.MonthlyOrders and Monthly.MonthlyRevenue take the month of a timestamp as a parameter. `Dashboard.Build` passes `Orders.CalendarMonth`, and no monthly property depends on which function is passed.
- Tally.SortDesc: `sort_values` uses an unstable sort. The model's insertion sort places equal counts in one particular order, and only sortedness and permutation are promised.
- Rfm.CreateRfm requires every row to carry a purchase timestamp. Its only caller passes the window-filtered rows, and `Window.FilteredArePurchased` proves they all do.
- Customer ids, order ids and prices are never missing in the model, so grouping never drops a row for a missing key.
- pandas' resample over an empty frame, and the timezone of timestamps, are not modelled. Timestamps are naive seconds.
