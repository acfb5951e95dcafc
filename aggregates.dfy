/** The two count tables of the dashboard: distinct orders per product category
    (dashboard/dashboard.py:14-19) and the review-score histogram
    (dashboard/dashboard.py:21-23). */
module Aggregates {
  import opened Orders
  import opened Tally

  // ---- orders per category ----

  predicate HasCategory(rows: seq<Row>, c: string)
  {
    exists i :: 0 <= i < |rows| && rows[i].category == Some(c)
  }

  /** The category of each row that has one, in row order (grouping drops a
      missing key). */
  function Categories(rows: seq<Row>): (cs: seq<string>)
    ensures forall c :: c in cs <==> HasCategory(rows, c)
  {
    if rows == [] then []
    else
      var head := match rows[0].category case Some(c) => [c] case None => [];
      var rest := Categories(rows[1..]);
      assert forall c :: HasCategory(rows, c) <==> rows[0].category == Some(c) || HasCategory(rows[1..], c) by {
        forall c ensures HasCategory(rows, c) ==> rows[0].category == Some(c) || HasCategory(rows[1..], c) {
          if HasCategory(rows, c) && rows[0].category != Some(c) {
            var i :| 0 <= i < |rows| && rows[i].category == Some(c);
            assert rows[1..][i - 1] == rows[i];
          }
        }
        forall c ensures HasCategory(rows[1..], c) ==> HasCategory(rows, c) {
          if HasCategory(rows[1..], c) {
            var i :| 0 <= i < |rows[1..]| && rows[1..][i].category == Some(c);
            assert rows[i + 1] == rows[1..][i];
          }
        }
      }
      head + rest
  }

  /** The distinct order ids among the rows of category `c` (`nunique` of `order_id`). */
  function OrdersInCategory(rows: seq<Row>, c: string): set<string>
  {
    set i | 0 <= i < |rows| && rows[i].category == Some(c) :: rows[i].order
  }

  function CategoryTable(cs: seq<string>, rows: seq<Row>): (es: seq<Entry<string>>)
    ensures |es| == |cs|
    ensures forall i :: 0 <= i < |cs| ==> es[i].key == cs[i] && es[i].count == |OrdersInCategory(rows, cs[i])|
  {
    if cs == [] then [] else [Entry(cs[0], |OrdersInCategory(rows, cs[0])|)] + CategoryTable(cs[1..], rows)
  }

  /** The category groups before sorting: one entry per category present, in order of
      first occurrence, holding its number of distinct orders. */
  function CategoryGroups(rows: seq<Row>): (groups: seq<Entry<string>>)
    ensures KeysDistinct(groups)
    ensures forall c :: HasKey(groups, c) <==> HasCategory(rows, c)
    ensures forall i :: 0 <= i < |groups| ==>
              groups[i].count == |OrdersInCategory(rows, groups[i].key)| && groups[i].count >= 1
  {
    var cs := Distinct(Categories(rows));
    var groups := CategoryTable(cs, rows);
    forall c ensures HasKey(groups, c) <==> HasCategory(rows, c) {
      if HasCategory(rows, c) {
        assert c in Categories(rows);
        var i :| 0 <= i < |cs| && cs[i] == c;
        assert groups[i].key == c;
      }
    }
    forall i | 0 <= i < |groups| ensures groups[i].count >= 1 {
      assert cs[i] in Categories(rows);
      var k :| 0 <= k < |rows| && rows[k].category == Some(cs[i]);
      assert rows[k].order in OrdersInCategory(rows, cs[i]);
    }
    groups
  }

  /** `create_sum_order_items_df`: one entry per category present in the rows, holding
      the number of distinct orders in that category, largest first. */
  function SumOrderItems(rows: seq<Row>): (table: seq<Entry<string>>)
    ensures KeysDistinct(table)
    ensures SortedDesc(table)
    ensures forall c :: HasKey(table, c) <==> HasCategory(rows, c)
    ensures forall i :: 0 <= i < |table| ==>
              table[i].count == |OrdersInCategory(rows, table[i].key)| && table[i].count >= 1
  {
    var groups := CategoryGroups(rows);
    SortKeepsKeysDistinct(groups);
    forall c ensures HasKey(SortDesc(groups), c) <==> HasKey(groups, c) {
      PermutationKeepsKeys(groups, SortDesc(groups), c);
    }
    forall i | 0 <= i < |SortDesc(groups)|
      ensures exists j :: 0 <= j < |groups| && groups[j] == SortDesc(groups)[i]
    {
      SortedEntryFrom(groups, i);
    }
    SortDesc(groups)
  }

  // ---- review-score histogram ----

  predicate HasScore(rows: seq<Row>, s: int)
  {
    exists i :: 0 <= i < |rows| && rows[i].reviewScore == Some(s)
  }

  /** The review score of each row that has one, in row order (`value_counts`
      drops a missing score). */
  function Scores(rows: seq<Row>): (ss: seq<int>)
    ensures forall s :: s in ss <==> HasScore(rows, s)
  {
    if rows == [] then []
    else
      var head := match rows[0].reviewScore case Some(s) => [s] case None => [];
      var rest := Scores(rows[1..]);
      assert forall s :: HasScore(rows, s) <==> rows[0].reviewScore == Some(s) || HasScore(rows[1..], s) by {
        forall s ensures HasScore(rows, s) ==> rows[0].reviewScore == Some(s) || HasScore(rows[1..], s) {
          if HasScore(rows, s) && rows[0].reviewScore != Some(s) {
            var i :| 0 <= i < |rows| && rows[i].reviewScore == Some(s);
            assert rows[1..][i - 1] == rows[i];
          }
        }
        forall s ensures HasScore(rows[1..], s) ==> HasScore(rows, s) {
          if HasScore(rows[1..], s) {
            var i :| 0 <= i < |rows[1..]| && rows[1..][i].reviewScore == Some(s);
            assert rows[i + 1] == rows[1..][i];
          }
        }
      }
      head + rest
  }

  /** The score groups before sorting: one entry per score present, in order of first
      occurrence, holding its number of rows; the group sizes add up to the scored rows. */
  function ScoreGroups(rows: seq<Row>): (groups: seq<Entry<int>>)
    ensures KeysDistinct(groups)
    ensures forall s :: HasKey(groups, s) <==> HasScore(rows, s)
    ensures forall i :: 0 <= i < |groups| ==>
              groups[i].count == Occurrences(Scores(rows), groups[i].key) && groups[i].count >= 1
    ensures TotalCount(groups) == |Scores(rows)|
  {
    var ss := Scores(rows);
    var ds := Distinct(ss);
    var groups := CountEach(ds, ss);
    GroupSizesSum(ss);
    KeysOfTable(groups, ds);
    assert forall s :: s in ds <==> s in ss;
    groups
  }

  /** `create_ratings`: one entry per review score present, holding the number of rows
      with that score, largest first; the counts add up to the number of scored rows. */
  function Ratings(rows: seq<Row>): (table: seq<Entry<int>>)
    ensures KeysDistinct(table)
    ensures SortedDesc(table)
    ensures forall s :: HasKey(table, s) <==> HasScore(rows, s)
    ensures forall i :: 0 <= i < |table| ==>
              table[i].count == Occurrences(Scores(rows), table[i].key) && table[i].count >= 1
    ensures TotalCount(table) == |Scores(rows)|
  {
    var groups := ScoreGroups(rows);
    SortKeepsKeysDistinct(groups);
    forall s ensures HasKey(SortDesc(groups), s) <==> HasKey(groups, s) {
      PermutationKeepsKeys(groups, SortDesc(groups), s);
    }
    forall i | 0 <= i < |SortDesc(groups)|
      ensures exists j :: 0 <= j < |groups| && groups[j] == SortDesc(groups)[i]
    {
      SortedEntryFrom(groups, i);
    }
    SortDesc(groups)
  }
}
