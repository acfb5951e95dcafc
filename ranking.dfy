/** Ranking and min-max normalisation of one RFM measure (dashboard/dashboard.py:60-66).
    Ranks are pandas' `rank(ascending=False)` with the default average-tie method: the
    largest value gets rank 1, and tied values share the mean of the positions they
    occupy. Normalisation maps the smallest rank to 0 and the largest to 5; when every
    rank is the same it divides 0 by 0, and the score is NaN, modelled as `None`. */
module Ranking {
  import opened Orders

  /** How many values are strictly greater than `v`. */
  function CountAbove(vs: seq<real>, v: real): (n: nat)
    ensures n <= |vs|
  {
    if vs == [] then 0 else (if vs[0] > v then 1 else 0) + CountAbove(vs[1..], v)
  }

  /** How many values equal `v`. */
  function CountEqual(vs: seq<real>, v: real): (n: nat)
    ensures n <= |vs|
  {
    if vs == [] then 0 else (if vs[0] == v then 1 else 0) + CountEqual(vs[1..], v)
  }

  lemma CountsOfThree(a: real, b: real, c: real, v: real)
    ensures CountAbove([a, b, c], v) == (if a > v then 1 else 0) + (if b > v then 1 else 0) + (if c > v then 1 else 0)
    ensures CountEqual([a, b, c], v) == (if a == v then 1 else 0) + (if b == v then 1 else 0) + (if c == v then 1 else 0)
  {
    assert [a, b, c][1..] == [b, c] && [b, c][1..] == [c] && [c][1..] == [];
    assert CountAbove([c], v) == (if c > v then 1 else 0) && CountEqual([c], v) == (if c == v then 1 else 0);
    assert CountAbove([b, c], v) == (if b > v then 1 else 0) + CountAbove([c], v);
    assert CountEqual([b, c], v) == (if b == v then 1 else 0) + CountEqual([c], v);
  }

  /** The average descending rank of `v` among `vs`: the positions taken by values equal
      to `v`, after all larger values, are `CountAbove + 1 .. CountAbove + CountEqual`. */
  function AverageRank(vs: seq<real>, v: real): real
  {
    CountAbove(vs, v) as real + (CountEqual(vs, v) as real + 1.0) / 2.0
  }

  lemma {:induction false} CountsWithin(vs: seq<real>, v: real)
    ensures CountAbove(vs, v) + CountEqual(vs, v) <= |vs|
    ensures v in vs ==> CountEqual(vs, v) >= 1
  {
    if vs != [] {
      CountsWithin(vs[1..], v);
    }
  }

  /** Everything above or equal to a larger value `u` is above `v`. */
  lemma {:induction false} CountAboveGrows(vs: seq<real>, u: real, v: real)
    requires v < u
    ensures CountAbove(vs, v) >= CountAbove(vs, u) + CountEqual(vs, u)
  {
    if vs != [] {
      CountAboveGrows(vs[1..], u, v);
    }
  }

  /** `Series.rank(ascending=False)`: the rank of each value, in the same order. */
  function RankDesc(vs: seq<real>): (ranks: seq<real>)
    ensures |ranks| == |vs|
    ensures forall i :: 0 <= i < |vs| ==> 1.0 <= ranks[i] <= |vs| as real
    ensures forall i, j :: 0 <= i < |vs| && 0 <= j < |vs| && vs[i] == vs[j] ==> ranks[i] == ranks[j]
    ensures forall i, j :: 0 <= i < |vs| && 0 <= j < |vs| && vs[i] > vs[j] ==> ranks[i] < ranks[j]
  {
    var ranks := seq(|vs|, i requires 0 <= i < |vs| => AverageRank(vs, vs[i]));
    assert forall i :: 0 <= i < |vs| ==> 1.0 <= ranks[i] <= |vs| as real by {
      forall i | 0 <= i < |vs| ensures 1.0 <= ranks[i] <= |vs| as real {
        CountsWithin(vs, vs[i]);
      }
    }
    assert forall i, j :: 0 <= i < |vs| && 0 <= j < |vs| && vs[i] > vs[j] ==> ranks[i] < ranks[j] by {
      forall i, j | 0 <= i < |vs| && 0 <= j < |vs| && vs[i] > vs[j] ensures ranks[i] < ranks[j] {
        CountsWithin(vs, vs[i]);
        CountAboveGrows(vs, vs[i], vs[j]);
      }
    }
    ranks
  }

  /** The positions holding a value above `v`, and those holding `v` itself. */
  function PositionsAbove(vs: seq<real>, v: real): set<int>
  {
    set j | 0 <= j < |vs| && vs[j] > v
  }

  function PositionsEqual(vs: seq<real>, v: real): set<int>
  {
    set j | 0 <= j < |vs| && vs[j] == v
  }

  lemma {:induction false} CountsAppend(a: seq<real>, x: real, v: real)
    ensures CountAbove(a + [x], v) == CountAbove(a, v) + (if x > v then 1 else 0)
    ensures CountEqual(a + [x], v) == CountEqual(a, v) + (if x == v then 1 else 0)
  {
    if a == [] {
      assert [x][1..] == [];
    } else {
      assert (a + [x])[1..] == a[1..] + [x];
      CountsAppend(a[1..], x, v);
    }
  }

  /** The recursive counts are the sizes of the position sets. */
  lemma {:induction false} CountsArePositions(vs: seq<real>, v: real)
    ensures CountAbove(vs, v) == |PositionsAbove(vs, v)|
    ensures CountEqual(vs, v) == |PositionsEqual(vs, v)|
  {
    if vs != [] {
      var init, last := vs[..|vs| - 1], vs[|vs| - 1];
      assert vs == init + [last];
      CountsArePositions(init, v);
      CountsAppend(init, last, v);
      PositionsAppend(init, last, v);
    }
  }

  lemma PositionsAppend(a: seq<real>, x: real, v: real)
    ensures PositionsAbove(a + [x], v) == PositionsAbove(a, v) + (if x > v then {|a|} else {})
    ensures PositionsEqual(a + [x], v) == PositionsEqual(a, v) + (if x == v then {|a|} else {})
  {
    var vs := a + [x];
    assert forall j :: 0 <= j < |a| ==> vs[j] == a[j];
  }

  /** pandas' default tie rule: the `k` values tied at `v`, ranked after the `a` values
      above it, take positions `a + 1 .. a + k`, and each gets their mean `a + (k + 1) / 2`. */
  lemma RankIsMeanPosition(vs: seq<real>, i: int)
    requires 0 <= i < |vs|
    ensures RankDesc(vs)[i] ==
            |PositionsAbove(vs, vs[i])| as real + (|PositionsEqual(vs, vs[i])| as real + 1.0) / 2.0
  {
    CountsArePositions(vs, vs[i]);
  }

  /** Two tied values share the mean of positions 2 and 3, not the lower of them. */
  lemma RanksWithTie()
    ensures RankDesc([3.0, 2.0, 2.0, 1.0]) == [1.0, 2.5, 2.5, 4.0]
  {
    var vs := [3.0, 2.0, 2.0, 1.0];
    assert vs[1..] == [2.0, 2.0, 1.0] && vs[1..][1..] == [2.0, 1.0] && vs[1..][1..][1..] == [1.0];
    assert vs[1..][1..][1..][1..] == [];
  }

  // ---- min-max normalisation ----

  function Min(xs: seq<real>): (m: real)
    requires |xs| > 0
    ensures m in xs
    ensures forall i :: 0 <= i < |xs| ==> m <= xs[i]
  {
    if |xs| == 1 then xs[0]
    else
      var rest := Min(xs[1..]);
      assert forall i :: 1 <= i < |xs| ==> xs[i] == xs[1..][i - 1];
      if xs[0] <= rest then xs[0] else rest
  }

  function Max(xs: seq<real>): (m: real)
    requires |xs| > 0
    ensures m in xs
    ensures forall i :: 0 <= i < |xs| ==> xs[i] <= m
  {
    if |xs| == 1 then xs[0]
    else
      var rest := Max(xs[1..]);
      assert forall i :: 1 <= i < |xs| ==> xs[i] == xs[1..][i - 1];
      if xs[0] >= rest then xs[0] else rest
  }

  predicate AllSame(xs: seq<real>)
  {
    forall i, j :: 0 <= i < |xs| && 0 <= j < |xs| ==> xs[i] == xs[j]
  }

  /** A fraction `a / d` of a positive `d` with `0 <= a <= d` lies in [0, 1], and is 0 or 1
      exactly at the ends. */
  lemma FractionBounds(a: real, d: real)
    requires 0.0 <= a <= d && 0.0 < d
    ensures 0.0 <= a / d <= 1.0
    ensures a / d == 0.0 <==> a == 0.0
    ensures a / d == 1.0 <==> a == d
  {
    var q := a / d;
    assert q * d == a;
  }

  lemma FractionStrict(a: real, b: real, d: real)
    requires a < b && 0.0 < d
    ensures a / d < b / d
  {
    var p, q := a / d, b / d;
    assert p * d == a && q * d == b;
  }

  /** `(x - lo) / (hi - lo) * 5` for `lo <= x <= hi`, `lo < hi`. */
  function Scale(x: real, lo: real, hi: real): (s: real)
    requires lo <= x <= hi && lo < hi
    ensures 0.0 <= s <= 5.0
    ensures s == 0.0 <==> x == lo
    ensures s == 5.0 <==> x == hi
  {
    FractionBounds(x - lo, hi - lo);
    (x - lo) / (hi - lo) * 5.0
  }

  lemma ScaleMonotone(x: real, y: real, lo: real, hi: real)
    requires lo <= x < y <= hi && lo < hi
    ensures Scale(x, lo, hi) < Scale(y, lo, hi)
  {
    FractionStrict(x - lo, y - lo, hi - lo);
  }

  /** The extremes coincide exactly when all values are the same. */
  lemma SameIffExtremesMeet(xs: seq<real>)
    requires |xs| > 0
    ensures AllSame(xs) <==> Min(xs) == Max(xs)
  {
    if Min(xs) != Max(xs) {
      var p :| 0 <= p < |xs| && xs[p] == Min(xs);
      var q :| 0 <= q < |xs| && xs[q] == Max(xs);
      assert xs[p] != xs[q];
    }
  }

  /** One normalised value: undefined (0 / 0) when `lo == hi`. */
  function NormaliseValue(x: real, lo: real, hi: real): (s: Option<real>)
    requires lo <= x <= hi
    ensures s.None? <==> lo == hi
    ensures s.Some? ==> 0.0 <= s.value <= 5.0 && (s.value == 0.0 <==> x == lo) && (s.value == 5.0 <==> x == hi)
  {
    if lo == hi then None else Some(Scale(x, lo, hi))
  }

  /** A score, where defined, lies between 0 and 5. */
  predicate InScoreRange(s: Option<real>)
  {
    s.Some? ==> 0.0 <= s.value <= 5.0
  }

  /** Every value normalised against the same `lo` and `hi`. */
  function NormaliseAll(xs: seq<real>, lo: real, hi: real): (scores: seq<Option<real>>)
    requires forall i :: 0 <= i < |xs| ==> lo <= xs[i] <= hi
    ensures |scores| == |xs| && forall i :: 0 <= i < |xs| ==> scores[i] == NormaliseValue(xs[i], lo, hi)
  {
    seq(|xs|, i requires 0 <= i < |xs| => NormaliseValue(xs[i], lo, hi))
  }

  lemma NormaliseAllOrder(xs: seq<real>, lo: real, hi: real)
    requires forall i :: 0 <= i < |xs| ==> lo <= xs[i] <= hi
    ensures forall i, j :: 0 <= i < |xs| && 0 <= j < |xs| && xs[i] < xs[j] && lo < hi ==>
              NormaliseAll(xs, lo, hi)[i].value < NormaliseAll(xs, lo, hi)[j].value
  {
    forall i, j | 0 <= i < |xs| && 0 <= j < |xs| && xs[i] < xs[j] && lo < hi
      ensures NormaliseAll(xs, lo, hi)[i].value < NormaliseAll(xs, lo, hi)[j].value
    {
      ScaleMonotone(xs[i], xs[j], lo, hi);
    }
  }

  /** `(rank - rank.min()) / (rank.max() - rank.min()) * 5`, element by element. */
  function Normalise(xs: seq<real>): (scores: seq<Option<real>>)
    ensures |scores| == |xs|
    ensures AllSame(xs) ==> forall i :: 0 <= i < |xs| ==> scores[i] == None
    ensures !AllSame(xs) ==> forall i :: 0 <= i < |xs| ==>
              scores[i].Some? && 0.0 <= scores[i].value <= 5.0 &&
              (scores[i].value == 0.0 <==> xs[i] == Min(xs)) &&
              (scores[i].value == 5.0 <==> xs[i] == Max(xs))
    ensures forall i, j :: 0 <= i < |xs| && 0 <= j < |xs| && xs[i] == xs[j] ==> scores[i] == scores[j]
    ensures forall i, j :: 0 <= i < |xs| && 0 <= j < |xs| && xs[i] < xs[j] && !AllSame(xs) ==>
              scores[i].value < scores[j].value
  {
    if xs == [] then []
    else
      SameIffExtremesMeet(xs);
      NormaliseAllOrder(xs, Min(xs), Max(xs));
      NormaliseAll(xs, Min(xs), Max(xs))
  }

  /** Ranks tie throughout exactly when the values do. */
  lemma RanksSameIffValuesSame(vs: seq<real>)
    ensures AllSame(RankDesc(vs)) <==> AllSame(vs)
  {
    var ranks := RankDesc(vs);
    if !AllSame(vs) {
      var i, j :| 0 <= i < |vs| && 0 <= j < |vs| && vs[i] != vs[j];
      if vs[i] > vs[j] {
        assert ranks[i] < ranks[j];
      } else {
        assert ranks[j] < ranks[i];
      }
    }
  }

  /** A largest value has the smallest rank, a smallest value the largest rank. */
  lemma ExtremeRanks(vs: seq<real>, i: int)
    requires 0 <= i < |vs|
    ensures (forall j :: 0 <= j < |vs| ==> vs[j] <= vs[i]) ==> RankDesc(vs)[i] == Min(RankDesc(vs))
    ensures (forall j :: 0 <= j < |vs| ==> vs[i] <= vs[j]) ==> RankDesc(vs)[i] == Max(RankDesc(vs))
  {
    var ranks := RankDesc(vs);
    var k :| 0 <= k < |vs| && ranks[k] == Min(ranks);
    var l :| 0 <= l < |vs| && ranks[l] == Max(ranks);
    if forall j :: 0 <= j < |vs| ==> vs[j] <= vs[i] {
      if vs[k] < vs[i] {
        assert ranks[i] < ranks[k];
      }
    }
    if forall j :: 0 <= j < |vs| ==> vs[i] <= vs[j] {
      if vs[i] < vs[l] {
        assert ranks[l] < ranks[i];
      }
    }
  }

  /** The normalised score of one measure: rank descending, then normalise. Tied values
      score alike; a larger value scores strictly lower; the largest value scores 0 and
      the smallest 5; when all values tie, every score is undefined. */
  function MeasureScores(vs: seq<real>): (scores: seq<Option<real>>)
    ensures |scores| == |vs|
    ensures forall i :: 0 <= i < |vs| ==>
              (scores[i].Some? <==> !AllSame(vs)) && InScoreRange(scores[i])
  {
    RankScores(vs);
    Normalise(RankDesc(vs))
  }

  /** Equal values score alike; where the values do not all tie, a strictly larger value
      scores strictly lower. */
  lemma MeasureScoreOrder(vs: seq<real>, i: int, j: int)
    requires 0 <= i < |vs| && 0 <= j < |vs|
    ensures vs[i] == vs[j] ==> MeasureScores(vs)[i] == MeasureScores(vs)[j]
    ensures vs[i] > vs[j] && !AllSame(vs) ==> MeasureScores(vs)[i].value < MeasureScores(vs)[j].value
  {
    RankScores(vs);
  }

  lemma RankScores(vs: seq<real>)
    ensures !AllSame(vs) ==> forall i :: 0 <= i < |vs| ==>
              Normalise(RankDesc(vs))[i].Some? && 0.0 <= Normalise(RankDesc(vs))[i].value <= 5.0
    ensures AllSame(vs) ==> forall i :: 0 <= i < |vs| ==> Normalise(RankDesc(vs))[i] == None
    ensures forall i, j :: 0 <= i < |vs| && 0 <= j < |vs| && vs[i] == vs[j] ==>
              Normalise(RankDesc(vs))[i] == Normalise(RankDesc(vs))[j]
    ensures forall i, j :: 0 <= i < |vs| && 0 <= j < |vs| && vs[i] > vs[j] && !AllSame(vs) ==>
              Normalise(RankDesc(vs))[i].value < Normalise(RankDesc(vs))[j].value
  {
    var ranks := RankDesc(vs);
    var scores := Normalise(ranks);
    RanksSameIffValuesSame(vs);
    forall i, j | 0 <= i < |vs| && 0 <= j < |vs| && vs[i] == vs[j]
      ensures scores[i] == scores[j]
    {
      assert ranks[i] == ranks[j];
    }
    forall i, j | 0 <= i < |vs| && 0 <= j < |vs| && vs[i] > vs[j] && !AllSame(vs)
      ensures scores[i].value < scores[j].value
    {
      assert ranks[i] < ranks[j];
    }
  }

  /** Where the values do not all tie, a largest value scores 0 and a smallest scores 5. */
  lemma ExtremeScores(vs: seq<real>, i: int)
    requires 0 <= i < |vs| && !AllSame(vs)
    ensures (forall j :: 0 <= j < |vs| ==> vs[j] <= vs[i]) ==> MeasureScores(vs)[i] == Some(0.0)
    ensures (forall j :: 0 <= j < |vs| ==> vs[i] <= vs[j]) ==> MeasureScores(vs)[i] == Some(5.0)
  {
    RanksSameIffValuesSame(vs);
    ExtremeRanks(vs, i);
  }

  lemma RanksOfThree(a: real, b: real, c: real)
    ensures a > b > c ==> RankDesc([a, b, c]) == [1.0, 2.0, 3.0]
    ensures a < b < c ==> RankDesc([a, b, c]) == [3.0, 2.0, 1.0]
  {
    CountsOfThree(a, b, c, a);
    CountsOfThree(a, b, c, b);
    CountsOfThree(a, b, c, c);
  }

  lemma NormaliseUp()
    ensures Normalise([1.0, 2.0, 3.0]) == [Some(0.0), Some(2.5), Some(5.0)]
  {
    var up := [1.0, 2.0, 3.0];
    assert up[1..] == [2.0, 3.0] && up[1..][1..] == [3.0];
    assert Min(up) == 1.0 && Max(up) == 3.0;
    assert Scale(2.0, 1.0, 3.0) == 2.5;
    assert NormaliseAll(up, 1.0, 3.0) == [Some(0.0), Some(2.5), Some(5.0)];
  }

  lemma NormaliseDown()
    ensures Normalise([3.0, 2.0, 1.0]) == [Some(5.0), Some(2.5), Some(0.0)]
  {
    var down := [3.0, 2.0, 1.0];
    assert down[1..] == [2.0, 1.0] && down[1..][1..] == [1.0];
    assert Min(down) == 1.0 && Max(down) == 3.0;
    assert Scale(2.0, 1.0, 3.0) == 2.5;
    assert NormaliseAll(down, 1.0, 3.0) == [Some(5.0), Some(2.5), Some(0.0)];
  }

  /** Three distinct values score 0, 2.5 and 5 from the largest to the smallest. */
  lemma ThreeDistinctScores(a: real, b: real, c: real)
    ensures a > b > c ==> MeasureScores([a, b, c]) == [Some(0.0), Some(2.5), Some(5.0)]
    ensures a < b < c ==> MeasureScores([a, b, c]) == [Some(5.0), Some(2.5), Some(0.0)]
  {
    RanksOfThree(a, b, c);
    NormaliseUp();
    NormaliseDown();
  }
}
