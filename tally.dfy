/** Group-and-count over a column of keys, and the descending sort by count that the
    category and rating tables apply after grouping (pandas `groupby`/`value_counts`
    followed by `sort_values(ascending=False)`). */
module Tally {

  /** One row of a count table: a key and its count. */
  datatype Entry<K> = Entry(key: K, count: nat)

  predicate NoDuplicates<K(==)>(s: seq<K>)
  {
    forall i, j :: 0 <= i < j < |s| ==> s[i] != s[j]
  }

  /** The distinct keys of `ks`, in order of first occurrence. */
  function Distinct<K(==)>(ks: seq<K>): (ds: seq<K>)
    ensures NoDuplicates(ds)
    ensures forall i :: 0 <= i < |ks| ==> ks[i] in ds
    ensures forall i :: 0 <= i < |ds| ==> ds[i] in ks
    ensures |ds| <= |ks|
  {
    if ks == [] then []
    else
      var ds := Distinct(ks[..|ks| - 1]);
      assert forall i :: 0 <= i < |ks| - 1 ==> ks[i] == ks[..|ks| - 1][i];
      if ks[|ks| - 1] in ds then ds else ds + [ks[|ks| - 1]]
  }

  /** How often `k` occurs in `ks` (pandas `size` of a group). */
  function Occurrences<K(==)>(ks: seq<K>, k: K): (n: nat)
    ensures n <= |ks|
    ensures n > 0 <==> k in ks
  {
    if ks == [] then 0
    else
      assert ks == ks[..|ks| - 1] + [ks[|ks| - 1]];
      Occurrences(ks[..|ks| - 1], k) + (if ks[|ks| - 1] == k then 1 else 0)
  }

  /** A key's count is its multiplicity in the multiset of the column. */
  lemma {:induction false} OccurrencesAreMultiplicity<K>(ks: seq<K>, k: K)
    ensures Occurrences(ks, k) == multiset(ks)[k]
  {
    if ks != [] {
      var init := ks[..|ks| - 1];
      assert ks == init + [ks[|ks| - 1]];
      OccurrencesAreMultiplicity(init, k);
    }
  }

  /** The sum of `Occurrences(ks, d)` over the keys `d` of `ds`. */
  function OccurrencesOver<K(==)>(ds: seq<K>, ks: seq<K>): nat
  {
    if ds == [] then 0 else Occurrences(ks, ds[0]) + OccurrencesOver(ds[1..], ks)
  }

  lemma {:induction false} OccurrencesOverAppendKey<K>(ds: seq<K>, ks: seq<K>, x: K)
    requires NoDuplicates(ds)
    ensures OccurrencesOver(ds, ks + [x]) == OccurrencesOver(ds, ks) + (if x in ds then 1 else 0)
  {
    if ds != [] {
      assert (ks + [x])[..|ks + [x]| - 1] == ks;
      OccurrencesOverAppendKey(ds[1..], ks, x);
    }
  }

  lemma {:induction false} OccurrencesOverAppendGroup<K>(ds: seq<K>, x: K, ks: seq<K>)
    ensures OccurrencesOver(ds + [x], ks) == OccurrencesOver(ds, ks) + Occurrences(ks, x)
  {
    if ds != [] {
      assert (ds + [x])[1..] == ds[1..] + [x];
      OccurrencesOverAppendGroup(ds[1..], x, ks);
    } else {
      assert ([x])[1..] == [];
    }
  }

  /** Grouping partitions the keys: the group sizes of the distinct keys add up
      to the number of keys. */
  lemma {:induction false} GroupSizesSum<K>(ks: seq<K>)
    ensures OccurrencesOver(Distinct(ks), ks) == |ks|
  {
    if ks != [] {
      var init, x := ks[..|ks| - 1], ks[|ks| - 1];
      assert ks == init + [x];
      var ds := Distinct(init);
      GroupSizesSum(init);
      OccurrencesOverAppendKey(ds, init, x);
      if x !in ds {
        OccurrencesOverAppendGroup(ds, x, ks);
        assert Occurrences(init, x) == 0;
      }
    }
  }

  /** Grouping by any list of distinct groups that covers every key also partitions
      the keys. */
  lemma {:induction false} CoveringGroupsSum<K>(ds: seq<K>, ks: seq<K>)
    requires NoDuplicates(ds)
    requires forall i :: 0 <= i < |ks| ==> ks[i] in ds
    ensures OccurrencesOver(ds, ks) == |ks|
  {
    if ks != [] {
      var init := ks[..|ks| - 1];
      assert ks == init + [ks[|ks| - 1]];
      assert forall i :: 0 <= i < |init| ==> init[i] == ks[i];
      var x := ks[|ks| - 1];
      assert x in ds;
      CoveringGroupsSum(ds, init);
      OccurrencesOverAppendKey(ds, init, x);
    } else {
      OccurrencesOverNothing(ds);
    }
  }

  lemma {:induction false} OccurrencesOverNothing<K>(ds: seq<K>)
    ensures OccurrencesOver(ds, []) == 0
  {
    if ds != [] {
      OccurrencesOverNothing(ds[1..]);
    }
  }

  /** The distinct keys are as many as the set of keys has elements (pandas `nunique`). */
  lemma {:induction false} DistinctCardinality<K>(ds: seq<K>)
    requires NoDuplicates(ds)
    ensures |set k | k in ds| == |ds|
  {
    if ds != [] {
      var rest := ds[1..];
      DistinctCardinality(rest);
      assert (set k | k in ds) == (set k | k in rest) + {ds[0]};
      assert ds[0] !in rest;
    }
  }

  lemma CountOfDistinct<K>(ks: seq<K>)
    ensures |Distinct(ks)| == |set k | k in ks|
  {
    var ds := Distinct(ks);
    DistinctCardinality(ds);
    assert (set k | k in ds) == (set k | k in ks);
  }

  // ---- count tables ----

  predicate KeysDistinct<K(==)>(es: seq<Entry<K>>)
  {
    forall i, j :: 0 <= i < j < |es| ==> es[i].key != es[j].key
  }

  predicate HasKey<K(==)>(es: seq<Entry<K>>, k: K)
  {
    exists i :: 0 <= i < |es| && es[i].key == k
  }

  /** A table keyed by `ks`, in order, has exactly the keys of `ks`. */
  lemma KeysOfTable<K>(es: seq<Entry<K>>, ks: seq<K>)
    requires |es| == |ks| && forall i :: 0 <= i < |es| ==> es[i].key == ks[i]
    ensures forall k :: HasKey(es, k) <==> k in ks
  {
    forall k | k in ks ensures HasKey(es, k) {
      var i :| 0 <= i < |ks| && ks[i] == k;
      assert es[i].key == k;
    }
  }

  /** The group size of each key of `ds` among `ks`, in the order of `ds`. */
  function CountEach<K(==)>(ds: seq<K>, ks: seq<K>): (es: seq<Entry<K>>)
    ensures |es| == |ds|
    ensures forall i :: 0 <= i < |ds| ==> es[i].key == ds[i] && es[i].count == Occurrences(ks, ds[i])
    ensures TotalCount(es) == OccurrencesOver(ds, ks)
  {
    if ds == [] then [] else [Entry(ds[0], Occurrences(ks, ds[0]))] + CountEach(ds[1..], ks)
  }

  /** A table whose counts are the group sizes of `ds` totals their sum. */
  lemma {:induction false} TotalOfGroupSizes<K>(es: seq<Entry<K>>, ds: seq<K>, ks: seq<K>)
    requires |es| == |ds|
    requires forall i :: 0 <= i < |es| ==> es[i].count == Occurrences(ks, ds[i])
    ensures TotalCount(es) == OccurrencesOver(ds, ks)
  {
    if es != [] {
      TotalOfGroupSizes(es[1..], ds[1..], ks);
    }
  }

  /** Sorted by count, largest first. */
  predicate SortedDesc<K>(es: seq<Entry<K>>)
  {
    forall i, j :: 0 <= i < j < |es| ==> es[i].count >= es[j].count
  }

  function TotalCount<K>(es: seq<Entry<K>>): nat
  {
    if es == [] then 0 else es[0].count + TotalCount(es[1..])
  }

  /** Puts `e` in front of the first entry whose count it reaches. */
  function Insert<K>(e: Entry<K>, es: seq<Entry<K>>): (r: seq<Entry<K>>)
    requires SortedDesc(es)
    ensures SortedDesc(r)
    ensures |r| == |es| + 1 && (r[0] == e || (es != [] && r[0] == es[0]))
  {
    if es == [] || e.count >= es[0].count then [e] + es
    else
      var rest := Insert(e, es[1..]);
      assert es[0].count >= rest[0].count;
      [es[0]] + rest
  }

  /** Inserting adds `e` and nothing else. */
  lemma {:induction false} InsertAdds<K>(e: Entry<K>, es: seq<Entry<K>>)
    requires SortedDesc(es)
    ensures multiset(Insert(e, es)) == multiset(es) + multiset{e}
    ensures TotalCount(Insert(e, es)) == TotalCount(es) + e.count
  {
    if es != [] && e.count < es[0].count {
      InsertAdds(e, es[1..]);
      assert es == [es[0]] + es[1..];
    }
  }

  /** Sorts entries by count, largest first. The order among equal counts is that of
      this insertion sort; the contract leaves it open. */
  function SortDesc<K>(es: seq<Entry<K>>): (r: seq<Entry<K>>)
    ensures SortedDesc(r)
    ensures multiset(r) == multiset(es)
    ensures TotalCount(r) == TotalCount(es)
  {
    if es == [] then []
    else
      var sorted := SortDesc(es[1..]);
      InsertAdds(es[0], sorted);
      assert es == [es[0]] + es[1..];
      Insert(es[0], sorted)
  }

  /** Inserting an entry under a new key keeps keys distinct. */
  lemma {:induction false} InsertKeepsKeysDistinct<K>(e: Entry<K>, es: seq<Entry<K>>)
    requires SortedDesc(es) && KeysDistinct(es) && !HasKey(es, e.key)
    ensures KeysDistinct(Insert(e, es))
  {
    if es == [] || e.count >= es[0].count {
      ConsKeysDistinct(e, es);
    } else {
      var tail := es[1..];
      var rest := Insert(e, tail);
      assert !HasKey(tail, e.key) by {
        forall i | 0 <= i < |tail| ensures tail[i].key != e.key {
          assert tail[i] == es[i + 1];
        }
      }
      InsertKeepsKeysDistinct(e, tail);
      InsertAdds(e, tail);
      assert !HasKey(rest, es[0].key) by {
        forall j | 0 <= j < |rest| ensures es[0].key != rest[j].key {
          assert rest[j] in multiset(rest);
          if rest[j] != e {
            assert rest[j] in multiset(tail);
            var p :| 0 <= p < |tail| && tail[p] == rest[j];
            assert tail[p] == es[p + 1];
          }
        }
      }
      ConsKeysDistinct(es[0], rest);
    }
  }

  lemma ConsKeysDistinct<K>(x: Entry<K>, es: seq<Entry<K>>)
    requires KeysDistinct(es) && !HasKey(es, x.key)
    ensures KeysDistinct([x] + es)
  {
    var r := [x] + es;
    forall i, j | 0 <= i < j < |r| ensures r[i].key != r[j].key {
      assert r[j] == es[j - 1];
      if i > 0 {
        assert r[i] == es[i - 1];
      }
    }
  }

  /** Sorting keeps keys distinct. */
  lemma {:induction false} SortKeepsKeysDistinct<K>(es: seq<Entry<K>>)
    requires KeysDistinct(es)
    ensures KeysDistinct(SortDesc(es))
  {
    if es != [] {
      var tail := es[1..];
      var sorted := SortDesc(tail);
      assert KeysDistinct(tail) by {
        forall i, j | 0 <= i < j < |tail| ensures tail[i].key != tail[j].key {
          assert tail[i] == es[i + 1] && tail[j] == es[j + 1];
        }
      }
      SortKeepsKeysDistinct(tail);
      assert !HasKey(sorted, es[0].key) by {
        forall j | 0 <= j < |sorted| ensures sorted[j].key != es[0].key {
          assert sorted[j] in multiset(tail);
          var p :| 0 <= p < |tail| && tail[p] == sorted[j];
          assert tail[p] == es[p + 1];
        }
      }
      InsertKeepsKeysDistinct(es[0], sorted);
    }
  }

  /** Every entry of a sorted table comes from the table it sorts. */
  lemma SortedEntryFrom<K>(es: seq<Entry<K>>, i: int)
    requires 0 <= i < |SortDesc(es)|
    ensures exists j :: 0 <= j < |es| && es[j] == SortDesc(es)[i]
  {
    assert SortDesc(es)[i] in multiset(es);
  }

  /** Reordering keeps the set of keys. */
  lemma PermutationKeepsKeys<K>(a: seq<Entry<K>>, b: seq<Entry<K>>, k: K)
    requires multiset(a) == multiset(b)
    ensures HasKey(a, k) <==> HasKey(b, k)
  {
    if HasKey(a, k) {
      var i :| 0 <= i < |a| && a[i].key == k;
      assert a[i] in multiset(b);
    }
    if HasKey(b, k) {
      var i :| 0 <= i < |b| && b[i].key == k;
      assert b[i] in multiset(a);
    }
  }
}
