/**
 * The request-time logic of the picker app: offering random enriched
 * synopses, mapping the picked synopsis back to its row, and recommending
 * the best-ranked other movies of that row's cluster.
 */
module Recommender {
  import opened Wrappers
  import opened Dataset

  /** How many recommendations the app asks for when a synopsis is picked. */
  const RecommendationCount := 5

  // ---------------------------------------------------------------------
  // Ranking
  // ---------------------------------------------------------------------

  /**
   * `a` may come before `b` when sorting by rating, then year, both
   * descending: a higher rating, or the same rating and a year at least as
   * recent.
   */
  predicate RanksAtLeast(a: Movie, b: Movie) {
    || a.film.rating > b.film.rating
    || (a.film.rating == b.film.rating && a.film.year >= b.film.year)
  }

  /** Every entry of `ids` is a row index of `df`. */
  predicate ValidIds(df: seq<Movie>, ids: seq<nat>) {
    forall k :: 0 <= k < |ids| ==> ids[k] < |df|
  }

  /** Consecutive rows of `ids` are in rank order. */
  predicate SortedByRank(df: seq<Movie>, ids: seq<nat>)
    requires ValidIds(df, ids)
  {
    forall k :: 0 <= k < |ids| - 1 ==> RanksAtLeast(df[ids[k]], df[ids[k + 1]])
  }

  /** No index occurs twice. */
  predicate Distinct(ids: seq<nat>) {
    forall j, k :: 0 <= j < k < |ids| ==> ids[j] != ids[k]
  }

  /** Consecutive order implies order between any two positions. */
  lemma {:induction false} SortedPairwise(df: seq<Movie>, ids: seq<nat>)
    requires ValidIds(df, ids) && SortedByRank(df, ids)
    ensures forall j, k :: 0 <= j < k < |ids| ==> RanksAtLeast(df[ids[j]], df[ids[k]])
  {
    if |ids| > 1 {
      var tail := ids[1..];
      SortedPairwise(df, tail);
      forall k | 1 <= k < |ids| ensures RanksAtLeast(df[ids[0]], df[ids[k]]) {
        if k > 1 {
          assert RanksAtLeast(df[tail[0]], df[tail[k - 1]]);
        }
      }
    }
  }

  /**
   * Inserts row `x` in front of the first row it ranks at least as high as,
   * so that it lands before the rows it ties with.
   */
  function Insert(df: seq<Movie>, x: nat, s: seq<nat>): (r: seq<nat>)
    requires x < |df| && ValidIds(df, s)
    ensures ValidIds(df, r)
  {
    if s == [] || RanksAtLeast(df[x], df[s[0]]) then [x] + s
    else [s[0]] + Insert(df, x, s[1..])
  }

  /** Of two rows, one always ranks at least as high as the other. */
  lemma RanksTotal(a: Movie, b: Movie)
    ensures RanksAtLeast(a, b) || RanksAtLeast(b, a)
  {
  }

  /** Inserting adds exactly `x`: the result is a permutation of `s` plus `x`. */
  lemma {:induction false} InsertPermutes(df: seq<Movie>, x: nat, s: seq<nat>)
    requires x < |df| && ValidIds(df, s)
    ensures multiset(Insert(df, x, s)) == multiset(s) + multiset{x}
  {
    if s != [] && !RanksAtLeast(df[x], df[s[0]]) {
      InsertPermutes(df, x, s[1..]);
      assert s == [s[0]] + s[1..];
    }
  }

  /** The first row after inserting is `x` or the old first row. */
  lemma InsertHead(df: seq<Movie>, x: nat, s: seq<nat>)
    requires x < |df| && ValidIds(df, s)
    ensures Insert(df, x, s)[0] == x || (s != [] && Insert(df, x, s)[0] == s[0])
  {
  }

  /** Inserting into a sequence in rank order keeps it in rank order. */
  lemma {:induction false} InsertSorted(df: seq<Movie>, x: nat, s: seq<nat>)
    requires x < |df| && ValidIds(df, s) && SortedByRank(df, s)
    ensures SortedByRank(df, Insert(df, x, s))
  {
    if s != [] && !RanksAtLeast(df[x], df[s[0]]) {
      var tail := s[1..];
      assert SortedByRank(df, tail) by {
        assert forall k :: 0 <= k < |tail| ==> tail[k] == s[k + 1];
      }
      InsertSorted(df, x, tail);
      InsertHead(df, x, tail);
      RanksTotal(df[x], df[s[0]]);
      var rest := Insert(df, x, tail);
      var r := [s[0]] + rest;
      assert RanksAtLeast(df[r[0]], df[r[1]]);
      assert forall k :: 1 <= k < |r| - 1 ==> r[k] == rest[k - 1] && r[k + 1] == rest[k];
    }
  }

  /** Dropping the first index of a repeat-free sequence leaves it repeat-free, without that index. */
  lemma DistinctTail(s: seq<nat>)
    requires s != [] && Distinct(s)
    ensures Distinct(s[1..]) && s[0] !in s[1..]
  {
    var tail := s[1..];
    forall j, k | 0 <= j < k < |tail| ensures tail[j] != tail[k] {
      assert tail[j] == s[j + 1] && tail[k] == s[k + 1];
    }
  }

  /** Prepending an index that is not there keeps a sequence repeat-free. */
  lemma DistinctCons(x: nat, s: seq<nat>)
    requires Distinct(s) && x !in s
    ensures Distinct([x] + s)
  {
    var r := [x] + s;
    forall j, k | 0 <= j < k < |r| ensures r[j] != r[k] {
      assert r[k] == s[k - 1];
      if j > 0 { assert r[j] == s[j - 1]; }
    }
  }

  /** Inserting a new index keeps the indices free of repeats. */
  lemma {:induction false} InsertKeepsDistinct(df: seq<Movie>, x: nat, s: seq<nat>)
    requires x < |df| && ValidIds(df, s)
    requires Distinct(s) && x !in s
    ensures Distinct(Insert(df, x, s))
  {
    if s == [] || RanksAtLeast(df[x], df[s[0]]) {
      DistinctCons(x, s);
    } else {
      var tail := s[1..];
      DistinctTail(s);
      InsertKeepsDistinct(df, x, tail);
      InsertPermutes(df, x, tail);
      var rest := Insert(df, x, tail);
      assert s[0] !in multiset(tail);
      assert s[0] !in multiset(rest);
      DistinctCons(s[0], rest);
    }
  }

  /**
   * `sort_values(by=['rating', 'year'], ascending=[False, False])` on the
   * indices `ids`: a stable insertion sort, so rows that tie on both keys
   * keep the order they had in `ids`.
   */
  function SortByRank(df: seq<Movie>, ids: seq<nat>): (r: seq<nat>)
    requires ValidIds(df, ids)
    ensures ValidIds(df, r)
  {
    if ids == [] then []
    else Insert(df, ids[0], SortByRank(df, ids[1..]))
  }

  /** Sorting yields rank order. */
  lemma {:induction false} SortSorted(df: seq<Movie>, ids: seq<nat>)
    requires ValidIds(df, ids)
    ensures SortedByRank(df, SortByRank(df, ids))
  {
    if ids != [] {
      SortSorted(df, ids[1..]);
      InsertSorted(df, ids[0], SortByRank(df, ids[1..]));
    }
  }

  /** Sorting is a permutation of its input. */
  lemma {:induction false} SortPermutes(df: seq<Movie>, ids: seq<nat>)
    requires ValidIds(df, ids)
    ensures multiset(SortByRank(df, ids)) == multiset(ids)
  {
    if ids != [] {
      var tail := ids[1..];
      assert ValidIds(df, tail);
      SortPermutes(df, tail);
      var sortedTail := SortByRank(df, tail);
      InsertPermutes(df, ids[0], sortedTail);
      assert SortByRank(df, ids) == Insert(df, ids[0], sortedTail);
      assert ids == [ids[0]] + tail;
      assert multiset(ids) == multiset(tail) + multiset{ids[0]};
    }
  }

  /** Every sorted entry is one of the input indices. */
  lemma SortKeepsMembers(df: seq<Movie>, ids: seq<nat>)
    requires ValidIds(df, ids)
    ensures forall k :: 0 <= k < |SortByRank(df, ids)| ==> SortByRank(df, ids)[k] in ids
  {
    var sorted := SortByRank(df, ids);
    SortPermutes(df, ids);
    forall k | 0 <= k < |sorted| ensures sorted[k] in ids {
      assert sorted[k] in multiset(sorted);
    }
  }

  /** Sorting indices free of repeats leaves them free of repeats. */
  lemma {:induction false} SortKeepsDistinct(df: seq<Movie>, ids: seq<nat>)
    requires ValidIds(df, ids) && Distinct(ids)
    ensures Distinct(SortByRank(df, ids))
  {
    if ids != [] {
      var tail := ids[1..];
      DistinctTail(ids);
      SortKeepsDistinct(df, tail);
      SortPermutes(df, tail);
      var sortedTail := SortByRank(df, tail);
      assert ids[0] !in multiset(tail);
      assert ids[0] !in multiset(sortedTail);
      InsertKeepsDistinct(df, ids[0], sortedTail);
    }
  }

  /** Rows `a` and `b` tie on both sort keys. */
  predicate Ties(a: Movie, b: Movie) {
    a.film.rating == b.film.rating && a.film.year == b.film.year
  }

  /** Rows that tie on both sort keys appear in increasing index order. */
  predicate TiesInIndexOrder(df: seq<Movie>, ids: seq<nat>)
    requires ValidIds(df, ids)
  {
    forall j, k :: 0 <= j < k < |ids| && Ties(df[ids[j]], df[ids[k]]) ==> ids[j] < ids[k]
  }

  /** Putting `y` in front keeps tied rows in index order when `y` is below every row it ties with. */
  lemma ConsKeepsTieOrder(df: seq<Movie>, y: nat, rest: seq<nat>)
    requires y < |df| && ValidIds(df, rest) && TiesInIndexOrder(df, rest)
    requires forall k :: 0 <= k < |rest| && Ties(df[y], df[rest[k]]) ==> y < rest[k]
    ensures TiesInIndexOrder(df, [y] + rest)
  {
    var r := [y] + rest;
    forall j, k | 0 <= j < k < |r| && Ties(df[r[j]], df[r[k]]) ensures r[j] < r[k] {
      assert r[k] == rest[k - 1];
      if j > 0 { assert r[j] == rest[j - 1]; }
    }
  }

  /** Inserting an index smaller than all others keeps tied rows in index order. */
  lemma {:induction false} InsertKeepsTieOrder(df: seq<Movie>, x: nat, s: seq<nat>)
    requires x < |df| && ValidIds(df, s) && TiesInIndexOrder(df, s)
    requires forall k :: 0 <= k < |s| ==> x < s[k]
    ensures TiesInIndexOrder(df, Insert(df, x, s))
  {
    if s == [] || RanksAtLeast(df[x], df[s[0]]) {
      ConsKeepsTieOrder(df, x, s);
    } else {
      var tail := s[1..];
      assert TiesInIndexOrder(df, tail) by {
        assert forall k :: 0 <= k < |tail| ==> tail[k] == s[k + 1];
      }
      InsertKeepsTieOrder(df, x, tail);
      InsertPermutes(df, x, tail);
      var rest := Insert(df, x, tail);
      forall k | 0 <= k < |rest| && Ties(df[s[0]], df[rest[k]]) ensures s[0] < rest[k] {
        var y := rest[k];
        assert y in multiset(tail) + multiset{x};
        assert y != x;
        var m :| 0 <= m < |tail| && tail[m] == y;
        assert s[m + 1] == y;
      }
      ConsKeepsTieOrder(df, s[0], rest);
    }
  }

  /** Sorting indices given in increasing order keeps tied rows in index order: the sort is stable. */
  lemma {:induction false} SortKeepsTieOrder(df: seq<Movie>, ids: seq<nat>)
    requires ValidIds(df, ids)
    requires forall j, k :: 0 <= j < k < |ids| ==> ids[j] < ids[k]
    ensures TiesInIndexOrder(df, SortByRank(df, ids))
  {
    if ids != [] {
      var tail := ids[1..];
      assert forall k :: 0 <= k < |tail| ==> tail[k] == ids[k + 1];
      SortKeepsTieOrder(df, tail);
      SortKeepsMembers(df, tail);
      var sortedTail := SortByRank(df, tail);
      forall k | 0 <= k < |sortedTail| ensures ids[0] < sortedTail[k] {
        var m :| 0 <= m < |tail| && tail[m] == sortedTail[k];
      }
      InsertKeepsTieOrder(df, ids[0], sortedTail);
    }
  }

  // ---------------------------------------------------------------------
  // recommend_movies_from_cluster
  // ---------------------------------------------------------------------

  /** Row `i` survives the cluster filter and is not the chosen row. */
  predicate IsEligible(df: seq<Movie>, chosenId: int, clusterId: int, i: int) {
    0 <= i < |df| && df[i].cluster == clusterId && i != chosenId
  }

  /** The eligible rows, as a set of indices. */
  function EligibleSet(df: seq<Movie>, chosenId: int, clusterId: int): set<nat> {
    set i: nat | i < |df| && IsEligible(df, chosenId, clusterId, i)
  }

  /** `df[df['Cluster'] == cluster_id]` then `[df.index != chosen_id]`, from row `from` on, in index order. */
  function EligibleFrom(df: seq<Movie>, chosenId: int, clusterId: int, from: nat): (ids: seq<nat>)
    requires from <= |df|
    decreases |df| - from
  {
    if from == |df| then
      []
    else if IsEligible(df, chosenId, clusterId, from) then
      [from] + EligibleFrom(df, chosenId, clusterId, from + 1)
    else
      EligibleFrom(df, chosenId, clusterId, from + 1)
  }

  /** Every row the filter keeps from `from` on is eligible and at or after `from`. */
  lemma {:induction false} EligibleFromSound(df: seq<Movie>, chosenId: int, clusterId: int, from: nat)
    requires from <= |df|
    ensures forall k :: 0 <= k < |EligibleFrom(df, chosenId, clusterId, from)| ==>
              && from <= EligibleFrom(df, chosenId, clusterId, from)[k]
              && IsEligible(df, chosenId, clusterId, EligibleFrom(df, chosenId, clusterId, from)[k])
    decreases |df| - from
  {
    if from < |df| {
      EligibleFromSound(df, chosenId, clusterId, from + 1);
      var rest := EligibleFrom(df, chosenId, clusterId, from + 1);
      if IsEligible(df, chosenId, clusterId, from) {
        var ids := [from] + rest;
        assert EligibleFrom(df, chosenId, clusterId, from) == ids;
        forall k | 0 <= k < |ids| ensures from <= ids[k] && IsEligible(df, chosenId, clusterId, ids[k]) {
          if k == 0 {
            assert ids[k] == from;
          } else {
            assert ids[k] == rest[k - 1];
          }
        }
      } else {
        assert EligibleFrom(df, chosenId, clusterId, from) == rest;
      }
    }
  }

  /** Every eligible row at or after `from` is kept. */
  lemma {:induction false} EligibleFromComplete(df: seq<Movie>, chosenId: int, clusterId: int, from: nat)
    requires from <= |df|
    ensures forall i :: from <= i && IsEligible(df, chosenId, clusterId, i) ==> i in EligibleFrom(df, chosenId, clusterId, from)
    decreases |df| - from
  {
    if from < |df| {
      EligibleFromComplete(df, chosenId, clusterId, from + 1);
      var rest := EligibleFrom(df, chosenId, clusterId, from + 1);
      var ids := EligibleFrom(df, chosenId, clusterId, from);
      forall i | from <= i && IsEligible(df, chosenId, clusterId, i) ensures i in ids {
        if i == from {
          assert ids == [from] + rest;
        } else {
          assert i in rest;
        }
      }
    }
  }

  /** The kept rows come in strictly increasing index order. */
  lemma {:induction false} EligibleFromIncreasing(df: seq<Movie>, chosenId: int, clusterId: int, from: nat)
    requires from <= |df|
    ensures forall j, k :: 0 <= j < k < |EligibleFrom(df, chosenId, clusterId, from)| ==>
              EligibleFrom(df, chosenId, clusterId, from)[j] < EligibleFrom(df, chosenId, clusterId, from)[k]
    decreases |df| - from
  {
    if from < |df| {
      EligibleFromIncreasing(df, chosenId, clusterId, from + 1);
      EligibleFromSound(df, chosenId, clusterId, from + 1);
      var rest := EligibleFrom(df, chosenId, clusterId, from + 1);
      if IsEligible(df, chosenId, clusterId, from) {
        var ids := [from] + rest;
        assert EligibleFrom(df, chosenId, clusterId, from) == ids;
        forall j, k | 0 <= j < k < |ids| ensures ids[j] < ids[k] {
          assert ids[k] == rest[k - 1];
          if j > 0 { assert ids[j] == rest[j - 1]; }
        }
      }
    }
  }

  /** The filter keeps exactly the eligible rows from `from` on, in increasing index order. */
  lemma EligibleFromExact(df: seq<Movie>, chosenId: int, clusterId: int, from: nat)
    requires from <= |df|
    ensures var ids := EligibleFrom(df, chosenId, clusterId, from);
            && (forall k :: 0 <= k < |ids| ==> from <= ids[k] && IsEligible(df, chosenId, clusterId, ids[k]))
            && (forall i :: from <= i && IsEligible(df, chosenId, clusterId, i) ==> i in ids)
            && (forall j, k :: 0 <= j < k < |ids| ==> ids[j] < ids[k])
  {
    EligibleFromSound(df, chosenId, clusterId, from);
    EligibleFromComplete(df, chosenId, clusterId, from);
    EligibleFromIncreasing(df, chosenId, clusterId, from);
  }

  /** The eligible rows, in index order. */
  function Eligible(df: seq<Movie>, chosenId: int, clusterId: int): (ids: seq<nat>)
    ensures ValidIds(df, ids) && Distinct(ids)
    ensures forall i :: i in ids <==> IsEligible(df, chosenId, clusterId, i)
  {
    var ids := EligibleFrom(df, chosenId, clusterId, 0);
    EligibleFromExact(df, chosenId, clusterId, 0);
    assert forall i :: IsEligible(df, chosenId, clusterId, i) ==> i in ids;
    assert forall i :: i in ids ==> exists k :: 0 <= k < |ids| && ids[k] == i;
    ids
  }

  /** `DataFrame.head(n)`: the first `n` rows, or for a negative `n` all rows but the last `-n`. */
  function Head<T>(s: seq<T>, n: int): (r: seq<T>)
    ensures |r| <= |s| && r == s[..|r|]
    ensures n >= 0 ==> |r| == if n < |s| then n else |s|
    ensures n < 0 ==> |r| == if |s| + n > 0 then |s| + n else 0
  {
    if n >= 0 then
      if n < |s| then s[..n] else s
    else
      if |s| + n > 0 then s[..|s| + n] else []
  }

  /** The row indices `recommend_movies_from_cluster` returns, best first. */
  function RecommendIds(df: seq<Movie>, chosenId: int, clusterId: int, n: int): (ids: seq<nat>)
    ensures ValidIds(df, ids)
  {
    var sorted := SortByRank(df, Eligible(df, chosenId, clusterId));
    var ids := Head(sorted, n);
    assert forall k :: 0 <= k < |ids| ==> ids[k] == sorted[k];
    ids
  }

  /**
   * The recommended indices are in rank order, free of repeats, and all
   * name rows of the cluster other than the chosen row.
   */
  lemma RecommendIdsRanked(df: seq<Movie>, chosenId: int, clusterId: int, n: int)
    ensures var ids := RecommendIds(df, chosenId, clusterId, n);
            && SortedByRank(df, ids) && Distinct(ids)
            && forall k :: 0 <= k < |ids| ==> IsEligible(df, chosenId, clusterId, ids[k])
  {
    var elig := Eligible(df, chosenId, clusterId);
    var sorted := SortByRank(df, elig);
    SortSorted(df, elig);
    SortKeepsDistinct(df, elig);
    SortKeepsMembers(df, elig);
    var ids := RecommendIds(df, chosenId, clusterId, n);
    assert forall k :: 0 <= k < |ids| ==> ids[k] == sorted[k];
  }

  /**
   * Rows that tie on rating and year are recommended in index order, as
   * pandas' stable sort on two keys leaves them.
   */
  lemma RecommendedTiesInIndexOrder(df: seq<Movie>, chosenId: int, clusterId: int, n: int)
    ensures var ids := RecommendIds(df, chosenId, clusterId, n);
            forall j, k :: 0 <= j < k < |ids| && Ties(df[ids[j]], df[ids[k]]) ==> ids[j] < ids[k]
  {
    var elig := Eligible(df, chosenId, clusterId);
    EligibleFromExact(df, chosenId, clusterId, 0);
    assert elig == EligibleFrom(df, chosenId, clusterId, 0);
    SortKeepsTieOrder(df, elig);
    var sorted := SortByRank(df, elig);
    var ids := RecommendIds(df, chosenId, clusterId, n);
    assert forall k :: 0 <= k < |ids| ==> ids[k] == sorted[k];
  }

  /**
   * `recommend_movies_from_cluster(chosen_id, cluster_id, n)`: the records
   * of the best-ranked rows of cluster `clusterId` other than row
   * `chosenId`, best first.
   */
  function RecommendMoviesFromCluster(df: seq<Movie>, chosenId: int, clusterId: int, n: int): (recs: seq<Movie>)
    ensures forall k :: 0 <= k < |recs| ==> recs[k].cluster == clusterId
    ensures forall k :: 0 <= k < |recs| - 1 ==> RanksAtLeast(recs[k], recs[k + 1])
    ensures var ids := RecommendIds(df, chosenId, clusterId, n);
            |recs| == |ids| && forall k :: 0 <= k < |ids| ==> recs[k] == df[ids[k]] && ids[k] != chosenId
  {
    var ids := RecommendIds(df, chosenId, clusterId, n);
    RecommendIdsRanked(df, chosenId, clusterId, n);
    seq(|ids|, k requires 0 <= k < |ids| => df[ids[k]])
  }

  /** The indices occurring in `ids`. */
  function Elements(ids: seq<nat>): set<nat> {
    set x | x in ids
  }

  /** A sequence without repeats has as many elements as its set of elements. */
  lemma {:induction false} DistinctCardinality(ids: seq<nat>)
    requires Distinct(ids)
    ensures |Elements(ids)| == |ids|
  {
    if ids != [] {
      var tail := ids[1..];
      DistinctTail(ids);
      DistinctCardinality(tail);
      assert Elements(ids) == Elements(tail) + {ids[0]};
    }
  }

  /**
   * For a non-negative `n` there are exactly `min(n, m)` recommendations,
   * where `m` counts the rows of the cluster other than the chosen one; in
   * particular an empty cluster gives an empty list.
   */
  lemma RecommendationCountIsMin(df: seq<Movie>, chosenId: int, clusterId: int, n: int)
    requires n >= 0
    ensures var m := |EligibleSet(df, chosenId, clusterId)|;
            |RecommendIds(df, chosenId, clusterId, n)| == if n < m then n else m
  {
    var elig := Eligible(df, chosenId, clusterId);
    var sorted := SortByRank(df, elig);
    SortPermutes(df, elig);
    assert |sorted| == |multiset(sorted)| == |multiset(elig)| == |elig|;
    DistinctCardinality(elig);
    assert Elements(elig) == EligibleSet(df, chosenId, clusterId);
  }

  /**
   * Top-n: an eligible row that was left out ranks no higher than any
   * recommended row.
   */
  lemma RecommendationsAreTopN(df: seq<Movie>, chosenId: int, clusterId: int, n: int, i: nat)
    requires IsEligible(df, chosenId, clusterId, i)
    requires i !in RecommendIds(df, chosenId, clusterId, n)
    ensures var ids := RecommendIds(df, chosenId, clusterId, n);
            forall k :: 0 <= k < |ids| ==> RanksAtLeast(df[ids[k]], df[i])
  {
    var elig := Eligible(df, chosenId, clusterId);
    var sorted := SortByRank(df, elig);
    SortSorted(df, elig);
    SortPermutes(df, elig);
    var ids := RecommendIds(df, chosenId, clusterId, n);
    assert i in multiset(sorted);
    var p :| 0 <= p < |sorted| && sorted[p] == i;
    assert ids == sorted[..|ids|];
    assert p >= |ids|;
    SortedPairwise(df, sorted);
    forall k | 0 <= k < |ids| ensures RanksAtLeast(df[ids[k]], df[i]) {
      assert ids[k] == sorted[k];
    }
  }

  /**
   * A six-row table with two clusters. Row 0 is the chosen row; the other
   * rows of its cluster 0 have (rating, year) (8.1, 2020), (7.9, 2021),
   * (8.1, 2019) and (6.0, 2023), and row 4 is in cluster 1.
   */
  function SixRowTable(): (df: seq<Movie>)
    ensures |df| == 6
  {
    [ Movie(Film("A", "A", "Drama", 2018, 7.0, "a"), "a", 0),
      Movie(Film("B", "B", "Drama", 2020, 8.1, "b"), "b", 0),
      Movie(Film("C", "C", "Drama", 2021, 7.9, "c"), "c", 0),
      Movie(Film("D", "D", "Drama", 2019, 8.1, "d"), "d", 0),
      Movie(Film("E", "E", "Comedy", 2022, 9.0, "e"), "e", 1),
      Movie(Film("F", "F", "Drama", 2023, 6.0, "f"), "f", 0) ]
  }

  /** On that table the eligible rows for row 0 are rows 1, 2, 3 and 5. */
  lemma SixRowEligible()
    ensures Eligible(SixRowTable(), 0, 0) == [1, 2, 3, 5]
  {
    var df := SixRowTable();
    assert !IsEligible(df, 0, 0, 0) && IsEligible(df, 0, 0, 1) && IsEligible(df, 0, 0, 2);
    assert IsEligible(df, 0, 0, 3) && !IsEligible(df, 0, 0, 4) && IsEligible(df, 0, 0, 5);
    var e5 := EligibleFrom(df, 0, 0, 5);
    assert e5 == [5] + EligibleFrom(df, 0, 0, 6) == [5];
    var e3 := EligibleFrom(df, 0, 0, 3);
    assert e3 == [3] + EligibleFrom(df, 0, 0, 4) == [3] + e5;
    var e1 := EligibleFrom(df, 0, 0, 1);
    assert e1 == [1] + ([2] + e3);
  }

  /** On that table, sorting rows 1, 2, 3, 5 puts row 3 (8.1, 2019) between rows 1 and 2. */
  lemma SixRowSorted()
    ensures SortByRank(SixRowTable(), [1, 2, 3, 5]) == [1, 3, 2, 5]
  {
    var df := SixRowTable();
    assert SortByRank(df, [5]) == [5] by { assert [5][1..] == []; }
    assert SortByRank(df, [3, 5]) == [3, 5] by { assert [3, 5][1..] == [5]; }
    assert Insert(df, 2, [3, 5]) == [3, 2, 5] by { assert [3, 5][1..] == [5]; }
    assert SortByRank(df, [2, 3, 5]) == [3, 2, 5] by { assert [2, 3, 5][1..] == [3, 5]; }
    assert Insert(df, 1, [3, 2, 5]) == [1, 3, 2, 5];
    assert [1, 2, 3, 5][1..] == [2, 3, 5];
  }

  /**
   * On that table the recommendations for row 0 come out as (8.1, 2020),
   * (8.1, 2019), (7.9, 2021), (6.0, 2023): rows 1, 3, 2 and 5.
   */
  lemma SixRowExample()
    ensures RecommendIds(SixRowTable(), 0, 0, 5) == [1, 3, 2, 5]
  {
    SixRowEligible();
    SixRowSorted();
    assert Head([1, 3, 2, 5], 5) == [1, 3, 2, 5];
  }

  // ---------------------------------------------------------------------
  // get_random_synopsis_options and the lookup of the picked synopsis
  // ---------------------------------------------------------------------

  /** One offered choice: a row index and that row's enriched synopsis. */
  datatype SynopsisOption = SynopsisOption(id: nat, synopsis: string)

  /**
   * `get_random_synopsis_options(n)`: `n` rows drawn without replacement.
   * Which rows is left to the sampler and modelled as an arbitrary choice.
   * `df.sample` refuses a negative `n` or one larger than the table; that
   * error is `None` here.
   */
  method GetRandomSynopsisOptions(df: seq<Movie>, n: int) returns (options: Option<seq<SynopsisOption>>)
    ensures options.None? <==> n < 0 || n > |df|
    ensures options.Some? ==> |options.value| == n
    ensures options.Some? ==> forall k :: 0 <= k < |options.value| ==>
              options.value[k].id < |df| && options.value[k].synopsis == df[options.value[k].id].synopsisEnriched
    ensures options.Some? ==> forall j, k :: 0 <= j < k < |options.value| ==> options.value[j].id != options.value[k].id
  {
    if n < 0 || n > |df| {
      return None;
    }
    ghost var firstRows := seq(n, k requires 0 <= k < n => k as nat);
    assert |firstRows| == n && Distinct(firstRows) && ValidIds(df, firstRows);
    var indices: seq<nat> :| |indices| == n && Distinct(indices) && ValidIds(df, indices);
    assert |indices| == n && ValidIds(df, indices) && Distinct(indices);
    options := Some(seq(n, k requires 0 <= k < n => SynopsisOption(indices[k], df[indices[k]].synopsisEnriched)));
  }

  /** The first row from `from` on whose enriched synopsis is `text`. */
  function FindSynopsisFrom(df: seq<Movie>, text: string, from: nat): (r: Option<nat>)
    requires from <= |df|
    ensures r.Some? ==> from <= r.value < |df| && df[r.value].synopsisEnriched == text
                        && forall j :: from <= j < r.value ==> df[j].synopsisEnriched != text
    ensures r.None? <==> forall j :: from <= j < |df| ==> df[j].synopsisEnriched != text
    decreases |df| - from
  {
    if from == |df| then None
    else if df[from].synopsisEnriched == text then Some(from)
    else FindSynopsisFrom(df, text, from + 1)
  }

  /**
   * `df[df['sinopse_enriched'] == text].index.tolist()[0]`: the smallest
   * index whose enriched synopsis is `text`; `None` where the source raises
   * `IndexError`.
   */
  function ChosenId(df: seq<Movie>, text: string): (r: Option<nat>)
    ensures r.Some? ==> r.value < |df| && df[r.value].synopsisEnriched == text
                        && forall j :: 0 <= j < r.value ==> df[j].synopsisEnriched != text
    ensures r.None? <==> forall j :: 0 <= j < |df| ==> df[j].synopsisEnriched != text
  {
    FindSynopsisFrom(df, text, 0)
  }

  /** What picking a synopsis leads to: the chosen row and its recommendations, or the error notice. */
  datatype Selection =
    | Selected(chosenId: nat, clusterId: int, recommendations: seq<Movie>)
    | NotInDataset

  /**
   * Picking synopsis `text`: find its row, read the row's cluster and ask
   * for `RecommendationCount` recommendations from it.
   */
  function SelectSynopsis(df: seq<Movie>, text: string): (s: Selection)
    ensures s.NotInDataset? <==> forall j :: 0 <= j < |df| ==> df[j].synopsisEnriched != text
    ensures s.Selected? ==> s.chosenId < |df| && df[s.chosenId].synopsisEnriched == text
                            && (forall j :: 0 <= j < s.chosenId ==> df[j].synopsisEnriched != text)
                            && s.clusterId == df[s.chosenId].cluster
    ensures s.Selected? ==>
              var m := |EligibleSet(df, s.chosenId, s.clusterId)|;
              && s.recommendations == RecommendMoviesFromCluster(df, s.chosenId, s.clusterId, RecommendationCount)
              && |s.recommendations| == (if m < RecommendationCount then m else RecommendationCount)
  {
    match ChosenId(df, text)
    case None => NotInDataset
    case Some(id) =>
      var recs := RecommendMoviesFromCluster(df, id, df[id].cluster, RecommendationCount);
      RecommendationCountIsMin(df, id, df[id].cluster, RecommendationCount);
      Selected(id, df[id].cluster, recs)
  }

  /**
   * Picking one of the offered synopses always finds a row: the offered row
   * itself or an earlier row with the same enriched synopsis. The
   * recommendations then all share that row's cluster.
   */
  lemma OfferedSynopsisIsFound(df: seq<Movie>, option: SynopsisOption)
    requires option.id < |df| && option.synopsis == df[option.id].synopsisEnriched
    ensures var s := SelectSynopsis(df, option.synopsis);
            && s.Selected?
            && s.chosenId <= option.id
            && df[s.chosenId].synopsisEnriched == option.synopsis
            && forall k :: 0 <= k < |s.recommendations| ==> s.recommendations[k].cluster == df[s.chosenId].cluster
  {
    var id := ChosenId(df, option.synopsis);
    assert id.Some?;
  }

  /** When two rows share an enriched synopsis, picking the later one selects the earlier. */
  lemma DuplicateSynopsisSelectsFirstRow()
    ensures var df := [
              Movie(Film("A", "A", "Drama", 2001, 8.0, "x"), "same", 0),
              Movie(Film("B", "B", "Drama", 2002, 7.0, "y"), "same", 1)];
            SelectSynopsis(df, df[1].synopsisEnriched).chosenId == 0
  {
  }
}
