/**
 Rating trends by release year: for every year, the mean rating and the number
 of distinct movies rated, in ascending year order (the order of the group keys).
 */
module RatingByYear {
  import opened Wrappers
  import opened RatingsTable
  import opened Seqs
  import Sorting

  datatype YearStats = YearStats(avgRating: Option<real>, numUniqueMovies: nat)

  /** The release years of the rows that have one, in row order. */
  function YearKeys(rows: seq<Row>): (ys: seq<int>)
    ensures forall y :: y in ys <==> exists row :: row in rows && row.year == Some(y)
  {
    if |rows| == 0 then []
    else
      var rest := YearKeys(rows[1..]);
      assert forall row :: row in rows <==> row == rows[0] || row in rows[1..];
      (match rows[0].year case Some(y) => [y] case None => []) + rest
  }

  /** The rows released in year `y`. */
  function RowsOfYear(rows: seq<Row>, y: int): (r: seq<Row>)
    ensures |r| <= |rows|
    ensures forall row :: row in r <==> row in rows && row.year == Some(y)
    ensures forall row :: multiset(r)[row] == if row.year == Some(y) then multiset(rows)[row] else 0
  {
    if |rows| == 0 then []
    else
      assert rows == [rows[0]] + rows[1..];
      (if rows[0].year == Some(y) then [rows[0]] else []) + RowsOfYear(rows[1..], y)
  }

  /** Mean of the year's present ratings and its number of distinct present movie ids. */
  function StatsOf(rows: seq<Row>, y: int): (st: YearStats)
    ensures st.avgRating.Some? <==> exists row :: row in rows && row.year == Some(y) && row.rating.Some?
    ensures st.numUniqueMovies > 0 <==> exists row :: row in rows && row.year == Some(y) && row.movieId.Some?
  {
    var group := RowsOfYear(rows, y);
    DistinctIdsNonEmpty(group);
    YearStats(Mean(PresentRatings(group)), |Dedup(PresentMovieIds(group))|)
  }

  lemma DistinctIdsNonEmpty(group: seq<Row>)
    ensures |Dedup(PresentMovieIds(group))| > 0 <==> exists row :: row in group && row.movieId.Some?
  {
    var ids := PresentMovieIds(group);
    if exists row :: row in group && row.movieId.Some? {
      var row :| row in group && row.movieId.Some?;
      assert row.movieId.value in Dedup(ids);
    }
    if |Dedup(ids)| > 0 {
      assert Dedup(ids)[0] in ids;
    }
  }

  predicate Earlier(a: int, b: int) {
    a <= b
  }

  /** The distinct release years, strictly ascending (pandas' group key order). */
  function AscendingYears(rows: seq<Row>): (ys: seq<int>)
    ensures forall i, j :: 0 <= i < j < |ys| ==> ys[i] < ys[j]
    ensures forall y :: y in ys <==> exists row :: row in rows && row.year == Some(y)
  {
    var distinct := Dedup(YearKeys(rows));
    EarlierIsTotalPreorder();
    var ys := Sorting.Sort(distinct, Earlier);
    SortedDistinctIsAscending(distinct, ys);
    ys
  }

  lemma EarlierIsTotalPreorder()
    ensures Sorting.TotalPreorder(Earlier)
  {
  }

  lemma SortedDistinctIsAscending(distinct: seq<int>, ys: seq<int>)
    requires NoDuplicates(distinct) && multiset(ys) == multiset(distinct) && Sorting.SortedBy(ys, Earlier)
    ensures forall i, j :: 0 <= i < j < |ys| ==> ys[i] < ys[j]
    ensures forall y :: y in ys <==> y in distinct
  {
    PermutationNoDuplicates(distinct, ys);
    assert forall y :: y in ys <==> y in multiset(distinct);
    forall i, j | 0 <= i < j < |ys| ensures ys[i] < ys[j] {
      assert Earlier(ys[i], ys[j]) && ys[i] != ys[j];
    }
  }

  /** One entry per year, with that year's statistics. */
  function YearlyStats(rows: seq<Row>): (r: seq<(int, YearStats)>)
    ensures forall i, j :: 0 <= i < j < |r| ==> r[i].0 < r[j].0
    ensures forall i :: 0 <= i < |r| ==> r[i].1 == StatsOf(rows, r[i].0)
    ensures forall y :: y in Keys(r) <==> exists row :: row in rows && row.year == Some(y)
  {
    var years := AscendingYears(rows);
    var r := seq(|years|, i requires 0 <= i < |years| => (years[i], StatsOf(rows, years[i])));
    YearlyStatsKeys(years, r, rows);
    r
  }

  lemma YearlyStatsKeys(years: seq<int>, r: seq<(int, YearStats)>, rows: seq<Row>)
    requires |r| == |years| && forall i :: 0 <= i < |years| ==> r[i] == (years[i], StatsOf(rows, years[i]))
    ensures forall y :: y in Keys(r) <==> y in years
  {
    assert forall i :: 0 <= i < |r| ==> Keys(r)[i] == years[i];
  }

  function AnalyzeRatingByYear(t: Table): (r: Outcome<seq<(int, YearStats)>>)
    ensures r.KeyError? <==> !({Year, Rating, MovieId} <= t.columns)
    ensures r.KeyError? ==> r.missing == if Year !in t.columns then {Year} else {Rating, MovieId} - t.columns
    ensures !r.ReturnsNone?
    ensures r.Ok? ==> forall i, j :: 0 <= i < j < |r.value| ==> r.value[i].0 < r.value[j].0
    ensures r.Ok? ==> forall i :: 0 <= i < |r.value| ==> r.value[i].1 == StatsOf(t.rows, r.value[i].0)
    ensures r.Ok? ==> forall y :: y in Keys(r.value) <==> exists row :: row in t.rows && row.year == Some(y)
  {
    if Year !in t.columns then KeyError({Year})
    else if !({Rating, MovieId} <= t.columns) then KeyError({Rating, MovieId} - t.columns)
    else Ok(YearlyStats(t.rows))
  }

  /**
   A year's count of distinct movies is the number of different movie ids among
   its rows, so never more than the year's number of rows.
   */
  lemma UniqueMoviesBound(rows: seq<Row>, y: int)
    ensures StatsOf(rows, y).numUniqueMovies == |set row | row in RowsOfYear(rows, y) && row.movieId.Some? :: row.movieId.value|
    ensures StatsOf(rows, y).numUniqueMovies <= |RowsOfYear(rows, y)|
  {
    var group := RowsOfYear(rows, y);
    var ids := PresentMovieIds(group);
    DistinctCount(ids);
    assert (set id | id in ids) == (set row | row in group && row.movieId.Some? :: row.movieId.value);
  }
}
