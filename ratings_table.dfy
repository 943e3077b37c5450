/**
 The ratings table the pipeline works on. A table has a set of columns and a
 sequence of rows; a row is one (user, movie, rating) observation with the
 movie's metadata. A cell whose value is missing (NaN) is `None`.
 */
module RatingsTable {
  import opened Wrappers

  datatype Column = UserId | MovieId | Title | Genres | Rating | Year

  datatype Row = Row(
    userId: Option<int>,
    movieId: Option<int>,
    title: Option<string>,
    genres: Option<string>,   // pipe-delimited genre tags, e.g. "Action|Comedy"
    rating: Option<real>,
    year: Option<int>)

  datatype Table = Table(columns: set<Column>, rows: seq<Row>)

  /** Whether the cell of `row` in column `c` holds a value. */
  predicate HasValue(row: Row, c: Column) {
    match c
    case UserId => row.userId.Some?
    case MovieId => row.movieId.Some?
    case Title => row.title.Some?
    case Genres => row.genres.Some?
    case Rating => row.rating.Some?
    case Year => row.year.Some?
  }

  /** A table holds values only in the columns it has. */
  ghost predicate WellFormed(t: Table) {
    forall row, c :: row in t.rows && c !in t.columns ==> !HasValue(row, c)
  }

  /**
   What an aggregation gives its caller: a value, the bare `None` its column
   guard returns, or the KeyError raised when it selects a column the table lacks.
   */
  datatype Outcome<T> = Ok(value: T) | ReturnsNone | KeyError(missing: set<Column>)

  /** The ratings of `rows` that are present, in row order (what pandas averages and counts). */
  function PresentRatings(rows: seq<Row>): (xs: seq<real>)
    ensures |xs| <= |rows|
    ensures |xs| == 0 <==> forall row :: row in rows ==> row.rating.None?
    ensures (forall row :: row in rows ==> row.rating.Some?) ==>
              |xs| == |rows| && forall i :: 0 <= i < |rows| ==> xs[i] == rows[i].rating.value
  {
    if |rows| == 0 then []
    else
      assert forall row :: row in rows <==> row == rows[0] || row in rows[1..];
      (match rows[0].rating case Some(x) => [x] case None => []) + PresentRatings(rows[1..])
  }

  lemma {:induction false} PresentRatingsConcat(a: seq<Row>, b: seq<Row>)
    ensures PresentRatings(a + b) == PresentRatings(a) + PresentRatings(b)
  {
    if |a| == 0 {
      assert a + b == b;
    } else {
      assert (a + b)[1..] == a[1..] + b;
      PresentRatingsConcat(a[1..], b);
    }
  }

  /** Every present rating of `rows` is one of the rows' ratings. */
  lemma {:induction false} PresentRatingsFromRows(rows: seq<Row>)
    ensures forall i :: 0 <= i < |PresentRatings(rows)| ==>
              exists row :: row in rows && row.rating == Some(PresentRatings(rows)[i])
  {
    if |rows| > 0 {
      PresentRatingsFromRows(rows[1..]);
      var xs := PresentRatings(rows);
      var rest := PresentRatings(rows[1..]);
      forall i | 0 <= i < |xs| ensures exists row :: row in rows && row.rating == Some(xs[i]) {
        if rows[0].rating.Some? {
          if i == 0 {
            assert rows[0] in rows;
          } else {
            assert xs[i] == rest[i - 1];
            var row :| row in rows[1..] && row.rating == Some(rest[i - 1]);
            assert row in rows;
          }
        } else {
          assert xs[i] == rest[i];
          var row :| row in rows[1..] && row.rating == Some(rest[i]);
          assert row in rows;
        }
      }
    } else {
      assert PresentRatings(rows) == [];
    }
  }

  /** The movie identifiers of `rows` that are present, in row order. */
  function PresentMovieIds(rows: seq<Row>): (ids: seq<int>)
    ensures |ids| <= |rows|
    ensures forall id :: id in ids <==> exists row :: row in rows && row.movieId == Some(id)
  {
    if |rows| == 0 then []
    else
      var rest := PresentMovieIds(rows[1..]);
      assert forall row :: row in rows <==> row == rows[0] || row in rows[1..];
      (match rows[0].movieId case Some(x) => [x] case None => []) + rest
  }

  function Sum(xs: seq<real>): real {
    if |xs| == 0 then 0.0 else xs[0] + Sum(xs[1..])
  }

  /** The exact arithmetic mean; the mean of no values is missing (NaN). */
  function Mean(xs: seq<real>): (m: Option<real>)
    ensures m.Some? <==> |xs| > 0
    ensures m.Some? ==> m.value * (|xs| as real) == Sum(xs)
  {
    if |xs| == 0 then None else Some(Sum(xs) / (|xs| as real))
  }

  lemma {:induction false} SumBounds(xs: seq<real>, lo: real, hi: real)
    requires forall i :: 0 <= i < |xs| ==> lo <= xs[i] <= hi
    ensures lo * (|xs| as real) <= Sum(xs) <= hi * (|xs| as real)
  {
    if |xs| > 0 {
      SumBounds(xs[1..], lo, hi);
      assert lo * (|xs| as real) == lo + lo * ((|xs| - 1) as real);
      assert hi * (|xs| as real) == hi + hi * ((|xs| - 1) as real);
    }
  }

  /** A mean lies within any bounds that every rating lies within. */
  lemma {:induction false} MeanBounds(xs: seq<real>, lo: real, hi: real)
    requires forall i :: 0 <= i < |xs| ==> lo <= xs[i] <= hi
    ensures Mean(xs).Some? ==> lo <= Mean(xs).value <= hi
  {
    if |xs| > 0 {
      SumBounds(xs, lo, hi);
      var n := |xs| as real;
      var m := Mean(xs).value;
      assert m * n == Sum(xs);
      assert lo * n <= m * n <= hi * n;
    }
  }

  /**
   Order of a descending sort on means, with missing means last: `a` may come
   before `b`.
   */
  predicate MeanAtLeast(a: Option<real>, b: Option<real>) {
    match b
    case None => true
    case Some(y) => a.Some? && a.value >= y
  }

  /** A mean of rows' ratings lies within bounds that every rating of those rows respects. */
  lemma RatingMeanBounds(rows: seq<Row>, lo: real, hi: real)
    requires forall row :: row in rows && row.rating.Some? ==> lo <= row.rating.value <= hi
    ensures Mean(PresentRatings(rows)).Some? ==> lo <= Mean(PresentRatings(rows)).value <= hi
  {
    var xs := PresentRatings(rows);
    PresentRatingsFromRows(rows);
    forall i | 0 <= i < |xs| ensures lo <= xs[i] <= hi {
      var row :| row in rows && row.rating == Some(xs[i]);
    }
    MeanBounds(xs, lo, hi);
  }
}
